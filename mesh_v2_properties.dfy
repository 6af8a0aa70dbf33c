/** What the v2.00 branch of `convert` promises, proved about module MeshFormat:
    the header checks, where every output line comes from in the input, when
    truncation fails the conversion, the colour corner case, and that decoding
    a mesh laid out as the format says gives back the vertices and faces. */
module MeshV2Properties {
  import opened ByteStream
  import opened MeshFormat

  /** A read that returned `w` bytes returned the `w` bytes at the cursor. */
  lemma ExactRead(data: seq<byte>, pos: nat, n: nat, w: nat)
    requires |ReadAt(data, pos, n)| == w && w > 0
    ensures pos + w <= |data| && ReadAt(data, pos, n) == data[pos..pos + w]
  {
    var r := ReadAt(data, pos, n);
    assert forall i :: 0 <= i < w ==> r[i] == data[pos..pos + w][i];
  }

  /** The v2 lines of decoded vertices and faces, index by index. */
  lemma LinesV2Index(vs: seq<VertexV2>, fs: seq<FaceV2>)
    ensures var lines := LinesV2(vs, fs);
      && |lines| == 2 + 3 * |vs| + |fs|
      && lines[0] == Comment(CommentV2)
      && (forall i :: 1 <= i < 1 + |vs| ==> lines[i] == V(vs[i - 1].px, vs[i - 1].py, vs[i - 1].pz))
      && (forall i :: 1 + |vs| <= i < 1 + 2 * |vs| ==> lines[i] == VT(vs[|vs| - 1].tu, vs[|vs| - 1].tv))
      && (forall i :: 1 + 2 * |vs| <= i < 1 + 3 * |vs| ==>
            lines[i] == VN(vs[|vs| - 1].nx, vs[|vs| - 1].ny, OneMinus(vs[|vs| - 1].nz)))
      && lines[1 + 3 * |vs|] == S1
      && (forall i :: 2 + 3 * |vs| <= i < |lines| ==>
            var f := fs[i - (2 + 3 * |vs|)]; lines[i] == F(f.a, f.b, f.c))
  {
    var n := |vs|;
    var x1 := [Comment(CommentV2)] + PositionsV2(vs);
    var x2 := x1 + UVsV2(vs);
    var x3 := x2 + NormalsV2(vs);
    var x4 := x3 + [S1];
    assert LinesV2(vs, fs) == x4 + FacesV2(fs);
    assert |x1| == 1 + n;
    assert |x2| == 1 + 2 * n;
    assert |x3| == 1 + 3 * n;
  }

  /** The float32 stored at offset `p`. */
  function Float32At(data: seq<byte>, p: nat): Num
    requires p + 4 <= |data|
  {
    Raw(data[p..p + 4])
  }

  /** The unsigned 32-bit integer stored at offset `p`. */
  function U32At(data: seq<byte>, p: nat): nat
    requires p + 4 <= |data|
  {
    FromLE(data[p..p + 4])
  }

  /** Vertex i (from 1) is the record at 25 + 40(i-1); its `v` line holds
      the first three floats. */
  predicate PositionLinesV2(lines: seq<Line>, input: seq<byte>, numVerts: nat)
    requires VertexStart + 40 * numVerts <= |input| && 1 + numVerts <= |lines|
  {
    forall i :: 1 <= i < 1 + numVerts ==>
      var p := VertexStart + 40 * (i - 1);
      lines[i] == V(Float32At(input, p), Float32At(input, p + 4), Float32At(input, p + 8))
  }

  /** The `vt` and `vn` lines all come from the last record: floats 6 and 7,
      and floats 3, 4 and one minus float 5. */
  predicate LastVertexLinesV2(lines: seq<Line>, input: seq<byte>, numVerts: nat)
    requires VertexStart + 40 * numVerts <= |input| && 1 + 3 * numVerts <= |lines|
  {
    numVerts > 0 ==>
      var last := VertexStart + 40 * (numVerts - 1);
      && (forall i :: 1 + numVerts <= i < 1 + 2 * numVerts ==>
            lines[i] == VT(Float32At(input, last + 24), Float32At(input, last + 28)))
      && (forall i :: 1 + 2 * numVerts <= i < 1 + 3 * numVerts ==>
            lines[i] == VN(Float32At(input, last + 12), Float32At(input, last + 16), OneMinus(Float32At(input, last + 20))))
  }

  /** The `f` line of the face record at offset `q`: each index plus one. */
  function FaceLineAt(input: seq<byte>, q: nat): Line
    requires q + FaceSize <= |input|
  {
    F(U32At(input, q) + 1, U32At(input, q + 4) + 1, U32At(input, q + 8) + 1)
  }

  /** Face k is the record at 25 + 40 numVerts + 12k. */
  predicate FaceLinesV2(lines: seq<Line>, input: seq<byte>, numVerts: nat, numFaces: nat)
    requires VertexStart + 40 * numVerts + 12 * numFaces <= |input|
    requires 2 + 3 * numVerts + numFaces <= |lines|
  {
    forall i :: 2 + 3 * numVerts <= i < 2 + 3 * numVerts + numFaces ==>
      lines[i] == FaceLineAt(input, VertexStart + 40 * numVerts + 12 * (i - (2 + 3 * numVerts)))
  }

  /** Where every v2 output line comes from in the input. */
  predicate V2Shape(lines: seq<Line>, input: seq<byte>, numVerts: nat, numFaces: nat)
    requires VertexStart + 40 * numVerts + 12 * numFaces <= |input|
  {
    && |lines| == 2 + 3 * numVerts + numFaces
    && lines[0] == Comment(CommentV2)
    && PositionLinesV2(lines, input, numVerts)
    && LastVertexLinesV2(lines, input, numVerts)
    && lines[1 + 3 * numVerts] == S1
    && FaceLinesV2(lines, input, numVerts, numFaces)
  }

  /** The header fields of a v2 input of at least 25 bytes. */
  function HeaderOf(input: seq<byte>): MeshHeader
    requires VertexStart <= |input|
  {
    UnpackHeader(input[TagSize..VertexStart])
  }

  /** The header read: at 13..25, so a shorter input fails to unpack. */
  lemma HeaderRead(input: seq<byte>)
    ensures VertexStart <= |input| ==> ReadAt(input, TagSize, HeaderSize) == input[TagSize..VertexStart]
    ensures |input| < VertexStart ==> |ReadAt(input, TagSize, HeaderSize)| != HeaderSize
  {
    if VertexStart <= |input| {
      ExactRead(input, TagSize, HeaderSize, HeaderSize);
    }
  }

  /** A file tagged "version 2.00" goes to the v2 branch. */
  lemma V2Conversion(input: seq<byte>)
    requires ReadAt(input, 0, TagSize) == Tag200
    ensures Conversion(input) == V2Outcome(input)
    ensures VertexStart <= |input| && UnpackHeader(input[TagSize..VertexStart]).sizeofMeshHeader == HeaderSize
        ==> V2Outcome(input) == V2Arrays(input, HeaderOf(input))
  {
    assert Tag200[8] != Tag100[8] && Tag200[8] != Tag101[8];
    HeaderRead(input);
  }

  /** Why a v2 input fails: a header shorter than 12 bytes or any later short
      read is a struct.error, and a header size field other than 12 is
      reported by returning False. Nothing else fails. */
  lemma V2Failures(input: seq<byte>)
    requires ReadAt(input, 0, TagSize) == Tag200
    ensures Conversion(input).Failed? ==> Conversion(input).why in {UnpackError, InvalidHeaderSize}
    ensures |input| < VertexStart ==> Conversion(input) == Failed(UnpackError)
    ensures VertexStart <= |input| ==>
      (Conversion(input) == Failed(InvalidHeaderSize) <==> FromLE(input[TagSize..TagSize + 2]) != HeaderSize)
  {
    V2Conversion(input);
    if VertexStart <= |input| {
      assert input[TagSize..VertexStart][0..2] == input[TagSize..TagSize + 2];
    }
  }

  /** `convert` returns False exactly on an unknown tag or a v2 header size
      other than 12; every other failure is a raised exception. */
  lemma FalseReturns(input: seq<byte>)
    ensures var version := ReadAt(input, 0, TagSize);
      Conversion(input).Failed? && Conversion(input).why.ReturnsFalse()
      <==> (version != Tag100 && version != Tag101 && version != Tag200)
           || (version == Tag200 && VertexStart <= |input|
               && FromLE(input[TagSize..TagSize + 2]) != HeaderSize)
  {
    if ReadAt(input, 0, TagSize) == Tag200 {
      V2Failures(input);
    }
  }

  /** A slice of a slice is a slice. */
  lemma SubSlice(s: seq<byte>, lo: nat, hi: nat, j: nat, k: nat)
    requires lo <= hi <= |s| && j <= k <= hi - lo
    ensures s[lo..hi][j..k] == s[lo + j..lo + k]
  {
    assert forall i :: 0 <= i < k - j ==> s[lo..hi][j..k][i] == s[lo + j + i];
  }

  /** A slice of the middle part of a concatenation. */
  lemma ConcatSlice(a: seq<byte>, b: seq<byte>, c: seq<byte>, i: nat, j: nat)
    requires i <= j <= |b|
    ensures (a + b + c)[|a| + i..|a| + j] == b[i..j]
  {
    assert forall t :: 0 <= t < j - i ==> (a + b + c)[|a| + i..|a| + j][t] == b[i..j][t];
  }

  /** The fields of the vertex record at offset `p`. */
  lemma VertexFields(input: seq<byte>, p: nat, noColor: bool)
    requires p + VertexSize <= |input|
    ensures var v := DecodeVertex(input[p..p + VertexSize], noColor);
      && v.px == Float32At(input, p) && v.py == Float32At(input, p + 4) && v.pz == Float32At(input, p + 8)
      && v.nx == Float32At(input, p + 12) && v.ny == Float32At(input, p + 16) && v.nz == Float32At(input, p + 20)
      && v.tu == Float32At(input, p + 24) && v.tv == Float32At(input, p + 28)
      && v.tx == Int8(input[p + 32]) && v.ty == Int8(input[p + 33])
      && v.tz == Int8(input[p + 34]) && v.ts == Int8(input[p + 35])
      && v.r == (if noColor then 255 else input[p + 36]) && v.g == (if noColor then 255 else input[p + 37])
      && v.b == (if noColor then 255 else input[p + 38]) && v.a == (if noColor then 255 else input[p + 39])
  {
    var rec := input[p..p + VertexSize];
    SubSlice(input, p, p + VertexSize, 0, 4);
    SubSlice(input, p, p + VertexSize, 4, 8);
    SubSlice(input, p, p + VertexSize, 8, 12);
    SubSlice(input, p, p + VertexSize, 12, 16);
    SubSlice(input, p, p + VertexSize, 16, 20);
    SubSlice(input, p, p + VertexSize, 20, 24);
    SubSlice(input, p, p + VertexSize, 24, 28);
    SubSlice(input, p, p + VertexSize, 28, 32);
  }

  /** The fields of the face record at offset `q`, each made one-based. */
  lemma FaceFields(input: seq<byte>, q: nat)
    requires q + FaceSize <= |input|
    ensures DecodeFace(input[q..q + FaceSize])
         == FaceV2(U32At(input, q) + 1, U32At(input, q + 4) + 1, U32At(input, q + 8) + 1)
  {
    var rec := input[q..q + FaceSize];
    SubSlice(input, q, q + FaceSize, 0, 4);
    SubSlice(input, q, q + FaceSize, 4, 8);
    SubSlice(input, q, q + FaceSize, 8, 12);
  }

  /** A decoded vertex array: every record was read whole, in place. */
  lemma DecodedVertices(input: seq<byte>, start: nat, size: nat, count: nat)
    requires DecodeVertices(input, start, size, count).Some?
    ensures count > 0 ==> start + 40 * count <= |input|
    ensures forall k :: 0 <= k < count ==>
      && start + 40 * k + VertexSize <= |input|
      && DecodeVertices(input, start, size, count).value[k]
           == DecodeVertex(input[start + 40 * k..start + 40 * k + VertexSize], size != VertexSize)
  {
    forall k | 0 <= k < count
      ensures start + 40 * k + VertexSize <= |input|
      ensures VertexRecord(input, start, size, k) == input[start + 40 * k..start + 40 * k + VertexSize]
    {
      assert |VertexRecord(input, start, size, k)| == VertexSize;
      ExactRead(input, start + 40 * k, size, VertexSize);
    }
    if count > 0 {
      assert start + 40 * (count - 1) + VertexSize == start + 40 * count;
    }
  }

  /** A decoded face array: every record was read whole, in place. */
  lemma DecodedFaces(input: seq<byte>, start: nat, size: nat, count: nat)
    requires DecodeFaces(input, start, size, count).Some?
    ensures count > 0 ==> start + 12 * count <= |input|
    ensures forall k :: 0 <= k < count ==>
      && start + 12 * k + FaceSize <= |input|
      && DecodeFaces(input, start, size, count).value[k]
           == DecodeFace(input[start + 12 * k..start + 12 * k + FaceSize])
  {
    forall k | 0 <= k < count
      ensures start + 12 * k + FaceSize <= |input|
      ensures FaceRecord(input, start, size, k) == input[start + 12 * k..start + 12 * k + FaceSize]
    {
      assert |FaceRecord(input, start, size, k)| == FaceSize;
      ExactRead(input, start + 12 * k, size, FaceSize);
    }
    if count > 0 {
      assert start + 12 * (count - 1) + FaceSize == start + 12 * count;
    }
  }

  /** A successful v2 conversion: the header size field is 12, the input
      holds every vertex and face record the header announces, and each line
      comes from the bytes V2Shape names. */
  lemma V2Lines(input: seq<byte>)
    requires ReadAt(input, 0, TagSize) == Tag200 && Conversion(input).Converted?
    ensures VertexStart <= |input|
    ensures HeaderOf(input).sizeofMeshHeader == HeaderSize
    ensures VertexStart + 40 * HeaderOf(input).numVerts + 12 * HeaderOf(input).numFaces <= |input|
    ensures V2Shape(Conversion(input).lines, input, HeaderOf(input).numVerts, HeaderOf(input).numFaces)
  {
    V2Conversion(input);
    ArraysLines(input, HeaderOf(input));
  }

  /** The arrays after a full header: when both decode, the input holds them
      and each line comes from the bytes V2Shape names. */
  lemma ArraysLines(input: seq<byte>, h: MeshHeader)
    requires VertexStart <= |input| && V2Arrays(input, h).Converted?
    ensures VertexStart + 40 * h.numVerts + 12 * h.numFaces <= |input|
    ensures V2Shape(V2Arrays(input, h).lines, input, h.numVerts, h.numFaces)
  {
    var nv, nf := h.numVerts, h.numFaces;
    var fstart := VertexStart + 40 * nv;
    ArraysParts(input, h);
    DecodedLines(input, h.sizeofVertex, h.sizeofFace, nv, nf);
  }

  /** Converted arrays: both decodes succeeded and the lines are theirs. */
  lemma ArraysParts(input: seq<byte>, h: MeshHeader)
    requires V2Arrays(input, h).Converted?
    ensures DecodeVertices(input, VertexStart, h.sizeofVertex, h.numVerts).Some?
    ensures DecodeFaces(input, VertexStart + 40 * h.numVerts, h.sizeofFace, h.numFaces).Some?
    ensures V2Arrays(input, h).lines
         == LinesV2(DecodeVertices(input, VertexStart, h.sizeofVertex, h.numVerts).value,
                    DecodeFaces(input, VertexStart + 40 * h.numVerts, h.sizeofFace, h.numFaces).value)
  {
  }

  /** The lines of two decoded arrays, the faces right after the vertices. */
  lemma DecodedLines(input: seq<byte>, sizeofVertex: nat, sizeofFace: nat, nv: nat, nf: nat)
    requires VertexStart <= |input|
    requires DecodeVertices(input, VertexStart, sizeofVertex, nv).Some?
    requires DecodeFaces(input, VertexStart + 40 * nv, sizeofFace, nf).Some?
    ensures VertexStart + 40 * nv + 12 * nf <= |input|
    ensures V2Shape(LinesV2(DecodeVertices(input, VertexStart, sizeofVertex, nv).value,
                            DecodeFaces(input, VertexStart + 40 * nv, sizeofFace, nf).value), input, nv, nf)
  {
    var fstart := VertexStart + 40 * nv;
    DecodedVertices(input, VertexStart, sizeofVertex, nv);
    DecodedFaces(input, fstart, sizeofFace, nf);
    LinesV2Shape(input, nv, nf, fstart, DecodeVertices(input, VertexStart, sizeofVertex, nv).value,
                 DecodeFaces(input, fstart, sizeofFace, nf).value, sizeofVertex != VertexSize);
  }

  lemma LinesV2Shape(input: seq<byte>, nv: nat, nf: nat, fstart: nat, vs: seq<VertexV2>, fs: seq<FaceV2>, noColor: bool)
    requires fstart == VertexStart + 40 * nv && fstart + 12 * nf <= |input|
    requires |vs| == nv && |fs| == nf
    requires forall k :: 0 <= k < nv ==>
      vs[k] == DecodeVertex(input[VertexStart + 40 * k..VertexStart + 40 * k + VertexSize], noColor)
    requires forall k :: 0 <= k < nf ==>
      fs[k] == DecodeFace(input[fstart + 12 * k..fstart + 12 * k + FaceSize])
    ensures V2Shape(LinesV2(vs, fs), input, nv, nf)
  {
    LinesV2Index(vs, fs);
    PositionLinesOf(input, nv, vs, fs, noColor);
    LastVertexLinesOf(input, nv, vs, fs, noColor);
    FaceLinesOf(input, nv, nf, fstart, vs, fs);
  }

  lemma PositionLinesOf(input: seq<byte>, nv: nat, vs: seq<VertexV2>, fs: seq<FaceV2>, noColor: bool)
    requires VertexStart + 40 * nv <= |input| && |vs| == nv
    requires forall k :: 0 <= k < nv ==>
      vs[k] == DecodeVertex(input[VertexStart + 40 * k..VertexStart + 40 * k + VertexSize], noColor)
    ensures |LinesV2(vs, fs)| == 2 + 3 * nv + |fs|
    ensures PositionLinesV2(LinesV2(vs, fs), input, nv)
  {
    var lines := LinesV2(vs, fs);
    LinesV2Length(vs, fs);
    forall i | 1 <= i < 1 + nv
      ensures var p := VertexStart + 40 * (i - 1);
        lines[i] == V(Float32At(input, p), Float32At(input, p + 4), Float32At(input, p + 8))
    {
      PositionLineAt(input, nv, vs, fs, noColor, i);
    }
  }

  lemma PositionLineAt(input: seq<byte>, nv: nat, vs: seq<VertexV2>, fs: seq<FaceV2>, noColor: bool, i: nat)
    requires VertexStart + 40 * nv <= |input| && |vs| == nv && 1 <= i < 1 + nv
    requires forall k :: 0 <= k < nv ==>
      vs[k] == DecodeVertex(input[VertexStart + 40 * k..VertexStart + 40 * k + VertexSize], noColor)
    ensures i < |LinesV2(vs, fs)| && VertexStart + 40 * (i - 1) + 12 <= |input|
    ensures var p := VertexStart + 40 * (i - 1);
      LinesV2(vs, fs)[i] == V(Float32At(input, p), Float32At(input, p + 4), Float32At(input, p + 8))
  {
    var p := VertexStart + 40 * (i - 1);
    assert vs[i - 1] == DecodeVertex(input[p..p + VertexSize], noColor);
    LinesV2PositionAt(vs, fs, i);
    PositionLineOfRecord(input, p, vs[i - 1], noColor);
  }

  /** The `v` line of a vertex decoded from the record at offset `p`. */
  lemma PositionLineOfRecord(input: seq<byte>, p: nat, v: VertexV2, noColor: bool)
    requires p + VertexSize <= |input| && v == DecodeVertex(input[p..p + VertexSize], noColor)
    ensures V(v.px, v.py, v.pz) == V(Float32At(input, p), Float32At(input, p + 4), Float32At(input, p + 8))
  {
    VertexFields(input, p, noColor);
  }

  /** Vertex i - 1 is line i. */
  lemma LinesV2PositionAt(vs: seq<VertexV2>, fs: seq<FaceV2>, i: nat)
    requires 1 <= i < 1 + |vs|
    ensures i < |LinesV2(vs, fs)|
    ensures LinesV2(vs, fs)[i] == V(vs[i - 1].px, vs[i - 1].py, vs[i - 1].pz)
  {
    var rest := UVsV2(vs) + NormalsV2(vs) + [S1] + FacesV2(fs);
    assert LinesV2(vs, fs) == [Comment(CommentV2)] + PositionsV2(vs) + rest;
  }

  lemma LastVertexLinesOf(input: seq<byte>, nv: nat, vs: seq<VertexV2>, fs: seq<FaceV2>, noColor: bool)
    requires VertexStart + 40 * nv <= |input| && |vs| == nv
    requires forall k :: 0 <= k < nv ==>
      vs[k] == DecodeVertex(input[VertexStart + 40 * k..VertexStart + 40 * k + VertexSize], noColor)
    ensures |LinesV2(vs, fs)| == 2 + 3 * nv + |fs|
    ensures LastVertexLinesV2(LinesV2(vs, fs), input, nv)
  {
    LinesV2Index(vs, fs);
    if nv > 0 {
      var last := VertexStart + 40 * (nv - 1);
      VertexFields(input, last, noColor);
      assert vs[nv - 1] == DecodeVertex(input[last..last + VertexSize], noColor);
    }
  }

  lemma FaceLinesOf(input: seq<byte>, nv: nat, nf: nat, fstart: nat, vs: seq<VertexV2>, fs: seq<FaceV2>)
    requires fstart == VertexStart + 40 * nv && fstart + 12 * nf <= |input|
    requires |vs| == nv && |fs| == nf
    requires forall k :: 0 <= k < nf ==>
      fs[k] == DecodeFace(input[fstart + 12 * k..fstart + 12 * k + FaceSize])
    ensures |LinesV2(vs, fs)| == 2 + 3 * nv + nf
    ensures FaceLinesV2(LinesV2(vs, fs), input, nv, nf)
  {
    var lines := LinesV2(vs, fs);
    LinesV2Length(vs, fs);
    forall i | 2 + 3 * nv <= i < 2 + 3 * nv + nf
      ensures lines[i] == FaceLineAt(input, fstart + 12 * (i - (2 + 3 * nv)))
    {
      var k := i - (2 + 3 * nv);
      var q := fstart + 12 * k;
      assert fs[k] == DecodeFace(input[q..q + FaceSize]);
      LinesV2FaceAt(vs, fs, k);
      FaceLineOfRecord(input, q, fs[k]);
    }
  }

  lemma LinesV2Length(vs: seq<VertexV2>, fs: seq<FaceV2>)
    ensures |LinesV2(vs, fs)| == 2 + 3 * |vs| + |fs|
  {
    LinesV2Index(vs, fs);
  }

  /** Face k is line 2 + 3|vs| + k. */
  lemma LinesV2FaceAt(vs: seq<VertexV2>, fs: seq<FaceV2>, k: nat)
    requires k < |fs|
    ensures 2 + 3 * |vs| + k < |LinesV2(vs, fs)|
    ensures LinesV2(vs, fs)[2 + 3 * |vs| + k] == F(fs[k].a, fs[k].b, fs[k].c)
  {
    var head := [Comment(CommentV2)] + PositionsV2(vs) + UVsV2(vs) + NormalsV2(vs) + [S1];
    assert LinesV2(vs, fs) == head + FacesV2(fs);
    assert |head| == 2 + 3 * |vs|;
  }

  /** The `f` line of a face decoded from the record at offset `q`. */
  lemma FaceLineOfRecord(input: seq<byte>, q: nat, f: FaceV2)
    requires q + FaceSize <= |input| && f == DecodeFace(input[q..q + FaceSize])
    ensures F(f.a, f.b, f.c) == FaceLineAt(input, q)
  {
    FaceFields(input, q);
  }

  /** With the sizes the format defines (header 12, vertex 40, face 12), the
      conversion succeeds exactly when the input holds every record the header
      announces; a truncated input fails to unpack. */
  lemma V2Truncation(input: seq<byte>)
    requires ReadAt(input, 0, TagSize) == Tag200 && VertexStart <= |input|
    requires HeaderOf(input).sizeofMeshHeader == HeaderSize
    requires HeaderOf(input).sizeofVertex == VertexSize && HeaderOf(input).sizeofFace == FaceSize
    ensures Conversion(input).Converted?
        <==> VertexStart + 40 * HeaderOf(input).numVerts + 12 * HeaderOf(input).numFaces <= |input|
    ensures Conversion(input).Failed? ==> Conversion(input) == Failed(UnpackError)
  {
    V2Conversion(input);
    TruncatedArrays(input, HeaderOf(input));
  }

  /** The arrays read with sizes 40 and 12 decode exactly when they fit. */
  lemma TruncatedArrays(input: seq<byte>, h: MeshHeader)
    requires VertexStart <= |input| && h.sizeofVertex == VertexSize && h.sizeofFace == FaceSize
    ensures V2Arrays(input, h).Converted?
        <==> VertexStart + 40 * h.numVerts + 12 * h.numFaces <= |input|
  {
    var nv, nf := h.numVerts, h.numFaces;
    var fstart := VertexStart + 40 * nv;
    if fstart + 12 * nf <= |input| {
      forall k | 0 <= k < nv
        ensures |VertexRecord(input, VertexStart, VertexSize, k)| == VertexSize
      {
        assert VertexStart + 40 * k + VertexSize <= fstart;
      }
      forall k | 0 <= k < nf
        ensures |FaceRecord(input, fstart, FaceSize, k)| == FaceSize
      {
        assert fstart + 12 * k + FaceSize <= fstart + 12 * nf;
      }
      assert DecodeVertices(input, VertexStart, VertexSize, nv).Some?;
      assert DecodeFaces(input, fstart, FaceSize, nf).Some?;
    }
    if V2Arrays(input, h).Converted? {
      ArraysLines(input, h);
    }
  }

  /** Colour is replaced by white only when the header's vertex size is not
      40, and unpacking then succeeds only in one corner: a single vertex whose
      declared size exceeds 40 and whose record is the last 40 bytes of the
      input, so that `read` comes back short with exactly 40 bytes, and no face. */
  lemma OddVertexSize(input: seq<byte>)
    requires ReadAt(input, 0, TagSize) == Tag200 && Conversion(input).Converted?
    ensures VertexStart <= |input|
    ensures var h := HeaderOf(input);
      h.sizeofVertex != VertexSize && h.numVerts > 0 ==>
        h.sizeofVertex > VertexSize && h.numVerts == 1 && h.numFaces == 0 && |input| == VertexStart + VertexSize
  {
    V2Conversion(input);
    OddVertexArrays(input, HeaderOf(input));
  }

  lemma OddVertexArrays(input: seq<byte>, h: MeshHeader)
    requires VertexStart <= |input| && V2Arrays(input, h).Converted?
    ensures h.sizeofVertex != VertexSize && h.numVerts > 0 ==>
      h.sizeofVertex > VertexSize && h.numVerts == 1 && h.numFaces == 0 && |input| == VertexStart + VertexSize
  {
    ArraysLines(input, h);
    if h.sizeofVertex != VertexSize && h.numVerts > 0 {
      assert DecodeVertices(input, VertexStart, h.sizeofVertex, h.numVerts).Some?;
      assert |VertexRecord(input, VertexStart, h.sizeofVertex, 0)| == VertexSize;
    }
  }

  /** Likewise a face size other than 12 unpacks only when the single face
      record is the last 12 bytes of the input and the declared size exceeds 12. */
  lemma OddFaceSize(input: seq<byte>)
    requires ReadAt(input, 0, TagSize) == Tag200 && Conversion(input).Converted?
    ensures VertexStart <= |input|
    ensures var h := HeaderOf(input);
      h.sizeofFace != FaceSize && h.numFaces > 0 ==>
        h.sizeofFace > FaceSize && h.numFaces == 1
        && |input| == VertexStart + 40 * h.numVerts + FaceSize
  {
    V2Conversion(input);
    OddFaceArrays(input, HeaderOf(input));
  }

  lemma OddFaceArrays(input: seq<byte>, h: MeshHeader)
    requires VertexStart <= |input| && V2Arrays(input, h).Converted?
    ensures h.sizeofFace != FaceSize && h.numFaces > 0 ==>
      h.sizeofFace > FaceSize && h.numFaces == 1 && |input| == VertexStart + 40 * h.numVerts + FaceSize
  {
    ArraysLines(input, h);
    if h.sizeofFace != FaceSize && h.numFaces > 0 {
      var fstart := VertexStart + 40 * h.numVerts;
      assert DecodeVertices(input, VertexStart, h.sizeofVertex, h.numVerts).Some?;
      assert DecodeFaces(input, fstart, h.sizeofFace, h.numFaces).Some?;
      assert |FaceRecord(input, fstart, h.sizeofFace, 0)| == FaceSize;
    }
  }

  // ----- the layout read back

  /** A float field that holds four raw bytes. */
  predicate Float32(x: Num)
  {
    x.Raw? && |x.bits| == 4
  }

  /** A vertex that a 40-byte record can hold. */
  predicate Storable(v: VertexV2)
  {
    && Float32(v.px) && Float32(v.py) && Float32(v.pz) && Float32(v.nx)
    && Float32(v.ny) && Float32(v.nz) && Float32(v.tu) && Float32(v.tv)
    && -128 <= v.tx < 128 && -128 <= v.ty < 128 && -128 <= v.tz < 128 && -128 <= v.ts < 128
    && v.r < 256 && v.g < 256 && v.b < 256 && v.a < 256
  }

  /** The 40-byte record "ffffffffbbbbBBBB" of a vertex. */
  function VertexBytes(v: VertexV2): (rec: seq<byte>)
    requires Storable(v)
    ensures |rec| == VertexSize
  {
    v.px.bits + v.py.bits + v.pz.bits + v.nx.bits + v.ny.bits + v.nz.bits + v.tu.bits + v.tv.bits
    + [Int8Byte(v.tx), Int8Byte(v.ty), Int8Byte(v.tz), Int8Byte(v.ts), v.r, v.g, v.b, v.a]
  }

  /** Unpacking a vertex record gives back the vertex it stores. */
  lemma UnpackVertexBytes(v: VertexV2)
    requires Storable(v)
    ensures UnpackVertex(VertexBytes(v)) == v
  {
    var rec := VertexBytes(v);
    assert rec[0..4] == v.px.bits;
    assert rec[4..8] == v.py.bits;
    assert rec[8..12] == v.pz.bits;
    assert rec[12..16] == v.nx.bits;
    assert rec[16..20] == v.ny.bits;
    assert rec[20..24] == v.nz.bits;
    assert rec[24..28] == v.tu.bits;
    assert rec[28..32] == v.tv.bits;
  }

  /** A face whose one-based indices fit the zero-based u32 fields. */
  predicate StorableFace(f: FaceV2)
  {
    1 <= f.a <= 0x1_0000_0000 && 1 <= f.b <= 0x1_0000_0000 && 1 <= f.c <= 0x1_0000_0000
  }

  /** The 12-byte record "III" of a face: its zero-based indices. */
  function FaceBytes(f: FaceV2): (rec: seq<byte>)
    requires StorableFace(f)
    ensures |rec| == FaceSize
  {
    LE32(f.a - 1) + LE32(f.b - 1) + LE32(f.c - 1)
  }

  /** Decoding a face record gives back the face, one-based again. */
  lemma DecodeFaceBytes(f: FaceV2)
    requires StorableFace(f)
    ensures DecodeFace(FaceBytes(f)) == f
  {
    var rec := FaceBytes(f);
    assert rec[0..4] == LE32(f.a - 1);
    assert rec[4..8] == LE32(f.b - 1);
    assert rec[8..12] == LE32(f.c - 1);
  }

  /** Records laid one after another. */
  function Concat(blocks: seq<seq<byte>>): seq<byte>
  {
    if blocks == [] then [] else Concat(blocks[..|blocks| - 1]) + blocks[|blocks| - 1]
  }

  /** Where record k starts when every record is `w` bytes wide. */
  function Offset(w: nat, k: nat): nat
  {
    if k == 0 then 0 else Offset(w, k - 1) + w
  }

  lemma {:induction false} OffsetIsProduct(w: nat, k: nat)
    ensures Offset(w, k) == w * k
  {
    if k > 0 {
      OffsetIsProduct(w, k - 1);
      assert w * (k - 1) + w == w * k;
    }
  }

  /** Records of width `w` laid one after another: record k sits at `Offset(w, k)`. */
  lemma {:induction false} ConcatAt(blocks: seq<seq<byte>>, w: nat, k: nat)
    requires forall j :: 0 <= j < |blocks| ==> |blocks[j]| == w
    requires k < |blocks|
    ensures |Concat(blocks)| == Offset(w, |blocks|)
    ensures Offset(w, k) + w <= |Concat(blocks)|
    ensures Concat(blocks)[Offset(w, k)..Offset(w, k) + w] == blocks[k]
    decreases |blocks|
  {
    var n := |blocks|;
    var p := blocks[..n - 1];
    var last := blocks[n - 1];
    assert Concat(blocks) == Concat(p) + last;
    ConcatLength(p, w);
    if k < n - 1 {
      ConcatAt(p, w, k);
      SliceOfPrefix(Concat(p), last, Offset(w, k), Offset(w, k) + w);
    } else {
      assert Concat(blocks)[|Concat(p)|..] == last;
    }
  }

  /** A slice inside the first part of a concatenation. */
  lemma SliceOfPrefix(a: seq<byte>, b: seq<byte>, i: nat, j: nat)
    requires i <= j <= |a|
    ensures (a + b)[i..j] == a[i..j]
  {
  }

  lemma {:induction false} ConcatLength(blocks: seq<seq<byte>>, w: nat)
    requires forall j :: 0 <= j < |blocks| ==> |blocks[j]| == w
    ensures |Concat(blocks)| == Offset(w, |blocks|)
    decreases |blocks|
  {
    if blocks != [] {
      ConcatLength(blocks[..|blocks| - 1], w);
    }
  }

  /** The vertex records of a vertex list. */
  function VertexRecords(vs: seq<VertexV2>): (recs: seq<seq<byte>>)
    requires forall k :: 0 <= k < |vs| ==> Storable(vs[k])
    ensures |recs| == |vs| && forall k :: 0 <= k < |vs| ==> recs[k] == VertexBytes(vs[k])
  {
    seq(|vs|, k requires 0 <= k < |vs| => VertexBytes(vs[k]))
  }

  /** The face records of a face list. */
  function FaceRecords(fs: seq<FaceV2>): (recs: seq<seq<byte>>)
    requires forall k :: 0 <= k < |fs| ==> StorableFace(fs[k])
    ensures |recs| == |fs| && forall k :: 0 <= k < |fs| ==> recs[k] == FaceBytes(fs[k])
  {
    seq(|fs|, k requires 0 <= k < |fs| => FaceBytes(fs[k]))
  }

  /** A v2.00 file as the format lays it out: tag, the header "HBBII" with
      sizes 12, 40 and 12 and the two counts, the vertex records, the face records. */
  function MeshFile(vs: seq<VertexV2>, fs: seq<FaceV2>): seq<byte>
    requires |vs| < 0x1_0000_0000 && |fs| < 0x1_0000_0000
    requires forall k :: 0 <= k < |vs| ==> Storable(vs[k])
    requires forall k :: 0 <= k < |fs| ==> StorableFace(fs[k])
  {
    Tag200 + LE16(HeaderSize) + [VertexSize, FaceSize] + LE32(|vs|) + LE32(|fs|)
    + Concat(VertexRecords(vs)) + Concat(FaceRecords(fs))
  }

  /** Decoding a well-laid-out file gives back its vertices and faces, and
      the output is the lines of exactly those. */
  lemma V2RoundTrip(vs: seq<VertexV2>, fs: seq<FaceV2>)
    requires |vs| < 0x1_0000_0000 && |fs| < 0x1_0000_0000
    requires forall k :: 0 <= k < |vs| ==> Storable(vs[k])
    requires forall k :: 0 <= k < |fs| ==> StorableFace(fs[k])
    ensures DecodeVertices(MeshFile(vs, fs), VertexStart, VertexSize, |vs|) == Some(vs)
    ensures DecodeFaces(MeshFile(vs, fs), VertexStart + 40 * |vs|, FaceSize, |fs|) == Some(fs)
    ensures Conversion(MeshFile(vs, fs)) == Converted(LinesV2(vs, fs))
  {
    var head := Tag200 + LE16(HeaderSize) + [VertexSize, FaceSize] + LE32(|vs|) + LE32(|fs|);
    HeaderLayout(head, |vs|, |fs|);
    forall k | 0 <= k < |vs|
      ensures UnpackVertex(VertexRecords(vs)[k]) == vs[k]
    {
      UnpackVertexBytes(vs[k]);
    }
    forall k | 0 <= k < |fs|
      ensures DecodeFace(FaceRecords(fs)[k]) == fs[k]
    {
      DecodeFaceBytes(fs[k]);
    }
    RecordsRead(head, vs, fs, VertexRecords(vs), FaceRecords(fs));
    V2Conversion(MeshFile(vs, fs));
    ArraysOf(MeshFile(vs, fs), HeaderOf(MeshFile(vs, fs)), vs, fs);
  }

  /** The 25 bytes before the records: the tag and the header fields. */
  lemma HeaderLayout(head: seq<byte>, nv: nat, nf: nat)
    requires nv < 0x1_0000_0000 && nf < 0x1_0000_0000
    requires head == Tag200 + LE16(HeaderSize) + [VertexSize, FaceSize] + LE32(nv) + LE32(nf)
    ensures |head| == VertexStart && head[0..TagSize] == Tag200
    ensures UnpackHeader(head[TagSize..VertexStart]) == MeshHeader(HeaderSize, VertexSize, FaceSize, nv, nf)
  {
    var h := head[TagSize..VertexStart];
    assert h == LE16(HeaderSize) + [VertexSize, FaceSize] + LE32(nv) + LE32(nf);
    assert h[0..2] == LE16(HeaderSize);
    assert h[4..8] == LE32(nv);
    assert h[8..12] == LE32(nf);
  }

  /** The records after a well-formed header read back as the vertices and faces. */
  lemma RecordsRead(head: seq<byte>, vs: seq<VertexV2>, fs: seq<FaceV2>, vrecs: seq<seq<byte>>, frecs: seq<seq<byte>>)
    requires |head| == VertexStart && head[0..TagSize] == Tag200
    requires UnpackHeader(head[TagSize..VertexStart]) == MeshHeader(HeaderSize, VertexSize, FaceSize, |vs|, |fs|)
    requires |vrecs| == |vs| && |frecs| == |fs|
    requires forall k :: 0 <= k < |vs| ==> |vrecs[k]| == VertexSize && UnpackVertex(vrecs[k]) == vs[k]
    requires forall k :: 0 <= k < |fs| ==> |frecs[k]| == FaceSize && DecodeFace(frecs[k]) == fs[k]
    ensures var file := head + Concat(vrecs) + Concat(frecs);
      && ReadAt(file, 0, TagSize) == Tag200 && VertexStart <= |file|
      && HeaderOf(file) == MeshHeader(HeaderSize, VertexSize, FaceSize, |vs|, |fs|)
      && DecodeVertices(file, VertexStart, VertexSize, |vs|) == Some(vs)
      && DecodeFaces(file, VertexStart + 40 * |vs|, FaceSize, |fs|) == Some(fs)
  {
    var va := Concat(vrecs);
    var fa := Concat(frecs);
    var file := head + va + fa;
    HeadOf(head, va + fa);
    assert file == head + (va + fa);
    VerticesRead(file, head, fa, vs, vrecs);
    ConcatLength(vrecs, VertexSize);
    OffsetIsProduct(VertexSize, |vrecs|);
    FacesRead(file, head + va, fs, frecs);
  }

  /** The tag and the header of a file are those of its first 25 bytes. */
  lemma HeadOf(head: seq<byte>, rest: seq<byte>)
    requires |head| == VertexStart
    ensures ReadAt(head + rest, 0, TagSize) == head[0..TagSize]
    ensures (head + rest)[TagSize..VertexStart] == head[TagSize..VertexStart]
  {
    assert (head + rest)[0..TagSize] == head[0..TagSize];
  }

  /** Both arrays decoded with the format's sizes: the output is their lines. */
  lemma ArraysOf(file: seq<byte>, h: MeshHeader, vs: seq<VertexV2>, fs: seq<FaceV2>)
    requires h.sizeofVertex == VertexSize && h.sizeofFace == FaceSize
    requires h.numVerts == |vs| && h.numFaces == |fs|
    requires DecodeVertices(file, VertexStart, VertexSize, |vs|) == Some(vs)
    requires DecodeFaces(file, VertexStart + 40 * |vs|, FaceSize, |fs|) == Some(fs)
    ensures V2Arrays(file, h) == Converted(LinesV2(vs, fs))
  {
  }

  lemma VerticesRead(file: seq<byte>, head: seq<byte>, fa: seq<byte>, vs: seq<VertexV2>, recs: seq<seq<byte>>)
    requires |head| == VertexStart && file == head + Concat(recs) + fa
    requires |recs| == |vs|
    requires forall k :: 0 <= k < |vs| ==> |recs[k]| == VertexSize && UnpackVertex(recs[k]) == vs[k]
    ensures DecodeVertices(file, VertexStart, VertexSize, |vs|) == Some(vs)
  {
    forall k | 0 <= k < |vs|
      ensures VertexRecord(file, VertexStart, VertexSize, k) == recs[k]
    {
      ConcatAt(recs, VertexSize, k);
      OffsetIsProduct(VertexSize, k);
      ReadInside(file, head, Concat(recs), fa, 40 * k, VertexSize, recs[k]);
    }
    assert seq(|vs|, i requires 0 <= i < |vs| => DecodeVertex(VertexRecord(file, VertexStart, VertexSize, i), false)) == vs;
  }

  lemma FacesRead(file: seq<byte>, head: seq<byte>, fs: seq<FaceV2>, recs: seq<seq<byte>>)
    requires file == head + Concat(recs)
    requires |recs| == |fs|
    requires forall k :: 0 <= k < |fs| ==> |recs[k]| == FaceSize && DecodeFace(recs[k]) == fs[k]
    ensures DecodeFaces(file, |head|, FaceSize, |fs|) == Some(fs)
  {
    forall k | 0 <= k < |fs|
      ensures FaceRecord(file, |head|, FaceSize, k) == recs[k]
    {
      ConcatAt(recs, FaceSize, k);
      OffsetIsProduct(FaceSize, k);
      assert file == head + Concat(recs) + [];
      ReadInside(file, head, Concat(recs), [], 12 * k, FaceSize, recs[k]);
    }
    assert seq(|fs|, i requires 0 <= i < |fs| => DecodeFace(FaceRecord(file, |head|, FaceSize, i))) == fs;
  }

  /** Reading `w` bytes at offset `o` of the middle part of a file. */
  lemma ReadInside(file: seq<byte>, head: seq<byte>, mid: seq<byte>, tail: seq<byte>, o: nat, w: nat, rec: seq<byte>)
    requires file == head + mid + tail
    requires 0 < w && o + w <= |mid| && mid[o..o + w] == rec
    ensures ReadAt(file, |head| + o, w) == rec
  {
    ConcatSlice(head, mid, tail, o, o + w);
    ExactRead(file, |head| + o, w, w);
  }
}
