/** `convert` of mesh.py as the step-by-step program it is: a cursor over the
    input bytes, the tokenizer loop with its mutable two-slot `currTuple`,
    preallocated vertex and face arrays filled by index, and emission loops
    that append to the output. Each method is proved to compute what module
    MeshFormat says. */
module MeshConvert {
  import opened ByteStream
  import opened MeshFormat
  import MeshProperties

  /** The v1 tokenizer loop over the bytes from `start` to the end of the input. */
  method ScanTuples(data: seq<byte>, start: nat) returns (r: Option<seq<Tuple>>)
    requires start <= |data|
    ensures r == TupleStream(data[start..])
  {
    var tuples: seq<Tuple> := [];
    var currTuple := new Num[2](_ => Zero);
    var iCurrTuple: nat := 0;
    var tupleVal: seq<byte> := [];
    var pos := start;
    while pos < |data|
      invariant start <= pos <= |data|
      invariant currTuple.Length == 2
      invariant Scan(ScanStart, data[start..pos]) == Some(ScanState(tuples, currTuple[0], currTuple[1], iCurrTuple, tupleVal))
    {
      var currByte := data[pos];
      MeshProperties.ScanNext(data, start, pos);
      if currByte == Close {
        tuples := tuples + [Tuple(currTuple[0], currTuple[1], Parsed(tupleVal))];
        iCurrTuple := 0;
        tupleVal := [];
      } else if currByte == Open {
      } else if currByte == Comma {
        if iCurrTuple >= 2 {
          // `currTuple[2] = ...`: IndexError, and the whole scan fails.
          MeshProperties.ScanStopsAt(data, start, pos + 1);
          return None;
        }
        currTuple[iCurrTuple] := Parsed(tupleVal);
        tupleVal := [];
        iCurrTuple := iCurrTuple + 1;
      } else {
        tupleVal := tupleVal + [currByte];
      }
      pos := pos + 1;
    }
    assert data[start..pos] == data[start..];
    r := Some(tuples);
  }

  /** `vertices[i / 3] = vtx` for i in range(0, numTuples, 3). */
  method BuildVerticesV1(tuples: seq<Tuple>, numVerts: nat, scale: real) returns (vs: seq<VertexV1>)
    requires 3 * numVerts <= |tuples|
    ensures vs == GroupVertices(tuples, numVerts, scale)
  {
    var vertices := new VertexV1[numVerts];
    var i := 0;
    while i < 3 * numVerts
      invariant 0 <= i <= 3 * numVerts && i % 3 == 0
      invariant forall k :: 0 <= k < i / 3 ==>
        vertices[k] == MakeVertexV1(tuples[3 * k], tuples[3 * k + 1], tuples[3 * k + 2], scale)
    {
      var face := tuples[i..];
      vertices[i / 3] := MakeVertexV1(face[0], face[1], face[2], scale);
      i := i + 3;
    }
    vs := vertices[..];
  }

  /** The v1 output loops: comment, one `v` per vertex, `vt` and `vn` from the
      last vertex, `s 1`, then `f i/i/i i+1/.. i+2/..` for i in range(1, numVerts + 1, 3). */
  method EmitV1(vs: seq<VertexV1>, scale: real, numFaces: nat) returns (out: seq<Line>)
    requires |vs| == 3 * numFaces
    ensures out == LinesV1(vs, scale, numFaces)
  {
    var numVerts := |vs|;
    out := [Comment(CommentV1(scale))];
    ghost var head := out;
    for k := 0 to numVerts
      invariant out == head + PositionsV1(vs)[..k]
    {
      var v := vs[k];
      out := out + [V(v.px, v.py, v.pz)];
    }
    assert PositionsV1(vs)[..numVerts] == PositionsV1(vs);
    head := out;
    for k := 0 to numVerts
      invariant out == head + UVsV1(vs)[..k]
    {
      var v := vs[numVerts - 1];
      out := out + [VT(v.tu, v.tv)];
    }
    assert UVsV1(vs)[..numVerts] == UVsV1(vs);
    head := out;
    for k := 0 to numVerts
      invariant out == head + NormalsV1(vs)[..k]
    {
      var v := vs[numVerts - 1];
      out := out + [VN(v.nx, v.ny, v.nz)];
    }
    assert NormalsV1(vs)[..numVerts] == NormalsV1(vs);
    out := out + [S1];
    out := AppendFacesV1(out, numFaces);
  }

  /** The v1 face loop: `f i/i/i i+1/i+1/i+1 i+2/i+2/i+2` for i in
      range(1, numVerts + 1, 3), appended to the lines so far. */
  method AppendFacesV1(lines: seq<Line>, numFaces: nat) returns (out: seq<Line>)
    ensures out == lines + FacesV1(numFaces)
  {
    var numVerts := 3 * numFaces;
    out := lines;
    var i := 1;
    while i < numVerts + 1
      invariant i % 3 == 1 && 1 <= i <= numVerts + 1
      invariant out == lines + FacesV1(numFaces)[..(i - 1) / 3]
    {
      assert FacesV1(numFaces)[(i - 1) / 3] == F(i, i + 1, i + 2);
      out := out + [F(i, i + 1, i + 2)];
      i := i + 3;
    }
    assert FacesV1(numFaces)[..numFaces] == FacesV1(numFaces);
  }

  /** The v1.00 / v1.01 branch after the tag. */
  method DecodeV1(input: seq<byte>, scale: real) returns (o: Outcome)
    requires TagSize <= |input|
    ensures o == V1Outcome(input, scale)
  {
    var strNumFaces := ReadLine(input, TagSize);
    var start := TagSize + |strNumFaces|;
    assert start <= |input|;
    o := DecodeFacesV1(strNumFaces, input, start, scale);
    assert o == V1Decode(strNumFaces, input[start..], scale);
  }

  /** The v1 branch once the face-count line has been read and the cursor
      stands at `start`. */
  method DecodeFacesV1(strNumFaces: seq<byte>, input: seq<byte>, start: nat, scale: real) returns (o: Outcome)
    requires start <= |input|
    ensures o == V1Decode(strNumFaces, input[start..], scale)
  {
    var parsed := ParseInt(strNumFaces);
    if parsed.None? {
      return Failed(BadFaceCount);
    }
    var numFaces: nat := if parsed.value < 0 then 0 else parsed.value;
    var numVerts := numFaces * 3;
    var numTuples := numVerts * 3;
    var tuples := ScanTuples(input, start);
    if tuples.None? {
      return Failed(TupleOverflow);
    }
    if |tuples.value| < numTuples {
      return Failed(MissingTuples);
    }
    var vertices := BuildVerticesV1(tuples.value, numVerts, scale);
    var out := EmitV1(vertices, scale, numFaces);
    o := Converted(out);
  }

  /** The v2 output loops. */
  method EmitV2(vs: seq<VertexV2>, fs: seq<FaceV2>) returns (out: seq<Line>)
    ensures out == LinesV2(vs, fs)
  {
    var numVerts := |vs|;
    out := [Comment(CommentV2)];
    ghost var head := out;
    for k := 0 to numVerts
      invariant out == head + PositionsV2(vs)[..k]
    {
      var v := vs[k];
      out := out + [V(v.px, v.py, v.pz)];
    }
    assert PositionsV2(vs)[..numVerts] == PositionsV2(vs);
    head := out;
    for k := 0 to numVerts
      invariant out == head + UVsV2(vs)[..k]
    {
      var v := vs[numVerts - 1];
      out := out + [VT(v.tu, v.tv)];
    }
    assert UVsV2(vs)[..numVerts] == UVsV2(vs);
    head := out;
    for k := 0 to numVerts
      invariant out == head + NormalsV2(vs)[..k]
    {
      var v := vs[numVerts - 1];
      out := out + [VN(v.nx, v.ny, OneMinus(v.nz))];
    }
    assert NormalsV2(vs)[..numVerts] == NormalsV2(vs);
    out := out + [S1];
    head := out;
    for k := 0 to |fs|
      invariant out == head + FacesV2(fs)[..k]
    {
      var f := fs[k];
      out := out + [F(f.a, f.b, f.c)];
    }
    assert FacesV2(fs)[..|fs|] == FacesV2(fs);
  }

  /** The vertex loop of the v2 branch: `count` reads of `size` bytes from the
      cursor `start`, each unpacked as "ffffffffbbbbBBBB" into the preallocated
      array, the colour overwritten when `size` is not 40. */
  method ReadVertexArray(input: seq<byte>, start: nat, size: nat, count: nat) returns (r: Option<seq<VertexV2>>, pos: nat)
    ensures r == DecodeVertices(input, start, size, count)
    ensures r.Some? ==> pos == start + 40 * count
  {
    pos := start;
    var vertices := new VertexV2[count];
    var noColor := size != VertexSize;
    for i := 0 to count
      invariant pos == start + 40 * i
      invariant forall k :: 0 <= k < i ==> |VertexRecord(input, start, size, k)| == VertexSize
      invariant forall k :: 0 <= k < i ==> vertices[k] == DecodeVertex(VertexRecord(input, start, size, k), noColor)
    {
      var record := ReadAt(input, pos, size);
      assert record == VertexRecord(input, start, size, i);
      pos := pos + |record|;
      if |record| != VertexSize {
        return None, pos;
      }
      var v := UnpackVertex(record);
      if noColor {
        v := v.(r := 255, g := 255, b := 255, a := 255);
      }
      vertices[i] := v;
    }
    assert vertices[..] == seq(count, i requires 0 <= i < count => DecodeVertex(VertexRecord(input, start, size, i), noColor));
    r := Some(vertices[..]);
  }

  /** The face loop of the v2 branch: `count` reads of `size` bytes, each
      unpacked as "III", then `f.a += 1`, `f.b += 1`, `f.c += 1`. */
  method ReadFaceArray(input: seq<byte>, start: nat, size: nat, count: nat) returns (r: Option<seq<FaceV2>>)
    ensures r == DecodeFaces(input, start, size, count)
  {
    var pos := start;
    var faces := new FaceV2[count];
    for i := 0 to count
      invariant pos == start + 12 * i
      invariant forall k :: 0 <= k < i ==> |FaceRecord(input, start, size, k)| == FaceSize
      invariant forall k :: 0 <= k < i ==> faces[k] == DecodeFace(FaceRecord(input, start, size, k))
    {
      var record := ReadAt(input, pos, size);
      assert record == FaceRecord(input, start, size, i);
      pos := pos + |record|;
      if |record| != FaceSize {
        return None;
      }
      var a, b, c := FromLE(record[0..4]), FromLE(record[4..8]), FromLE(record[8..12]);
      a, b, c := a + 1, b + 1, c + 1;
      faces[i] := FaceV2(a, b, c);
    }
    assert faces[..] == seq(count, i requires 0 <= i < count => DecodeFace(FaceRecord(input, start, size, i)));
    r := Some(faces[..]);
  }

  /** The v2.00 branch after the tag: header, vertex array, face array, output. */
  method DecodeV2(input: seq<byte>) returns (o: Outcome)
    requires TagSize <= |input|
    ensures o == V2Outcome(input)
  {
    var pos := TagSize;
    var headerBytes := ReadAt(input, pos, HeaderSize);
    pos := pos + |headerBytes|;
    if |headerBytes| != HeaderSize {
      return Failed(UnpackError);
    }
    var header := UnpackHeader(headerBytes);
    if header.sizeofMeshHeader != HeaderSize {
      return Failed(InvalidHeaderSize);
    }
    assert V2Outcome(input) == V2Arrays(input, header);
    o := ReadArrays(input, header);
  }

  /** The rest of the v2 branch: vertex array, face array, output. */
  method ReadArrays(input: seq<byte>, header: MeshHeader) returns (o: Outcome)
    ensures o == V2Arrays(input, header)
  {
    var vertices, afterVertices := ReadVertexArray(input, VertexStart, header.sizeofVertex, header.numVerts);
    if vertices.None? {
      return Failed(UnpackError);
    }
    var faces := ReadFaceArray(input, afterVertices, header.sizeofFace, header.numFaces);
    if faces.None? {
      return Failed(UnpackError);
    }
    var out := EmitV2(vertices.value, faces.value);
    o := Converted(out);
  }

  /** `convert`: read the 13-byte version tag and run the matching branch. */
  method Convert(input: seq<byte>) returns (o: Outcome)
    ensures o == Conversion(input)
  {
    var version := ReadAt(input, 0, TagSize);
    if version == Tag100 || version == Tag101 {
      var scale := if version == Tag100 then 0.5 else 1.0;
      o := DecodeV1(input, scale);
      return;
    }
    if version == Tag200 {
      o := DecodeV2(input);
      return;
    }
    o := Failed(UnknownVersion);
  }
}
