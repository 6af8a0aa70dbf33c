/** The records of mesh.py and what `convert` computes from an input file, as
    functions: the version dispatch, the v1.00/v1.01 text-tuple decoder, the
    v2.00 fixed-layout binary decoder and the OBJ-style lines each emits.
    The imperative decoder in module MeshConvert is proved equal to these. */
module MeshFormat {
  import opened ByteStream

  // ASCII bytes the formats use.
  const Newline: byte := 10
  const Comma: byte := 44    // ','
  const Open: byte := 91     // '['
  const Close: byte := 93    // ']'
  const Plus: byte := 43     // '+'
  const Minus: byte := 45    // '-'

  /** The 13-byte version tags "version 1.00\n", "version 1.01\n" and "version 2.00\n". */
  const TagSize: nat := 13
  const Tag100: seq<byte> := [118, 101, 114, 115, 105, 111, 110, 32, 49, 46, 48, 48, 10]
  const Tag101: seq<byte> := [118, 101, 114, 115, 105, 111, 110, 32, 49, 46, 48, 49, 10]
  const Tag200: seq<byte> := [118, 101, 114, 115, 105, 111, 110, 32, 50, 46, 48, 48, 10]

  /** A floating-point value the converter carries but never decodes: the
      model keeps how it was obtained, not its IEEE-754 value. */
  datatype Num =
    | Zero                      // the literal 0 of `currTuple = (0, 0)` and `tw = 0.0`
    | Parsed(token: seq<byte>)  // `float(token)` of a v1 text token
    | Raw(bits: seq<byte>)      // a native (little-endian) float32 of a v2 record
    | Scaled(factor: real, x: Num)  // `x * scale`
    | OneMinus(x: Num)          // `1.0 - x`

  /** mesh_v1.Tuple: one bracketed `[a,b,c]` of the text format. */
  datatype Tuple = Tuple(a: Num, b: Num, c: Num)

  /** mesh_v1.VertexContainer. */
  datatype VertexV1 = VertexV1(px: Num, py: Num, pz: Num, nx: Num, ny: Num, nz: Num, tu: Num, tv: Num, tw: Num)

  /** mesh_v2.MeshHeader, struct "HBBII". */
  datatype MeshHeader = MeshHeader(sizeofMeshHeader: nat, sizeofVertex: nat, sizeofFace: nat, numVerts: nat, numFaces: nat)

  /** mesh_v2.Vertex, struct "ffffffffbbbbBBBB": eight floats, four signed
      bytes (tx, ty, tz, ts) and four unsigned bytes of colour. */
  datatype VertexV2 = VertexV2(
    px: Num, py: Num, pz: Num, nx: Num, ny: Num, nz: Num, tu: Num, tv: Num,
    tx: int, ty: int, tz: int, ts: int,
    r: nat, g: nat, b: nat, a: nat)

  /** mesh_v2.Face after `f.a += 1` and friends: one-based indices. */
  datatype FaceV2 = FaceV2(a: nat, b: nat, c: nat)

  /** One line of the OBJ-style output, without its newline. */
  datatype Line =
    | Comment(text: string)
    | V(x: Num, y: Num, z: Num)
    | VT(u: Num, v: Num)
    | VN(x: Num, y: Num, z: Num)
    | S1
    | F(a: int, b: int, c: int)  // `f a/a/a b/b/b c/c/c`

  datatype Failure =
    | UnknownVersion     // `return False` on an unknown tag
    | InvalidHeaderSize  // `return False` on a v2 header size other than 12
    | BadFaceCount       // ValueError from `int()` on the v1 face-count line
    | TupleOverflow      // a third ',' inside one v1 tuple: IndexError on the two-slot currTuple
    | MissingTuples      // fewer v1 tuples than 9 per face: IndexError
    | UnpackError        // struct.error: a read returned fewer or more bytes than the format
  {
    /** The failures `convert` reports by returning False; the others are raised. */
    predicate ReturnsFalse() { UnknownVersion? || InvalidHeaderSize? }
  }

  /** What `convert` does: writes these lines and returns True, or fails.
      Every failure happens before the first write, so a failure writes nothing. */
  datatype Outcome = Converted(lines: seq<Line>) | Failed(why: Failure)

  // ----- bytes of the v1 face-count line

  predicate IsSpace(b: byte) { b == 32 || 9 <= b <= 13 }
  predicate IsDigit(b: byte) { 48 <= b <= 57 }
  predicate AllDigits(s: seq<byte>) { forall i :: 0 <= i < |s| ==> IsDigit(s[i]) }

  /** `inputFile.readline()` at cursor `pos`: the bytes up to and including
      the next newline, or up to the end of the file when none follows. */
  function ReadLine(data: seq<byte>, pos: nat): (line: seq<byte>)
    decreases |data| - pos
    ensures |data| <= pos ==> line == []
    ensures pos <= |data| ==> pos + |line| <= |data| && line == data[pos..pos + |line|]
    ensures forall i :: 0 <= i < |line| - 1 ==> line[i] != Newline
    ensures pos < |data| ==> line != []
    ensures line != [] && pos + |line| < |data| ==> line[|line| - 1] == Newline
  {
    if |data| <= pos then []
    else if data[pos] == Newline then [Newline]
    else
      var rest := ReadLine(data, pos + 1);
      assert [data[pos]] + rest == data[pos..pos + 1 + |rest|] by {
        assert rest == data[pos + 1..pos + 1 + |rest|];
      }
      [data[pos]] + rest
  }

  /** `s` without its leading ASCII whitespace. */
  function TrimStart(s: seq<byte>): (t: seq<byte>)
    ensures |t| <= |s| && t == s[|s| - |t|..]
    ensures forall i :: 0 <= i < |s| - |t| ==> IsSpace(s[i])
    ensures t != [] ==> !IsSpace(t[0])
  {
    if s != [] && IsSpace(s[0]) then TrimStart(s[1..]) else s
  }

  /** `s` without its trailing ASCII whitespace. */
  function TrimEnd(s: seq<byte>): (t: seq<byte>)
    ensures |t| <= |s| && t == s[..|t|]
    ensures forall i :: |t| <= i < |s| ==> IsSpace(s[i])
    ensures t != [] ==> !IsSpace(t[|t| - 1])
  {
    if s != [] && IsSpace(s[|s| - 1]) then TrimEnd(s[..|s| - 1]) else s
  }

  /** The value of a run of decimal digits, most significant first. */
  function DigitsValue(ds: seq<byte>): nat
    requires AllDigits(ds)
  {
    if ds == [] then 0 else 10 * DigitsValue(ds[..|ds| - 1]) + (ds[|ds| - 1] - 48)
  }

  /** The interpreter's default `sys.int_max_str_digits`: `int()` refuses a
      decimal string with more digits than this. */
  const MaxStrDigits: nat := 4300

  /** Python's `int(line)` on bytes: surrounding ASCII whitespace, an optional
      sign and between one and MaxStrDigits decimal digits; anything else
      raises ValueError. */
  function ParseInt(line: seq<byte>): Option<int>
  {
    ParseSigned(TrimEnd(TrimStart(line)))
  }

  /** `int()` on the text left after stripping the whitespace. */
  function ParseSigned(t: seq<byte>): Option<int>
  {
    if t == [] then None
    else
      var ds := if t[0] == Plus || t[0] == Minus then t[1..] else t;
      if ds != [] && AllDigits(ds) && |ds| <= MaxStrDigits then
        var magnitude: int := DigitsValue(ds);
        Some(if t[0] == Minus then -magnitude else magnitude)
      else None
  }

  // ----- the v1 tuple tokenizer

  /** The variables of the tokenizer loop: the tuples so far, the two slots of
      `currTuple`, `i_currTuple` and `tupleVal`. */
  datatype ScanState = ScanState(tuples: seq<Tuple>, first: Num, second: Num, field: nat, token: seq<byte>)

  const ScanStart: ScanState := ScanState([], Zero, Zero, 0, [])

  /** One byte of the tokenizer: `]` closes a tuple (the current token is its
      third field), `[` is skipped, `,` stores the token in the next slot and
      clears it (a third `,` has no slot left), any other byte extends the token. */
  function ScanByte(st: ScanState, b: byte): Option<ScanState>
  {
    if b == Close then
      Some(ScanState(st.tuples + [Tuple(st.first, st.second, Parsed(st.token))], st.first, st.second, 0, []))
    else if b == Open then Some(st)
    else if b == Comma then
      if st.field == 0 then Some(st.(first := Parsed(st.token), field := 1, token := []))
      else if st.field == 1 then Some(st.(second := Parsed(st.token), field := 2, token := []))
      else None
    else Some(st.(token := st.token + [b]))
  }

  /** The tokenizer run over `s` from state `st`, one byte at a time; it stops
      at the end of the input. */
  function Scan(st: ScanState, s: seq<byte>): Option<ScanState>
    decreases |s|
  {
    if s == [] then Some(st)
    else match Scan(st, s[..|s| - 1])
      case None => None
      case Some(m) => ScanByte(m, s[|s| - 1])
  }

  /** The tuples read from the bytes after the face-count line; a token still
      open at the end of the input is dropped. */
  function TupleStream(s: seq<byte>): Option<seq<Tuple>>
  {
    match Scan(ScanStart, s)
    case None => None
    case Some(st) => Some(st.tuples)
  }

  // ----- v1 grouping and output

  /** One v1 vertex from three consecutive tuples: position scaled, normal and
      UV as read, `tw` zero. */
  function MakeVertexV1(p: Tuple, n: Tuple, uv: Tuple, scale: real): VertexV1
  {
    VertexV1(Scaled(scale, p.a), Scaled(scale, p.b), Scaled(scale, p.c), n.a, n.b, n.c, uv.a, uv.b, Zero)
  }

  /** The first `count` groups of three tuples, as vertices. */
  function GroupVertices(tuples: seq<Tuple>, count: nat, scale: real): (vs: seq<VertexV1>)
    requires 3 * count <= |tuples|
    ensures |vs| == count
  {
    seq(count, k requires 0 <= k < count => MakeVertexV1(tuples[3 * k], tuples[3 * k + 1], tuples[3 * k + 2], scale))
  }

  /** Python's `f"{scale}"` for the two scales the format has. */
  function ScaleText(scale: real): string
  {
    if scale == 0.5 then "0.5" else "1.0"
  }

  function CommentV1(scale: real): string
  {
    "# ROBLOX .mesh version 1.0 (scale = " + ScaleText(scale) + ")"
  }

  function PositionsV1(vs: seq<VertexV1>): seq<Line>
  {
    seq(|vs|, k requires 0 <= k < |vs| => V(vs[k].px, vs[k].py, vs[k].pz))
  }

  /** `n` copies of one line. */
  function Repeat(l: Line, n: nat): (r: seq<Line>)
    ensures |r| == n
  {
    seq(n, _ => l)
  }

  /** The implicit faces: the k-th is the one-based triple 3k+1, 3k+2, 3k+3. */
  function FacesV1(numFaces: nat): seq<Line>
  {
    seq(numFaces, k => F(3 * k + 1, 3 * k + 2, 3 * k + 3))
  }

  /** One `vt` line per vertex, each from the last vertex: the loop reuses the
      variable `v` left by the `v` loop. */
  function UVsV1(vs: seq<VertexV1>): seq<Line>
  {
    if vs == [] then [] else Repeat(VT(vs[|vs| - 1].tu, vs[|vs| - 1].tv), |vs|)
  }

  /** One `vn` line per vertex, each from the last vertex. */
  function NormalsV1(vs: seq<VertexV1>): seq<Line>
  {
    if vs == [] then [] else Repeat(VN(vs[|vs| - 1].nx, vs[|vs| - 1].ny, vs[|vs| - 1].nz), |vs|)
  }

  /** The v1 output, in its fixed order. */
  function LinesV1(vs: seq<VertexV1>, scale: real, numFaces: nat): seq<Line>
  {
    [Comment(CommentV1(scale))] + PositionsV1(vs) + UVsV1(vs) + NormalsV1(vs) + [S1] + FacesV1(numFaces)
  }

  /** The v1 branch once the face-count line has been read: parse it, scan
      the rest of the input for tuples, group them into vertices, write the
      lines. A negative face count leaves every range empty, as zero does. */
  function V1Decode(line: seq<byte>, rest: seq<byte>, scale: real): (o: Outcome)
    ensures o.Failed? ==> o.why == BadFaceCount || o.why == TupleOverflow || o.why == MissingTuples
  {
    match ParseInt(line)
    case None => Failed(BadFaceCount)
    case Some(numFaces) =>
      var faces: nat := if numFaces < 0 then 0 else numFaces;
      match TupleStream(rest)
      case None => Failed(TupleOverflow)
      case Some(tuples) =>
        if |tuples| < 9 * faces then Failed(MissingTuples)
        else Converted(LinesV1(GroupVertices(tuples, 3 * faces, scale), scale, faces))
  }

  /** The v1 branch, after its tag: the face-count line is read from offset 13. */
  function V1Outcome(input: seq<byte>, scale: real): Outcome
    requires TagSize <= |input|
  {
    V1Decode(ReadLine(input, TagSize), input[TagSize + |ReadLine(input, TagSize)|..], scale)
  }

  // ----- v2 records

  const HeaderSize: nat := 12  // struct.calcsize("HBBII"), native alignment
  const VertexSize: nat := 40  // struct.calcsize("ffffffffbbbbBBBB")
  const FaceSize: nat := 12    // struct.calcsize("III")
  const VertexStart: nat := 25 // TagSize + HeaderSize

  function UnpackHeader(h: seq<byte>): MeshHeader
    requires |h| == HeaderSize
  {
    MeshHeader(FromLE(h[0..2]), h[2], h[3], FromLE(h[4..8]), FromLE(h[8..12]))
  }

  function UnpackVertex(rec: seq<byte>): VertexV2
    requires |rec| == VertexSize
  {
    VertexV2(
      Raw(rec[0..4]), Raw(rec[4..8]), Raw(rec[8..12]), Raw(rec[12..16]),
      Raw(rec[16..20]), Raw(rec[20..24]), Raw(rec[24..28]), Raw(rec[28..32]),
      Int8(rec[32]), Int8(rec[33]), Int8(rec[34]), Int8(rec[35]),
      rec[36], rec[37], rec[38], rec[39])
  }

  /** A vertex record, with its colour replaced by opaque white when the
      header's vertex size is not 40. */
  function DecodeVertex(rec: seq<byte>, noColor: bool): VertexV2
    requires |rec| == VertexSize
  {
    var v := UnpackVertex(rec);
    if noColor then v.(r := 255, g := 255, b := 255, a := 255) else v
  }

  /** A face record, each index made one-based; no wrap-around, no range check. */
  function DecodeFace(rec: seq<byte>): FaceV2
    requires |rec| == FaceSize
  {
    FaceV2(FromLE(rec[0..4]) + 1, FromLE(rec[4..8]) + 1, FromLE(rec[8..12]) + 1)
  }

  /** What `read(size)` returns for the i-th vertex record when every earlier
      read returned 40 bytes. */
  function VertexRecord(data: seq<byte>, start: nat, size: nat, i: nat): seq<byte>
  {
    ReadAt(data, start + 40 * i, size)
  }

  function FaceRecord(data: seq<byte>, start: nat, size: nat, i: nat): seq<byte>
  {
    ReadAt(data, start + 12 * i, size)
  }

  /** The vertex array: `count` reads of `size` bytes, each of which must
      return exactly 40 bytes for struct.unpack to succeed. */
  function DecodeVertices(data: seq<byte>, start: nat, size: nat, count: nat): Option<seq<VertexV2>>
  {
    if forall i :: 0 <= i < count ==> |VertexRecord(data, start, size, i)| == VertexSize
    then Some(seq(count, i requires 0 <= i < count => DecodeVertex(VertexRecord(data, start, size, i), size != VertexSize)))
    else None
  }

  /** The face array: `count` reads of `size` bytes, each of which must
      return exactly 12 bytes. */
  function DecodeFaces(data: seq<byte>, start: nat, size: nat, count: nat): Option<seq<FaceV2>>
  {
    if forall i :: 0 <= i < count ==> |FaceRecord(data, start, size, i)| == FaceSize
    then Some(seq(count, i requires 0 <= i < count => DecodeFace(FaceRecord(data, start, size, i))))
    else None
  }

  function PositionsV2(vs: seq<VertexV2>): seq<Line>
  {
    seq(|vs|, k requires 0 <= k < |vs| => V(vs[k].px, vs[k].py, vs[k].pz))
  }

  function FacesV2(fs: seq<FaceV2>): seq<Line>
  {
    seq(|fs|, k requires 0 <= k < |fs| => F(fs[k].a, fs[k].b, fs[k].c))
  }

  const CommentV2: string := "# ROBLOX .mesh version 2.00"

  /** One `vt` line per vertex, each from the last vertex (the variable `v`
      left by the `v` loop). */
  function UVsV2(vs: seq<VertexV2>): seq<Line>
  {
    if vs == [] then [] else Repeat(VT(vs[|vs| - 1].tu, vs[|vs| - 1].tv), |vs|)
  }

  /** One `vn` line per vertex, each from the last vertex, z written as `1.0 - nz`. */
  function NormalsV2(vs: seq<VertexV2>): seq<Line>
  {
    if vs == [] then [] else Repeat(VN(vs[|vs| - 1].nx, vs[|vs| - 1].ny, OneMinus(vs[|vs| - 1].nz)), |vs|)
  }

  /** The v2 output, in its fixed order. */
  function LinesV2(vs: seq<VertexV2>, fs: seq<FaceV2>): seq<Line>
  {
    [Comment(CommentV2)] + PositionsV2(vs) + UVsV2(vs) + NormalsV2(vs) + [S1] + FacesV2(fs)
  }

  /** The v2 branch, after its tag. */
  function V2Outcome(input: seq<byte>): (o: Outcome)
    ensures o.Failed? ==> o.why == UnpackError || o.why == InvalidHeaderSize
    ensures o.Converted? ==> VertexStart <= |input| && UnpackHeader(input[TagSize..VertexStart]).sizeofMeshHeader == HeaderSize
  {
    var head := ReadAt(input, TagSize, HeaderSize);
    if |head| != HeaderSize then Failed(UnpackError)
    else
      var h := UnpackHeader(head);
      if h.sizeofMeshHeader != HeaderSize then Failed(InvalidHeaderSize)
      else V2Arrays(input, h)
  }

  /** The v2 branch after a well-sized header: the vertex array from offset
      25, the face array right after the 40-byte vertex reads, the lines. */
  function V2Arrays(input: seq<byte>, h: MeshHeader): (o: Outcome)
    ensures o.Failed? ==> o.why == UnpackError
  {
    match DecodeVertices(input, VertexStart, h.sizeofVertex, h.numVerts)
    case None => Failed(UnpackError)
    case Some(vs) =>
      match DecodeFaces(input, VertexStart + 40 * h.numVerts, h.sizeofFace, h.numFaces)
      case None => Failed(UnpackError)
      case Some(fs) => Converted(LinesV2(vs, fs))
  }

  // ----- convert

  /** `convert(inputFile, outputFile)`: the first 13 bytes choose the branch. */
  function Conversion(input: seq<byte>): Outcome
  {
    var version := ReadAt(input, 0, TagSize);
    if version == Tag100 || version == Tag101 then
      V1Outcome(input, if version == Tag100 then 0.5 else 1.0)
    else if version == Tag200 then V2Outcome(input)
    else Failed(UnknownVersion)
  }
}
