# Roblox cache saver: mesh converter and cache-envelope stripper

This project models, in Dafny, the two byte-stream transforms at the centre of
the tool.

**`convert` (mesh.py).** It reads a Roblox `.mesh` file and writes an OBJ-style
text file.
- The first 13 bytes are a version tag. `version 1.00\n` and `version 1.01\n`
  select the text-tuple decoder; `version 2.00\n` selects the binary decoder.
  Any other tag returns False.
- The v1 decoder reads a face-count line and tokenizes the rest of the file
  into bracketed `[a,b,c]` tuples. It groups them in threes into position,
  normal and UV, and scales positions by 0.5 (v1.00) or 1.0 (v1.01).
- The v2 decoder unpacks the `HBBII` header at bytes 13..25. It then reads
  `numVerts` vertex records (`ffffffffbbbbBBBB`, 40 bytes) and `numFaces`
  face records (`III`, 12 bytes), and makes the face indices one-based.
- Both decoders write lines in a fixed order: comment, `v`, `vt`, `vn`,
  `s 1`, `f`.

**`do_file` (read.py).** It strips the fixed `RBXH` HTTP-cache envelope from a
cached file and copies out the payload.
- A file without the magic is copied whole.
- A status code outside 200..299 writes no file.
- Otherwise the bytes from offset `37 + url_len + header_size` are copied
  with a chunked read loop.

## Layout

- `byte_stream.dfy`, module `ByteStream`:
  - bytes, and `ReadAt`, a Python `f.read(n)` at a cursor (short at end of
    file, empty past it);
  - little-endian integers and their encoders;
  - signed bytes.
- `mesh_format.dfy`, module `MeshFormat`:
  - the record types of mesh.py (`mesh_v1.*`, `mesh_v2.*`), the output
    `Line` datatype, and the `Outcome` and `Failure` datatypes;
  - every step of `convert` as a function, ending with `Conversion`.
- `mesh_convert.dfy`, module `MeshConvert`:
  - `convert` as the imperative program it is: the tokenizer loop with its
    mutable two-slot `currTuple` array, arrays preallocated and filled by
    index, and emission loops that append to the output;
  - each method is proved equal to its `MeshFormat` function.
- `mesh_properties.dfy`, module `MeshProperties`: what the v1 branch and the
  dispatch promise.
- `mesh_v2_properties.dfy`, module `MeshV2Properties`: what the v2 branch
  promises, including the round trip from a laid-out file.
- `cache_envelope.dfy`, module `CacheEnvelope`: `do_file`, the cursor walk
  and the copy loop, proved against a function, plus the round trip from an
  envelope laid out by the engine.

Modelling choices:

**Values.**
- Floats stay symbolic. `Num` records how a value was obtained:
  - a v1 text token;
  - four raw bytes of a v2 record;
  - `x * scale`;
  - `1.0 - x`;
  - the literal 0.
- Output is a sequence of `Line` values, not text.
- `Outcome` is either `Converted(lines)`, or `Failed(why)` where `why`
  names one of the function's `return False` paths or the Python exception
  it raises. Every failure of `convert` happens before its first write, so
  a failure writes nothing.

**Native `struct`.** Native `struct` order is taken to be little-endian. The
sizes are those that `calcsize` gives with native alignment: 12, 40 and 12.

**The v2 branch** is modelled as written:
- every record read must return exactly the bytes its format needs;
- `noColor` holds when `sizeof_Vertex != 40`;
- the `vt` and `vn` loops reuse the last vertex `v`;
- face indices get `+ 1` with no wrap-around.

**The v1 branch** cannot run as written (see "Left out"), so the evident
intent is modelled:
- the byte loop stops at end of input, and a token still open there is
  dropped;
- each `]` appends a tuple in stream order;
- `currTuple` has two slots, so a third `,` in one tuple is an IndexError;
- the three fields of a tuple go to the three vertex fields in order;
- `vertices[i // 3]` groups the tuples three at a time.

**Checks the code makes, and checks it does not make:**
- The v2 header size field is compared with `struct.calcsize("HBBII")`,
  which is 12 (mesh.py:169, 178-180).
- `sizeof_Vertex` is never checked. Each vertex read asks for that many
  bytes, and unpacking them needs exactly 40 (mesh.py:186, 206).
- The v2 `vt` and `vn` loops both reuse the last vertex `v` left by the
  position loop (mesh.py:223-232).
- A negative v1 face count is accepted by `int()`, and every range built
  from it is then empty (mesh.py:73-75, 114, 139, 143, 149).
- The version is a single comparison of the first 13 bytes with each of the
  three tags (mesh.py:66-69, 157).

## Model

| member | source | states |
|---|---|---|
| ByteStream.ReadAt | mesh.py:66 | a read of n bytes at a cursor returns min(n, bytes left) bytes, and none at or past the end of the file |
| ByteStream.FromLE | read.py:32 | `int.from_bytes(.., 'little')` of k bytes is below 256^k |
| ByteStream.LE32 | read.py:32 | four bytes that read back as x under `from_bytes` (the partner of FromLE for u32 fields) |
| ByteStream.LE16 | mesh.py:176 | two bytes that unpack as the `H` field x |
| ByteStream.Int8 | mesh.py:206 | a `b` field is in -128..127 and congruent to its byte mod 256 |
| ByteStream.Int8Byte | mesh.py:206 | the byte that unpacks as a given signed value, the inverse of Int8 |
| MeshFormat.ReadLine | mesh.py:71 | `readline()`: the input at the cursor up to and including the first newline, or to the end; empty only at the end |
| MeshFormat.TrimStart | mesh.py:73 | `int()` skips exactly the leading ASCII whitespace |
| MeshFormat.TrimEnd | mesh.py:73 | `int()` skips exactly the trailing ASCII whitespace |
| MeshFormat.V1Decode | mesh.py:71-155 | after its tag the v1 branch fails only on the face count, a tuple overflow or missing tuples |
| MeshFormat.V2Outcome | mesh.py:168-180 | after its tag the v2 branch fails only by an unpack error or an invalid header size; success implies a full header whose size field is 12 |
| MeshFormat.V2Arrays | mesh.py:182-217 | after a valid header the only failure is an unpack error |
| MeshConvert.ScanTuples | mesh.py:78-110 | the tokenizer loop over the mutable `currTuple` array computes the tuple stream of the bytes after the face-count line |
| MeshConvert.BuildVerticesV1 | mesh.py:113-130 | the preallocated vertex array, filled by index, holds the first numVerts tuple triples as vertices |
| MeshConvert.EmitV1 | mesh.py:132-154 | the v1 emission loops write exactly the v1 lines of the vertices and face count |
| MeshConvert.AppendFacesV1 | mesh.py:149-154 | the stride-3 face loop appends the faces 3k+1, 3k+2, 3k+3 for k below numFaces |
| MeshConvert.DecodeV1 | mesh.py:69-155 | the v1 branch after the tag computes the v1 outcome |
| MeshConvert.DecodeFacesV1 | mesh.py:73-155 | from the face-count line on, the branch computes V1Decode |
| MeshConvert.EmitV2 | mesh.py:219-241 | the v2 emission loops write exactly the v2 lines of the decoded arrays |
| MeshConvert.ReadVertexArray | mesh.py:182-209 | the vertex loop yields the decoded vertex array, or fails on the first read that is not 40 bytes; the cursor ends after 40 bytes per vertex |
| MeshConvert.ReadFaceArray | mesh.py:211-217 | the face loop yields the decoded one-based faces, or fails on a short or long read |
| MeshConvert.DecodeV2 | mesh.py:157-180 | the v2 branch after the tag computes the v2 outcome, including both header failures |
| MeshConvert.ReadArrays | mesh.py:182-241 | after a valid header the branch computes V2Arrays |
| MeshConvert.Convert | mesh.py:63-244 | `convert` computes Conversion: the tag picks the branch and scale, and an unknown tag fails |
| MeshProperties.ScanAppend | mesh.py:86-110 | the tokenizer over s + t is the tokenizer over s, then over t |
| MeshProperties.ScanFailureIsFinal | mesh.py:103-104 | a tokenizer that has failed stays failed, whatever follows |
| MeshProperties.ScanNext | mesh.py:86-87 | each loop turn consumes one more byte |
| MeshProperties.ScanStopsAt | mesh.py:103-104 | an IndexError part-way through fails the whole scan |
| MeshProperties.ScanAppendsOnePerClose | mesh.py:89-98 | every `]` appends exactly one tuple, and tuples already read are unchanged |
| MeshProperties.ScanFieldCountsCommas | mesh.py:96-106 | `i_currTuple` is the number of commas since the last `]` |
| MeshProperties.ScanFailsIffThirdComma | mesh.py:103-104 | the scan fails if and only if some tuple holds a third comma |
| MeshProperties.ScanToken | mesh.py:109-110 | the bytes of a number token only extend `tupleVal` |
| MeshProperties.ScanTupleText | mesh.py:89-107 | one `[a,b,c]` read from the start of a tuple appends the tuple (a, b, c) |
| MeshProperties.TupleStreamOfText | mesh.py:78-110 | tokenizing the text of a tuple list gives that list back, in order |
| MeshProperties.ParseIntOfDecimal | mesh.py:71-73 | `int()` reads back a decimal face count written with its newline, and raises ValueError exactly when it has more than 4300 digits |
| MeshProperties.DigitLimit | mesh.py:73 | a count line of an optional sign and digits is rejected by `int()` exactly when it has more than 4300 digits |
| MeshProperties.ReadLineUpTo | mesh.py:71 | `readline()` stops at the first newline after the cursor |
| MeshProperties.ReadLineOfSuffix | mesh.py:71 | `readline()` depends only on the bytes from the cursor on |
| MeshProperties.LinesV1Index | mesh.py:132-154 | the v1 lines index by index: comment, one `v` per vertex, `vt` and `vn` from the last vertex, `s 1`, then the k-th face 3k+1, 3k+2, 3k+3 |
| MeshProperties.GroupedLinesV1 | mesh.py:113-154 | the lines of grouped tuples: the i-th `v` holds tuple 3(i-1) times the scale; every `vt` and `vn` holds the last group's UV and normal tuples, unscaled |
| MeshProperties.V1Lines | mesh.py:73-155 | with a face count n and at least 9n tuples the branch succeeds with that shape, and extra tuples are ignored |
| MeshProperties.NegativeFaceCount | mesh.py:73-75 | a negative face count that `int()` accepts writes only the comment and `s 1`, exactly when the scan succeeds |
| MeshProperties.V1Failures | mesh.py:73-130 | each v1 failure happens exactly when its cause is in the bytes: the face count is not an integer of at most 4300 digits; a third comma; fewer than 9 closed tuples per face |
| MeshProperties.VersionDispatch | mesh.py:66-69 | the result is an unknown-version failure exactly when the first 13 bytes are none of the three tags, so any input shorter than 13 bytes fails |
| MeshProperties.FaceCountLine | mesh.py:66-71 | in a laid-out v1 file, the tag is read, then the face-count line, then the tuple text follows |
| MeshProperties.V1RoundTrip | mesh.py:69-155 | a v1 file of tag, decimal face count and plain tuple text converts to the shape of exactly those tuples, or fails on the face count when it has more than 4300 digits |
| MeshProperties.V1ScaleOnlyTouchesPositions | mesh.py:118-120 | at scales 0.5 and 1.0, V1Decode fails alike or writes the same lines, except the comment and the factor of each `v` line |
| MeshProperties.RescaledLinesV1 | mesh.py:118-136 | the two scalings of the same grouped tuples differ only in the comment and the `v` factors |
| MeshProperties.ScaleOnlyTouchesPositions | mesh.py:69-70 | files tagged 1.00 and 1.01 with the same bytes after the tag differ in output only by scale 0.5 against 1.0 |
| MeshProperties.V1Branches | mesh.py:69-71 | both v1 tags read the same face-count line and run V1Decode at their own scale |
| MeshV2Properties.FalseReturns | mesh.py:63-244 | `convert` returns False exactly when the tag is none of the three, or the tag is v2, the 12-byte header is present and its size field is not 12; every other failure is a raised exception |
| MeshV2Properties.ExactRead | mesh.py:206 | a read that returned w bytes returned the w bytes at the cursor |
| MeshV2Properties.LinesV2Index | mesh.py:219-240 | the v2 lines index by index: comment, `v` per vertex, `vt`/`vn` from the last vertex with z as 1.0 - nz, `s 1`, one `f` per face in read order |
| MeshV2Properties.HeaderRead | mesh.py:169-176 | the header is bytes 13..25, and a shorter input reads fewer than 12 bytes |
| MeshV2Properties.V2Failures | mesh.py:169-180 | v2 failures are an unpack error or an invalid header size; an input under 25 bytes is an unpack error; the header size is invalid exactly when the u16 at 13 is not 12 |
| MeshV2Properties.VertexFields | mesh.py:187-209 | each field of a decoded vertex is the float, signed byte or colour byte at its offset, or 255 when noColor |
| MeshV2Properties.FaceFields | mesh.py:211-217 | a decoded face is the three u32 of its record, each plus one |
| MeshV2Properties.DecodedVertices | mesh.py:187-206 | a decoded vertex array fits the input, and vertex k is the 40-byte record at start + 40k |
| MeshV2Properties.DecodedFaces | mesh.py:212-214 | a decoded face array fits the input, and face k is the 12-byte record at start + 12k |
| MeshV2Properties.V2Lines | mesh.py:157-241 | a successful v2 conversion has header size 12, holds every announced record, and each output line comes from the stated bytes |
| MeshV2Properties.ArraysLines | mesh.py:182-241 | after the header, converted arrays fit the input and give lines of that shape |
| MeshV2Properties.DecodedLines | mesh.py:182-240 | the lines of two decoded arrays, the faces following the 40-byte vertex reads, have that shape |
| MeshV2Properties.LinesV2Shape | mesh.py:219-240 | the lines of decoded records have the full v2 shape |
| MeshV2Properties.PositionLinesOf | mesh.py:222-224 | line i is `v` of the first three floats of record i - 1 |
| MeshV2Properties.LastVertexLinesOf | mesh.py:226-232 | every `vt` line holds floats 6 and 7 of the last record, and every `vn` line floats 3 and 4 and one minus float 5 |
| MeshV2Properties.FaceLinesOf | mesh.py:236-240 | face line k holds the three u32 of face record k, each plus one |
| MeshV2Properties.V2Truncation | mesh.py:176-217 | with sizes 12/40/12 the conversion succeeds exactly when the input holds every announced record, and otherwise fails to unpack |
| MeshV2Properties.TruncatedArrays | mesh.py:187-217 | with sizes 40/12 the arrays decode exactly when they fit |
| MeshV2Properties.OddVertexSize | mesh.py:186-209 | a vertex size other than 40 with any vertex converts only when the size exceeds 40, there is one vertex and no face, and the input is exactly 65 bytes |
| MeshV2Properties.OddVertexArrays | mesh.py:186-209 | the same corner, stated on the arrays after the header |
| MeshV2Properties.OddFaceSize | mesh.py:212-214 | a face size other than 12 with any face converts only with one face whose record is the last 12 bytes and a declared size over 12 |
| MeshV2Properties.OddFaceArrays | mesh.py:212-214 | the same corner, stated on the arrays after the header |
| MeshV2Properties.UnpackVertexBytes | mesh.py:206 | unpacking a vertex record gives back the vertex |
| MeshV2Properties.DecodeFaceBytes | mesh.py:214-217 | decoding a face record gives back the one-based face |
| MeshV2Properties.ConcatAt | mesh.py:187-214 | in records of width w laid end to end, record k is the w bytes at Offset(w, k), the sum of the k widths before it |
| MeshV2Properties.HeaderLayout | mesh.py:160-176 | a laid-out header unpacks to sizes 12, 40, 12 and the two counts |
| MeshV2Properties.RecordsRead | mesh.py:176-217 | the records after a laid-out header decode to the vertices and faces |
| MeshV2Properties.VerticesRead | mesh.py:187-206 | laid-out vertex records decode to the vertex list |
| MeshV2Properties.FacesRead | mesh.py:212-214 | laid-out face records decode to the face list |
| MeshV2Properties.V2RoundTrip | mesh.py:157-241 | a file of tag, header and records decodes to its vertices and faces, and converts to exactly their lines |
| CacheEnvelope.Output | read.py:22-48 | any file written is a suffix of the input, and the whole input when the magic is missing |
| CacheEnvelope.ReadEnvelope | read.py:24-41 | the read/seek cursor walk computes the envelope action, including seeks past the end |
| CacheEnvelope.CopyFrom | read.py:43-48 | the chunked copy loop writes the input from the cursor to the end, unchanged and in order |
| CacheEnvelope.DoFile | read.py:22-48 | `do_file` writes exactly Output(file) |
| CacheEnvelope.EnvelopeMagic | read.py:24 | an engine envelope starts with the magic |
| CacheEnvelope.EnvelopeUrlLength | read.py:32 | the URL length is the u32 at offset 8 |
| CacheEnvelope.EnvelopeStatus | read.py:35 | the status code is the u32 at 13 + url_len |
| CacheEnvelope.EnvelopeHeadersSize | read.py:38 | the header size is the u32 at 17 + url_len |
| CacheEnvelope.EnvelopeBody | read.py:41 | the body starts at 37 + url_len + header_size |
| CacheEnvelope.EnvelopeRoundTrip | read.py:24-48 | stripping an engine envelope gives back its body for a 2xx status, and no file otherwise |
| CacheEnvelope.TruncatedEnvelopeWritesNothing | read.py:35-37 | a file with the magic that ends by byte 13 writes nothing |

## Left out

- Float values: IEEE-754 decoding of `f` fields, the text parsing of `float(token)` and the `repr` of floats in f-strings are kept symbolic (`Num`). A `float()` ValueError on a malformed or empty token is therefore not modelled.
- MeshConvert.DecodeFacesV1: `int()` on the face-count line is modelled as accepting ASCII whitespace, a sign and one to 4300 decimal digits. Underscores between digits are not modelled. The digit limit is the interpreter's default `sys.int_max_str_digits`; it can be changed at run time or by the environment, and interpreters older than the limit have none, so the model fixes it at 4300.
- The v1 runtime defects are not reproduced; each is modelled as its evident intent:
  - mesh.py:86 `while inputFile.tell()` never ends at end of file; the scan stops there.
  - mesh.py:94 indexes an empty list; tuples are appended.
  - mesh.py:104 assigns into the tuple `(0, 0)`; `currTuple` is a two-slot array.
  - mesh.py:115 `tuples + i` is a type error; it is read as the slice from i.
  - mesh.py:122-123 assign `nx` twice and never set `ny`; `ny` gets the tuple's second field.
  - mesh.py:130 a float index `i / 3`; it is read as `i // 3`.
  - mesh.py:132 `bytes()` without an encoding; the comment text is written.
- I/O: real streams, `print` diagnostics, `shutil.copy`, and file opening and closing are modelled as byte sequences with a cursor, and the output as a `Line` sequence or an optional byte sequence.
- Memory: the preallocated `numVerts * [None]` lists of mesh.py:113 and mesh.py:182-183 are allocated up front, so a huge count could exhaust memory; the model does not capture that.
- `perform` in read.py and both `__main__` blocks: directory scans, sorting, file naming and environment lookups are filesystem and process I/O.
- Platform: native byte order and alignment of `struct` are taken as little-endian with the sizes 12, 40 and 12.

