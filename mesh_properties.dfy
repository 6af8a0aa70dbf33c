/** What `convert` promises, proved about the functions of module MeshFormat. */
module MeshProperties {
  import opened ByteStream
  import opened MeshFormat

  // ----- the tokenizer

  /** Running the tokenizer over `s + t` is running it over `s`, then over `t`. */
  lemma {:induction false} ScanAppend(st: ScanState, s: seq<byte>, t: seq<byte>)
    ensures Scan(st, s + t) == match Scan(st, s) case None => None case Some(m) => Scan(m, t)
    decreases |t|
  {
    if t == [] {
      assert s + t == s;
    } else {
      assert (s + t)[..|s + t| - 1] == s + t[..|t| - 1];
      ScanAppend(st, s, t[..|t| - 1]);
    }
  }

  /** Once a scan has failed, no further input revives it. */
  lemma ScanFailureIsFinal(st: ScanState, s: seq<byte>, t: seq<byte>)
    requires Scan(st, s) == None
    ensures Scan(st, s + t) == None
  {
    ScanAppend(st, s, t);
  }

  /** The tokenizer on a single byte is one step. */
  lemma ScanOne(st: ScanState, b: byte)
    ensures Scan(st, [b]) == ScanByte(st, b)
  {
    assert [b][..0] == [];
  }

  /** The tokenizer over the bytes from `start` up to and including `pos`
      is one more step after those before `pos`. */
  lemma ScanNext(data: seq<byte>, start: nat, pos: nat)
    requires start <= pos < |data|
    ensures Scan(ScanStart, data[start..pos + 1])
         == match Scan(ScanStart, data[start..pos])
            case None => None
            case Some(m) => ScanByte(m, data[pos])
  {
    assert data[start..pos + 1][..pos - start] == data[start..pos];
  }

  /** A tokenizer that failed on the bytes up to `pos` fails on the whole input. */
  lemma ScanStopsAt(data: seq<byte>, start: nat, pos: nat)
    requires start <= pos <= |data| && Scan(ScanStart, data[start..pos]) == None
    ensures TupleStream(data[start..]) == None
  {
    ScanFailureIsFinal(ScanStart, data[start..pos], data[pos..]);
    assert data[start..pos] + data[pos..] == data[start..];
  }

  /** How many times `b` occurs in `s`. */
  function CountOf(s: seq<byte>, b: byte): nat
  {
    if s == [] then 0 else CountOf(s[..|s| - 1], b) + (if s[|s| - 1] == b then 1 else 0)
  }

  /** Every `]` appends exactly one tuple, in stream order, and no tuple
      already read is changed. */
  lemma {:induction false} ScanAppendsOnePerClose(st: ScanState, s: seq<byte>)
    requires Scan(st, s).Some?
    ensures |Scan(st, s).value.tuples| == |st.tuples| + CountOf(s, Close)
    ensures Scan(st, s).value.tuples[..|st.tuples|] == st.tuples
    decreases |s|
  {
    if s != [] {
      ScanAppendsOnePerClose(st, s[..|s| - 1]);
    }
  }

  /** The number of `,` since the last `]` (or since the start). */
  function OpenCommas(s: seq<byte>): nat
  {
    if s == [] then 0
    else if s[|s| - 1] == Close then 0
    else OpenCommas(s[..|s| - 1]) + (if s[|s| - 1] == Comma then 1 else 0)
  }

  /** Some `,` is the third of its tuple. */
  predicate Overflows(s: seq<byte>)
  {
    exists j :: 0 <= j < |s| && s[j] == Comma && OpenCommas(s[..j]) >= 2
  }

  /** `i_currTuple` counts the commas of the tuple being read. */
  lemma {:induction false} ScanFieldCountsCommas(s: seq<byte>)
    requires Scan(ScanStart, s).Some?
    ensures Scan(ScanStart, s).value.field == OpenCommas(s)
    decreases |s|
  {
    if s != [] {
      ScanFieldCountsCommas(s[..|s| - 1]);
    }
  }

  /** The tokenizer fails exactly when some tuple has a third comma. */
  lemma {:induction false} ScanFailsIffThirdComma(s: seq<byte>)
    ensures Scan(ScanStart, s).None? <==> Overflows(s)
    decreases |s|
  {
    if s != [] {
      var p := s[..|s| - 1];
      var last := s[|s| - 1];
      ScanFailsIffThirdComma(p);
      if Overflows(p) {
        var j :| 0 <= j < |p| && p[j] == Comma && OpenCommas(p[..j]) >= 2;
        assert s[..j] == p[..j];
      }
      if Overflows(s) {
        var j :| 0 <= j < |s| && s[j] == Comma && OpenCommas(s[..j]) >= 2;
        if j < |p| {
          assert s[..j] == p[..j];
        }
      }
      if Scan(ScanStart, p).Some? {
        ScanFieldCountsCommas(p);
        if last == Comma && OpenCommas(p) >= 2 {
          assert s[..|p|] == p;
        }
      }
    }
  }

  // ----- the text the v1 format holds

  /** A number token as the text format writes it: no bracket and no comma. */
  predicate PlainToken(t: seq<byte>)
  {
    forall i :: 0 <= i < |t| ==> t[i] != Open && t[i] != Comma && t[i] != Close
  }

  /** The three tokens of one `[a,b,c]`. */
  datatype TextTuple = TextTuple(a: seq<byte>, b: seq<byte>, c: seq<byte>)

  predicate PlainTuple(t: TextTuple)
  {
    PlainToken(t.a) && PlainToken(t.b) && PlainToken(t.c)
  }

  function TupleText(t: TextTuple): seq<byte>
  {
    [Open] + t.a + [Comma] + t.b + [Comma] + t.c + [Close]
  }

  function TuplesText(ts: seq<TextTuple>): seq<byte>
  {
    if ts == [] then [] else TuplesText(ts[..|ts| - 1]) + TupleText(ts[|ts| - 1])
  }

  /** The tuple the converter builds from one text tuple. */
  function ParsedTuple(t: TextTuple): Tuple
  {
    Tuple(Parsed(t.a), Parsed(t.b), Parsed(t.c))
  }

  /** The tuples the converter builds from a list of text tuples. */
  function ParsedTuples(ts: seq<TextTuple>): (r: seq<Tuple>)
    ensures |r| == |ts| && forall i :: 0 <= i < |ts| ==> r[i] == ParsedTuple(ts[i])
  {
    if ts == [] then [] else ParsedTuples(ts[..|ts| - 1]) + [ParsedTuple(ts[|ts| - 1])]
  }

  /** The bytes of a plain token only extend `tupleVal`. */
  lemma {:induction false} ScanToken(st: ScanState, tok: seq<byte>)
    requires PlainToken(tok)
    ensures Scan(st, tok) == Some(st.(token := st.token + tok))
    decreases |tok|
  {
    if tok != [] {
      var p := tok[..|tok| - 1];
      assert PlainToken(p);
      ScanToken(st, p);
      assert tok[..|tok| - 1] == p;
      assert st.token + p + [tok[|tok| - 1]] == st.token + tok;
    } else {
      assert st.token + tok == st.token;
    }
  }

  /** One `[a,b,c]` read from the start of a tuple yields the tuple (a, b, c). */
  lemma ScanTupleText(st: ScanState, t: TextTuple)
    requires PlainTuple(t) && st.field == 0 && st.token == []
    ensures Scan(st, TupleText(t)) == Some(ScanState(st.tuples + [ParsedTuple(t)], Parsed(t.a), Parsed(t.b), 0, []))
  {
    var x1 := [Open];
    var x2 := x1 + t.a;
    var x3 := x2 + [Comma];
    var x4 := x3 + t.b;
    var x5 := x4 + [Comma];
    var x6 := x5 + t.c;
    var x7 := x6 + [Close];
    assert x7 == TupleText(t);
    var s2 := st.(token := t.a);
    var s3 := s2.(first := Parsed(t.a), field := 1, token := []);
    var s4 := s3.(token := t.b);
    var s5 := s4.(second := Parsed(t.b), field := 2, token := []);
    var s6 := s5.(token := t.c);
    ScanOne(st, Open);
    assert Scan(st, x1) == Some(st);
    ScanStep(st, x1, t.a, st, s2);
    ScanStep(st, x2, [Comma], s2, s3);
    ScanStep(st, x3, t.b, s3, s4);
    ScanStep(st, x4, [Comma], s4, s5);
    ScanStep(st, x5, t.c, s5, s6);
    ScanStep(st, x6, [Close], s6, ScanState(st.tuples + [ParsedTuple(t)], Parsed(t.a), Parsed(t.b), 0, []));
  }

  /** Chains two scans: `x` takes `st` to `m`, and `y` alone takes `m` to `n`. */
  lemma ScanStep(st: ScanState, x: seq<byte>, y: seq<byte>, m: ScanState, n: ScanState)
    requires Scan(st, x) == Some(m)
    requires (PlainToken(y) && n == m.(token := m.token + y)) || (|y| == 1 && ScanByte(m, y[0]) == Some(n))
    ensures Scan(st, x + y) == Some(n)
  {
    ScanAppend(st, x, y);
    if |y| == 1 && ScanByte(m, y[0]) == Some(n) {
      assert y == [y[0]];
      ScanOne(m, y[0]);
    } else {
      ScanToken(m, y);
    }
  }

  /** Tokenizing the text of a list of tuples gives the list back, in order. */
  lemma {:induction false} TupleStreamOfText(ts: seq<TextTuple>)
    requires forall i :: 0 <= i < |ts| ==> PlainTuple(ts[i])
    ensures TupleStream(TuplesText(ts)) == Some(ParsedTuples(ts))
    ensures Scan(ScanStart, TuplesText(ts)).Some?
    ensures Scan(ScanStart, TuplesText(ts)).value.field == 0 && Scan(ScanStart, TuplesText(ts)).value.token == []
    decreases |ts|
  {
    if ts != [] {
      var p := ts[..|ts| - 1];
      TupleStreamOfText(p);
      var m := Scan(ScanStart, TuplesText(p)).value;
      ScanAppend(ScanStart, TuplesText(p), TupleText(ts[|ts| - 1]));
      ScanTupleText(m, ts[|ts| - 1]);
      assert TuplesText(ts) == TuplesText(p) + TupleText(ts[|ts| - 1]);
    }
  }

  // ----- the face-count line

  /** The decimal digits of `n`, most significant first. */
  function Decimal(n: nat): (ds: seq<byte>)
    ensures ds != [] && AllDigits(ds) && DigitsValue(ds) == n
  {
    if n < 10 then [48 + n]
    else
      var ds := Decimal(n / 10) + [48 + n % 10];
      assert ds[..|ds| - 1] == Decimal(n / 10);
      ds
  }

  /** `int()` reads back the face count written in decimal with its newline,
      unless it has more digits than the interpreter's limit. */
  lemma ParseIntOfDecimal(n: nat)
    ensures ParseInt(Decimal(n) + [Newline]) == if |Decimal(n)| <= MaxStrDigits then Some(n) else None
  {
    var ds := Decimal(n);
    assert ParseInt(ds + [Newline]) == ParseSigned(ds) by {
      assert !IsSpace(ds[0]) && !IsSpace(ds[|ds| - 1]);
      TrimmedLine(ds);
    }
  }

  /** A signed run of digits on its own line: `int()` rejects it exactly when
      it has more digits than the interpreter's limit, whatever the sign. */
  lemma DigitLimit(sign: seq<byte>, ds: seq<byte>)
    requires sign == [] || sign == [Plus] || sign == [Minus]
    requires ds != [] && AllDigits(ds)
    ensures ParseInt(sign + ds + [Newline]).None? <==> |ds| > MaxStrDigits
  {
    if sign == [] {
      assert sign + ds == ds;
      UnsignedLimit(ds);
    } else {
      SignedLimit(sign[0], ds);
    }
  }

  /** DigitLimit without a sign. */
  lemma UnsignedLimit(ds: seq<byte>)
    requires ds != [] && AllDigits(ds)
    ensures ParseInt(ds + [Newline]).None? <==> |ds| > MaxStrDigits
  {
    assert ParseInt(ds + [Newline]) == ParseSigned(ds) by {
      assert !IsSpace(ds[0]) && !IsSpace(ds[|ds| - 1]);
      TrimmedLine(ds);
    }
  }

  /** DigitLimit with a leading `+` or `-`. */
  lemma SignedLimit(c: byte, ds: seq<byte>)
    requires c == Plus || c == Minus
    requires ds != [] && AllDigits(ds)
    ensures ParseInt([c] + ds + [Newline]).None? <==> |ds| > MaxStrDigits
  {
    var t := [c] + ds;
    assert ParseInt(t + [Newline]) == ParseSigned(t) by {
      assert t[|t| - 1] == ds[|ds| - 1];
      TrimmedLine(t);
    }
    assert ParseSigned(t).None? <==> |ds| > MaxStrDigits by {
      assert t[0] == c && t[1..] == ds;
    }
  }

  /** `int()`'s whitespace stripping leaves a line without outer spaces as it was. */
  lemma TrimmedLine(t: seq<byte>)
    requires t != [] && !IsSpace(t[0]) && !IsSpace(t[|t| - 1])
    ensures TrimEnd(TrimStart(t + [Newline])) == t
  {
    var line := t + [Newline];
    assert TrimStart(line) == line;
    assert line[..|line| - 1] == t;
  }

  /** `readline()` stops at the first newline at or after the cursor. */
  lemma {:induction false} ReadLineUpTo(data: seq<byte>, pos: nat, len: nat)
    requires pos + len < |data| && data[pos + len] == Newline
    requires forall i :: pos <= i < pos + len ==> data[i] != Newline
    ensures ReadLine(data, pos) == data[pos..pos + len + 1]
    decreases len
  {
    if len > 0 {
      ReadLineUpTo(data, pos + 1, len - 1);
    }
  }

  /** `readline()` sees only the bytes from the cursor on. */
  lemma {:induction false} ReadLineOfSuffix(d1: seq<byte>, d2: seq<byte>, pos: nat)
    requires pos <= |d1| && pos <= |d2| && d1[pos..] == d2[pos..]
    ensures ReadLine(d1, pos) == ReadLine(d2, pos)
    decreases |d1| - pos
  {
    if pos < |d1| {
      assert d1[pos] == d1[pos..][0] == d2[pos..][0] == d2[pos];
      assert d1[pos + 1..] == d1[pos..][1..];
      assert d2[pos + 1..] == d2[pos..][1..];
      ReadLineOfSuffix(d1, d2, pos + 1);
    }
  }

  // ----- the v1 output

  /** The v1 lines of a vertex list, index by index. */
  lemma LinesV1Index(vs: seq<VertexV1>, scale: real, numFaces: nat)
    requires |vs| == 3 * numFaces
    ensures var lines := LinesV1(vs, scale, numFaces);
      && |lines| == 2 + 10 * numFaces
      && lines[0] == Comment(CommentV1(scale))
      && (forall i :: 1 <= i < 1 + 3 * numFaces ==> lines[i] == V(vs[i - 1].px, vs[i - 1].py, vs[i - 1].pz))
      && (forall i :: 1 + 3 * numFaces <= i < 1 + 6 * numFaces ==>
            lines[i] == VT(vs[|vs| - 1].tu, vs[|vs| - 1].tv))
      && (forall i :: 1 + 6 * numFaces <= i < 1 + 9 * numFaces ==>
            lines[i] == VN(vs[|vs| - 1].nx, vs[|vs| - 1].ny, vs[|vs| - 1].nz))
      && lines[1 + 9 * numFaces] == S1
      && (forall i :: 2 + 9 * numFaces <= i < 2 + 10 * numFaces ==>
            var k := i - (2 + 9 * numFaces); lines[i] == F(3 * k + 1, 3 * k + 2, 3 * k + 3))
  {
    var n := |vs|;
    var x1 := [Comment(CommentV1(scale))] + PositionsV1(vs);
    var x2 := x1 + UVsV1(vs);
    var x3 := x2 + NormalsV1(vs);
    var x4 := x3 + [S1];
    assert LinesV1(vs, scale, numFaces) == x4 + FacesV1(numFaces);
    assert |x1| == 1 + n;
    assert |x2| == 1 + 2 * n;
    assert |x3| == 1 + 3 * n;
  }

  /** What the v1 branch writes for the vertices grouped from `tuples`: the
      comment; one `v` per vertex, the i-th from the scaled position tuple
      3(i-1); `vt` and `vn` lines all taken from the last group (its UV and
      normal tuples, unscaled); `s 1`; and the k-th face `3k+1 3k+2 3k+3`. */
  predicate V1Shape(lines: seq<Line>, scale: real, numFaces: nat, tuples: seq<Tuple>)
    requires 9 * numFaces <= |tuples|
  {
    && |lines| == 2 + 10 * numFaces
    && lines[0] == Comment(CommentV1(scale))
    && (forall i :: 1 <= i < 1 + 3 * numFaces ==>
          var t := tuples[3 * (i - 1)]; lines[i] == V(Scaled(scale, t.a), Scaled(scale, t.b), Scaled(scale, t.c)))
    && (forall i :: 1 + 3 * numFaces <= i < 1 + 6 * numFaces ==>
          var t := tuples[9 * numFaces - 1]; lines[i] == VT(t.a, t.b))
    && (forall i :: 1 + 6 * numFaces <= i < 1 + 9 * numFaces ==>
          var t := tuples[9 * numFaces - 2]; lines[i] == VN(t.a, t.b, t.c))
    && lines[1 + 9 * numFaces] == S1
    && (forall i :: 2 + 9 * numFaces <= i < 2 + 10 * numFaces ==>
          var k := i - (2 + 9 * numFaces); lines[i] == F(3 * k + 1, 3 * k + 2, 3 * k + 3))
  }

  lemma GroupedLinesV1(scale: real, numFaces: nat, tuples: seq<Tuple>)
    requires 9 * numFaces <= |tuples|
    ensures V1Shape(LinesV1(GroupVertices(tuples, 3 * numFaces, scale), scale, numFaces), scale, numFaces, tuples)
  {
    var vs := GroupVertices(tuples, 3 * numFaces, scale);
    var lines := LinesV1(vs, scale, numFaces);
    LinesV1Index(vs, scale, numFaces);
    forall i | 1 <= i < 1 + 3 * numFaces
      ensures var t := tuples[3 * (i - 1)]; lines[i] == V(Scaled(scale, t.a), Scaled(scale, t.b), Scaled(scale, t.c))
    {
      assert vs[i - 1] == MakeVertexV1(tuples[3 * (i - 1)], tuples[3 * (i - 1) + 1], tuples[3 * (i - 1) + 2], scale);
    }
    if numFaces > 0 {
      var last := 3 * numFaces - 1;
      assert vs[last] == MakeVertexV1(tuples[3 * last], tuples[3 * last + 1], tuples[3 * last + 2], scale);
      assert 3 * last + 2 == 9 * numFaces - 1;
    }
  }

  /** The face count, clamped at zero, as the range bounds use it. */
  function FaceCount(n: int): nat
  {
    if n < 0 then 0 else n
  }

  /** The v1 outcome when the face count parses to `numFaces` and the scan
      yields at least the 9 * numFaces tuples needed. Further tuples are ignored. */
  lemma V1Lines(line: seq<byte>, rest: seq<byte>, scale: real, numFaces: nat, tuples: seq<Tuple>)
    requires ParseInt(line) == Some(numFaces)
    requires TupleStream(rest) == Some(tuples)
    requires 9 * numFaces <= |tuples|
    ensures V1Decode(line, rest, scale).Converted?
    ensures V1Shape(V1Decode(line, rest, scale).lines, scale, numFaces, tuples)
  {
    GroupedLinesV1(scale, numFaces, tuples);
  }

  /** A face count below zero writes no vertex and no face: the output is the
      comment and `s 1` alone, provided the tuple scan itself succeeds. */
  lemma NegativeFaceCount(line: seq<byte>, rest: seq<byte>, scale: real)
    requires ParseInt(line).Some? && ParseInt(line).value < 0
    ensures V1Decode(line, rest, scale).Converted? <==> TupleStream(rest).Some?
    ensures V1Decode(line, rest, scale).Converted? ==> V1Decode(line, rest, scale).lines == [Comment(CommentV1(scale)), S1]
  {
    if TupleStream(rest).Some? {
      assert GroupVertices(TupleStream(rest).value, 0, scale) == [];
      assert LinesV1([], scale, 0) == [Comment(CommentV1(scale))] + [] + [] + [] + [S1] + [];
    }
  }

  /** Why the v1 branch fails, each cause stated on the bytes: the face-count
      line is not an integer; or some tuple has a third comma; or the input
      closes fewer than 9 tuples per face. Nothing else fails. */
  lemma V1Failures(line: seq<byte>, rest: seq<byte>, scale: real)
    ensures V1Decode(line, rest, scale) == Failed(BadFaceCount) <==> ParseInt(line).None?
    ensures V1Decode(line, rest, scale) == Failed(TupleOverflow) <==> ParseInt(line).Some? && Overflows(rest)
    ensures V1Decode(line, rest, scale) == Failed(MissingTuples) <==>
      ParseInt(line).Some? && !Overflows(rest) && CountOf(rest, Close) < 9 * FaceCount(ParseInt(line).value)
    ensures V1Decode(line, rest, scale).Failed? ==>
      V1Decode(line, rest, scale).why in {BadFaceCount, TupleOverflow, MissingTuples}
  {
    ScanFailsIffThirdComma(rest);
    if Scan(ScanStart, rest).Some? {
      ScanAppendsOnePerClose(ScanStart, rest);
    }
  }

  /** The 13-byte tag decides the branch: only the three known tags are
      accepted, so an input shorter than the tag is an unknown version. */
  lemma VersionDispatch(input: seq<byte>)
    ensures Conversion(input) == Failed(UnknownVersion)
        <==> ReadAt(input, 0, TagSize) != Tag100 && ReadAt(input, 0, TagSize) != Tag101
             && ReadAt(input, 0, TagSize) != Tag200
    ensures |input| < TagSize ==> Conversion(input) == Failed(UnknownVersion)
  {
    var version := ReadAt(input, 0, TagSize);
    if |input| < TagSize {
      assert |version| < |Tag100|;
    }
  }

  /** A well-formed v1 file (tag, decimal face count, newline, then text
      tuples with no bracket or comma inside a number) converts to the shape
      of its tuples, read in order. */
  lemma V1RoundTrip(tag: seq<byte>, numFaces: nat, ts: seq<TextTuple>)
    requires tag == Tag100 || tag == Tag101
    requires forall i :: 0 <= i < |ts| ==> PlainTuple(ts[i])
    requires 9 * numFaces <= |ts|
    ensures var input := tag + Decimal(numFaces) + [Newline] + TuplesText(ts);
      var scale := if tag == Tag100 then 0.5 else 1.0;
      if |Decimal(numFaces)| <= MaxStrDigits then
        && Conversion(input).Converted?
        && V1Shape(Conversion(input).lines, scale, numFaces, ParsedTuples(ts))
      else Conversion(input) == Failed(BadFaceCount)
  {
    var input := tag + Decimal(numFaces) + [Newline] + TuplesText(ts);
    var scale := if tag == Tag100 then 0.5 else 1.0;
    FaceCountLine(tag, numFaces, TuplesText(ts));
    assert Conversion(input) == V1Decode(Decimal(numFaces) + [Newline], TuplesText(ts), scale);
    ParseIntOfDecimal(numFaces);
    if |Decimal(numFaces)| <= MaxStrDigits {
      TupleStreamOfText(ts);
      V1Lines(Decimal(numFaces) + [Newline], TuplesText(ts), scale, numFaces,
              ParsedTuples(ts));
    }
  }

  /** The layout of a v1 file: `readline()` after the tag returns the face
      count with its newline, and the tuple text follows. */
  lemma FaceCountLine(tag: seq<byte>, numFaces: nat, text: seq<byte>)
    requires |tag| == TagSize
    ensures var input := tag + Decimal(numFaces) + [Newline] + text;
      && ReadAt(input, 0, TagSize) == tag
      && ReadLine(input, TagSize) == Decimal(numFaces) + [Newline]
      && input[TagSize + |Decimal(numFaces) + [Newline]|..] == text
  {
    var ds := Decimal(numFaces);
    var input := tag + ds + [Newline] + text;
    assert ReadAt(input, 0, TagSize) == input[0..TagSize] == tag;
    forall i | TagSize <= i < TagSize + |ds|
      ensures input[i] != Newline
    {
      assert input[i] == ds[i - TagSize];
      assert IsDigit(ds[i - TagSize]);
    }
    ReadLineUpTo(input, TagSize, |ds|);
    assert input[TagSize..TagSize + |ds| + 1] == ds + [Newline];
    assert input[TagSize + |ds + [Newline]|..] == text;
  }

  /** A `v` line with its scale factor replaced; every other line unchanged. */
  function Rescaled(l: Line, scale: real): Line
  {
    match l
    case V(Scaled(_, x), Scaled(_, y), Scaled(_, z)) => V(Scaled(scale, x), Scaled(scale, y), Scaled(scale, z))
    case _ => l
  }

  /** The v1 branch at scales 0.5 and 1.0 on the same bytes. */
  lemma V1ScaleOnlyTouchesPositions(line: seq<byte>, rest: seq<byte>)
    ensures V1Decode(line, rest, 0.5).Failed? <==> V1Decode(line, rest, 1.0).Failed?
    ensures V1Decode(line, rest, 0.5).Failed? ==> V1Decode(line, rest, 0.5) == V1Decode(line, rest, 1.0)
    ensures V1Decode(line, rest, 0.5).Converted? ==>
      var half := V1Decode(line, rest, 0.5).lines;
      var full := V1Decode(line, rest, 1.0).lines;
      && |half| == |full| && 0 < |full|
      && half[0] == Comment(CommentV1(0.5)) && full[0] == Comment(CommentV1(1.0))
      && forall i :: 1 <= i < |full| ==> half[i] == Rescaled(full[i], 0.5)
  {
    match ParseInt(line)
    case None =>
    case Some(n) =>
      match TupleStream(rest)
      case None =>
      case Some(tuples) =>
        var faces := FaceCount(n);
        if 9 * faces <= |tuples| {
          assert V1Decode(line, rest, 0.5) == Converted(LinesV1(GroupVertices(tuples, 3 * faces, 0.5), 0.5, faces));
          assert V1Decode(line, rest, 1.0) == Converted(LinesV1(GroupVertices(tuples, 3 * faces, 1.0), 1.0, faces));
          RescaledLinesV1(faces, tuples);
        }
  }

  lemma RescaledLinesV1(faces: nat, tuples: seq<Tuple>)
    requires 9 * faces <= |tuples|
    ensures var half := LinesV1(GroupVertices(tuples, 3 * faces, 0.5), 0.5, faces);
      var full := LinesV1(GroupVertices(tuples, 3 * faces, 1.0), 1.0, faces);
      && |half| == |full| && 0 < |full|
      && half[0] == Comment(CommentV1(0.5)) && full[0] == Comment(CommentV1(1.0))
      && forall i :: 1 <= i < |full| ==> half[i] == Rescaled(full[i], 0.5)
  {
    var half := LinesV1(GroupVertices(tuples, 3 * faces, 0.5), 0.5, faces);
    var full := LinesV1(GroupVertices(tuples, 3 * faces, 1.0), 1.0, faces);
    GroupedLinesV1(0.5, faces, tuples);
    GroupedLinesV1(1.0, faces, tuples);
    forall i | 1 <= i < |full|
      ensures half[i] == Rescaled(full[i], 0.5)
    {
      if i < 1 + 3 * faces {
        var t := tuples[3 * (i - 1)];
        assert full[i] == V(Scaled(1.0, t.a), Scaled(1.0, t.b), Scaled(1.0, t.c));
        assert half[i] == V(Scaled(0.5, t.a), Scaled(0.5, t.b), Scaled(0.5, t.c));
      } else {
        assert half[i] == full[i] && !full[i].V?;
      }
    }
  }

  /** Version 1.00 and 1.01 differ only in the scale: on the same bytes after
      the tag they fail alike, and they write the same lines except the
      comment and the factor of every `v` line, 0.5 against 1.0. */
  lemma ScaleOnlyTouchesPositions(rest: seq<byte>)
    ensures Conversion(Tag100 + rest).Failed? <==> Conversion(Tag101 + rest).Failed?
    ensures Conversion(Tag100 + rest).Failed? ==> Conversion(Tag100 + rest) == Conversion(Tag101 + rest)
    ensures Conversion(Tag100 + rest).Converted? ==>
      var half := Conversion(Tag100 + rest).lines;
      var full := Conversion(Tag101 + rest).lines;
      && |half| == |full| && 0 < |full|
      && half[0] == Comment(CommentV1(0.5)) && full[0] == Comment(CommentV1(1.0))
      && forall i :: 1 <= i < |full| ==> half[i] == Rescaled(full[i], 0.5)
  {
    V1Branches(rest);
    var line := ReadLine(Tag100 + rest, TagSize);
    V1ScaleOnlyTouchesPositions(line, rest[|line|..]);
  }

  /** Both v1 tags on the same bytes read the same face-count line and go to
      the v1 branch at their own scale. */
  lemma V1Branches(rest: seq<byte>)
    ensures var line := ReadLine(Tag100 + rest, TagSize);
      && |line| <= |rest|
      && Conversion(Tag100 + rest) == V1Decode(line, rest[|line|..], 0.5)
      && Conversion(Tag101 + rest) == V1Decode(line, rest[|line|..], 1.0)
  {
    var in0 := Tag100 + rest;
    var in1 := Tag101 + rest;
    assert ReadAt(in0, 0, TagSize) == in0[0..TagSize] == Tag100;
    assert ReadAt(in1, 0, TagSize) == in1[0..TagSize] == Tag101;
    assert in0[TagSize..] == rest == in1[TagSize..];
    ReadLineOfSuffix(in0, in1, TagSize);
    var line := ReadLine(in0, TagSize);
    assert in0[TagSize + |line|..] == rest[|line|..] == in1[TagSize + |line|..];
  }
}
