/** `do_file` of read.py: strip the fixed RBXH HTTP-cache envelope from a
    cached file and copy out the payload, or copy a file without the envelope
    as it is. Files are byte sequences; the output file is `Some(bytes)` when
    one is written and `None` when none is. */
module CacheEnvelope {
  import opened ByteStream

  /** The magic "RBXH" that opens an envelope. */
  const Magic: seq<byte> := [82, 66, 88, 72]

  /** `r.read(16*1024*1024)`: the chunk size of the copy loop. */
  const ChunkSize: nat := 16 * 1024 * 1024

  /** What `do_file` does with a file. */
  datatype Action =
    | CopyWhole               // no magic: `shutil.copy`
    | WriteNothing            // status code outside 200..299: no output file
    | WritePayload(start: nat) // write the bytes from offset `start` on

  /** The envelope fields `do_file` reads: the magic at 0..4, version skipped,
      the URL length at 8..12, the URL and its NUL, the status code at
      13 + url_len, the header size at 17 + url_len, then 16 skipped bytes
      and the headers; the payload follows. */
  function EnvelopeAction(file: seq<byte>): Action
  {
    if ReadAt(file, 0, 4) != Magic then CopyWhole
    else
      var urlLen := FromLE(ReadAt(file, 8, 4));
      var statusCode := FromLE(ReadAt(file, 13 + urlLen, 4));
      if !(200 <= statusCode <= 299) then WriteNothing
      else
        var headerSize := FromLE(ReadAt(file, 17 + urlLen, 4));
        WritePayload(37 + urlLen + headerSize)
  }

  /** The output file `do_file` leaves behind, if any: always a suffix of the
      input, the whole input when it does not start with the magic. */
  function Output(file: seq<byte>): (r: Option<seq<byte>>)
    ensures r.Some? ==> |r.value| <= |file| && r.value == file[|file| - |r.value|..]
    ensures ReadAt(file, 0, 4) != Magic ==> r == Some(file)
  {
    match EnvelopeAction(file)
    case CopyWhole => Some(file)
    case WriteNothing => None
    case WritePayload(start) => Some(Drop(file, start))
  }

  /** The envelope walk of `do_file`: a cursor moved by each read and seek.
      A seek may go past the end of the file, where every read returns nothing,
      so a truncated envelope reads as zeros. */
  method ReadEnvelope(file: seq<byte>) returns (action: Action)
    ensures action == EnvelopeAction(file)
  {
    var pos := 0;
    var magic := ReadAt(file, pos, 4);
    pos := pos + |magic|;
    if magic != Magic {
      return CopyWhole;
    }
    pos := pos + 4;
    var urlBytes := ReadAt(file, pos, 4);
    pos := pos + |urlBytes|;
    var urlLen := FromLE(urlBytes);
    pos := pos + urlLen + 1;
    assert pos == 13 + urlLen || (|file| <= pos && |file| <= 13 + urlLen);
    var statusBytes := ReadAt(file, pos, 4);
    assert statusBytes == ReadAt(file, 13 + urlLen, 4);
    pos := pos + |statusBytes|;
    var statusCode := FromLE(statusBytes);
    if !(200 <= statusCode <= 299) {
      return WriteNothing;
    }
    assert pos == 17 + urlLen || (|file| <= pos && |file| <= 17 + urlLen);
    var headerBytes := ReadAt(file, pos, 4);
    assert headerBytes == ReadAt(file, 17 + urlLen, 4);
    pos := pos + |headerBytes|;
    var headerSize := FromLE(headerBytes);
    pos := pos + headerSize + 16;
    if pos == 37 + urlLen + headerSize {
      return WritePayload(pos);
    }
    // A read came back short: the cursor and the payload offset are both past the end.
    assert |file| <= pos && |file| <= 37 + urlLen + headerSize;
    action := WritePayload(37 + urlLen + headerSize);
  }

  /** The copy loop: read chunks from the cursor and append them to the output
      until a read returns nothing. */
  method CopyFrom(file: seq<byte>, start: nat) returns (out: seq<byte>)
    ensures out == Drop(file, start)
  {
    var pos := start;
    out := [];
    while true
      invariant pos <= |file| ==> start <= pos && out == file[start..pos]
      invariant |file| < pos ==> pos == start && out == []
      decreases if pos <= |file| then |file| - pos else 0
    {
      var buf := ReadAt(file, pos, ChunkSize);
      if buf == [] {
        break;
      }
      assert buf == file[pos..pos + |buf|];
      out := out + buf;
      pos := pos + |buf|;
    }
  }

  /** `do_file(rf, wf)`. */
  method DoFile(file: seq<byte>) returns (written: Option<seq<byte>>)
    ensures written == Output(file)
  {
    var action := ReadEnvelope(file);
    match action
    case CopyWhole =>
      written := Some(file);
    case WriteNothing =>
      written := None;
    case WritePayload(start) =>
      var payload := CopyFrom(file, start);
      written := Some(payload);
  }

  /** A cache file as the engine lays it out (the header of HttpCacheEntry):
      magic, version, URL length, URL, NUL, response code, headers size, the
      16 bytes of hashes, body size and reserved word, the headers, the body. */
  function Envelope(version: seq<byte>, url: seq<byte>, statusCode: nat, skipped: seq<byte>,
                    headers: seq<byte>, body: seq<byte>): seq<byte>
    requires |version| == 4 && |skipped| == 16
    requires |url| < 0x1_0000_0000 && statusCode < 0x1_0000_0000 && |headers| < 0x1_0000_0000
  {
    Magic + (version + (LE32(|url|) + (url + ([0] + (LE32(statusCode) + (LE32(|headers|) + (skipped + (headers + body))))))))
  }

  /** Stripping inverts the layout: the body comes back unchanged for a
      success status, and no file is written for any other. */
  lemma EnvelopeRoundTrip(version: seq<byte>, url: seq<byte>, statusCode: nat, skipped: seq<byte>,
                          headers: seq<byte>, body: seq<byte>)
    requires |version| == 4 && |skipped| == 16
    requires |url| < 0x1_0000_0000 && statusCode < 0x1_0000_0000 && |headers| < 0x1_0000_0000
    ensures Output(Envelope(version, url, statusCode, skipped, headers, body))
         == if 200 <= statusCode <= 299 then Some(body) else None
  {
    EnvelopeMagic(version, url, statusCode, skipped, headers, body);
    EnvelopeUrlLength(version, url, statusCode, skipped, headers, body);
    EnvelopeStatus(version, url, statusCode, skipped, headers, body);
    EnvelopeHeadersSize(version, url, statusCode, skipped, headers, body);
    EnvelopeBody(version, url, statusCode, skipped, headers, body);
    OutputOfFields(Envelope(version, url, statusCode, skipped, headers, body), |url|, statusCode, |headers|, body);
  }

  /** The output of a file whose envelope fields read as given. */
  lemma OutputOfFields(file: seq<byte>, urlLen: nat, statusCode: nat, headerSize: nat, body: seq<byte>)
    requires ReadAt(file, 0, 4) == Magic
    requires FromLE(ReadAt(file, 8, 4)) == urlLen
    requires FromLE(ReadAt(file, 13 + urlLen, 4)) == statusCode
    requires FromLE(ReadAt(file, 17 + urlLen, 4)) == headerSize
    requires Drop(file, 37 + urlLen + headerSize) == body
    ensures Output(file) == if 200 <= statusCode <= 299 then Some(body) else None
  {
  }

  lemma EnvelopeMagic(version: seq<byte>, url: seq<byte>, statusCode: nat, skipped: seq<byte>,
                      headers: seq<byte>, body: seq<byte>)
    requires |version| == 4 && |skipped| == 16
    requires |url| < 0x1_0000_0000 && statusCode < 0x1_0000_0000 && |headers| < 0x1_0000_0000
    ensures ReadAt(Envelope(version, url, statusCode, skipped, headers, body), 0, 4) == Magic
  {
    var file := Envelope(version, url, statusCode, skipped, headers, body);
    ReadHead(Magic, file[4..]);
    assert file == Magic + file[4..];
  }

  lemma EnvelopeUrlLength(version: seq<byte>, url: seq<byte>, statusCode: nat, skipped: seq<byte>,
                          headers: seq<byte>, body: seq<byte>)
    requires |version| == 4 && |skipped| == 16
    requires |url| < 0x1_0000_0000 && statusCode < 0x1_0000_0000 && |headers| < 0x1_0000_0000
    ensures ReadAt(Envelope(version, url, statusCode, skipped, headers, body), 8, 4) == LE32(|url|)
  {
    var file := Envelope(version, url, statusCode, skipped, headers, body);
    var rest := file[12..];
    assert file == (Magic + version) + (LE32(|url|) + rest);
    ReadShift(Magic + version, LE32(|url|) + rest, 0, 4);
    ReadHead(LE32(|url|), rest);
  }

  lemma EnvelopeStatus(version: seq<byte>, url: seq<byte>, statusCode: nat, skipped: seq<byte>,
                       headers: seq<byte>, body: seq<byte>)
    requires |version| == 4 && |skipped| == 16
    requires |url| < 0x1_0000_0000 && statusCode < 0x1_0000_0000 && |headers| < 0x1_0000_0000
    ensures ReadAt(Envelope(version, url, statusCode, skipped, headers, body), 13 + |url|, 4) == LE32(statusCode)
  {
    var file := Envelope(version, url, statusCode, skipped, headers, body);
    var u := |url|;
    var rest := file[17 + u..];
    assert file == file[..13 + u] + (LE32(statusCode) + rest);
    ReadShift(file[..13 + u], LE32(statusCode) + rest, 0, 4);
    ReadHead(LE32(statusCode), rest);
  }

  lemma EnvelopeHeadersSize(version: seq<byte>, url: seq<byte>, statusCode: nat, skipped: seq<byte>,
                            headers: seq<byte>, body: seq<byte>)
    requires |version| == 4 && |skipped| == 16
    requires |url| < 0x1_0000_0000 && statusCode < 0x1_0000_0000 && |headers| < 0x1_0000_0000
    ensures ReadAt(Envelope(version, url, statusCode, skipped, headers, body), 17 + |url|, 4) == LE32(|headers|)
  {
    var file := Envelope(version, url, statusCode, skipped, headers, body);
    var u := |url|;
    var rest := file[21 + u..];
    assert file == file[..17 + u] + (LE32(|headers|) + rest);
    ReadShift(file[..17 + u], LE32(|headers|) + rest, 0, 4);
    ReadHead(LE32(|headers|), rest);
  }

  lemma EnvelopeBody(version: seq<byte>, url: seq<byte>, statusCode: nat, skipped: seq<byte>,
                     headers: seq<byte>, body: seq<byte>)
    requires |version| == 4 && |skipped| == 16
    requires |url| < 0x1_0000_0000 && statusCode < 0x1_0000_0000 && |headers| < 0x1_0000_0000
    ensures Drop(Envelope(version, url, statusCode, skipped, headers, body), 37 + |url| + |headers|) == body
  {
    var file := Envelope(version, url, statusCode, skipped, headers, body);
    assert |file| == 37 + |url| + |headers| + |body|;
    assert file[37 + |url| + |headers|..] == body;
  }

  /** A read at the start of a file returns its first part. */
  lemma ReadHead(part: seq<byte>, rest: seq<byte>)
    ensures ReadAt(part + rest, 0, |part|) == part
  {
    if |part| > 0 {
      assert (part + rest)[0..|part|] == part;
    }
  }

  /** A read past a prefix of the file is a read of the rest. */
  lemma ReadShift(prefix: seq<byte>, rest: seq<byte>, o: nat, n: nat)
    ensures ReadAt(prefix + rest, |prefix| + o, n) == ReadAt(rest, o, n)
  {
    var file := prefix + rest;
    if o < |rest| {
      assert file[|prefix| + o..|prefix| + Min(o + n, |rest|)] == rest[o..Min(o + n, |rest|)];
    }
  }

  /** A file that has the magic but ends before its status code reads the
      status as 0 (a read past the end returns nothing) and writes no file. */
  lemma TruncatedEnvelopeWritesNothing(file: seq<byte>)
    requires ReadAt(file, 0, 4) == Magic && |file| <= 13
    ensures Output(file) == None
  {
  }
}
