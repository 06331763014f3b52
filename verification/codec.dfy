/** Length-prefixed fields: `writeBytesWithLen16`/`writeBytesWithLen32` and
    `readBytesWithLen16`/`readBytesWithLen32`. The package carries two
    identical copies of these helpers (rawlog.go and helpers.go); both are
    modelled by this one module.

    A field is a little-endian length prefix, 2 bytes for a key and 4 bytes
    for a value, followed by the payload verbatim. The prefix holds the
    payload length cast to `uint16`/`uint32`, so an oversized payload is not
    rejected: its length wraps. */
module Codec {
  import opened LittleEndian
  import opened FileIO

  /** Width of the length prefix in front of a key. */
  const KeyPrefixWidth: nat := 2
  /** Width of the length prefix in front of a value. */
  const ValuePrefixWidth: nat := 4

  /** The largest payload a key field can describe, plus one (2^16). */
  const KeyLimit: nat := 0x1_0000
  /** The largest payload a value field can describe, plus one (2^32). */
  const ValueLimit: nat := 0x1_0000_0000

  lemma Limits()
    ensures Pow256(KeyPrefixWidth) == KeyLimit
    ensures Pow256(ValuePrefixWidth) == ValueLimit
  {
    Pow256Values();
  }

  /** The bytes written for `payload` behind a `width`-byte length prefix. */
  function Field(payload: seq<Byte>, width: nat): (r: seq<Byte>)
    ensures |r| == width + |payload|
  {
    Encode(|payload|, width) + payload
  }

  function Field16(payload: seq<Byte>): seq<Byte> { Field(payload, KeyPrefixWidth) }

  function Field32(payload: seq<Byte>): seq<Byte> { Field(payload, ValuePrefixWidth) }

  /** Where the prefix and the payload of a field appended to `file` lie. */
  lemma FieldLayout(file: seq<Byte>, payload: seq<Byte>, width: nat)
    ensures var f := file + Field(payload, width);
            && f[..|file|] == file
            && f[|file|..|file| + width] == Encode(|payload|, width)
            && f[|file| + width..] == payload
  {
  }

  // ---------------------------------------------------------------- writing

  /** The prefix write, then (only if it succeeded) the payload write: in
      effect one write of the whole field. */
  function WriteBytesWithLen(d: Device, payload: seq<Byte>, width: nat): (w: Written)
    ensures w == Write(d, Field(payload, width))
    ensures w.ok <==> width + |payload| <= d.room
    ensures w.dev.file == d.file + Field(payload, width)[..Min(width + |payload|, d.room)]
  {
    var prefix := Write(d, Encode(|payload|, width));
    WriteThenWrite(d, Encode(|payload|, width), payload);
    if !prefix.ok then prefix else Write(prefix.dev, payload)
  }

  /** A field write that succeeds appends the whole field. */
  lemma WriteBytesWithLenOk(d: Device, payload: seq<Byte>, width: nat)
    ensures width + |payload| <= d.room ==>
              WriteBytesWithLen(d, payload, width).dev.file == d.file + Field(payload, width)
  {
    assert Field(payload, width)[..width + |payload|] == Field(payload, width);
  }

  /** `writeBytesWithLen16`: on success exactly 2 + |payload| bytes are
      appended, a prefix holding |payload| modulo 2^16 and then the payload;
      a failing write leaves behind a prefix of that field. */
  function WriteBytesWithLen16(d: Device, payload: seq<Byte>): (w: Written)
    ensures w == Write(d, Field16(payload))
    ensures w.ok <==> KeyPrefixWidth + |payload| <= d.room
    ensures w.ok ==>
              && |w.dev.file| == |d.file| + KeyPrefixWidth + |payload|
              && w.dev.file[..|d.file|] == d.file
              && Decode(w.dev.file[|d.file|..|d.file| + KeyPrefixWidth]) == |payload| % KeyLimit
              && w.dev.file[|d.file| + KeyPrefixWidth..] == payload
    ensures !w.ok ==> w.dev.file == d.file + Field16(payload)[..d.room]
  {
    Limits();
    DecodeEncode(|payload|, KeyPrefixWidth);
    FieldLayout(d.file, payload, KeyPrefixWidth);
    WriteBytesWithLenOk(d, payload, KeyPrefixWidth);
    WriteBytesWithLen(d, payload, KeyPrefixWidth)
  }

  /** `writeBytesWithLen32`: as for keys, with a 4-byte prefix holding
      |payload| modulo 2^32. */
  function WriteBytesWithLen32(d: Device, payload: seq<Byte>): (w: Written)
    ensures w == Write(d, Field32(payload))
    ensures w.ok <==> ValuePrefixWidth + |payload| <= d.room
    ensures w.ok ==>
              && |w.dev.file| == |d.file| + ValuePrefixWidth + |payload|
              && w.dev.file[..|d.file|] == d.file
              && Decode(w.dev.file[|d.file|..|d.file| + ValuePrefixWidth]) == |payload| % ValueLimit
              && w.dev.file[|d.file| + ValuePrefixWidth..] == payload
    ensures !w.ok ==> w.dev.file == d.file + Field32(payload)[..d.room]
  {
    Limits();
    DecodeEncode(|payload|, ValuePrefixWidth);
    FieldLayout(d.file, payload, ValuePrefixWidth);
    WriteBytesWithLenOk(d, payload, ValuePrefixWidth);
    WriteBytesWithLen(d, payload, ValuePrefixWidth)
  }

  // ---------------------------------------------------------------- reading

  /** Read a `width`-byte length prefix, then exactly as many bytes as it
      announces. End of file from either read is passed on as `Eof`. */
  function ReadBytesWithLen(file: seq<Byte>, pos: nat, width: nat): (r: Outcome<seq<Byte>>)
    requires pos <= |file| && width > 0
    ensures r.Ok? <==> pos + width <= |file| && pos + width + Decode(file[pos..pos + width]) <= |file|
    ensures r.Ok? ==>
              && r.next == pos + width + |r.value| <= |file|
              && Decode(file[pos..pos + width]) == |r.value|
              && r.value == file[pos + width..r.next]
    ensures r.Eof? <==> pos == |file| || (pos + width == |file| && Decode(file[pos..pos + width]) > 0)
    ensures !r.Ok? ==> r.next == |file|
  {
    match ReadFull(file, pos, width)
    case Ok(prefix, start) => ReadFull(file, start, Decode(prefix))
    case failed => failed
  }

  /** What a successful field read consumed is exactly the field written
      for the payload it returned. */
  lemma ReadBytesWithLenSound(file: seq<Byte>, pos: nat, width: nat)
    requires pos <= |file| && width > 0
    ensures var r := ReadBytesWithLen(file, pos, width);
            r.Ok? ==> At(file, pos, Field(r.value, width))
  {
    var r := ReadBytesWithLen(file, pos, width);
    if r.Ok? {
      var prefix := file[pos..pos + width];
      EncodeDecode(prefix);
      AtConcat(file, pos, prefix, r.value);
    }
  }

  /** `readBytesWithLen16`. */
  function ReadBytesWithLen16(file: seq<Byte>, pos: nat): (r: Outcome<seq<Byte>>)
    requires pos <= |file|
    ensures pos == |file| ==> r == Eof(|file|)
    ensures pos < |file| < pos + KeyPrefixWidth ==> r == ShortRead(|file|)
    ensures pos + KeyPrefixWidth <= |file| ==>
              var announced := Decode(file[pos..pos + KeyPrefixWidth]);
              && announced < KeyLimit
              && (r.Ok? <==> pos + KeyPrefixWidth + announced <= |file|)
              && (r.Eof? <==> announced > 0 && pos + KeyPrefixWidth == |file|)
    ensures r.Ok? ==> && At(file, pos, Field16(r.value))
                      && r.next == pos + KeyPrefixWidth + |r.value|
                      && |r.value| < KeyLimit
    ensures !r.Ok? ==> r.next == |file|
  {
    Limits();
    ReadBytesWithLenSound(file, pos, KeyPrefixWidth);
    if pos + KeyPrefixWidth <= |file| then
      DecodeBound(file[pos..pos + KeyPrefixWidth]);
      ReadBytesWithLen(file, pos, KeyPrefixWidth)
    else
      ReadBytesWithLen(file, pos, KeyPrefixWidth)
  }

  /** `readBytesWithLen32`. */
  function ReadBytesWithLen32(file: seq<Byte>, pos: nat): (r: Outcome<seq<Byte>>)
    requires pos <= |file|
    ensures pos == |file| ==> r == Eof(|file|)
    ensures pos < |file| < pos + ValuePrefixWidth ==> r == ShortRead(|file|)
    ensures pos + ValuePrefixWidth <= |file| ==>
              var announced := Decode(file[pos..pos + ValuePrefixWidth]);
              && announced < ValueLimit
              && (r.Ok? <==> pos + ValuePrefixWidth + announced <= |file|)
              && (r.Eof? <==> announced > 0 && pos + ValuePrefixWidth == |file|)
    ensures r.Ok? ==> && At(file, pos, Field32(r.value))
                      && r.next == pos + ValuePrefixWidth + |r.value|
                      && |r.value| < ValueLimit
    ensures !r.Ok? ==> r.next == |file|
  {
    Limits();
    ReadBytesWithLenSound(file, pos, ValuePrefixWidth);
    if pos + ValuePrefixWidth <= |file| then
      DecodeBound(file[pos..pos + ValuePrefixWidth]);
      ReadBytesWithLen(file, pos, ValuePrefixWidth)
    else
      ReadBytesWithLen(file, pos, ValuePrefixWidth)
  }

  // ---------------------------------------------------------------- round trips

  /** Reading a stored field gives back its payload cut to the length the
      wrapped prefix announces, whatever follows it in the file. */
  lemma ReadAfterWrite(file: seq<Byte>, pos: nat, payload: seq<Byte>, width: nat)
    requires width > 0 && At(file, pos, Field(payload, width))
    ensures var kept := |payload| % Pow256(width);
            kept <= |payload| && ReadBytesWithLen(file, pos, width) == Ok(payload[..kept], pos + width + kept)
  {
    var kept := |payload| % Pow256(width);
    DecodeEncode(|payload|, width);
    ModAtMost(|payload|, Pow256(width));
    AtConcat(file, pos, Encode(|payload|, width), payload);
    ReadStored(file, pos, Encode(|payload|, width), payload, kept);
  }

  /** Reading `prefix + payload` stored at `pos`, where the prefix announces
      `kept` bytes and the payload has at least that many. */
  lemma ReadStored(file: seq<Byte>, pos: nat, prefix: seq<Byte>, payload: seq<Byte>, kept: nat)
    requires |prefix| > 0 && At(file, pos, prefix) && At(file, pos + |prefix|, payload)
    requires Decode(prefix) == kept <= |payload|
    ensures ReadBytesWithLen(file, pos, |prefix|) == Ok(payload[..kept], pos + |prefix| + kept)
  {
    ReadAnnounced(file, pos, prefix, kept);
    ReadFullStored(file, pos + |prefix|, payload, kept);
  }

  /** With a prefix announcing `kept` stored at `pos`, the field reader
      is one read of `kept` bytes just after it. */
  lemma ReadAnnounced(file: seq<Byte>, pos: nat, prefix: seq<Byte>, kept: nat)
    requires |prefix| > 0 && At(file, pos, prefix) && Decode(prefix) == kept
    ensures ReadBytesWithLen(file, pos, |prefix|) == ReadFull(file, pos + |prefix|, kept)
  {
    ReadBytesWithLenUnfold(file, pos, |prefix|);
    assert file[pos..pos + |prefix|] == prefix;
  }

  /** Reading the first `n` bytes of a stored chunk. */
  lemma ReadFullStored(file: seq<Byte>, pos: nat, chunk: seq<Byte>, n: nat)
    requires At(file, pos, chunk) && n <= |chunk|
    ensures ReadFull(file, pos, n) == Ok(chunk[..n], pos + n)
  {
    assert file[pos..pos + n] == chunk[..n];
  }

  /** The field reader is the payload read at the length the prefix announces. */
  lemma ReadBytesWithLenUnfold(file: seq<Byte>, pos: nat, width: nat)
    requires width > 0 && pos + width <= |file|
    ensures ReadBytesWithLen(file, pos, width)
         == ReadFull(file, pos + width, Decode(file[pos..pos + width]))
  {
  }

  /** Reducing a natural number never makes it larger. */
  lemma ModAtMost(n: nat, m: nat)
    requires m > 0
    ensures n % m <= n
  {
    if n < m {
      DivModUnique(n, m, 0, n);
    }
  }

  /** Key round trip: a key shorter than 2^16 bytes reads back unchanged and
      the cursor lands just after it. */
  lemma RoundTrip16(file: seq<Byte>, pos: nat, payload: seq<Byte>)
    requires |payload| < KeyLimit && At(file, pos, Field16(payload))
    ensures ReadBytesWithLen16(file, pos) == Ok(payload, pos + KeyPrefixWidth + |payload|)
  {
    Limits();
    ReadAfterWrite(file, pos, payload, KeyPrefixWidth);
    DivModUnique(|payload|, KeyLimit, 0, |payload|);
    assert payload[..|payload|] == payload;
  }

  /** Value round trip: a value shorter than 2^32 bytes reads back unchanged
      and the cursor lands just after it. */
  lemma RoundTrip32(file: seq<Byte>, pos: nat, payload: seq<Byte>)
    requires |payload| < ValueLimit && At(file, pos, Field32(payload))
    ensures ReadBytesWithLen32(file, pos) == Ok(payload, pos + ValuePrefixWidth + |payload|)
  {
    Limits();
    ReadAfterWrite(file, pos, payload, ValuePrefixWidth);
    DivModUnique(|payload|, ValueLimit, 0, |payload|);
    assert payload[..|payload|] == payload;
  }

  /** The wrap-around in action: a key of exactly 2^16 bytes is written
      with prefix 0, so it reads back as the empty key and the cursor stops
      inside the key's bytes. */
  lemma OversizedKeyReadsEmpty(file: seq<Byte>, pos: nat, payload: seq<Byte>)
    requires |payload| == KeyLimit && At(file, pos, Field16(payload))
    ensures ReadBytesWithLen16(file, pos) == Ok([], pos + KeyPrefixWidth)
  {
    Limits();
    ReadAfterWrite(file, pos, payload, KeyPrefixWidth);
  }

  /** An empty payload is an all-zero prefix alone, and reads back empty. */
  lemma EmptyPayload(file: seq<Byte>, pos: nat)
    ensures Field16([]) == [0, 0]
    ensures Field32([]) == [0, 0, 0, 0]
    ensures At(file, pos, [0, 0]) ==> ReadBytesWithLen16(file, pos) == Ok([], pos + 2)
    ensures At(file, pos, [0, 0, 0, 0]) ==> ReadBytesWithLen32(file, pos) == Ok([], pos + 4)
  {
    EncodeZero(KeyPrefixWidth);
    EncodeZero(ValuePrefixWidth);
    assert Field16([]) == [0, 0];
    assert Field32([]) == [0, 0, 0, 0];
    if At(file, pos, [0, 0]) {
      RoundTrip16(file, pos, []);
    }
    if At(file, pos, [0, 0, 0, 0]) {
      RoundTrip32(file, pos, []);
    }
  }
}
