/** The timestamp field of the helpers.go variant of the record layout: the
    Unix time in whole seconds, converted to `uint32` and stored as 4
    little-endian bytes. */
module UnixStamp {
  import opened LittleEndian
  import opened FileIO

  /** Width of the stored timestamp. */
  const StampWidth: nat := 4
  /** Number of distinct stored timestamps (2^32). */
  const SecondsLimit: nat := 0x1_0000_0000

  /** A point in time as far as the codec looks at it: whole seconds since
      the Unix epoch (negative before 1970) and the nanoseconds within that
      second. */
  datatype Time = Time(seconds: int, nanos: nat)

  /** The 4 bytes `writeTimestamp` emits: `ts.Unix()` cast to `uint32`. */
  function EncodeTimestamp(t: Time): (r: seq<Byte>)
    ensures |r| == StampWidth
  {
    Encode(t.seconds, StampWidth)
  }

  /** `writeTimestamp`: on success exactly 4 bytes are appended and they
      hold the Unix seconds modulo 2^32; the nanoseconds are not stored. */
  function WriteTimestamp(d: Device, t: Time): (w: Written)
    ensures w.ok <==> StampWidth <= d.room
    ensures w.ok ==>
              && |w.dev.file| == |d.file| + StampWidth
              && w.dev.file[..|d.file|] == d.file
              && Decode(w.dev.file[|d.file|..]) == t.seconds % SecondsLimit
    ensures !w.ok ==> w.dev.file == d.file + EncodeTimestamp(t)[..d.room]
  {
    Pow256Values();
    DecodeEncode(t.seconds, StampWidth);
    assert (d.file + EncodeTimestamp(t))[|d.file|..] == EncodeTimestamp(t);
    WriteFits(d, EncodeTimestamp(t));
    Write(d, EncodeTimestamp(t))
  }

  /** `readTimestamp`: one read of 4 bytes. End of file before the field
      is `Eof`, 1 to 3 bytes is a short read, and a whole field yields the
      stored seconds with no sub-second part. */
  function ReadTimestamp(file: seq<Byte>, pos: nat): (r: Outcome<Time>)
    requires pos <= |file|
    ensures r.Ok? <==> pos + StampWidth <= |file|
    ensures r.Eof? <==> pos == |file|
    ensures !r.Ok? ==> r.next == |file|
    ensures r.Ok? ==>
              && r.next == pos + StampWidth
              && r.value.nanos == 0
              && 0 <= r.value.seconds < SecondsLimit
              && At(file, pos, EncodeTimestamp(r.value))
  {
    match ReadFull(file, pos, StampWidth)
    case Eof(at) => Eof(at)
    case ShortRead(at) => ShortRead(at)
    case Ok(bytes, next) =>
      Pow256Values();
      DecodeBound(bytes);
      EncodeDecode(bytes);
      Ok(Time(Decode(bytes), 0), next)
  }

  /** Reading a stored timestamp gives back its seconds modulo 2^32 and
      drops the nanoseconds. */
  lemma TimestampRoundTrip(file: seq<Byte>, pos: nat, t: Time)
    requires At(file, pos, EncodeTimestamp(t))
    ensures ReadTimestamp(file, pos) == Ok(Time(t.seconds % SecondsLimit, 0), pos + StampWidth)
  {
    Pow256Values();
    DecodeEncode(t.seconds, StampWidth);
    assert file[pos..pos + StampWidth] == EncodeTimestamp(t);
  }

  /** Seconds in [0, 2^32) survive the round trip exactly. */
  lemma TimestampRoundTripInRange(file: seq<Byte>, pos: nat, t: Time)
    requires 0 <= t.seconds < SecondsLimit && At(file, pos, EncodeTimestamp(t))
    ensures ReadTimestamp(file, pos) == Ok(Time(t.seconds, 0), pos + StampWidth)
  {
    TimestampRoundTrip(file, pos, t);
    DivModUnique(t.seconds, SecondsLimit, 0, t.seconds);
  }
}
