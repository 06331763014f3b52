/** The record layer of rawlog.go: `Append` writes one record, `Reader.Next`
    decodes one, and a reader calling `Next` until it fails replays the log.

    A record is the 15-byte timestamp block produced by `time.MarshalBinary`,
    then the key behind a 2-byte length prefix, then the value behind a
    4-byte length prefix. Records follow each other with no framing between
    them. The timestamp block is carried as opaque bytes. */
module RawLog {
  import opened LittleEndian
  import opened FileIO
  import opened Codec

  /** Width of the timestamp block `readTimestamp` reads. */
  const StampWidth: nat := 15

  /** One log entry: its key, its value and its encoded timestamp. */
  datatype Entry = Entry(key: seq<Byte>, value: seq<Byte>, stamp: seq<Byte>)

  /** An entry that the record layout carries unchanged: a timestamp block of
      the width the reader expects and a key and a value whose lengths fit
      their prefixes. */
  predicate Fits(e: Entry) {
    |e.stamp| == StampWidth && |e.key| < KeyLimit && |e.value| < ValueLimit
  }

  predicate AllFit(es: seq<Entry>) {
    forall i :: 0 <= i < |es| ==> Fits(es[i])
  }

  /** The bytes `Append` writes for `e`, in order. */
  function Record(e: Entry): (r: seq<Byte>)
    ensures |r| == |e.stamp| + KeyPrefixWidth + |e.key| + ValuePrefixWidth + |e.value|
  {
    e.stamp + Field16(e.key) + Field32(e.value)
  }

  /** A log holding `es`: their records back to back. */
  function Log(es: seq<Entry>): seq<Byte>
  {
    if |es| == 0 then [] else Record(es[0]) + Log(es[1..])
  }

  /** The offsets inside the record of `e` at which a cut leaves only whole
      fields, or a whole length prefix announcing a non-empty payload, in
      front of it. A log cut there reads as a clean end. */
  function CleanCuts(e: Entry): (r: set<nat>)
    ensures 0 in r
  {
    var key := StampWidth + KeyPrefixWidth;
    {0, StampWidth, key, key + |e.key|, key + |e.key| + ValuePrefixWidth}
  }

  // ---------------------------------------------------------------- writing

  /** `writeTimestamp` with the timestamp already marshalled: one write of
      the block. */
  function WriteTimestamp(d: Device, stamp: seq<Byte>): (w: Written)
    ensures w.ok <==> |stamp| <= d.room
    ensures w.ok ==> w.dev.file == d.file + stamp
    ensures !w.ok ==> w.dev.file == d.file + stamp[..d.room]
  {
    WriteFits(d, stamp);
    Write(d, stamp)
  }

  /** The write of `Append` that failed. */
  datatype Stage = TimestampStage | KeyStage | ValueStage

  datatype Status = Appended | Failed(stage: Stage)

  /** The device after `Append`, and how it went. */
  datatype AppendResult = AppendResult(dev: Device, status: Status)

  /** `RawBytesLog.Append` with an explicit timestamp block: the timestamp,
      the key field and the value field, each written only if the one before
      succeeded. The file gains the record, or the part of it that fit before
      the first failing write; the reported stage is the field in which the
      room ran out. */
  function Append(d: Device, e: Entry): (r: AppendResult)
    ensures r.dev.file == d.file + Record(e)[..Min(|Record(e)|, d.room)]
    ensures |r.dev.file| + r.dev.room == |d.file| + d.room
    ensures r.status == Appended <==> |Record(e)| <= d.room
    ensures r.status == Failed(TimestampStage) <==> d.room < |e.stamp|
    ensures r.status == Failed(KeyStage) <==>
              |e.stamp| <= d.room < |e.stamp| + KeyPrefixWidth + |e.key|
    ensures r.status == Failed(ValueStage) <==>
              |e.stamp| + KeyPrefixWidth + |e.key| <= d.room < |Record(e)|
  {
    var ts := WriteTimestamp(d, e.stamp);
    WriteThenWrite(d, e.stamp, Field16(e.key));
    WriteThenWrite(d, e.stamp + Field16(e.key), Field32(e.value));
    if !ts.ok then
      AppendResult(ts.dev, Failed(TimestampStage))
    else
      var key := WriteBytesWithLen16(ts.dev, e.key);
      if !key.ok then
        AppendResult(key.dev, Failed(KeyStage))
      else
        var value := WriteBytesWithLen32(key.dev, e.value);
        if !value.ok then
          AppendResult(value.dev, Failed(ValueStage))
        else
          AppendResult(value.dev, Appended)
  }

  /** A log grows by one record at the end. */
  lemma {:induction false} LogSnoc(es: seq<Entry>, e: Entry)
    ensures Log(es + [e]) == Log(es) + Record(e)
  {
    if |es| == 0 {
      assert es + [e] == [e];
      assert Log([e]) == Record(e) + Log([]);
    } else {
      assert (es + [e])[0] == es[0];
      assert (es + [e])[1..] == es[1..] + [e];
      LogSnoc(es[1..], e);
    }
  }

  /** An `Append` that fits turns the log of `es` into the log of `es + [e]`. */
  lemma AppendExtendsLog(d: Device, es: seq<Entry>, e: Entry)
    requires d.file == Log(es) && |Record(e)| <= d.room
    ensures Append(d, e).status == Appended
    ensures Append(d, e).dev.file == Log(es + [e])
  {
    LogSnoc(es, e);
    assert Record(e)[..|Record(e)|] == Record(e);
  }

  // ---------------------------------------------------------------- reading

  /** `readTimestamp` without `UnmarshalBinary`: one read of the 15-byte
      block. No bytes left is `Eof`, 1 to 14 bytes is a short read. */
  function ReadTimestamp(file: seq<Byte>, pos: nat): (r: Outcome<seq<Byte>>)
    requires pos <= |file|
    ensures r.Eof? <==> pos == |file|
    ensures r.Ok? <==> pos + StampWidth <= |file|
    ensures !r.Ok? ==> r.next == |file|
    ensures r.Ok? ==> |r.value| == StampWidth && r.next == pos + StampWidth && At(file, pos, r.value)
  {
    ReadFull(file, pos, StampWidth)
  }

  /** The record stored at `pos` consists of its three fields stored one
      after the other. */
  lemma RecordAt(file: seq<Byte>, pos: nat, e: Entry, keyAt: nat, valueAt: nat)
    requires keyAt == pos + |e.stamp| && valueAt == keyAt + KeyPrefixWidth + |e.key|
    ensures At(file, pos, Record(e)) <==>
              && At(file, pos, e.stamp)
              && At(file, keyAt, Field16(e.key))
              && At(file, valueAt, Field32(e.value))
  {
    AtSplit(file, pos, valueAt, e.stamp + Field16(e.key), Field32(e.value));
    AtSplit(file, pos, keyAt, e.stamp, Field16(e.key));
  }

  /** `Reader.Next`: the timestamp, the key and the value, in that order.
      End of file met by any of the three reads is returned as `Eof`, any
      other failure as `ShortRead`; either way the failing read has left the
      reader's offset at the end of the file. A record it returns is one
      `Append` could have written, stored exactly where the reader stood. */
  function Next(file: seq<Byte>, pos: nat): (r: Outcome<Entry>)
    requires pos <= |file|
    ensures pos == |file| ==> r == Eof(|file|)
    ensures !r.Ok? ==> r.next == |file|
    ensures r.Ok? ==>
              && Fits(r.value)
              && At(file, pos, Record(r.value))
              && r.next == pos + |Record(r.value)|
  {
    match ReadTimestamp(file, pos)
    case Eof(at) => Eof(at)
    case ShortRead(at) => ShortRead(at)
    case Ok(stamp, afterStamp) =>
      match ReadBytesWithLen16(file, afterStamp)
      case Eof(at) => Eof(at)
      case ShortRead(at) => ShortRead(at)
      case Ok(key, afterKey) =>
        match ReadBytesWithLen32(file, afterKey)
        case Eof(at) => Eof(at)
        case ShortRead(at) => ShortRead(at)
        case Ok(value, afterValue) =>
          RecordAt(file, pos, Entry(key, value, stamp), afterStamp, afterKey);
          Ok(Entry(key, value, stamp), afterValue)
  }

  /** A record whose fields fit their prefixes reads back as itself, and the
      reader lands just after it, whatever follows. */
  lemma NextRecord(file: seq<Byte>, pos: nat, e: Entry)
    requires Fits(e) && At(file, pos, Record(e))
    ensures Next(file, pos) == Ok(e, pos + |Record(e)|)
  {
    var keyAt := pos + StampWidth;
    var valueAt := keyAt + KeyPrefixWidth + |e.key|;
    RecordFields(file, pos, e, keyAt, valueAt);
    NextOfFields(file, pos, e, keyAt, valueAt, pos + |Record(e)|);
  }

  /** Each of the three field readers reads its field of a stored record
      back. */
  lemma RecordFields(file: seq<Byte>, pos: nat, e: Entry, keyAt: nat, valueAt: nat)
    requires Fits(e) && At(file, pos, Record(e))
    requires keyAt == pos + StampWidth && valueAt == keyAt + KeyPrefixWidth + |e.key|
    ensures ReadTimestamp(file, pos) == Ok(e.stamp, keyAt)
    ensures ReadBytesWithLen16(file, keyAt) == Ok(e.key, valueAt)
    ensures ReadBytesWithLen32(file, valueAt) == Ok(e.value, pos + |Record(e)|)
  {
    RecordAt(file, pos, e, keyAt, valueAt);
    assert file[pos..keyAt] == e.stamp;
    RoundTrip16(file, keyAt, e.key);
    RoundTrip32(file, valueAt, e.value);
  }

  /** `Next` when each of its three reads succeeds. */
  lemma NextOfFields(file: seq<Byte>, pos: nat, e: Entry, keyAt: nat, valueAt: nat, end: nat)
    requires pos <= |file|
    requires ReadTimestamp(file, pos) == Ok(e.stamp, keyAt)
    requires ReadBytesWithLen16(file, keyAt) == Ok(e.key, valueAt)
    requires ReadBytesWithLen32(file, valueAt) == Ok(e.value, end)
    ensures Next(file, pos) == Ok(e, end)
  {
  }

  /** Bytes appended after a complete record do not change how it reads. */
  lemma NextStable(file: seq<Byte>, more: seq<Byte>, pos: nat)
    requires pos <= |file| && Next(file, pos).Ok?
    ensures Next(file + more, pos) == Next(file, pos)
  {
    var e := Next(file, pos).value;
    AtStable(file, more, pos, Record(e));
    NextRecord(file + more, pos, e);
  }

  // ---------------------------------------------------------------- torn records

  /** A part of a stored chunk is stored at the matching offset. */
  lemma AtSlice(file: seq<Byte>, pos: nat, chunk: seq<Byte>, i: nat, j: nat, at: nat)
    requires At(file, pos, chunk) && i <= j <= |chunk| && at == pos + i
    ensures At(file, at, chunk[i..j])
  {
    forall t | 0 <= t < j - i
      ensures file[pos + i..pos + j][t] == chunk[i..j][t]
    {
      assert file[pos + i + t] == file[pos..pos + |chunk|][i + t];
    }
    assert file[pos + i..pos + j] == chunk[i..j];
  }

  /** The first `t` bytes after `a` in `a + b + c`, when `t` does not reach
      past `b`, are the first `t` bytes of `b`. */
  lemma MiddlePrefix(a: seq<Byte>, b: seq<Byte>, c: seq<Byte>, t: nat)
    requires t <= |b|
    ensures (a + b + c)[|a|..|a| + t] == b[..t]
  {
  }

  /** A file ending `j` bytes into a key field, before its end: a clean end
      when no byte of the field or exactly its prefix is there, a short read
      otherwise. */
  lemma KeyFieldTorn(file: seq<Byte>, pos: nat, key: seq<Byte>, j: nat)
    requires |key| < KeyLimit && j < |Field16(key)|
    requires |file| == pos + j && At(file, pos, Field16(key)[..j])
    ensures ReadBytesWithLen16(file, pos) == if j == 0 || j == KeyPrefixWidth then Eof(|file|) else ShortRead(|file|)
  {
    if KeyPrefixWidth <= j {
      Limits();
      AtSlice(file, pos, Field16(key)[..j], 0, KeyPrefixWidth, pos);
      assert Field16(key)[..j][0..KeyPrefixWidth] == Encode(|key|, KeyPrefixWidth);
      DecodeEncodeInRange(|key|, KeyPrefixWidth);
    }
  }

  /** A file ending `j` bytes into a value field, before its end: as for keys,
      with the 4-byte prefix. */
  lemma ValueFieldTorn(file: seq<Byte>, pos: nat, value: seq<Byte>, j: nat)
    requires |value| < ValueLimit && j < |Field32(value)|
    requires |file| == pos + j && At(file, pos, Field32(value)[..j])
    ensures ReadBytesWithLen32(file, pos) == if j == 0 || j == ValuePrefixWidth then Eof(|file|) else ShortRead(|file|)
  {
    if ValuePrefixWidth <= j {
      Limits();
      AtSlice(file, pos, Field32(value)[..j], 0, ValuePrefixWidth, pos);
      assert Field32(value)[..j][0..ValuePrefixWidth] == Encode(|value|, ValuePrefixWidth);
      DecodeEncodeInRange(|value|, ValuePrefixWidth);
    }
  }

  /** A record cut after `k` of its bytes, at the end of the file. `Next`
      never returns an entry for it: it reports a clean end exactly when the
      cut falls where a field, or the length prefix of a non-empty payload,
      ends, and a short read otherwise. In both cases the reader is left at
      the end of the file, so a torn record at a field boundary gives the
      caller the same answer as the end of the log, although the offset now
      lies inside a record rather than between two. */
  lemma NextTorn(file: seq<Byte>, pos: nat, e: Entry, k: nat)
    requires Fits(e) && k < |Record(e)|
    requires |file| == pos + k && At(file, pos, Record(e)[..k])
    ensures Next(file, pos) == if k in CleanCuts(e) then Eof(|file|) else ShortRead(|file|)
  {
    var valueAt := StampWidth + KeyPrefixWidth + |e.key|;
    if k < StampWidth {
      assert ReadTimestamp(file, pos) == if k == 0 then Eof(|file|) else ShortRead(|file|);
    } else if k < valueAt {
      TornInKey(file, pos, e, k);
    } else {
      TornInValue(file, pos, e, k);
    }
  }

  /** A reader that meets a torn record stops at the end of the file, inside
      the record. Once the rest of the record is appended, a reader starting
      at the record gets the entry, but the stopped reader calling `Next`
      again from where it stands does not. */
  lemma ResumeAfterTorn(file: seq<Byte>, pos: nat, e: Entry, k: nat, whole: seq<Byte>)
    requires Fits(e) && 0 < k < |Record(e)|
    requires |file| == pos + k && At(file, pos, Record(e)[..k]) && whole == file + Record(e)[k..]
    ensures Next(file, pos) == if k in CleanCuts(e) then Eof(|file|) else ShortRead(|file|)
    ensures Next(whole, pos) == Ok(e, |whole|)
    ensures Next(whole, |file|) != Ok(e, |whole|)
  {
    NextTorn(file, pos, e, k);
    Completed(file, pos, e, k, whole);
    NextRecord(whole, pos, e);
    NoRecordTo(whole, |file|, e);
  }

  /** Appending the missing bytes of a torn record completes it. */
  lemma Completed(file: seq<Byte>, pos: nat, e: Entry, k: nat, whole: seq<Byte>)
    requires k <= |Record(e)|
    requires |file| == pos + k && At(file, pos, Record(e)[..k]) && whole == file + Record(e)[k..]
    ensures At(whole, pos, Record(e)) && |whole| == pos + |Record(e)|
  {
    var rec := Record(e);
    assert whole[pos..pos + |rec|] == file[pos..pos + k] + rec[k..];
    assert rec[..k] + rec[k..] == rec;
  }

  /** Too few bytes remain at `at` for the record of `e` to end at the end
      of the file. */
  lemma NoRecordTo(file: seq<Byte>, at: nat, e: Entry)
    requires at <= |file| < at + |Record(e)|
    ensures Next(file, at) != Ok(e, |file|)
  {
  }

  /** A torn record that holds its whole timestamp block yields it. */
  lemma TornStamp(file: seq<Byte>, pos: nat, e: Entry, k: nat, keyAt: nat)
    requires Fits(e) && StampWidth <= k < |Record(e)| && keyAt == pos + StampWidth
    requires |file| == pos + k && At(file, pos, Record(e)[..k])
    ensures ReadTimestamp(file, pos) == Ok(e.stamp, keyAt)
  {
    AtSlice(file, pos, Record(e)[..k], 0, StampWidth, pos);
    assert Record(e)[..k][0..StampWidth] == e.stamp;
  }

  /** The cut falls inside the key field. */
  lemma TornInKey(file: seq<Byte>, pos: nat, e: Entry, k: nat)
    requires Fits(e) && StampWidth <= k < StampWidth + KeyPrefixWidth + |e.key|
    requires |file| == pos + k && At(file, pos, Record(e)[..k])
    ensures Next(file, pos) ==
              if k == StampWidth || k == StampWidth + KeyPrefixWidth then Eof(|file|) else ShortRead(|file|)
  {
    var keyAt := pos + StampWidth;
    TornStamp(file, pos, e, k, keyAt);
    TornKeyField(file, pos, e, k, keyAt);
    NextFailsAtKey(file, pos, e.stamp, keyAt);
  }

  /** The key read of a record cut inside its key field. */
  lemma TornKeyField(file: seq<Byte>, pos: nat, e: Entry, k: nat, keyAt: nat)
    requires Fits(e) && StampWidth <= k < StampWidth + KeyPrefixWidth + |e.key|
    requires |file| == pos + k && At(file, pos, Record(e)[..k]) && keyAt == pos + StampWidth
    ensures ReadBytesWithLen16(file, keyAt) ==
              if k == StampWidth || k == StampWidth + KeyPrefixWidth then Eof(|file|) else ShortRead(|file|)
  {
    var rec := Record(e);
    AtSlice(file, pos, rec[..k], StampWidth, k, keyAt);
    MiddlePrefix(e.stamp, Field16(e.key), Field32(e.value), k - StampWidth);
    assert rec[..k][StampWidth..k] == rec[StampWidth..k];
    KeyFieldTorn(file, keyAt, e.key, k - StampWidth);
  }

  /** `Next` when the timestamp is read and the key read fails. */
  lemma NextFailsAtKey(file: seq<Byte>, pos: nat, stamp: seq<Byte>, keyAt: nat)
    requires pos <= |file| && ReadTimestamp(file, pos) == Ok(stamp, keyAt)
    requires !ReadBytesWithLen16(file, keyAt).Ok?
    ensures Next(file, pos) == if ReadBytesWithLen16(file, keyAt).Eof? then Eof(|file|) else ShortRead(|file|)
  {
  }

  /** `Next` when the timestamp and the key are read and the value read
      fails. */
  lemma NextFailsAtValue(file: seq<Byte>, pos: nat, stamp: seq<Byte>, keyAt: nat, key: seq<Byte>, valueAt: nat)
    requires pos <= |file| && ReadTimestamp(file, pos) == Ok(stamp, keyAt)
    requires ReadBytesWithLen16(file, keyAt) == Ok(key, valueAt)
    requires !ReadBytesWithLen32(file, valueAt).Ok?
    ensures Next(file, pos) == if ReadBytesWithLen32(file, valueAt).Eof? then Eof(|file|) else ShortRead(|file|)
  {
  }

  /** A torn record that holds its whole key field yields the key. */
  lemma TornKey(file: seq<Byte>, pos: nat, e: Entry, k: nat, keyAt: nat, valueAt: nat)
    requires Fits(e) && StampWidth + KeyPrefixWidth + |e.key| <= k < |Record(e)|
    requires |file| == pos + k && At(file, pos, Record(e)[..k])
    requires keyAt == pos + StampWidth && valueAt == keyAt + KeyPrefixWidth + |e.key|
    ensures ReadBytesWithLen16(file, keyAt) == Ok(e.key, valueAt)
  {
    var rec := Record(e);
    var end := StampWidth + KeyPrefixWidth + |e.key|;
    AtSlice(file, pos, rec[..k], StampWidth, end, keyAt);
    MiddlePrefix(e.stamp, Field16(e.key), Field32(e.value), |Field16(e.key)|);
    assert rec[..k][StampWidth..end] == rec[StampWidth..end];
    assert Field16(e.key)[..|Field16(e.key)|] == Field16(e.key);
    RoundTrip16(file, keyAt, e.key);
  }

  /** The cut falls inside the value field. */
  lemma TornInValue(file: seq<Byte>, pos: nat, e: Entry, k: nat)
    requires Fits(e) && StampWidth + KeyPrefixWidth + |e.key| <= k < |Record(e)|
    requires |file| == pos + k && At(file, pos, Record(e)[..k])
    ensures var valueAt := StampWidth + KeyPrefixWidth + |e.key|;
            Next(file, pos) ==
              if k == valueAt || k == valueAt + ValuePrefixWidth then Eof(|file|) else ShortRead(|file|)
  {
    var keyAt := pos + StampWidth;
    var valueAt := keyAt + KeyPrefixWidth + |e.key|;
    TornStamp(file, pos, e, k, keyAt);
    TornKey(file, pos, e, k, keyAt, valueAt);
    TornValueField(file, pos, e, k, valueAt);
    NextFailsAtValue(file, pos, e.stamp, keyAt, e.key, valueAt);
  }

  /** The value read of a record cut inside its value field. */
  lemma TornValueField(file: seq<Byte>, pos: nat, e: Entry, k: nat, valueAt: nat)
    requires Fits(e) && StampWidth + KeyPrefixWidth + |e.key| <= k < |Record(e)|
    requires |file| == pos + k && At(file, pos, Record(e)[..k])
    requires valueAt == pos + StampWidth + KeyPrefixWidth + |e.key|
    ensures ReadBytesWithLen32(file, valueAt) ==
              if k == valueAt - pos || k == valueAt - pos + ValuePrefixWidth then Eof(|file|) else ShortRead(|file|)
  {
    var rec := Record(e);
    var start := StampWidth + KeyPrefixWidth + |e.key|;
    AtSlice(file, pos, rec[..k], start, k, valueAt);
    assert rec[..k][start..k] == Field32(e.value)[..k - start];
    ValueFieldTorn(file, valueAt, e.value, k - start);
  }
}
