/** Reading a whole log: a reader starts at the beginning of the file and
    calls `Reader.Next` until it stops, as the loop in rawlog_test.go does.
    The replay yields the entries read and whether it stopped at a clean end
    of file or at a short read. */
module Replay {
  import opened LittleEndian
  import opened FileIO
  import opened RawLog

  /** Why a replay stopped. */
  datatype Halt = AtEof | AtShortRead

  datatype Replayed = Replayed(entries: seq<Entry>, halt: Halt)

  /** The entries `Next` returns one after the other from `pos` on. They are
      records `Append` could have written, stored back to back from `pos`. */
  function ReplayFrom(file: seq<Byte>, pos: nat): (r: Replayed)
    requires pos <= |file|
    ensures AllFit(r.entries)
    ensures At(file, pos, Log(r.entries))
    decreases |file| - pos
  {
    match Next(file, pos)
    case Eof(_) => Replayed([], AtEof)
    case ShortRead(_) => Replayed([], AtShortRead)
    case Ok(e, next) =>
      var rest := ReplayFrom(file, next);
      StoredPrepend(file, pos, next, e, rest.entries);
      Replayed([e] + rest.entries, rest.halt)
  }

  /** A fitting record stored at `pos`, followed by the log of fitting
      entries `es`, is the log of `[e] + es`. */
  lemma StoredPrepend(file: seq<Byte>, pos: nat, next: nat, e: Entry, es: seq<Entry>)
    requires Fits(e) && At(file, pos, Record(e)) && next == pos + |Record(e)|
    requires AllFit(es) && At(file, next, Log(es))
    ensures AllFit([e] + es) && At(file, pos, Log([e] + es))
  {
    LogCons(e, es);
    AtSplit(file, pos, next, Record(e), Log(es));
    forall i | 0 <= i < |[e] + es|
      ensures Fits(([e] + es)[i])
    {
      if i > 0 {
        assert ([e] + es)[i] == es[i - 1];
      }
    }
  }

  /** Concatenation is associative. */
  lemma AppendAssoc<T>(a: seq<T>, b: seq<T>, c: seq<T>)
    ensures a + (b + c) == (a + b) + c
  {
  }

  /** The empty sequence is a unit of concatenation. */
  lemma AppendEmpty<T>(a: seq<T>)
    ensures a + [] == a && [] + a == a
  {
  }

  /** A log starting with `e` is the record of `e`, then the rest. */
  lemma LogCons(e: Entry, es: seq<Entry>)
    ensures Log([e] + es) == Record(e) + Log(es)
  {
    assert ([e] + es)[1..] == es;
  }

  /** At the end of the file the replay stops at once, cleanly. */
  lemma ReplayAtEnd(file: seq<Byte>)
    ensures ReplayFrom(file, |file|) == Replayed([], AtEof)
  {
    assert Next(file, |file|) == Eof(|file|);
  }

  /** A record read by `Next` is the first entry of the replay. */
  lemma ReplayStep(file: seq<Byte>, pos: nat, e: Entry, next: nat)
    requires pos <= |file| && Next(file, pos) == Ok(e, next)
    ensures next <= |file|
    ensures ReplayFrom(file, pos)
         == Replayed([e] + ReplayFrom(file, next).entries, ReplayFrom(file, next).halt)
  {
  }

  /** The loop of rawlog_test.go: call `Next` until it fails. */
  method ReadAll(file: seq<Byte>) returns (entries: seq<Entry>, halt: Halt)
    ensures Replayed(entries, halt) == ReplayFrom(file, 0)
  {
    var pos := 0;
    entries := [];
    var next := Next(file, pos);
    while next.Ok?
      invariant pos <= |file| && next == Next(file, pos)
      invariant ReplayFrom(file, 0).halt == ReplayFrom(file, pos).halt
      invariant ReplayFrom(file, 0).entries == entries + ReplayFrom(file, pos).entries
      decreases |file| - pos
    {
      ReplayStep(file, pos, next.value, next.next);
      AppendAssoc(entries, [next.value], ReplayFrom(file, next.next).entries);
      entries := entries + [next.value];
      pos := next.next;
      next := Next(file, pos);
    }
    halt := if next.Eof? then AtEof else AtShortRead;
  }

  /** Where `Next` does not return an entry the replay stops at once,
      with the reason `Next` gave. */
  lemma ReplayStops(file: seq<Byte>, pos: nat)
    requires pos <= |file| && !Next(file, pos).Ok?
    ensures ReplayFrom(file, pos) == Replayed([], if Next(file, pos).Eof? then AtEof else AtShortRead)
  {
  }

  /** The bytes from `pos` to `end` are `a` followed by `b`. */
  lemma SplitSlice(file: seq<Byte>, pos: nat, mid: nat, end: nat, a: seq<Byte>, b: seq<Byte>)
    requires pos <= end <= |file| && file[pos..end] == a + b && mid == pos + |a|
    ensures At(file, pos, a) && mid <= end && file[mid..end] == b
  {
    assert file[pos..pos + |a|] == (a + b)[..|a|];
    assert file[pos + |a|..end] == (a + b)[|a|..];
  }

  /** Records of entries that fit, stored back to back from `pos` to `end`,
      are replayed in order; the replay then goes on from `end`. */
  lemma {:induction false} ReplayThrough(file: seq<Byte>, pos: nat, end: nat, es: seq<Entry>)
    requires pos <= end <= |file| && AllFit(es) && file[pos..end] == Log(es)
    ensures ReplayFrom(file, pos)
         == Replayed(es + ReplayFrom(file, end).entries, ReplayFrom(file, end).halt)
    decreases es
  {
    if |es| == 0 {
      assert pos == end;
      AppendEmpty(ReplayFrom(file, end).entries);
    } else {
      var after := pos + |Record(es[0])|;
      ReplayHead(file, pos, after, end, es);
      ReplayThrough(file, after, end, es[1..]);
      Chain(ReplayFrom(file, pos), ReplayFrom(file, after), ReplayFrom(file, end), es);
    }
  }

  /** The first of the stored records is the first entry of the replay, and
      the rest of them are stored just after it. */
  lemma ReplayHead(file: seq<Byte>, pos: nat, after: nat, end: nat, es: seq<Entry>)
    requires pos <= end <= |file| && AllFit(es) && file[pos..end] == Log(es) && |es| > 0
    requires after == pos + |Record(es[0])|
    ensures && after <= end
            && AllFit(es[1..])
            && file[after..end] == Log(es[1..])
            && ReplayFrom(file, pos)
               == Replayed([es[0]] + ReplayFrom(file, after).entries, ReplayFrom(file, after).halt)
  {
    var e := es[0];
    LogCons(e, es[1..]);
    assert [e] + es[1..] == es;
    SplitSlice(file, pos, after, end, Record(e), Log(es[1..]));
    NextRecord(file, pos, e);
    ReplayStep(file, pos, e, after);
    AllFitTail(es);
  }

  /** The entries after the first of a fitting sequence fit too. */
  lemma AllFitTail(es: seq<Entry>)
    requires AllFit(es) && |es| > 0
    ensures AllFit(es[1..])
  {
    forall i | 0 <= i < |es[1..]|
      ensures Fits(es[1..][i])
    {
      assert es[1..][i] == es[i + 1];
    }
  }

  /** Two sequences of fitting entries make one. */
  lemma AllFitConcat(a: seq<Entry>, b: seq<Entry>)
    requires AllFit(a) && AllFit(b)
    ensures AllFit(a + b)
  {
    forall i | 0 <= i < |a + b|
      ensures Fits((a + b)[i])
    {
      if i < |a| {
        assert (a + b)[i] == a[i];
      } else {
        assert (a + b)[i] == b[i - |a|];
      }
    }
  }

  /** One entry, then a replay that yields the rest of `es` and goes on
      with `z`, is a replay that yields `es` and goes on with `z`. */
  lemma Chain(x: Replayed, y: Replayed, z: Replayed, es: seq<Entry>)
    requires |es| > 0
    requires x == Replayed([es[0]] + y.entries, y.halt)
    requires y == Replayed(es[1..] + z.entries, z.halt)
    ensures x == Replayed(es + z.entries, z.halt)
  {
    AppendAssoc([es[0]], es[1..], z.entries);
    assert [es[0]] + es[1..] == es;
  }

  /** A log written by successful `Append`s replays to exactly its entries,
      in order, and then a clean end of file. */
  lemma ReplayLog(es: seq<Entry>)
    requires AllFit(es)
    ensures ReplayFrom(Log(es), 0) == Replayed(es, AtEof)
  {
    var file := Log(es);
    assert file[0..|file|] == file;
    ReplayThrough(file, 0, |file|, es);
    ReplayAtEnd(file);
    AppendEmpty(es);
  }

  /** A log whose last record is cut after `k` bytes replays to the entries
      before it. The cut record is never returned; the replay ends as at a
      clean end of file when the cut falls on a clean cut of the record, and
      with a short read otherwise. */
  lemma ReplayTorn(es: seq<Entry>, e: Entry, k: nat)
    requires AllFit(es) && Fits(e) && k < |Record(e)|
    ensures ReplayFrom(Log(es) + Record(e)[..k], 0)
         == Replayed(es, if k in CleanCuts(e) then AtEof else AtShortRead)
  {
    var log := Log(es);
    var file := log + Record(e)[..k];
    assert file[0..|log|] == log;
    assert file[|log|..|log| + k] == Record(e)[..k];
    ReplayTornAt(file, |log|, es, e, k);
  }

  /** `ReplayTorn` for a file given by where the torn record starts. */
  lemma ReplayTornAt(file: seq<Byte>, end: nat, es: seq<Entry>, e: Entry, k: nat)
    requires AllFit(es) && Fits(e) && k < |Record(e)|
    requires |file| == end + k && file[0..end] == Log(es) && At(file, end, Record(e)[..k])
    ensures ReplayFrom(file, 0)
         == Replayed(es, if k in CleanCuts(e) then AtEof else AtShortRead)
  {
    ReplayThrough(file, 0, end, es);
    NextTorn(file, end, e, k);
    ReplayStops(file, end);
    AppendEmpty(es);
  }

  /** Bytes appended to a file never change the entries a replay has already
      returned: the replay of the longer file extends the shorter one's. */
  lemma {:induction false} ReplayGrows(file: seq<Byte>, more: seq<Byte>, pos: nat)
    requires pos <= |file|
    ensures var short := ReplayFrom(file, pos).entries;
            short <= ReplayFrom(file + more, pos).entries
    decreases |file| - pos
  {
    var r := Next(file, pos);
    if r.Ok? {
      NextStable(file, more, pos);
      ReplayGrows(file, more, r.next);
    }
  }

  /** A successful `Append` to a log makes the replay return one more entry,
      the appended one, at the end. */
  lemma AppendThenReplay(d: Device, es: seq<Entry>, e: Entry)
    requires AllFit(es) && Fits(e) && d.file == Log(es) && |Record(e)| <= d.room
    ensures Append(d, e).status == Appended
    ensures ReplayFrom(Append(d, e).dev.file, 0) == Replayed(es + [e], AtEof)
  {
    AppendExtendsLog(d, es, e);
    AllFitConcat(es, [e]);
    ReplayLog(es + [e]);
  }

  /** An `Append` that runs out of room leaves a torn record behind it: the
      replay returns the earlier entries only, and ends as at a clean end of
      file exactly when the room ran out on a clean cut of the record. */
  lemma FailedAppendReplay(d: Device, es: seq<Entry>, e: Entry)
    requires AllFit(es) && Fits(e) && d.file == Log(es) && d.room < |Record(e)|
    ensures Append(d, e).status.Failed?
    ensures ReplayFrom(Append(d, e).dev.file, 0)
         == Replayed(es, if d.room in CleanCuts(e) then AtEof else AtShortRead)
  {
    ReplayTorn(es, e, d.room);
  }
}
