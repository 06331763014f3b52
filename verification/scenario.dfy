/** The usage rawlog_test.go exercises: several `Append`s to a log, then
    one reader calling `Next` from the start of the file until end of file.
    The log file is opened for appending and never truncated, so it may
    already hold the entries of earlier runs. The timestamps, which the test
    leaves to `time.Now`, are given explicitly. */
module Scenario {
  import opened LittleEndian
  import opened FileIO
  import opened RawLog
  import opened Replay

  /** `Append` for each entry in order, stopping at the first that fails. */
  function AppendAll(d: Device, es: seq<Entry>): (r: AppendResult)
    ensures |r.dev.file| + r.dev.room == |d.file| + d.room
    decreases |es|
  {
    if |es| == 0 then AppendResult(d, Appended)
    else
      var first := Append(d, es[0]);
      if first.status != Appended then first else AppendAll(first.dev, es[1..])
  }

  /** Appending entries to a log, with room for all of them, stores each
      one and leaves the log of all the entries. */
  lemma {:induction false} AppendAllLog(d: Device, done: seq<Entry>, es: seq<Entry>)
    requires d.file == Log(done) && |Log(es)| <= d.room
    ensures AppendAll(d, es).status == Appended
    ensures AppendAll(d, es).dev.file == Log(done + es)
    decreases |es|
  {
    if |es| == 0 {
      assert done + es == done;
    } else {
      var e := es[0];
      LogCons(e, es[1..]);
      assert [e] + es[1..] == es;
      AppendExtendsLog(d, done, e);
      AppendAllLog(Append(d, e).dev, done + [e], es[1..]);
      AppendAssoc(done, [e], es[1..]);
    }
  }

  /** Entries appended one by one to a log holding `done`, with room for
      all of them, are read back after the earlier entries, in order,
      followed by a clean end of file. */
  lemma AppendAllThenReplay(d: Device, done: seq<Entry>, es: seq<Entry>)
    requires AllFit(done) && AllFit(es) && d.file == Log(done) && |Log(es)| <= d.room
    ensures AppendAll(d, es).status == Appended
    ensures ReplayFrom(AppendAll(d, es).dev.file, 0) == Replayed(done + es, AtEof)
  {
    AppendAllLog(d, done, es);
    AllFitConcat(done, es);
    ReplayLog(done + es);
  }

  /** The bytes of an ASCII string, as Go's `[]byte(..)` conversion gives
      them. */
  function Ascii(s: string): (r: seq<Byte>)
    requires forall i :: 0 <= i < |s| ==> s[i] as int < 128
    ensures |r| == |s|
    ensures forall i :: 0 <= i < |s| ==> r[i] as int == s[i] as int
  {
    seq(|s|, i requires 0 <= i < |s| => s[i] as int as Byte)
  }

  /** The four entries of the test, with the given timestamp blocks. */
  function TestEntries(stamps: seq<seq<Byte>>): (es: seq<Entry>)
    requires |stamps| == 4
    ensures |es| == 4
    ensures forall i :: 0 <= i < 4 ==> es[i].stamp == stamps[i]
  {
    [ Entry(Ascii("alpha"), Ascii("something"), stamps[0]),
      Entry(Ascii("alpha"), Ascii("something else"), stamps[1]),
      Entry(Ascii("alpha"), Ascii("something different"), stamps[2]),
      Entry(Ascii("beta"), Ascii("anything"), stamps[3]) ]
  }

  /** The test's run: the four appends succeed on a log holding `done`
      with room for the 153 bytes of their records, and the reader returns
      the earlier entries and then the four new ones in order, before end
      of file. On a fresh file `done` is empty. */
  lemma TestRun(d: Device, done: seq<Entry>, stamps: seq<seq<Byte>>)
    requires AllFit(done) && d.file == Log(done)
    requires |stamps| == 4
    requires forall i :: 0 <= i < 4 ==> |stamps[i]| == StampWidth
    requires 153 <= d.room
    ensures var es := TestEntries(stamps);
            && AppendAll(d, es).status == Appended
            && ReplayFrom(AppendAll(d, es).dev.file, 0) == Replayed(done + es, AtEof)
  {
    TestEntriesFit(stamps);
    TestLogLength(stamps);
    AppendAllThenReplay(d, done, TestEntries(stamps));
  }

  lemma TestEntriesFit(stamps: seq<seq<Byte>>)
    requires |stamps| == 4
    requires forall i :: 0 <= i < 4 ==> |stamps[i]| == StampWidth
    ensures AllFit(TestEntries(stamps))
  {
    Codec.Limits();
  }

  /** The four records take 35, 40, 45 and 33 bytes. */
  lemma TestLogLength(stamps: seq<seq<Byte>>)
    requires |stamps| == 4
    requires forall i :: 0 <= i < 4 ==> |stamps[i]| == StampWidth
    ensures |Log(TestEntries(stamps))| == 153
  {
    var es := TestEntries(stamps);
    LogCons(es[0], es[1..]);
    LogCons(es[1], es[2..]);
    LogCons(es[2], es[3..]);
    LogCons(es[3], es[4..]);
    assert [es[0]] + es[1..] == es;
    assert [es[1]] + es[2..] == es[1..];
    assert [es[2]] + es[3..] == es[2..];
    assert [es[3]] + es[4..] == es[3..];
    assert es[4..] == [];
  }

  /** The test end to end: the four appends, then the reading loop, which
      collects the entries already in the log, then the four new ones, and
      stops at end of file. */
  method RunTest(d: Device, done: seq<Entry>, stamps: seq<seq<Byte>>) returns (entries: seq<Entry>, halt: Halt)
    requires AllFit(done) && d.file == Log(done)
    requires |stamps| == 4
    requires forall i :: 0 <= i < 4 ==> |stamps[i]| == StampWidth
    requires 153 <= d.room
    ensures entries == done + TestEntries(stamps) && halt == AtEof
  {
    var appended := AppendAll(d, TestEntries(stamps));
    TestRun(d, done, stamps);
    entries, halt := ReadAll(appended.dev.file);
  }
}
