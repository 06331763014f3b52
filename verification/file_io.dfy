/** The two operating-system calls the log codec makes on its file, reduced
    to pure functions over the file's bytes.

    Writing: the file is appended to through a `Device` that has room for a
    bounded number of further bytes. A write that fits is stored whole and
    succeeds; a write that does not fit stores the bytes that fit and fails,
    as a write into a full disk does.

    Reading: a reader is a byte position in the file. A read asking for `k`
    bytes returns the `min(k, remaining)` bytes that are there, reports end
    of file when `k > 0` and nothing remains, and always succeeds when
    `k == 0`. */
module FileIO {
  import opened LittleEndian

  function Min(a: nat, b: nat): nat { if a <= b then a else b }

  /** `chunk` is stored in `file` starting at byte `pos`. */
  predicate At(file: seq<Byte>, pos: nat, chunk: seq<Byte>) {
    pos + |chunk| <= |file| && file[pos..pos + |chunk|] == chunk
  }

  // ---------------------------------------------------------------- writing

  /** An append-only file and the number of further bytes it can take. */
  datatype Device = Device(file: seq<Byte>, room: nat)

  /** The device after a write, and whether the write succeeded. */
  datatype Written = Written(dev: Device, ok: bool)

  /** One `Write` call appending `b` at the end of the file. */
  function Write(d: Device, b: seq<Byte>): (w: Written)
    ensures w.ok <==> |b| <= d.room
    ensures w.dev.file == d.file + b[..Min(|b|, d.room)]
    ensures |w.dev.file| + w.dev.room == |d.file| + d.room
  {
    var n := Min(|b|, d.room);
    Written(Device(d.file + b[..n], d.room - n), |b| <= d.room)
  }

  /** A write that fits appends all of its bytes. */
  lemma WriteFits(d: Device, b: seq<Byte>)
    ensures |b| <= d.room ==> Write(d, b).dev.file == d.file + b
  {
    assert b[..|b|] == b;
  }

  /** Issuing two writes, the second only if the first succeeded, has the
      same effect as one write of their concatenation. */
  lemma WriteThenWrite(d: Device, a: seq<Byte>, b: seq<Byte>)
    ensures var w := Write(d, a);
            (if w.ok then Write(w.dev, b) else w) == Write(d, a + b)
  {
    var w := Write(d, a);
    if w.ok {
      assert (a + b)[..Min(|a + b|, d.room)] == a + b[..Min(|b|, d.room - |a|)];
    } else {
      assert (a + b)[..d.room] == a[..d.room];
    }
  }

  // ---------------------------------------------------------------- reading

  /** What one `Read` call returns: the bytes read and the new position, or
      end of file. */
  datatype ReadResult = Data(bytes: seq<Byte>, next: nat) | EndOfFile

  /** One `Read` call asking for `k` bytes at position `pos`. */
  function Read(file: seq<Byte>, pos: nat, k: nat): (r: ReadResult)
    requires pos <= |file|
    ensures r.EndOfFile? <==> k > 0 && pos == |file|
    ensures r.Data? ==> |r.bytes| == Min(k, |file| - pos) && r.next == pos + |r.bytes|
    ensures r.Data? ==> At(file, pos, r.bytes)
  {
    if k == 0 then Data([], pos)
    else if pos == |file| then EndOfFile
    else
      var n := Min(k, |file| - pos);
      Data(file[pos..pos + n], pos + n)
  }

  /** The result of decoding one item at a position: the item, a clean end
      of file before the item's first read, or a read that came back short.
      In each case `next` is where the reader's file offset stands
      afterwards: just after the item, or wherever the failing read left
      it. */
  datatype Outcome<+T> = Ok(value: T, next: nat) | Eof(next: nat) | ShortRead(next: nat)

  /** The reading idiom every field decoder uses: one `Read` of `k` bytes;
      end of file is passed on as `Eof`, any other count than `k` is an
      error. A read that fails has consumed the rest of the file. */
  function ReadFull(file: seq<Byte>, pos: nat, k: nat): (r: Outcome<seq<Byte>>)
    requires pos <= |file|
    ensures r.Ok? <==> pos + k <= |file|
    ensures r.Ok? ==> r.next == pos + k && r.value == file[pos..pos + k]
    ensures r.Eof? <==> k > 0 && pos == |file|
    ensures !r.Ok? ==> r.next == |file|
  {
    match Read(file, pos, k)
    case EndOfFile => Eof(pos)
    case Data(bytes, next) => if |bytes| != k then ShortRead(next) else Ok(bytes, next)
  }

  /** A complete read is not disturbed by bytes appended to the file later. */
  lemma ReadFullStable(file: seq<Byte>, more: seq<Byte>, pos: nat, k: nat)
    requires pos <= |file| && ReadFull(file, pos, k).Ok?
    ensures ReadFull(file + more, pos, k) == ReadFull(file, pos, k)
  {
    assert (file + more)[pos..pos + k] == file[pos..pos + k];
  }

  /** A chunk stored at `pos` is still stored there after more bytes are
      appended. */
  lemma AtStable(file: seq<Byte>, more: seq<Byte>, pos: nat, chunk: seq<Byte>)
    requires At(file, pos, chunk)
    ensures At(file + more, pos, chunk)
  {
    assert (file + more)[pos..pos + |chunk|] == file[pos..pos + |chunk|];
  }

  /** A stored concatenation is its parts stored one after the other. */
  lemma AtConcat(file: seq<Byte>, pos: nat, a: seq<Byte>, b: seq<Byte>)
    ensures At(file, pos, a + b) <==> At(file, pos, a) && At(file, pos + |a|, b)
  {
    if At(file, pos, a + b) {
      assert file[pos..pos + |a|] == (a + b)[..|a|];
      assert file[pos + |a|..pos + |a| + |b|] == (a + b)[|a|..];
    }
    if At(file, pos, a) && At(file, pos + |a|, b) {
      assert file[pos..pos + |a| + |b|] == file[pos..pos + |a|] + file[pos + |a|..pos + |a| + |b|];
    }
  }

  /** `AtConcat` with the offset of the second part given. */
  lemma AtSplit(file: seq<Byte>, pos: nat, mid: nat, a: seq<Byte>, b: seq<Byte>)
    requires mid == pos + |a|
    ensures At(file, pos, a + b) <==> At(file, pos, a) && At(file, mid, b)
  {
    AtConcat(file, pos, a, b);
  }
}
