# rawlog: the record codec of an append-only log

This project models the core of the Go package `rawlog`, an append-only log. It is written in Dafny, and the
properties below are proved about the model.

## What the package does

- **Writing.** `RawBytesLog.Append(key, bytes, ts)` appends one record to the log file. A record has three
  fields, each written only if the one before it succeeded:
  - a timestamp;
  - the key, behind a 2-byte little-endian length prefix;
  - the value, behind a 4-byte little-endian length prefix.
- **Reading.** A `Reader` starts at the beginning of the file. Each call to `Reader.Next` decodes the next record
  field by field. An `io.EOF` from any of the three field reads comes back unwrapped. Every other failure is
  wrapped in an error.

The package carries two copies of the field helpers:

- **rawlog.go.** The timestamp is the 15-byte block produced by `time.MarshalBinary`.
- **helpers.go.** The timestamp is the Unix time in seconds, cast to `uint32` and stored in 4 little-endian
  bytes.

## How the model is built

- **`LittleEndian`** models `binary.LittleEndian.PutUint16/PutUint32` and `Uint16/Uint32`.
  - Bytes are an integer newtype in `0..255`.
  - `Encode(n, width)` takes any integer. It reduces `n` modulo 256^width, which is the `uintN(..)` conversion
    of Go, including for negative `int64` Unix times.
- **`FileIO`** models the two system calls the codec makes.
  - **Writing.** A `Device` is the file's bytes plus the room left on it. A write that fits is stored whole and
    succeeds. A write that does not fit stores the bytes that fit and fails, as a write into a full disk does.
  - **Reading.** A reader is a position in the file. A read of `k` bytes returns the `min(k, remaining)` bytes
    that are there. It reports end of file when `k > 0` and nothing remains.
  - **`ReadFull`.** This is the idiom every field reader uses: end of file is passed on as `Eof`, and any count
    other than `k` is a `ShortRead`.
  - **Offsets.** Every outcome carries where the reader's file offset stands afterwards. A failed read has
    consumed the rest of the file, so after `Eof` or `ShortRead` the offset is the end of the file.
- **`Codec`** models the length-prefixed fields. These are the same in both copies, so they are modelled once.
- **`UnixStamp`** models the 4-byte timestamp of helpers.go.
- **`RawLog`** models the record layer of rawlog.go: `Append` and `Reader.Next`.
  - The 15-byte timestamp block is carried as opaque bytes.
  - The `ts` argument is an explicit parameter.
- **`Replay`** models a reader calling `Next` until it fails.
  - `ReplayFrom` is the functional definition.
  - `ReadAll` is the loop.
- **`Scenario`** models the usage in rawlog_test.go: four appends, then reading the log back from its start.
  - `Open` opens the file for appending without truncating it (rawlog.go:24), and the test never removes it.
    So the log may already hold entries from earlier runs, and the scenario starts from any log of fitting
    entries.

Two behaviours of the code shape what can be proved.

- **Oversized fields.** Nothing rejects a key or value too long for its prefix. The length is converted with
  `uint16(..)`/`uint32(..)` (rawlog.go:47, 61), so the prefix silently wraps:
  - `Codec.ReadAfterWrite` states the wrapped round trip;
  - `Codec.OversizedKeyReadsEmpty` shows a 65536-byte key reading back as the empty key.
- **Truncated records.** `Next` returns an `io.EOF` from any of its three field reads unwrapped
  (rawlog.go:173-175, 180-182, 187-189). So a record cut exactly where a field ends, or just after the length
  prefix of a non-empty payload, gives the caller the same answer as a clean end of the log.
  - `RawLog.NextTorn` and `Replay.ReplayTorn` state exactly which cut points do that. They are the set
    `RawLog.CleanCuts`.
  - The reader is then left at the end of the file, inside the record. `RawLog.ResumeAfterTorn` shows that
    once the record is completed, calling `Next` again from there does not return it.

## Model

| member | source | states |
|---|---|---|
| LittleEndian.DecodeEncode | rawlog.go:45-47 | reading back a little-endian prefix of `width` bytes gives the stored value modulo 256^width, which is the wrap-around of the `uint16`/`uint32` conversion |
| LittleEndian.EncodeDecode | rawlog.go:137 | every byte string is the little-endian encoding of the number `Uint16`/`Uint32` reads from it, so the decoder loses nothing |
| FileIO.WriteThenWrite | rawlog.go:48-56 | writing the prefix, then the payload only if the prefix write succeeded, has the same effect on the file as one write of both |
| FileIO.ReadFull | rawlog.go:130-136 | one read of `k` bytes succeeds exactly when `k` bytes remain and returns those bytes; it is `Eof` exactly when `k > 0` and no byte remains, and a short read otherwise; after a failure the offset is at the end of the file |
| FileIO.ReadFullStable | rawlog.go:130-136 | a complete read is unchanged by bytes appended to the file afterwards |
| Codec.WriteBytesWithLen | helpers.go:21-33 | the prefix write followed by the payload write succeeds exactly when the whole field fits, and leaves the file with the field, or the part of it that fit, appended |
| Codec.WriteBytesWithLen16 | rawlog.go:45-57 | on success exactly 2 + len(payload) bytes are appended after the old contents: a little-endian prefix holding len(payload) mod 2^16, then the payload; a failed write leaves a prefix of that field |
| Codec.WriteBytesWithLen32 | rawlog.go:59-71 | as for keys, with exactly 4 + len(payload) bytes and a prefix holding len(payload) mod 2^32 |
| Codec.ReadBytesWithLen | helpers.go:63-82 | succeeds exactly when the prefix and the payload it announces are both in the file, returning the payload and the position after it; `Eof` exactly when the file ends before the prefix, or right after a prefix announcing a non-empty payload; a failure leaves the offset at the end of the file |
| Codec.ReadBytesWithLenSound | helpers.go:93-102 | the bytes a successful field read consumed are exactly the field the writer produces for the payload it returned, so the cursor advances by the prefix width plus the decoded length |
| Codec.ReadBytesWithLen16 | rawlog.go:128-147 | no byte left gives `Eof`; 1 byte of the 2-byte prefix gives a short read; after a whole prefix announcing L, success iff L bytes follow, `Eof` iff L > 0 and nothing follows; a result is a stored field of fewer than 2^16 bytes |
| Codec.ReadBytesWithLen32 | rawlog.go:149-168 | the same for values: 1 to 3 prefix bytes give a short read, and a result is a stored field of fewer than 2^32 bytes |
| Codec.ReadAfterWrite | rawlog.go:47 | a stored field of any length reads back as its payload cut to the wrapped length, with the cursor just after the bytes read |
| Codec.RoundTrip16 | helpers.go:63-82 | a key shorter than 2^16 bytes, stored as the writer stores it, reads back unchanged whatever follows it, and the cursor lands 2 + len(key) bytes on |
| Codec.RoundTrip32 | helpers.go:84-103 | a value shorter than 2^32 bytes reads back unchanged, and the cursor lands 4 + len(value) bytes on |
| Codec.OversizedKeyReadsEmpty | rawlog.go:47 | a key of exactly 2^16 bytes is written with prefix 0, so it reads back as the empty key and the cursor stops inside the key's bytes |
| Codec.EmptyPayload | helpers.go:22-23 | an empty payload is stored as an all-zero prefix alone (`[0,0]`, `[0,0,0,0]`) and reads back as the empty payload |
| UnixStamp.WriteTimestamp | helpers.go:10-19 | the write succeeds iff 4 bytes fit; it then appends exactly 4 bytes after the old contents, and they decode to the Unix seconds mod 2^32; the nanoseconds are not stored |
| UnixStamp.ReadTimestamp | helpers.go:49-61 | `Eof` iff no byte remains; success iff 4 bytes remain, giving seconds in [0, 2^32) with no sub-second part, stored as the writer would store them, and a cursor 4 bytes on |
| UnixStamp.TimestampRoundTrip | helpers.go:58-59 | a stored timestamp reads back as its seconds mod 2^32 with the nanoseconds dropped |
| UnixStamp.TimestampRoundTripInRange | helpers.go:49-61 | a timestamp with seconds in [0, 2^32) reads back with exactly those seconds |
| RawLog.WriteTimestamp | rawlog.go:33-43 | writing the marshalled block succeeds iff it fits, appending it whole; otherwise the part that fit is appended |
| RawLog.Append | rawlog.go:74-92 | the file gains the record (timestamp, key field, value field in that order) or the part of it that fit, and nothing before it changes; success iff the record fits; the failing stage is the field in which the room ran out, so later fields are not written |
| RawLog.AppendExtendsLog | rawlog.go:79-91 | an append that fits turns the log of entries `es` into the log of `es + [e]` |
| RawLog.ReadTimestamp | rawlog.go:111-119 | `Eof` iff no byte remains, success iff 15 bytes remain, consuming exactly those 15 bytes, and a short read for 1 to 14 |
| RawLog.Next | rawlog.go:171-194 | at end of file `Next` gives `Eof`; an entry it returns fits the layout and is stored exactly at the reader's position, and the reader lands just after its record; when it fails, the reader is left at the end of the file |
| RawLog.NextRecord | rawlog.go:171-194 | conversely, a stored record whose key and value fit their prefixes is returned as itself, whatever follows it |
| RawLog.NextStable | rawlog.go:171-194 | bytes appended to the file do not change a record `Next` has already decoded |
| RawLog.KeyFieldTorn | rawlog.go:128-147 | a file ending partway through a key field reads as `Eof` when the cut is before the field or just after its prefix, and as a short read otherwise |
| RawLog.ValueFieldTorn | rawlog.go:149-168 | the same for a value field and its 4-byte prefix |
| RawLog.NextTorn | rawlog.go:171-194 | a record cut after k bytes never yields an entry; it reads as `Eof` exactly when k is a clean cut (before a field, or just after the prefix of a non-empty payload) and as a short read otherwise |
| RawLog.ResumeAfterTorn | rawlog.go:171-194 | a reader that met a torn record is left at the end of the file; once the rest of the record is appended, a reader starting at the record gets the entry, but the stopped reader calling `Next` again does not |
| Replay.ReplayFrom | rawlog_test.go:34-43 | the entries read by calling `Next` until it fails all fit the layout, and their records are stored back to back from the start position |
| Replay.ReadAll | rawlog_test.go:34-43 | the loop calling `Next` until it fails collects exactly the entries of the replay and stops for the same reason |
| Replay.ReplayLog | rawlog.go:171-194 | the log of fitting entries e1..en reads back as e1..en in order, followed by a clean end of file |
| Replay.ReplayTorn | rawlog.go:173-175 | a log whose last record is torn reads back as the entries before it, then `Eof` if the tear is at a clean cut and a short read otherwise |
| Replay.ReplayGrows | rawlog.go:171-194 | appending bytes to a file never changes the entries a reader has already been given: the longer file's replay extends the shorter one's |
| Replay.AppendThenReplay | rawlog.go:74-92 | after a successful append to a log of `es`, the replay returns `es + [e]` and then a clean end |
| Replay.FailedAppendReplay | rawlog.go:74-92 | an append that runs out of room fails and leaves the replay returning `es` only, ending as a clean end exactly when the room ran out at a clean cut of the record |
| Scenario.AppendAllLog | rawlog_test.go:14-29 | appending entries one by one, with room for all of them, succeeds and leaves the log of all the entries in order |
| Scenario.AppendAllThenReplay | rawlog_test.go:14-43 | entries appended to a log are read back after the entries already in it, in order, followed by a clean end of file |
| Scenario.TestRun | rawlog_test.go:14-43 | the four appends of the test succeed on a file with room for their 153 bytes, and the reader returns the entries already in the log and then the four new ones in order, before end of file |
| Scenario.RunTest | rawlog_test.go:14-43 | the whole test, appends then reading loop, collects the entries of earlier runs and then the four new ones, and stops at `io.EOF` |

## Left out

- `Open`, `NewReader`, `RawBytesLog.Close`, `Reader.Close` (rawlog.go:23-31, 95-109, 197-199): opening and closing
  file handles. They are plumbing between the operating system and the codec. The model starts from the
  file's bytes and the room left on the device.
- `time.MarshalBinary` and `time.UnmarshalBinary` (rawlog.go:34, 121): library code outside the package. The
  15-byte block is opaque, so an `Entry` carries the marshalled bytes.
- RawLog.Fits: assumes the marshalled timestamp takes 15 bytes. `MarshalBinary` emits 16 bytes when the zone
  offset has a seconds part. `Append` then writes 16 bytes and `readTimestamp` reads 15 of them, and that
  case is not modelled.
- RawLog.ReadTimestamp: always accepts 15 whole bytes. The `UnmarshalBinary` failure path (rawlog.go:120-124)
  is not modelled, because the block's internal format is not part of this model.
- RawLog.WriteTimestamp: the `MarshalBinary` error path (rawlog.go:35-37) is not modelled, for the same
  reason.
- The `time.Now()` default for a nil timestamp (rawlog.go:75-78): a clock. Timestamps are always an
  explicit parameter.
- Concurrent readers and writers on the same file: the model is sequential.
- I/O errors other than running out of room, and `Read` returning fewer bytes than remain in the file. A
  single read of a regular file is taken to return `min(k, remaining)` bytes.
- Error strings and `%w` wrapping: errors are collapsed to `Eof` (returned unwrapped) and `ShortRead`.
  The stage at which `Append` failed is kept.
- Scenario.TestRun: rawlog_test.go calls `Append` with an `Entry` value and gets a single entry back from
  `Next`, which is a different API from rawlog.go's. The model follows the test's sequence of calls, written against the
  rawlog.go API. Its four timestamps are parameters, and its `log.Printf` output and `panic`s are not
  modelled.
