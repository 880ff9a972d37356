/**
 * The DiskStore storage engine: a log-structured hash table in the style of
 * Bitcask. All writes are appended to one data file (the log); an in-memory
 * keyDir maps every key to the timestamp, offset and size of its latest record;
 * writePosition is the offset at which the next record goes. On start-up the
 * keyDir is rebuilt by replaying the file from offset 0.
 *
 * The first half of the module describes the store as values (State, Replay,
 * SetSpec, GetSpec) and proves its properties; the second half is the DiskStore
 * class whose methods update the three fields in place and are proved against
 * those functions.
 */
module CaskDb {
  import opened Codec

  /** Where the latest record of a key lives in the log. */
  datatype KeyEntry = KeyEntry(timestamp: u32, position: u32, totalSize: u32)

  type KeyDir = map<seq<byte>, KeyEntry>

  /** The contents of a store handle: the file's bytes, the index and the write cursor. */
  datatype State = State(log: seq<byte>, keyDir: KeyDir, writePosition: u32)

  /** What the recovery scan leaves behind: the rebuilt index and the offset it stopped at. */
  datatype Recovered = Recovered(keyDir: KeyDir, end: nat)

  /** The result of Get: the value, or the panic raised on a short read or a bad frame. */
  datatype Outcome = Ok(value: seq<byte>) | ReadPanic

  /** One call Set(key, value) made at the given time. */
  datatype Write = Write(timestamp: u32, key: seq<byte>, value: seq<byte>)

  // ---------------------------------------------------------------------------
  // Recovery
  // ---------------------------------------------------------------------------

  /** The complete record that starts at byte `off` of the log, if there is one. */
  function RecordAt(log: seq<byte>, off: nat): (r: Option<Record>)
    requires off <= |log|
    ensures r.Some? ==> off + FrameSize(r.value.key, r.value.value) <= |log|
  {
    DecodeKV(log[off..])
  }

  /**
   * What the recovery loop computes from offset `off` with index `dir`: read
   * records one after another, pointing each key at its record, until the
   * first place where no complete record starts (end of file, a short header,
   * or a key or value section cut short). The scan never leaves the log.
   */
  function Replay(log: seq<byte>, off: nat, dir: KeyDir): (r: Recovered)
    requires off <= |log| < U32Limit
    ensures off <= r.end <= |log|
    decreases |log| - off
  {
    match RecordAt(log, off)
    case None => Recovered(dir, off)
    case Some(rec) =>
      var size := FrameSize(rec.key, rec.value);
      Replay(log, off + size, dir[rec.key := KeyEntry(rec.timestamp, off, size)])
  }

  /**
   * Replay stops exactly at the first offset where no complete record starts,
   * and every record before it was read: it stops at `off` itself only when
   * no record starts there.
   */
  lemma {:induction false} ReplayStops(log: seq<byte>, off: nat, dir: KeyDir)
    requires off <= |log| < U32Limit
    ensures RecordAt(log, Replay(log, off, dir).end) == None
    ensures Replay(log, off, dir).end == off <==> RecordAt(log, off) == None
    decreases |log| - off
  {
    match RecordAt(log, off)
    case None =>
    case Some(rec) =>
      var size := FrameSize(rec.key, rec.value);
      ReplayStops(log, off + size, dir[rec.key := KeyEntry(rec.timestamp, off, size)]);
  }

  /** One iteration of the scan: a complete record at `off` is indexed and skipped. */
  lemma ReplayStep(log: seq<byte>, off: nat, dir: KeyDir, rec: Record)
    requires off <= |log| < U32Limit
    requires RecordAt(log, off) == Some(rec)
    ensures var size := FrameSize(rec.key, rec.value);
      Replay(log, off, dir) == Replay(log, off + size, dir[rec.key := KeyEntry(rec.timestamp, off, size)])
  {
  }

  /** ReplayStep, stated for the offset and index a scan moves on to. */
  lemma ReplayAdvance(log: seq<byte>, off: nat, dir: KeyDir, rec: Record, next: nat, nextDir: KeyDir)
    requires off <= |log| < U32Limit
    requires RecordAt(log, off) == Some(rec)
    requires next == off + FrameSize(rec.key, rec.value)
    requires nextDir == dir[rec.key := KeyEntry(rec.timestamp, off, FrameSize(rec.key, rec.value))]
    ensures next <= |log| && Replay(log, off, dir) == Replay(log, next, nextDir)
  {
    ReplayStep(log, off, dir, rec);
  }

  /** The scan ends where no complete record starts, with the index it has. */
  lemma ReplayDone(log: seq<byte>, off: nat, dir: KeyDir)
    requires off <= |log| < U32Limit
    requires RecordAt(log, off) == None
    ensures Replay(log, off, dir) == Recovered(dir, off)
  {
  }

  /** A freshly created store: no file, empty index, cursor at 0. */
  function Empty(): State
  {
    State([], map[], 0)
  }

  /**
   * Opening an existing file, as the source does it: the index and cursor come
   * from the replay, but the file keeps every byte it had, including a torn tail
   * after the last complete record.
   */
  function RecoverAsWritten(file: seq<byte>): (st: State)
    requires |file| < U32Limit
    ensures st.log == file && st.writePosition <= |file|
    ensures st.keyDir == Recover(file).keyDir && st.writePosition == Recover(file).writePosition
  {
    var r := Replay(file, 0, map[]);
    State(file, r.keyDir, r.end)
  }

  /**
   * Opening an existing file with the torn tail discarded: the log is cut back
   * to the end of the last complete record, where the cursor points.
   */
  function Recover(file: seq<byte>): (st: State)
    requires |file| < U32Limit
    ensures st.writePosition == |st.log| <= |file| && st.log == file[..|st.log|]
  {
    var r := Replay(file, 0, map[]);
    State(file[..r.end], r.keyDir, r.end)
  }

  /**
   * The store invariant: the cursor is the length of the log, and the index
   * and cursor are exactly what recovering the log would rebuild.
   */
  ghost predicate Wellformed(st: State)
  {
    && st.writePosition == |st.log|
    && Replay(st.log, 0, map[]) == Recovered(st.keyDir, st.writePosition)
  }

  /** The entry for `key` addresses, inside the log, a complete record of that key. */
  ghost predicate Addresses(log: seq<byte>, key: seq<byte>, e: KeyEntry)
  {
    && e.position as nat + e.totalSize as nat <= |log|
    && var d := DecodeKV(log[e.position .. e.position as nat + e.totalSize as nat]);
       d.Some? && d.value.key == key && d.value.timestamp == e.timestamp
       && FrameSize(d.value.key, d.value.value) == e.totalSize
  }

  ghost predicate IndexSound(log: seq<byte>, dir: KeyDir)
  {
    forall key :: key in dir ==> Addresses(log, key, dir[key])
  }

  lemma EmptyWellformed()
    ensures Wellformed(Empty())
  {
    assert RecordAt([], 0) == None;
  }

  /** Every replay step keeps each index entry pointing at a complete record of its key. */
  lemma {:induction false} ReplayIndexSound(log: seq<byte>, off: nat, dir: KeyDir)
    requires off <= |log| < U32Limit
    requires IndexSound(log, dir)
    ensures IndexSound(log, Replay(log, off, dir).keyDir)
    decreases |log| - off
  {
    match RecordAt(log, off)
    case None =>
    case Some(rec) =>
      var size := FrameSize(rec.key, rec.value);
      var e := KeyEntry(rec.timestamp, off, size);
      assert log[off .. off + size] == log[off..][..size];
      DecodeKVPrefix(log[off..], log[off .. off + size]);
      assert Addresses(log, rec.key, e);
      ReplayIndexSound(log, off + size, dir[rec.key := e]);
  }

  lemma WellformedIndexSound(st: State)
    requires Wellformed(st)
    ensures IndexSound(st.log, st.keyDir)
  {
    ReplayIndexSound(st.log, 0, map[]);
  }

  /**
   * The record at `off` as the recovery loop reads it: a header, then exactly
   * keySize key bytes, then exactly valueSize value bytes; any of the three
   * coming up short means there is none.
   */
  lemma RecordAtReads(log: seq<byte>, off: nat)
    requires off <= |log|
    ensures |log| - off < HeaderSize ==> RecordAt(log, off) == None
    ensures |log| - off >= HeaderSize ==>
      var h := DecodeHeader(log[off .. off + HeaderSize]).value;
      var keyStart := off + HeaderSize;
      var valueStart := keyStart + h.keySize;
      RecordAt(log, off)
        == if |log| - keyStart < h.keySize || |log| - valueStart < h.valueSize then None
           else Some(Record(h.timestamp, log[keyStart .. valueStart], log[valueStart .. valueStart + h.valueSize]))
  {
    if |log| - off >= HeaderSize {
      assert log[off .. off + HeaderSize] == log[off..][..HeaderSize];
      DecodeHeaderPrefix(log[off..], log[off .. off + HeaderSize]);
      var h := DecodeHeader(log[off .. off + HeaderSize]).value;
      var keyStart := off + HeaderSize;
      var valueStart := keyStart + h.keySize;
      if |log| - valueStart >= h.valueSize {
        assert log[off..][HeaderSize .. HeaderSize + h.keySize] == log[keyStart .. valueStart];
        assert log[off..][HeaderSize + h.keySize .. HeaderSize + h.keySize + h.valueSize]
            == log[valueStart .. valueStart + h.valueSize];
      }
    }
  }

  /** A complete record stays the same record when bytes are appended after the log. */
  lemma RecordAtAppend(log: seq<byte>, more: seq<byte>, off: nat)
    requires off <= |log| && RecordAt(log, off).Some?
    ensures RecordAt(log + more, off) == RecordAt(log, off)
  {
    var rec := RecordAt(log, off).value;
    var size := FrameSize(rec.key, rec.value);
    assert (log + more)[off..][..size] == log[off..][..size];
    DecodeKVPrefix(log[off..], (log + more)[off..]);
  }

  /**
   * Cutting the log at `n` keeps the records that end by `n` and invents none:
   * a record found in the shorter log is also there in the longer one.
   */
  lemma RecordAtTruncate(log: seq<byte>, n: nat, off: nat)
    requires off <= n <= |log|
    ensures RecordAt(log[..n], off).Some? ==> RecordAt(log, off) == RecordAt(log[..n], off)
    ensures RecordAt(log, off).Some?
            && off + FrameSize(RecordAt(log, off).value.key, RecordAt(log, off).value.value) <= n
            ==> RecordAt(log[..n], off) == RecordAt(log, off)
  {
    if RecordAt(log[..n], off).Some? {
      var rec := RecordAt(log[..n], off).value;
      var size := FrameSize(rec.key, rec.value);
      assert log[..n][off..][..size] == log[off..][..size];
      DecodeKVPrefix(log[..n][off..], log[off..]);
    }
    if RecordAt(log, off).Some? {
      var rec := RecordAt(log, off).value;
      var size := FrameSize(rec.key, rec.value);
      if off + size <= n {
        assert log[..n][off..][..size] == log[off..][..size];
        DecodeKVPrefix(log[off..], log[..n][off..]);
      }
    }
  }

  /** A record of the log read again with bytes appended: the longer scan takes the same step. */
  lemma ReplayAppendStep(log: seq<byte>, more: seq<byte>, off: nat, dir: KeyDir)
    requires off <= |log| && |log + more| < U32Limit
    requires RecordAt(log, off).Some?
    ensures var rec := RecordAt(log, off).value;
      var size := FrameSize(rec.key, rec.value);
      var dir' := dir[rec.key := KeyEntry(rec.timestamp, off, size)];
      && off + size <= |log|
      && Replay(log, off, dir) == Replay(log, off + size, dir')
      && Replay(log + more, off, dir) == Replay(log + more, off + size, dir')
  {
    var rec := RecordAt(log, off).value;
    var size := FrameSize(rec.key, rec.value);
    var dir' := dir[rec.key := KeyEntry(rec.timestamp, off, size)];
    RecordAtAppend(log, more, off);
    ReplayAdvance(log, off, dir, rec, off + size, dir');
    ReplayAdvance(log + more, off, dir, rec, off + size, dir');
  }

  /**
   * Replaying more bytes after a log whose replay consumed all of it continues
   * from the end of that log with the index it had built.
   */
  lemma {:induction false} ReplayExtend(log: seq<byte>, more: seq<byte>, off: nat, dir: KeyDir)
    requires off <= |log| && |log + more| < U32Limit
    requires Replay(log, off, dir).end == |log|
    ensures Replay(log + more, off, dir) == Replay(log + more, |log|, Replay(log, off, dir).keyDir)
    decreases |log| - off
  {
    ReplayStops(log, off, dir);
    if off < |log| {
      ReplayAppendStep(log, more, off, dir);
      var rec := RecordAt(log, off).value;
      var size := FrameSize(rec.key, rec.value);
      ReplayExtend(log, more, off + size, dir[rec.key := KeyEntry(rec.timestamp, off, size)]);
    } else {
      ReplayDone(log, off, dir);
    }
  }

  /**
   * Bytes after the replay's stopping point never influence it: replaying any
   * prefix that still contains every complete record gives the same result.
   */
  lemma {:induction false} ReplayTruncate(log: seq<byte>, n: nat, off: nat, dir: KeyDir)
    requires off <= |log| < U32Limit
    requires Replay(log, off, dir).end <= n <= |log|
    ensures Replay(log[..n], off, dir) == Replay(log, off, dir)
    decreases |log| - off
  {
    RecordAtTruncate(log, n, off);
    match RecordAt(log, off)
    case None =>
      ReplayDone(log, off, dir);
      ReplayDone(log[..n], off, dir);
    case Some(rec) =>
      var size := FrameSize(rec.key, rec.value);
      var dir' := dir[rec.key := KeyEntry(rec.timestamp, off, size)];
      ReplayStep(log, off, dir, rec);
      ReplayStep(log[..n], off, dir, rec);
      ReplayTruncate(log, n, off + size, dir');
  }

  /**
   * Recovery of any file yields a well-formed store whose log is the file up to
   * the end of its last complete record: the torn tail contributes nothing.
   */
  lemma RecoverWellformed(file: seq<byte>)
    requires |file| < U32Limit
    ensures Wellformed(Recover(file))
    ensures var st := Recover(file);
      st.log == file[..st.writePosition] && RecordAt(file, st.writePosition) == None
  {
    ReplayTruncate(file, Replay(file, 0, map[]).end, 0, map[]);
    ReplayStops(file, 0, map[]);
  }

  /** Recovering the log of a well-formed store gives that store back. */
  lemma RecoverOfWellformed(st: State)
    requires Wellformed(st)
    ensures Recover(st.log) == st
  {
    assert st.log[..|st.log|] == st.log;
  }

  /**
   * Recovery ignores any tail that does not start with a complete record: the
   * store recovered from a well-formed log followed by such a tail is the
   * store that wrote the log.
   */
  lemma RecoverIgnoresTail(st: State, tail: seq<byte>)
    requires Wellformed(st) && |st.log + tail| < U32Limit
    requires DecodeKV(tail) == None
    ensures Recover(st.log + tail) == st
  {
    var file := st.log + tail;
    ReplayExtend(st.log, tail, 0, map[]);
    assert file[|st.log|..] == tail;
    assert file[..|st.log|] == st.log;
  }

  /** A crash in the middle of appending a record leaves a file that recovers to the store before that Set. */
  lemma RecoverAfterTornAppend(st: State, timestamp: u32, key: seq<byte>, value: seq<byte>, cut: nat)
    requires Wellformed(st) && st.writePosition + FrameSize(key, value) < U32Limit
    requires cut < FrameSize(key, value)
    ensures Recover(st.log + EncodeKV(timestamp, key, value)[..cut]) == st
  {
    TornFrameFails(timestamp, key, value, cut);
    RecoverIgnoresTail(st, EncodeKV(timestamp, key, value)[..cut]);
  }

  // ---------------------------------------------------------------------------
  // Get and Set on values
  // ---------------------------------------------------------------------------

  /**
   * Get: an unknown key yields the empty value; a known one reads totalSize
   * bytes at its position and returns the value of the frame found there.
   * Too few bytes, or a frame that does not decode, is a panic.
   */
  function GetSpec(st: State, key: seq<byte>): (r: Outcome)
    ensures key !in st.keyDir ==> r == Ok([])
    ensures r.Ok? && key in st.keyDir ==> HeaderSize + |r.value| <= st.keyDir[key].totalSize
  {
    if key !in st.keyDir then Ok([])
    else
      var e := st.keyDir[key];
      if |st.log| < e.position as nat + e.totalSize as nat then ReadPanic
      else
        match DecodeKV(st.log[e.position .. e.position as nat + e.totalSize as nat])
        case None => ReadPanic
        case Some(rec) => Ok(rec.value)
  }

  /**
   * Set: append the frame of (timestamp, key, value) to the log, point the key
   * at the old cursor with the frame's size, and advance the cursor by that size.
   */
  function SetSpec(st: State, timestamp: u32, key: seq<byte>, value: seq<byte>): (r: State)
    requires st.writePosition + FrameSize(key, value) < U32Limit
    ensures |r.log| == |st.log| + FrameSize(key, value) && r.log[..|st.log|] == st.log
    ensures r.writePosition == st.writePosition + FrameSize(key, value)
    ensures key in r.keyDir && r.keyDir.Keys == st.keyDir.Keys + {key}
  {
    var frame := EncodeKV(timestamp, key, value);
    State(st.log + frame,
          st.keyDir[key := KeyEntry(timestamp, st.writePosition, |frame|)],
          st.writePosition + |frame|)
  }

  /** On a well-formed store every key in the index reads back without a panic, and the record read is that key's. */
  lemma GetWellformed(st: State, key: seq<byte>)
    requires Wellformed(st)
    ensures GetSpec(st, key).Ok?
    ensures key !in st.keyDir ==> GetSpec(st, key) == Ok([])
    ensures key in st.keyDir ==> Addresses(st.log, key, st.keyDir[key])
  {
    WellformedIndexSound(st);
  }

  /** Set keeps the store well-formed: recovery of the longer log rebuilds the updated index. */
  lemma SetWellformed(st: State, timestamp: u32, key: seq<byte>, value: seq<byte>)
    requires Wellformed(st) && st.writePosition + FrameSize(key, value) < U32Limit
    ensures Wellformed(SetSpec(st, timestamp, key, value))
  {
    var frame := EncodeKV(timestamp, key, value);
    var log' := st.log + frame;
    ReplayExtend(st.log, frame, 0, map[]);
    assert log'[|st.log|..] == frame;
    DecodeEncodeKV(timestamp, key, value);
    assert RecordAt(log', |st.log|) == Some(Record(timestamp, key, value));
    assert RecordAt(log', |log'|) == None;
  }

  /** Round trip: after Set(key, value), Get(key) returns value (including an empty value). */
  lemma SetGetRoundTrip(st: State, timestamp: u32, key: seq<byte>, value: seq<byte>)
    requires st.writePosition == |st.log| && st.writePosition + FrameSize(key, value) < U32Limit
    ensures GetSpec(SetSpec(st, timestamp, key, value), key) == Ok(value)
  {
    var frame := EncodeKV(timestamp, key, value);
    assert (st.log + frame)[|st.log| .. |st.log| + |frame|] == frame;
    DecodeEncodeKV(timestamp, key, value);
  }

  /** Set(key, ...) leaves what Get returns for every other key unchanged. */
  lemma SetGetOthers(st: State, timestamp: u32, key: seq<byte>, value: seq<byte>, other: seq<byte>)
    requires st.writePosition + FrameSize(key, value) < U32Limit
    requires other != key
    requires other in st.keyDir ==> st.keyDir[other].position as nat + st.keyDir[other].totalSize as nat <= |st.log|
    ensures GetSpec(SetSpec(st, timestamp, key, value), other) == GetSpec(st, other)
  {
    if other in st.keyDir {
      var e := st.keyDir[other];
      var frame := EncodeKV(timestamp, key, value);
      assert (st.log + frame)[e.position .. e.position as nat + e.totalSize as nat]
          == st.log[e.position .. e.position as nat + e.totalSize as nat];
    }
  }

  /** Last write wins: Set(k, v1); Set(k, v2); Get(k) returns v2, read from the second record. */
  lemma LastWriteWins(st: State, t1: u32, v1: seq<byte>, t2: u32, v2: seq<byte>, key: seq<byte>)
    requires st.writePosition == |st.log|
    requires st.writePosition + FrameSize(key, v1) + FrameSize(key, v2) < U32Limit
    ensures var after := SetSpec(SetSpec(st, t1, key, v1), t2, key, v2);
      GetSpec(after, key) == Ok(v2)
      && after.keyDir[key].position == st.writePosition + FrameSize(key, v1)
  {
    SetGetRoundTrip(SetSpec(st, t1, key, v1), t2, key, v2);
  }

  // ---------------------------------------------------------------------------
  // Sequences of writes, and recovery agreeing with them
  // ---------------------------------------------------------------------------

  /** Total number of bytes the frames of a sequence of writes occupy. */
  function WritesSize(ws: seq<Write>): nat
  {
    if ws == [] then 0
    else WritesSize(ws[..|ws| - 1]) + FrameSize(ws[|ws| - 1].key, ws[|ws| - 1].value)
  }

  /** The store after performing the writes in order; the cursor grows by their total size. */
  function ApplyWrites(st: State, ws: seq<Write>): (r: State)
    requires st.writePosition + WritesSize(ws) < U32Limit
    ensures r.writePosition == st.writePosition + WritesSize(ws)
    ensures |r.log| == |st.log| + WritesSize(ws)
    ensures |r.keyDir| <= |st.keyDir| + |ws|
    decreases |ws|
  {
    if ws == [] then st
    else
      var w := ws[|ws| - 1];
      var prev := ApplyWrites(st, ws[..|ws| - 1]);
      SetSpec(prev, w.timestamp, w.key, w.value)
  }

  /** Reference semantics of a sequence of writes: each key maps to the value of its last write. */
  function Contents(ws: seq<Write>): map<seq<byte>, seq<byte>>
  {
    if ws == [] then map[]
    else Contents(ws[..|ws| - 1])[ws[|ws| - 1].key := ws[|ws| - 1].value]
  }

  /**
   * After any sequence of writes the store is well-formed, and Get returns the
   * value of the last write to the key, or what it returned before if the
   * writes never touched the key.
   */
  lemma {:induction false} ApplyWritesGet(st: State, ws: seq<Write>, key: seq<byte>)
    requires Wellformed(st) && st.writePosition + WritesSize(ws) < U32Limit
    ensures Wellformed(ApplyWrites(st, ws))
    ensures GetSpec(ApplyWrites(st, ws), key)
         == if key in Contents(ws) then Ok(Contents(ws)[key]) else GetSpec(st, key)
    decreases |ws|
  {
    if ws != [] {
      var w := ws[|ws| - 1];
      var init := ws[..|ws| - 1];
      var prev := ApplyWrites(st, init);
      ApplyWritesGet(st, init, key);
      SetWellformed(prev, w.timestamp, w.key, w.value);
      if key == w.key {
        SetGetRoundTrip(prev, w.timestamp, w.key, w.value);
      } else {
        WellformedIndexSound(prev);
        SetGetOthers(prev, w.timestamp, w.key, w.value, key);
      }
    }
  }

  /**
   * Recovery agrees with writes: replaying the log written by any sequence of
   * Sets on a fresh store rebuilds exactly the index and cursor those Sets
   * left, and Get on it returns the last value written to each key.
   */
  lemma RecoveryAgreesWithWrites(ws: seq<Write>, key: seq<byte>)
    requires WritesSize(ws) < U32Limit
    ensures var st := ApplyWrites(Empty(), ws);
      Recover(st.log) == st
      && GetSpec(Recover(st.log), key) == Ok(if key in Contents(ws) then Contents(ws)[key] else [])
  {
    EmptyWellformed();
    ApplyWritesGet(Empty(), ws, key);
    RecoverOfWellformed(ApplyWrites(Empty(), ws));
  }

  // ---------------------------------------------------------------------------
  // The torn tail left in the file by the source's recovery
  // ---------------------------------------------------------------------------

  /**
   * As written, a file holding one stray byte recovers to an empty index with
   * the cursor at 0 but the byte still in the file; the next Set is appended
   * after it while its entry points at offset 0, so Get of that key panics.
   */
  lemma TornTailBreaksGetAsWritten()
    ensures var st := RecoverAsWritten([0]);
      st.writePosition != |st.log|
      && GetSpec(SetSpec(st, 0, [], [1]), []) == ReadPanic
  {
    ReplayDone([0], 0, map[]);
    var st := RecoverAsWritten([0]);
    assert st == State([0], map[], 0);
    SmallFrame();
    var after := SetSpec(st, 0, [], [1]);
    assert after.log[0..13] == [0, 0, 0, 0, 0, 0, 0, 0, 0, 1, 0, 0, 0];
    ShiftedFrameFails();
  }

  /** The frame of an empty key with the one-byte value 1, written at time 0. */
  lemma SmallFrame()
    ensures EncodeKV(0, [], [1]) == [0, 0, 0, 0, 0, 0, 0, 0, 1, 0, 0, 0, 1]
  {
    EncodeLEFour(0);
    EncodeLEFour(1);
  }

  /** That frame read one byte too early declares a 256-byte value it does not hold. */
  lemma ShiftedFrameFails()
    ensures DecodeKV([0, 0, 0, 0, 0, 0, 0, 0, 0, 1, 0, 0, 0]) == None
  {
    var data: seq<byte> := [0, 0, 0, 0, 0, 0, 0, 0, 0, 1, 0, 0, 0];
    assert data[8..12] == [0, 1, 0, 0];
    DecodeLEFour(data[8..12]);
  }

  /** With the tail discarded, a Set after recovering any file reads back. */
  lemma RecoverThenSetGet(file: seq<byte>, timestamp: u32, key: seq<byte>, value: seq<byte>)
    requires |file| < U32Limit
    requires Recover(file).writePosition + FrameSize(key, value) < U32Limit
    ensures GetSpec(SetSpec(Recover(file), timestamp, key, value), key) == Ok(value)
  {
    RecoverWellformed(file);
    SetGetRoundTrip(Recover(file), timestamp, key, value);
  }

  // ---------------------------------------------------------------------------
  // The store handle
  // ---------------------------------------------------------------------------

  class DiskStore {
    /** The bytes of the data file. */
    var log: seq<byte>
    var keyDir: KeyDir
    var writePosition: u32

    ghost function Snapshot(): State
      reads this
    {
      State(log, keyDir, writePosition)
    }

    ghost predicate Valid()
      reads this
    {
      Wellformed(Snapshot())
    }

    /**
     * NewDiskStore: `existing` is the content of the data file when it already
     * exists. A new store starts empty; an existing file is replayed.
     */
    constructor (existing: Option<seq<byte>>)
      requires existing.Some? ==> |existing.value| < U32Limit
      ensures Valid()
      ensures existing.None? ==> Snapshot() == Empty()
      ensures existing.Some? ==> Snapshot() == Recover(existing.value)
    {
      log := [];
      keyDir := map[];
      writePosition := 0;
      new;
      if existing.Some? {
        InitKeyDir(existing.value);
        RecoverWellformed(existing.value);
      } else {
        EmptyWellformed();
      }
    }

    /**
     * initKeyDir: scan the file from offset 0, reading a header, then the key,
     * then the value; stop at the first read that comes up short. The data file
     * is left holding the complete records only.
     */
    method InitKeyDir(file: seq<byte>)
      requires |file| < U32Limit
      requires keyDir == map[] && writePosition == 0
      modifies this
      ensures Snapshot() == Recover(file)
    {
      ghost var recovered := Replay(file, 0, map[]);
      while true
        invariant writePosition <= |file|
        invariant Replay(file, writePosition, keyDir) == recovered
        decreases |file| - writePosition
      {
        var record := ReadRecord(file, writePosition);
        if record.None? {
          ReplayDone(file, writePosition, keyDir);
          break;
        }
        var rec := record.value;
        var totalSize := FrameSize(rec.key, rec.value);
        ghost var before := (writePosition, keyDir);
        keyDir := keyDir[rec.key := KeyEntry(rec.timestamp, writePosition, totalSize)];
        writePosition := writePosition + totalSize;
        ReplayAdvance(file, before.0, before.1, rec, writePosition, keyDir);
      }
      log := file[..writePosition];
    }

    /**
     * One pass of the initKeyDir loop: read a header at `off`, then exactly
     * keySize key bytes, then exactly valueSize value bytes; None as soon as
     * one of the reads comes up short. What it reads is the record at `off`.
     */
    static method ReadRecord(file: seq<byte>, off: nat) returns (r: Option<Record>)
      requires off <= |file|
      ensures r == RecordAt(file, off)
    {
      RecordAtReads(file, off);
      if |file| - off < HeaderSize {
        return None;
      }
      var header := DecodeHeader(file[off .. off + HeaderSize]).value;
      var keyStart := off + HeaderSize;
      if |file| - keyStart < header.keySize {
        return None;
      }
      var key := file[keyStart .. keyStart + header.keySize];
      var valueStart := keyStart + header.keySize;
      if |file| - valueStart < header.valueSize {
        return None;
      }
      var value := file[valueStart .. valueStart + header.valueSize];
      return Some(Record(header.timestamp, key, value));
    }

    /** Get: the value last set for `key`, or the empty value for an unknown key. */
    method Get(key: seq<byte>) returns (value: seq<byte>)
      requires Valid()
      ensures GetSpec(Snapshot(), key) == Ok(value)
      ensures key !in keyDir ==> value == []
    {
      if key !in keyDir {
        return [];
      }
      var entry := keyDir[key];
      GetWellformed(Snapshot(), key);
      var data := log[entry.position .. entry.position as nat + entry.totalSize as nat];
      var record := DecodeKV(data);
      value := record.value.value;
    }

    /**
     * Set: append the record, point the key at where it starts, advance the
     * cursor. Nothing else in the index or the earlier log changes.
     */
    method Set(key: seq<byte>, value: seq<byte>, timestamp: u32)
      requires Valid()
      requires writePosition + FrameSize(key, value) < U32Limit
      modifies this
      ensures Valid()
      ensures log == old(log) + EncodeKV(timestamp, key, value)
      ensures keyDir == old(keyDir)[key := KeyEntry(timestamp, old(writePosition), FrameSize(key, value))]
      ensures writePosition == old(writePosition) + FrameSize(key, value)
      ensures GetSpec(Snapshot(), key) == Ok(value)
      ensures forall k :: k != key ==> GetSpec(Snapshot(), k) == GetSpec(old(Snapshot()), k)
    {
      var data := EncodeKV(timestamp, key, value);
      Write(data);
      keyDir := keyDir[key := KeyEntry(timestamp, writePosition, |data|)];
      writePosition := writePosition + |data|;
      ghost var before := old(Snapshot());
      assert Snapshot() == SetSpec(before, timestamp, key, value);
      SetWellformed(before, timestamp, key, value);
      SetGetRoundTrip(before, timestamp, key, value);
      WellformedIndexSound(before);
      forall k | k != key
        ensures GetSpec(Snapshot(), k) == GetSpec(before, k)
      {
        SetGetOthers(before, timestamp, key, value, k);
      }
    }

    /** write: append bytes at the end of the data file. */
    method Write(data: seq<byte>)
      modifies this`log
      ensures log == old(log) + data
    {
      log := log + data;
    }
  }

  /** The usage example of the store: set a key on a fresh store, read it and an unknown key back. */
  method BooksScenario()
  {
    var store := new DiskStore(None);
    var othello: seq<byte> := [111, 116, 104, 101, 108, 108, 111];
    var shakespeare: seq<byte> := [115, 104, 97, 107, 101, 115, 112, 101, 97, 114, 101];
    var hamlet: seq<byte> := [104, 97, 109, 108, 101, 116];
    store.Set(othello, shakespeare, 1700000000);
    var author := store.Get(othello);
    assert author == shakespeare;
    var missing := store.Get(hamlet);
    assert missing == [];
  }
}
