/** The log object: opening replays the file, committing appends to it, reading searches the index. */
module WriteAheadLogs {
  import opened Common
  import opened Varint
  import opened Nodes
  import opened PageFormat
  import opened WalFrames
  import opened Wal

  const SALT: u32 := 0x5147_5253

  /** The frames of a transaction as they reach the file: one version, the page count on the last. */
  function Stamped(fs: seq<Frame>, version: u64, dbSize: u32): (r: seq<Frame>)
    ensures |r| == |fs|
    ensures forall i :: 0 <= i < |fs| ==>
              r[i] == fs[i].(version := version, dbSize := if i == |fs| - 1 then dbSize else 0)
  {
    seq(|fs|, i requires 0 <= i < |fs| => fs[i].(version := version, dbSize := if i == |fs| - 1 then dbSize else 0))
  }

  // ---- what recovery keeps ----

  lemma {:induction false} FramesFront(bytes: seq<byte>, n: nat)
    requires n <= |Frames(bytes)|
    ensures FRAME_SIZE * n <= |bytes| && Frames(bytes[..FRAME_SIZE * n]) == Frames(bytes)[..n]
    decreases n
  {
    hide DecodeFrame;
    FramesLength(bytes);
    if n > 0 {
      FramesFront(bytes[FRAME_SIZE..], n - 1);
      var front := bytes[..FRAME_SIZE * n];
      assert front[..FRAME_SIZE] == bytes[..FRAME_SIZE];
      assert front[FRAME_SIZE..] == bytes[FRAME_SIZE..][..FRAME_SIZE * (n - 1)];
    }
  }

  /** The open frames are the last ones read, and before them only whole transactions. */
  lemma {:induction false} PendingTail(start: Log, fs: seq<Frame>)
    ensures var s := ScanFrom(Scan(start, []), fs);
            |s.pending| <= |fs| && ScanFrom(Scan(start, []), fs[..|fs| - |s.pending|]) == Scan(s.log, [])
  {
    hide ApplyTx;
    if fs != [] {
      var front := fs[..|fs| - 1];
      PendingTail(start, front);
      var s := ScanFrom(Scan(start, []), fs);
      if s.pending == [] {
        assert fs[..|fs|] == fs;
      } else {
        assert fs[..|fs| - |s.pending|] == front[..|front| - (|s.pending| - 1)];
      }
    }
  }

  /** Recovery leaves a file of whole transactions. */
  lemma RecoverWhole(start: Log, bytes: seq<byte>)
    ensures Whole(start, Recover(start, bytes).1, Recover(start, bytes).0)
  {
    hide Frames, ScanFrom;
    var fs := Frames(bytes);
    PendingTail(start, fs);
    var s := ScanFrom(Scan(start, []), fs);
    FramesFront(bytes, |fs| - |s.pending|);
    RecoverIs(start, bytes, fs, s.log, s.pending, FRAME_SIZE * (|fs| - |s.pending|));
  }

  /** The frame read at an offset of the file. */
  function FrameAt(bytes: seq<byte>, offset: nat): Option<Frame>
    requires offset + FRAME_SIZE <= |bytes|
  {
    DecodeFrame(bytes[offset..offset + FRAME_SIZE])
  }

  ghost function FramesAt(bytes: seq<byte>, offset: nat): seq<Frame>
    requires offset <= |bytes|
  {
    Frames(bytes[offset..])
  }

  /** One turn of the replay loop. */
  lemma FramesTurn(bytes: seq<byte>, offset: nat)
    requires offset <= |bytes|
    ensures FramesAt(bytes, 0) == Frames(bytes)
    ensures offset + FRAME_SIZE > |bytes| ==> FramesAt(bytes, offset) == []
    ensures offset + FRAME_SIZE <= |bytes| ==>
              match FrameAt(bytes, offset)
              case None => FramesAt(bytes, offset) == []
              case Some(f) => FramesAt(bytes, offset) == [f] + FramesAt(bytes, offset + FRAME_SIZE)
  {
    assert bytes[0..] == bytes;
    hide DecodeFrame;
    if offset + FRAME_SIZE <= |bytes| {
      assert bytes[offset..][..FRAME_SIZE] == bytes[offset..offset + FRAME_SIZE];
      assert bytes[offset..][FRAME_SIZE..] == bytes[offset + FRAME_SIZE..];
    }
  }

  lemma ScanOne(s: Scan, fs: seq<Frame>, f: Frame)
    ensures ScanFrom(s, fs + [f]) == Step(ScanFrom(s, fs), f)
  {
    assert (fs + [f])[..|fs + [f]| - 1] == fs;
  }

  /** Pushing the frames of a transaction into the index, in order. */
  method PushFrames(index: Index, version: nat, fs: seq<Frame>) returns (r: Index)
    ensures r == PushAll(index, version, fs)
  {
    r := index;
    for i := 0 to |fs|
      invariant r == PushAll(index, version, fs[..i])
    {
      assert fs[..i + 1][..i] == fs[..i];
      r := Push(r, version, fs[i]);
    }
    assert fs[..|fs|] == fs;
  }

  lemma ScanNone(start: Log)
    ensures ScanFrom(Scan(start, []), []) == Scan(start, [])
  {
  }

  lemma TxStep(s: Scan, f: Frame)
    ensures Step(s, f) ==
            if f.dbSize != 0 then
              Scan(Log(PushAll(s.log.index, f.version, s.pending + [f]), Max(s.log.maxVersion, f.version), f.dbSize), [])
            else Scan(s.log, s.pending + [f])
  {
  }

  /** Reads complete frames from the start of the file, taking whole transactions into the index;
      kept is where the last of them ends. */
  method Replay(bytes: seq<byte>, initialDbSize: nat) returns (log: Log, kept: nat)
    ensures kept <= |bytes| && (log, bytes[..kept]) == Recover(Log(map[], 0, initialDbSize), bytes)
  {
    hide *;
    FrameSize();
    ghost var start := Log(map[], 0, initialDbSize);
    log := Log(map[], 0, initialDbSize);
    kept := 0;
    var offset := 0;
    var pending: seq<Frame> := [];
    ghost var fs: seq<Frame> := [];
    FramesTurn(bytes, 0);
    ScanNone(start);
    while offset + FRAME_SIZE <= |bytes|
      invariant |pending| <= |fs| && offset == FRAME_SIZE * |fs| && kept == FRAME_SIZE * (|fs| - |pending|)
      invariant offset <= |bytes| && Frames(bytes) == fs + FramesAt(bytes, offset)
      invariant ScanFrom(Scan(start, []), fs) == Scan(log, pending)
      decreases |bytes| - offset
    {
      FramesTurn(bytes, offset);
      var decoded := FrameAt(bytes, offset);
      if decoded == None {
        break;
      }
      var frame := decoded.value;
      ScanOne(Scan(start, []), fs, frame);
      TxStep(Scan(log, pending), frame);
      fs := fs + [frame];
      pending := pending + [frame];
      offset := offset + FRAME_SIZE;
      if frame.dbSize != 0 {
        var index := PushFrames(log.index, frame.version, pending);
        log := Log(index, Max(log.maxVersion, frame.version), frame.dbSize);
        pending := [];
        kept := offset;
      }
    }
    FramesTurn(bytes, offset);
    assert Frames(bytes) == fs;
    RecoverIs(start, bytes, fs, log, pending, kept);
  }

  class WriteAheadLog {
    var file: seq<byte>
    var writeOffset: nat
    var index: Index
    var maxVersion: nat
    var dbSize: nat

    /** The log the file's first transaction was applied to. */
    ghost var start: Log

    function State(): Log
      reads this
    {
      Log(index, maxVersion, dbSize)
    }

    /** The live index, versions and size are what replaying the file would rebuild. */
    ghost predicate Valid()
      reads this
    {
      writeOffset == |file| && start.index == map[] && Whole(start, file, State())
    }

    /** Opens the log over the bytes found on disk, cutting off what is not a whole transaction. */
    constructor Open(bytes: seq<byte>, initialDbSize: nat)
      ensures Valid() && start == Log(map[], 0, initialDbSize)
      ensures (State(), file) == Recover(start, bytes)
    {
      hide Recover, Whole;
      var log, kept := Replay(bytes, initialDbSize);
      index, maxVersion, dbSize := log.index, log.maxVersion, log.dbSize;
      file := if kept != |bytes| then bytes[..kept] else bytes;
      writeOffset := kept;
      assert bytes[..|bytes|] == bytes;
      start := Log(map[], 0, initialDbSize);
      RecoverWhole(Log(map[], 0, initialDbSize), bytes);
    }

    /** Appends one transaction, frame by frame, then takes it into the index. */
    method AppendCommit(frames: seq<Frame>, version: u64, size: u32)
      requires Valid() && size != 0
      modifies this
      ensures Valid() && start == old(start)
      ensures frames == [] ==> State() == old(State()) && file == old(file)
      ensures frames != [] ==>
                && file == old(file) + EncodeAll(Stamped(frames, version, size))
                && State() == ApplyTx(old(State()), Stamped(frames, version, size))
    {
      hide Frames, EncodeAll, ScanFrom, Whole, FrameBytes, PushAll;
      if frames == [] { return; }
      var stamped := Stamped(frames, version, size);
      var offset := writeOffset;
      assert EncodeAll(stamped[..0]) == [] by { EncodeNone(); assert stamped[..0] == []; }
      for i := 0 to |stamped|
        invariant offset == |file| && file == old(file) + EncodeAll(stamped[..i])
        invariant State() == old(State()) && start == old(start)
      {
        var bytes := EncodeFrame(stamped[i]);
        EncodeOne(stamped, i);
        file := Overwrite(file, offset, bytes[..]);
        offset := offset + FRAME_SIZE;
      }
      assert stamped[..|stamped|] == stamped;
      WholeAppend(start, old(file), old(State()), stamped);
      writeOffset := offset;
      index := PushFrames(index, version, stamped);
      maxVersion := Max(maxVersion, version);
      dbSize := size;
    }

    /** The page as of snapshot v, if the log holds it: the newest version not past v. */
    method ReadPage(page: nat, v: nat) returns (r: Option<Data>)
      ensures r == Visible(Entries(index, page), v)
    {
      if page !in index { return None; }
      var versions := index[page];
      var i := |versions|;
      assert versions[..i] == versions;
      while i > 0
        invariant i <= |versions| && Visible(versions, v) == Visible(versions[..i], v)
      {
        i := i - 1;
        if versions[i].version <= v { return Some(versions[i].data); }
        assert versions[..i + 1][..i] == versions[..i];
      }
      return None;
    }

    /** Empties the log after a checkpoint; the version count runs on. */
    method Reset()
      modifies this
      ensures Valid() && file == [] && State() == Log(map[], old(maxVersion), old(dbSize)) && start == State()
    {
      hide ScanFrom;
      file := [];
      writeOffset := 0;
      index := map[];
      start := Log(map[], maxVersion, dbSize);
      FramesNone([]);
      ScanNone(start);
    }
  }

  /** Writing bytes into a file at a position it reaches. */
  function Overwrite(file: seq<byte>, at: nat, bytes: seq<byte>): seq<byte>
    requires at <= |file|
  {
    file[..at] + bytes + if at + |bytes| < |file| then file[at + |bytes|..] else []
  }

  lemma EncodeNone()
    ensures EncodeAll([]) == []
  {
  }

  lemma EncodeOne(fs: seq<Frame>, i: nat)
    requires i < |fs|
    ensures EncodeAll(fs[..i + 1]) == EncodeAll(fs[..i]) + FrameBytes(fs[i])
  {
    hide FrameBytes;
    assert fs[..i + 1][..i] == fs[..i];
  }
}
