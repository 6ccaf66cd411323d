/** The write-ahead log: frames appended transaction by transaction, an index of page versions,
    and the replay that rebuilds the index from the bytes of the file. */
module Wal {
  import opened Common
  import opened Varint
  import opened Nodes
  import opened PageFormat
  import opened WalFrames

  datatype Version = Version(version: nat, data: Data)

  /** Page id to its versions in commit order. */
  type Index = map<nat, seq<Version>>

  function Entries(index: Index, page: nat): seq<Version> {
    if page in index then index[page] else []
  }

  /** The newest version not past v, as a scan from the back finds it. */
  function Visible(es: seq<Version>, v: nat): Option<Data> {
    if es == [] then None
    else if es[|es| - 1].version <= v then Some(es[|es| - 1].data)
    else Visible(es[..|es| - 1], v)
  }

  function Push(index: Index, version: nat, f: Frame): Index {
    index[f.page := Entries(index, f.page) + [Version(version, f.data)]]
  }

  function PushAll(index: Index, version: nat, fs: seq<Frame>): Index {
    if fs == [] then index else Push(PushAll(index, version, fs[..|fs| - 1]), version, fs[|fs| - 1])
  }

  datatype Log = Log(index: Index, maxVersion: nat, dbSize: nat)

  /** The log after one whole transaction, whose last frame is its commit frame. */
  function ApplyTx(log: Log, fs: seq<Frame>): Log
    requires fs != []
  {
    var commit := fs[|fs| - 1];
    Log(PushAll(log.index, commit.version, fs), Max(log.maxVersion, commit.version), commit.dbSize)
  }

  /** What has been read so far: the log of whole transactions, and the frames of an open one. */
  datatype Scan = Scan(log: Log, pending: seq<Frame>)

  function Step(s: Scan, f: Frame): Scan {
    if f.dbSize != 0 then Scan(ApplyTx(s.log, s.pending + [f]), []) else Scan(s.log, s.pending + [f])
  }

  function ScanFrom(s: Scan, fs: seq<Frame>): Scan {
    if fs == [] then s else Step(ScanFrom(s, fs[..|fs| - 1]), fs[|fs| - 1])
  }

  /** The frames at the front of the bytes, up to the first short or damaged one. */
  function Frames(bytes: seq<byte>): seq<Frame>
    decreases |bytes|
  {
    if |bytes| < FRAME_SIZE then []
    else
      match DecodeFrame(bytes[..FRAME_SIZE])
      case None => []
      case Some(f) => [f] + Frames(bytes[FRAME_SIZE..])
  }

  function EncodeAll(fs: seq<Frame>): seq<byte> {
    if fs == [] then [] else EncodeAll(fs[..|fs| - 1]) + FrameBytes(fs[|fs| - 1])
  }

  /** A log rebuilt from bytes: whole transactions in, the rest cut off. */
  function Recover(start: Log, bytes: seq<byte>): (Log, seq<byte>) {
    var fs := Frames(bytes);
    var s := ScanFrom(Scan(start, []), fs);
    RecoverLength(start, bytes);
    (s.log, bytes[..FRAME_SIZE * (|fs| - |s.pending|)])
  }

  lemma {:induction false} FramesLength(bytes: seq<byte>)
    ensures FRAME_SIZE * |Frames(bytes)| <= |bytes|
    decreases |bytes|
  {
    hide DecodeFrame;
    if |bytes| >= FRAME_SIZE && DecodeFrame(bytes[..FRAME_SIZE]).Some? {
      FramesLength(bytes[FRAME_SIZE..]);
    }
  }

  lemma {:induction false} PendingLength(s: Scan, fs: seq<Frame>)
    ensures |ScanFrom(s, fs).pending| <= |s.pending| + |fs|
  {
    hide ApplyTx;
    if fs != [] {
      PendingLength(s, fs[..|fs| - 1]);
    }
  }

  lemma FrameSize()
    ensures FRAME_SIZE == 4128
  {
  }

  lemma RecoverLength(start: Log, bytes: seq<byte>)
    ensures var s := ScanFrom(Scan(start, []), Frames(bytes));
            0 <= FRAME_SIZE * (|Frames(bytes)| - |s.pending|) <= |bytes|
  {
    hide *;
    FramesLength(bytes);
    PendingLength(Scan(start, []), Frames(bytes));
  }

  /** Recovery of bytes whose frames leave some pending. */
  lemma RecoverIs(start: Log, bytes: seq<byte>, fs: seq<Frame>, log: Log, pending: seq<Frame>, n: nat)
    requires Frames(bytes) == fs && ScanFrom(Scan(start, []), fs) == Scan(log, pending)
    requires n == FRAME_SIZE * (|fs| - |pending|)
    ensures n <= |bytes| && Recover(start, bytes) == (log, bytes[..n])
  {
    hide Frames, ScanFrom;
    RecoverLength(start, bytes);
  }

  // ---- concatenation ----

  lemma {:induction false} ScanConcat(s: Scan, a: seq<Frame>, b: seq<Frame>)
    ensures ScanFrom(s, a + b) == ScanFrom(ScanFrom(s, a), b)
    decreases |b|
  {
    hide Step;
    if b == [] {
      assert a + b == a;
    } else {
      assert (a + b)[..|a + b| - 1] == a + b[..|b| - 1];
      ScanConcat(s, a, b[..|b| - 1]);
    }
  }

  lemma {:induction false} FramesConcat(a: seq<byte>, b: seq<byte>)
    requires |a| == FRAME_SIZE * |Frames(a)|
    ensures Frames(a + b) == Frames(a) + Frames(b)
    decreases |a|
  {
    hide DecodeFrame;
    if a == [] {
      assert a + b == b;
    } else {
      assert (a + b)[..FRAME_SIZE] == a[..FRAME_SIZE];
      assert (a + b)[FRAME_SIZE..] == a[FRAME_SIZE..] + b;
      FramesConcat(a[FRAME_SIZE..], b);
    }
  }

  lemma {:induction false} EncodeLength(fs: seq<Frame>)
    ensures |EncodeAll(fs)| == FRAME_SIZE * |fs|
  {
    hide FrameBytes;
    if fs != [] {
      EncodeLength(fs[..|fs| - 1]);
    }
  }

  lemma FramesOne(f: Frame, rest: seq<byte>)
    ensures Frames(FrameBytes(f) + rest) == [f] + Frames(rest)
  {
    hide FrameBytes, DecodeFrame;
    assert (FrameBytes(f) + rest)[..FRAME_SIZE] == FrameBytes(f) + [];
    FrameRoundTrip(f, []);
    assert (FrameBytes(f) + rest)[FRAME_SIZE..] == rest;
  }

  /** Encoded frames are read back, and what follows them is read as if it stood alone. */
  lemma {:induction false} FramesBack(fs: seq<Frame>, rest: seq<byte>)
    ensures Frames(EncodeAll(fs) + rest) == fs + Frames(rest)
  {
    hide FrameBytes, Frames;
    if fs == [] {
      assert EncodeAll(fs) + rest == rest;
    } else {
      var f := fs[|fs| - 1];
      assert EncodeAll(fs) + rest == EncodeAll(fs[..|fs| - 1]) + (FrameBytes(f) + rest);
      FramesBack(fs[..|fs| - 1], FrameBytes(f) + rest);
      FramesOne(f, rest);
      assert fs == fs[..|fs| - 1] + [f];
    }
  }

  // ---- transactions ----

  /** One transaction as it is appended: only the last frame carries a page count. */
  predicate IsTx(fs: seq<Frame>) {
    && fs != [] && fs[|fs| - 1].dbSize != 0
    && forall i :: 0 <= i < |fs| - 1 ==> fs[i].dbSize == 0
  }

  /** Frames short of a commit frame only wait. */
  lemma {:induction false} ScanOpen(s: Scan, fs: seq<Frame>)
    requires forall i :: 0 <= i < |fs| ==> fs[i].dbSize == 0
    ensures ScanFrom(s, fs) == Scan(s.log, s.pending + fs)
  {
    if fs != [] {
      ScanOpen(s, fs[..|fs| - 1]);
    }
  }

  lemma ScanTx(log: Log, fs: seq<Frame>)
    requires IsTx(fs)
    ensures ScanFrom(Scan(log, []), fs) == Scan(ApplyTx(log, fs), [])
  {
    hide ApplyTx;
    ScanOpen(Scan(log, []), fs[..|fs| - 1]);
    assert [] + fs[..|fs| - 1] + [fs[|fs| - 1]] == fs;
  }

  /** The file is whole transactions from start on and nothing else. */
  predicate Whole(start: Log, bytes: seq<byte>, log: Log) {
    && |bytes| == FRAME_SIZE * |Frames(bytes)|
    && ScanFrom(Scan(start, []), Frames(bytes)) == Scan(log, [])
  }

  lemma WholeParts(start: Log, bytes: seq<byte>, log: Log)
    requires Whole(start, bytes, log)
    ensures |bytes| == FRAME_SIZE * |Frames(bytes)|
    ensures ScanFrom(Scan(start, []), Frames(bytes)) == Scan(log, [])
  {
  }

  lemma TxParts(fs: seq<Frame>)
    requires IsTx(fs)
    ensures fs != [] && forall i :: 0 <= i < |fs| - 1 ==> fs[i].dbSize == 0
  {
  }

  /** Appending a transaction to whole transactions leaves whole transactions. */
  lemma WholeAppend(start: Log, bytes: seq<byte>, log: Log, fs: seq<Frame>)
    requires Whole(start, bytes, log) && IsTx(fs)
    ensures Whole(start, bytes + EncodeAll(fs), ApplyTx(log, fs))
  {
    hide Frames, EncodeAll, ScanFrom, IsTx, ApplyTx;
    EncodeLength(fs);
    FramesConcat(bytes, EncodeAll(fs));
    FramesBack(fs, []);
    assert EncodeAll(fs) + [] == EncodeAll(fs) && fs + Frames([]) == fs by { FramesNone([]); }
    ScanConcat(Scan(start, []), Frames(bytes), fs);
    ScanTx(log, fs);
  }

  lemma FramesNone(bytes: seq<byte>)
    requires |bytes| < FRAME_SIZE
    ensures Frames(bytes) == []
  {
  }

  /** The frames of a cut-off append: whole ones from its front. */
  lemma {:induction false} CutFrames(fs: seq<Frame>, k: nat)
    requires k < |EncodeAll(fs)|
    ensures k / FRAME_SIZE < |fs|
    ensures Frames(EncodeAll(fs)[..k]) == fs[..k / FRAME_SIZE]
  {
    hide Frames, FrameBytes, EncodeAll;
    EncodeLength(fs);
    var n := k / FRAME_SIZE;
    EncodeSplit(fs, n);
    EncodeLength(fs[..n]);
    var rest := EncodeAll(fs)[FRAME_SIZE * n..k];
    assert EncodeAll(fs)[..k] == EncodeAll(fs[..n]) + rest;
    FramesBack(fs[..n], rest);
    FramesNone(rest);
  }

  lemma {:induction false} EncodeSplit(fs: seq<Frame>, n: nat)
    requires n <= |fs|
    ensures |EncodeAll(fs)| >= FRAME_SIZE * n && EncodeAll(fs)[..FRAME_SIZE * n] == EncodeAll(fs[..n])
  {
    hide FrameBytes;
    EncodeLength(fs);
    if n == |fs| {
      assert fs[..n] == fs;
    } else {
      EncodeLength(fs[..|fs| - 1]);
      EncodeSplit(fs[..|fs| - 1], n);
      assert fs[..|fs| - 1][..n] == fs[..n];
    }
  }

  /** Crash atomicity: however many bytes of an append reached the file, recovery yields the log
      with the whole transaction if all did and the log without it otherwise, and cuts the rest off. */
  lemma CrashDuringAppend(start: Log, bytes: seq<byte>, log: Log, fs: seq<Frame>, k: nat)
    requires Whole(start, bytes, log) && IsTx(fs) && k <= |EncodeAll(fs)|
    ensures Recover(start, bytes + EncodeAll(fs)[..k]) ==
            if k == |EncodeAll(fs)| then (ApplyTx(log, fs), bytes + EncodeAll(fs)) else (log, bytes)
  {
    hide *;
    FrameSize();
    WholeParts(start, bytes, log);
    TxParts(fs);
    var all := bytes + EncodeAll(fs)[..k];
    FramesConcat(bytes, EncodeAll(fs)[..k]);
    ScanConcat(Scan(start, []), Frames(bytes), Frames(EncodeAll(fs)[..k]));
    if k == |EncodeAll(fs)| {
      assert EncodeAll(fs)[..k] == EncodeAll(fs);
      WholeAppend(start, bytes, log, fs);
      WholeParts(start, all, ApplyTx(log, fs));
      RecoverIs(start, all, Frames(all), ApplyTx(log, fs), [], |all|);
      assert all[..|all|] == all;
    } else {
      CutFrames(fs, k);
      var cut := fs[..k / FRAME_SIZE];
      ScanOpen(Scan(log, []), cut);
      assert all[..|bytes|] == bytes;
      RecoverIs(start, all, Frames(bytes) + cut, log, [] + cut, |bytes|);
    }
  }

  /** Without a page count on its last frame a transaction is never recovered. */
  lemma UnmarkedIsLost(start: Log, bytes: seq<byte>, log: Log, fs: seq<Frame>)
    requires Whole(start, bytes, log) && forall i :: 0 <= i < |fs| ==> fs[i].dbSize == 0
    ensures Recover(start, bytes + EncodeAll(fs)) == (log, bytes)
  {
    hide *;
    FrameSize();
    WholeParts(start, bytes, log);
    var all := bytes + EncodeAll(fs);
    FramesConcat(bytes, EncodeAll(fs));
    FramesBack(fs, []);
    FramesNone([]);
    assert EncodeAll(fs) + [] == EncodeAll(fs) && fs + [] == fs;
    ScanConcat(Scan(start, []), Frames(bytes), fs);
    ScanOpen(Scan(log, []), fs);
    assert all[..|bytes|] == bytes;
    RecoverIs(start, all, Frames(bytes) + fs, log, [] + fs, |bytes|);
  }
}
