/** WAL frames: a 32-byte header and a page of data, guarded by a checksum. */
module WalFrames {
  import opened Common
  import opened Varint
  import opened Nodes
  import opened PageFormat

  const FRAME_HEADER_SIZE: nat := 32
  const FRAME_SIZE: nat := FRAME_HEADER_SIZE + PAGE_SIZE

  type u32 = v: int | 0 <= v < U32

  function Zeros(): (s: seq<byte>)
    ensures |s| == PAGE_SIZE
  {
    seq(PAGE_SIZE, _ => 0)
  }

  /** The bytes of one page. */
  type Data = s: seq<byte> | |s| == PAGE_SIZE witness Zeros()

  /** dbSize is the page count after the commit on the last frame of a transaction, 0 on the others. */
  datatype Frame = Frame(page: u32, version: u64, dbSize: u32, salt: u32, data: Data)

  function Be64(v: u64): (s: seq<byte>)
    ensures |s| == 8
  {
    Be32(v / U32) + Be32(v % U32)
  }

  function Get64(s: seq<byte>, at: nat): u64
    requires at + 8 <= |s|
  {
    Get32(s, at) * U32 + Get32(s, at + 4)
  }

  // ---- checksum ----

  const FNV_OFFSET: u64 := 0xcbf2_9ce4_8422_2325
  const FNV_PRIME: u64 := 0x0000_0100_0000_01b3

  function XorByte(a: byte, b: byte): byte {
    ((a as bv8) ^ (b as bv8)) as int
  }

  /** One byte, by exclusive or into the low byte, then a multiplication of 64 bits. */
  function Mix(h: u64, b: byte): u64 {
    (h - h % 256 + XorByte(h % 256, b)) * FNV_PRIME % TWO_64
  }

  /** FNV-1a over s from state h. */
  function Fnv(h: u64, s: seq<byte>): u64 {
    if s == [] then h else Mix(Fnv(h, s[..|s| - 1]), s[|s| - 1])
  }

  lemma FnvNone(h: u64)
    ensures Fnv(h, []) == h
  {
  }

  lemma FnvStep(h: u64, s: seq<byte>, i: nat)
    requires i < |s|
    ensures Fnv(h, s[..i + 1]) == Mix(Fnv(h, s[..i]), s[i])
  {
    hide Mix;
    assert s[..i + 1][..i] == s[..i];
  }

  function Checksum(s: seq<byte>): u64 {
    Fnv(FNV_OFFSET, s)
  }

  method ComputeChecksum(prefix: seq<byte>, data: seq<byte>) returns (h: u64)
    ensures h == Checksum(prefix + data)
  {
    hide Mix, Fnv;
    var all := prefix + data;
    var acc: u64 := FNV_OFFSET;
    FnvNone(FNV_OFFSET);
    assert all[..0] == [];
    for i := 0 to |all|
      invariant acc == Fnv(FNV_OFFSET, all[..i])
    {
      FnvStep(FNV_OFFSET, all, i);
      acc := Mix(acc, all[i]);
    }
    assert all[..|all|] == all;
    return acc;
  }

  // ---- encoding ----

  /** The header fields the checksum covers. */
  function Prefix(f: Frame): (s: seq<byte>)
    ensures |s| == 20
  {
    Be32(f.page) + Be64(f.version) + Be32(f.dbSize) + Be32(f.salt)
  }

  function FrameBytes(f: Frame): (s: seq<byte>)
    ensures |s| == FRAME_SIZE
  {
    Prefix(f) + Be64(Checksum(Prefix(f) + f.data)) + [0, 0, 0, 0] + f.data
  }

  /** The frame at the front of s, if s is long enough and the checksum agrees. */
  function DecodeFrame(s: seq<byte>): Option<Frame> {
    if |s| < FRAME_SIZE then None
    else
      var data: Data := s[FRAME_HEADER_SIZE..FRAME_SIZE];
      if Get64(s, 20) != Checksum(s[..20] + data) then None
      else Some(Frame(Get32(s, 0), Get64(s, 4), Get32(s, 12), Get32(s, 16), data))
  }

  method FillPrefix(f: Frame, buf: array<byte>)
    requires buf.Length == FRAME_SIZE
    modifies buf
    ensures buf[..20] == Prefix(f) && forall j :: 20 <= j < FRAME_SIZE ==> buf[j] == old(buf[j])
  {
    hide Be32, Be64;
    CopyIn(buf, 0, Be32(f.page));
    CopyIn(buf, 4, Be64(f.version));
    CopyIn(buf, 12, Be32(f.dbSize));
    CopyIn(buf, 16, Be32(f.salt));
    assert buf[..20] == buf[0..4] + buf[4..12] + buf[12..16] + buf[16..20];
  }

  /** Fills a frame buffer field by field. */
  method EncodeFrame(f: Frame) returns (buf: array<byte>)
    ensures fresh(buf) && buf[..] == FrameBytes(f)
  {
    hide Be32, Be64, Checksum, Prefix;
    buf := new byte[FRAME_SIZE](_ => 0);
    FillPrefix(f, buf);
    CopyIn(buf, FRAME_HEADER_SIZE, f.data);
    assert buf[..20] == Prefix(f);
    var ck := ComputeChecksum(buf[..20], f.data);
    CopyIn(buf, 20, Be64(ck));
    assert buf[..] == buf[..20] + buf[20..28] + buf[28..32] + buf[32..FRAME_SIZE];
  }

  lemma Get64Be64(s: seq<byte>, at: nat, v: u64)
    requires at + 8 <= |s| && s[at..at + 8] == Be64(v)
    ensures Get64(s, at) == v
  {
    hide Be32, Get32;
    Inner(s, at, Be64(v), 0, 4);
    Inner(s, at, Be64(v), 4, 8);
    Get32Be32(s, at, v / U32);
    Get32Be32(s, at + 4, v % U32);
  }

  lemma FramePieces(f: Frame, rest: seq<byte>)
    ensures var s := FrameBytes(f) + rest;
            && s[0..4] == Be32(f.page) && s[4..12] == Be64(f.version)
            && s[12..16] == Be32(f.dbSize) && s[16..20] == Be32(f.salt)
            && s[..20] == Prefix(f) && s[20..28] == Be64(Checksum(Prefix(f) + f.data))
            && s[FRAME_HEADER_SIZE..FRAME_SIZE] == f.data
  {
    hide Be32, Be64, Checksum;
  }

  /** Decoding an encoded frame, whatever follows it, gives the frame. */
  lemma FrameRoundTrip(f: Frame, rest: seq<byte>)
    ensures DecodeFrame(FrameBytes(f) + rest) == Some(f)
  {
    hide Be32, Be64, Checksum, Get32, Get64, Prefix, FrameBytes;
    var s := FrameBytes(f) + rest;
    FramePieces(f, rest);
    Get32Be32(s, 0, f.page);
    Get64Be64(s, 4, f.version);
    Get32Be32(s, 12, f.dbSize);
    Get32Be32(s, 16, f.salt);
    Get64Be64(s, 20, Checksum(Prefix(f) + f.data));
  }

  lemma Be32Get32(s: seq<byte>, at: nat)
    requires at + 4 <= |s|
    ensures Be32(Get32(s, at)) == s[at..at + 4]
  {
  }

  lemma Be64Get64(s: seq<byte>, at: nat)
    requires at + 8 <= |s|
    ensures Be64(Get64(s, at)) == s[at..at + 8]
  {
    hide Be32, Get32;
    Be32Get32(s, at);
    Be32Get32(s, at + 4);
    assert s[at..at + 8] == s[at..at + 4] + s[at + 4..at + 8];
  }

  /** A frame accepted from disk is the encoding of what was decoded, but for the four reserved
      bytes, which nothing checks. */
  lemma DecodedIsEncoded(s: seq<byte>)
    requires |s| == FRAME_SIZE && DecodeFrame(s).Some?
    ensures FrameBytes(DecodeFrame(s).value) == s[..28] + [0, 0, 0, 0] + s[FRAME_HEADER_SIZE..]
  {
    hide Be32, Be64, Checksum, Get32, Get64;
    Be32Get32(s, 0);
    Be64Get64(s, 4);
    Be32Get32(s, 12);
    Be32Get32(s, 16);
    Be64Get64(s, 20);
    assert s[..20] == s[0..4] + s[4..12] + s[12..16] + s[16..20];
    assert s[..28] == s[..20] + s[20..28];
  }

  /** The fields of a frame by their places: page, version, page count, salt, checksum, four bytes of zero, data. */
  lemma FrameNumbers(f: Frame)
    ensures var s := FrameBytes(f);
            && |s| == 4128 && Get32(s, 0) == f.page && Get32(s, 4) == f.version / U32 && Get32(s, 8) == f.version % U32
            && Get32(s, 12) == f.dbSize && Get32(s, 16) == f.salt
            && Get32(s, 20) == Checksum(s[..20] + f.data) / U32 && Get32(s, 24) == Checksum(s[..20] + f.data) % U32
            && s[28] == s[29] == s[30] == s[31] == 0 && s[32..] == f.data
  {
    hide Be32, Checksum, Get32, FrameBytes;
    var s := FrameBytes(f);
    FramePieces(f, []);
    assert s + [] == s;
    Get32Be32(s, 0, f.page);
    WideNumbers(s, 4, f.version);
    Get32Be32(s, 12, f.dbSize);
    Get32Be32(s, 16, f.salt);
    WideNumbers(s, 20, Checksum(s[..20] + f.data));
    ReservedZero(f);
  }

  lemma WideNumbers(s: seq<byte>, at: nat, v: u64)
    requires at + 8 <= |s| && s[at..at + 8] == Be64(v)
    ensures Get32(s, at) == v / U32 && Get32(s, at + 4) == v % U32
  {
    hide Be32, Get32;
    Inner(s, at, Be64(v), 0, 4);
    Inner(s, at, Be64(v), 4, 8);
    Get32Be32(s, at, v / U32);
    Get32Be32(s, at + 4, v % U32);
  }

  lemma ReservedZero(f: Frame)
    ensures FrameBytes(f)[28..32] == [0, 0, 0, 0] && FrameBytes(f)[32..] == f.data
    ensures forall i :: 28 <= i < 32 ==> FrameBytes(f)[i] == 0
  {
    hide Be32, Be64, Checksum, Prefix;
    var s := FrameBytes(f);
    assert s[28..32] == [0, 0, 0, 0];
    forall i | 28 <= i < 32
      ensures s[i] == 0
    {
      assert s[i] == s[28..32][i - 28];
    }
  }

  /** The checksum is FNV-1a of 64 bits: what it gives for no byte and for the letter a, and how one more byte is
      taken in. */
  lemma ChecksumNumbers(s: seq<byte>, b: byte)
    ensures Checksum([]) == 0xcbf2_9ce4_8422_2325 && Checksum([97]) == 0xaf63_dc4c_8601_ec8c
    ensures var h, low := Checksum(s), Checksum(s) % 256;
            Checksum(s + [b]) == (h - low + ((low as bv8) ^ (b as bv8)) as int) * 0x100_0000_01b3 % 0x1_0000_0000_0000_0000
  {
    assert (s + [b])[..|s|] == s && [97][..0] == [];
    assert ((0x25 as bv8) ^ (97 as bv8)) as int == 0x44;
  }
}
