/** SQLite variable-length integers (SQLite Database File Format, section 1.6). */
module Varint {
  import opened Common

  type byte = b: int | 0 <= b < 256

  const TWO_56: int := 0x100_0000_0000_0000
  const TWO_64: int := 0x1_0000_0000_0000_0000

  type u64 = v: int | 0 <= v < TWO_64

  /** 128 to the n-th power. */
  function Pow128(n: nat): (p: nat)
    ensures p >= 1
  {
    if n == 0 then 1 else 128 * Pow128(n - 1)
  }

  /** The number of bytes `Write` emits. */
  function Len(v: u64): nat {
    if v <= 0x7f then 1
    else if v <= 0x3fff then 2
    else if v <= 0x1f_ffff then 3
    else if v <= 0xfff_ffff then 4
    else if v <= 0x7_ffff_ffff then 5
    else if v <= 0x3ff_ffff_ffff then 6
    else if v <= 0x1_ffff_ffff_ffff then 7
    else if v <= 0xff_ffff_ffff_ffff then 8
    else 9
  }

  /** The n low base-128 digits of x, most significant first, each marked "more follows". */
  function Groups(x: nat, n: nat): (s: seq<byte>)
    ensures |s| == n
    ensures forall i :: 0 <= i < n ==> s[i] >= 128
  {
    if n == 0 then [] else Groups(x / 128, n - 1) + [x % 128 + 128]
  }

  /** The varint bytes of v. */
  function Encode(v: u64): (s: seq<byte>)
    ensures |s| == Len(v)
  {
    if v < TWO_56 then Groups(v / 128, Len(v) - 1) + [v % 128]
    else Groups(v / 256, 8) + [v % 256]
  }

  /** Reading position i with accumulator acc: digits until one without the mark, the ninth byte whole. */
  function DecodeFrom(data: seq<byte>, i: nat, acc: nat): Option<(nat, nat)>
    requires i <= 8
    decreases 8 - i
  {
    if i >= |data| then None
    else if i == 8 then Some((acc * 256 + data[8], 9))
    else if data[i] < 128 then Some((acc * 128 + data[i], i + 1))
    else DecodeFrom(data, i + 1, acc * 128 + data[i] - 128)
  }

  function Decode(data: seq<byte>): Option<(nat, nat)> {
    DecodeFrom(data, 0, 0)
  }

  /** Fills buf[..n] with the n low base-128 digits of v, from the last byte down. */
  method FillGroups(buf: array<byte>, v: nat, n: nat)
    requires n <= buf.Length
    modifies buf
    ensures buf[..n] == Groups(v, n)
    ensures forall j :: n <= j < buf.Length ==> buf[j] == old(buf[j])
  {
    var x, i: int := v, n;
    while i > 0
      invariant 0 <= i <= n && x >= 0
      invariant Groups(v, n) == Groups(x, i) + buf[i..n]
      invariant forall j :: n <= j < buf.Length ==> buf[j] == old(buf[j])
    {
      i := i - 1;
      ghost var tail := buf[i + 1..n];
      buf[i] := x % 128 + 128;
      assert buf[i..n] == [buf[i]] + tail;
      x := x / 128;
    }
  }

  /** Takes the "more follows" mark off the last of n digits. */
  method ClearMark(buf: array<byte>, n: nat)
    requires 0 < n <= buf.Length
    modifies buf
    ensures buf[..n] == old(buf[..n - 1]) + [old(buf[n - 1]) % 128]
  {
    buf[n - 1] := buf[n - 1] % 128;
  }

  lemma GroupsLast(x: nat, n: nat)
    requires n > 0
    ensures Groups(x, n)[..n - 1] == Groups(x / 128, n - 1) && Groups(x, n)[n - 1] % 128 == x % 128
  {
  }

  /** Appends the varint of v to out, filling a scratch buffer from its last byte. */
  method Write(out: seq<byte>, v: u64) returns (res: seq<byte>, n: nat)
    ensures res == out + Encode(v)
    ensures n == Len(v)
  {
    var buf := new byte[9](_ => 0);
    if v > 0x00ff_ffff_ffff_ffff {
      buf[8] := v % 256;
      FillGroups(buf, v / 256, 8);
      assert buf[..] == buf[..8] + [buf[8]];
      return out + buf[..], 9;
    }
    n := Len(v);
    FillGroups(buf, v, n);
    ClearMark(buf, n);
    GroupsLast(v, n);
    return out + buf[..n], n;
  }

  lemma DecodeStep(data: seq<byte>, i: nat, acc: nat)
    requires i <= 8
    ensures DecodeFrom(data, i, acc) ==
            if i >= |data| then None
            else if i == 8 then Some((acc * 256 + data[8], 9))
            else if data[i] < 128 then Some((acc * 128 + data[i], i + 1))
            else DecodeFrom(data, i + 1, acc * 128 + (data[i] - 128))
  {
  }

  /** Reads a varint from the front of data: its value and the bytes consumed. */
  method Read(data: seq<byte>) returns (r: Option<(nat, nat)>)
    ensures r == Decode(data)
  {
    hide DecodeFrom;
    var result: nat := 0;
    for i := 0 to 8
      invariant DecodeFrom(data, 0, 0) == DecodeFrom(data, i, result)
    {
      DecodeStep(data, i, result);
      if i >= |data| { return None; }
      var byt := data[i];
      if byt < 128 {
        return Some((result * 128 + byt, i + 1));
      }
      result := result * 128 + (byt - 128);
    }
    DecodeStep(data, 8, result);
    if 8 >= |data| { return None; }
    return Some((result * 256 + data[8], 9));
  }

  /** The number denoted by marked digits ds read after the number acc. */
  function Shift(acc: nat, ds: seq<byte>): nat
    requires forall i :: 0 <= i < |ds| ==> ds[i] >= 128
    decreases |ds|
  {
    if ds == [] then acc else Shift(acc * 128 + ds[0] - 128, ds[1..])
  }

  lemma {:induction false} ShiftAppend(acc: nat, ds: seq<byte>, d: byte)
    requires d >= 128 && forall i :: 0 <= i < |ds| ==> ds[i] >= 128
    ensures Shift(acc, ds + [d]) == Shift(acc, ds) * 128 + d - 128
    decreases |ds|
  {
    if ds != [] {
      assert (ds + [d])[1..] == ds[1..] + [d];
      ShiftAppend(acc * 128 + ds[0] - 128, ds[1..], d);
    } else {
      assert (ds + [d])[1..] == [];
    }
  }

  /** n digits denote every number below 128 to the n-th power. */
  lemma {:induction false} GroupsValue(x: nat, n: nat)
    requires x < Pow128(n)
    ensures Shift(0, Groups(x, n)) == x
  {
    if n > 0 {
      GroupsValue(x / 128, n - 1);
      ShiftAppend(0, Groups(x / 128, n - 1), x % 128 + 128);
    }
  }

  /** Decoding runs through marked digits, accumulating the number they denote. */
  lemma {:induction false} DecodeMarked(data: seq<byte>, i: nat, n: nat, acc: nat)
    requires i + n <= 8 && i + n <= |data|
    requires forall j :: i <= j < i + n ==> data[j] >= 128
    ensures DecodeFrom(data, i, acc) == DecodeFrom(data, i + n, Shift(acc, data[i..i + n]))
    decreases n
  {
    hide DecodeFrom;
    if n > 0 {
      DecodeStep(data, i, acc);
      DecodeMarked(data, i + 1, n - 1, acc * 128 + data[i] - 128);
      assert data[i..i + n][1..] == data[i + 1..i + n];
    }
  }

  /** The powers used by the length table. */
  lemma Powers()
    ensures Pow128(0) == 1 && Pow128(1) == 0x80 && Pow128(2) == 0x4000 && Pow128(3) == 0x20_0000
    ensures Pow128(4) == 0x1000_0000 && Pow128(5) == 0x8_0000_0000 && Pow128(6) == 0x400_0000_0000
    ensures Pow128(7) == 0x2_0000_0000_0000 && Pow128(8) == TWO_56
  {
    assert Pow128(1) == 128 * Pow128(0);
    assert Pow128(2) == 128 * Pow128(1);
    assert Pow128(3) == 128 * Pow128(2);
    assert Pow128(4) == 128 * Pow128(3);
    assert Pow128(5) == 128 * Pow128(4);
    assert Pow128(6) == 128 * Pow128(5);
    assert Pow128(7) == 128 * Pow128(6);
  }

  /** Decoding n marked digits followed by one more byte. */
  lemma DecodeTail(data: seq<byte>, n: nat)
    requires n <= 8 && n < |data| && (n < 8 ==> data[n] < 128)
    requires forall i :: 0 <= i < n ==> data[i] >= 128
    ensures Decode(data) == Some((if n == 8 then Shift(0, data[..n]) * 256 + data[8] else Shift(0, data[..n]) * 128 + data[n], n + 1))
  {
    hide DecodeFrom, Shift;
    DecodeMarked(data, 0, n, 0);
    assert data[0..n] == data[..n];
    DecodeStep(data, n, Shift(0, data[..n]));
  }

  /** Reading what was written, whatever follows it, gives the value and its length. */
  lemma RoundTrip(v: u64, rest: seq<byte>)
    ensures Decode(Encode(v) + rest) == Some((v, Len(v)))
  {
    hide DecodeFrom, Shift;
    Powers();
    var data := Encode(v) + rest;
    var n := Len(v) - 1;
    var x := if v < TWO_56 then v / 128 else v / 256;
    GroupsValue(x, n);
    assert data[..n] == Groups(x, n);
    DecodeTail(data, n);
  }

  /** A value decoded from n bytes is below 128 to the n-th power, or 2 to the 64th for nine bytes. */
  lemma {:induction false} DecodeBound(data: seq<byte>, i: nat, acc: nat)
    requires i <= 8 && acc < Pow128(i) && DecodeFrom(data, i, acc).Some?
    ensures var (v, n) := DecodeFrom(data, i, acc).value;
            i < n <= 9 && n <= |data| && v < if n == 9 then 256 * Pow128(8) else Pow128(n)
    decreases 8 - i
  {
    hide DecodeFrom;
    DecodeStep(data, i, acc);
    if i < 8 && data[i] >= 128 {
      DecodeBound(data, i + 1, acc * 128 + data[i] - 128);
    }
  }

  /** No byte string that decodes to v is shorter than the encoding of v. */
  lemma Shortest(data: seq<byte>)
    requires Decode(data).Some?
    ensures var (v, n) := Decode(data).value; v < TWO_64 && Len(v) <= n <= |data|
  {
    hide DecodeFrom;
    Powers();
    DecodeBound(data, 0, 0);
  }

  lemma DecodeLimits(data: seq<byte>)
    ensures Decode(data).Some? ==> Decode(data).value.0 < TWO_64 && 0 < Decode(data).value.1 <= |data|
  {
    if Decode(data).Some? {
      Shortest(data);
    }
  }

  /** The number of n bytes of seven bits each, the most significant first. */
  function Sevens(data: seq<byte>, n: nat): nat
    requires n <= |data|
  {
    if n == 0 then 0 else 128 * Sevens(data, n - 1) + data[n - 1] % 128
  }

  lemma {:induction false} DecodeFromMeaning(data: seq<byte>, i: nat)
    requires i <= 8 && i <= |data| && forall j :: 0 <= j < i ==> data[j] >= 128
    ensures var r := DecodeFrom(data, i, Sevens(data, i));
            && (r.None? <==> (forall j :: i <= j < |data| && j < 8 ==> data[j] >= 128) && |data| < 9)
            && (r.Some? ==>
                  var (v, n) := r.value;
                  && i < n <= 9 && n <= |data| && (forall j :: 0 <= j < n - 1 && j < 8 ==> data[j] >= 128)
                  && (if n == 9 then data[7] >= 128 && v == 256 * Sevens(data, 8) + data[8]
                      else data[n - 1] < 128 && v == Sevens(data, n)))
    decreases 8 - i
  {
    if i < |data| && i < 8 && data[i] >= 128 {
      DecodeFromMeaning(data, i + 1);
    }
  }

  /** What is decoded: the bytes up to the first one below 128, seven bits each, or eight such bytes and a whole ninth;
      nothing if the bytes run out before. */
  lemma DecodeMeaning(data: seq<byte>)
    ensures Decode(data).None? <==> |data| < 9 && forall j :: 0 <= j < |data| && j < 8 ==> data[j] >= 128
    ensures Decode(data).Some? ==>
              var (v, n) := Decode(data).value;
              && 0 < n <= 9 && n <= |data| && (forall j :: 0 <= j < n - 1 && j < 8 ==> data[j] >= 128)
              && (if n == 9 then data[7] >= 128 && v == 256 * Sevens(data, 8) + data[8]
                  else data[n - 1] < 128 && v == Sevens(data, n))
  {
    DecodeFromMeaning(data, 0);
  }
}
