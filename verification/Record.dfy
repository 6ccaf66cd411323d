/** Rows as bytes (SQLite Database File Format, section 2.1): a header of serial types, then the
    bodies of the values. */
module Records {
  import opened Common
  import opened Varint
  import opened Values

  function Pow256(n: nat): (p: nat)
    ensures p >= 1
  {
    if n == 0 then 1 else 256 * Pow256(n - 1)
  }

  /** The n low bytes of u, most significant first. */
  function BeBytes(u: nat, n: nat): (s: seq<byte>)
    ensures |s| == n
  {
    if n == 0 then [] else BeBytes(u / 256, n - 1) + [u % 256]
  }

  /** An integer in n bytes of two's complement. */
  function IntBytes(i: int, n: nat): seq<byte>
    requires 0 - Pow256(n) <= i < Pow256(n)
  {
    BeBytes(if i >= 0 then i else i + Pow256(n), n)
  }

  /** The width of an integer that is neither 0 nor 1. */
  function Width(i: i64): (n: nat)
    ensures n in {1, 2, 3, 4, 6, 8}
  {
    if -0x80 <= i < 0x80 then 1
    else if -0x8000 <= i < 0x8000 then 2
    else if -0x80_0000 <= i < 0x80_0000 then 3
    else if -0x8000_0000 <= i < 0x8000_0000 then 4
    else if -0x8000_0000_0000 <= i < 0x8000_0000_0000 then 6
    else 8
  }

  /** A value in the form in which it is stored. */
  function AsStored(v: Value): Value {
    match v
    case Boolean(b) => Integer(if b then 1 else 0)
    case Json(s) => Text(s)
    case _ => v
  }

  predicate SizeOk(v: Value) {
    match v
    case Text(s) => 2 * |s| + 13 < TWO_64
    case Json(s) => 2 * |s| + 13 < TWO_64
    case Blob(b) => 2 * |b| + 12 < TWO_64
    case _ => true
  }

  function IntSerial(i: i64): u64 {
    if i == 0 then 8
    else if i == 1 then 9
    else
      var n := Width(i);
      if n == 6 then 5 else if n == 8 then 6 else n
  }

  /** The serial type of a value. */
  function Serial(v: Value): u64
    requires SizeOk(v)
  {
    match AsStored(v)
    case Null => 0
    case Integer(i) => IntSerial(i)
    case Real(_) => 7
    case Text(s) => 2 * |s| + 13
    case Blob(b) => 2 * |b| + 12
    case _ => 0
  }

  lemma Widths(i: i64)
    ensures Pow256(1) == 0x100 && Pow256(2) == 0x1_0000 && Pow256(3) == 0x100_0000 && Pow256(4) == 0x1_0000_0000
    ensures Pow256(6) == 0x1_0000_0000_0000 && Pow256(8) == TWO_64
    ensures 0 - Pow256(Width(i)) <= 2 * i < Pow256(Width(i))
  {
    assert Pow256(1) == 256 * Pow256(0);
    assert Pow256(2) == 256 * Pow256(1);
    assert Pow256(3) == 256 * Pow256(2);
    assert Pow256(4) == 256 * Pow256(3);
    assert Pow256(5) == 256 * Pow256(4);
    assert Pow256(6) == 256 * Pow256(5);
    assert Pow256(7) == 256 * Pow256(6);
  }

  /** The body bytes of a value. */
  function Body(v: Value): seq<byte> {
    match AsStored(v)
    case Integer(i) =>
      if i == 0 || i == 1 then []
      else
        Widths(i);
        IntBytes(i, Width(i))
    case Real(r) => BeBytes(r, 8)
    case Text(s) => s
    case Blob(b) => b
    case _ => []
  }

  function Serials(vs: seq<Value>): (s: seq<u64>)
    requires forall i :: 0 <= i < |vs| ==> SizeOk(vs[i])
    ensures |s| == |vs| && forall i :: 0 <= i < |vs| ==> s[i] == Serial(vs[i])
  {
    seq(|vs|, i requires 0 <= i < |vs| => Serial(vs[i]))
  }

  function Bodies(vs: seq<Value>): seq<byte> {
    if vs == [] then [] else Body(vs[0]) + Bodies(vs[1..])
  }

  function SerialBytes(ss: seq<u64>): seq<byte> {
    if ss == [] then [] else Encode(ss[0]) + SerialBytes(ss[1..])
  }

  // ---- the header length ----

  /** Iterates the header length, which counts its own varint, from h up. */
  function HeaderFrom(serialBytes: nat, h: nat): nat
    requires serialBytes + 9 < TWO_64 && serialBytes < h <= serialBytes + 9 && h <= serialBytes + Len(h)
    decreases serialBytes + 9 - h
  {
    var next := serialBytes + Len(h);
    if next == h then h
    else
      LenGrows(h, next);
      HeaderFrom(serialBytes, next)
  }

  lemma LenGrows(a: u64, b: u64)
    requires a <= b
    ensures 1 <= Len(a) <= Len(b) <= 9
  {
  }

  function HeaderLen(serialBytes: nat): nat
    requires serialBytes + 9 < TWO_64
  {
    LenGrows(serialBytes + 1, serialBytes + 1);
    HeaderFrom(serialBytes, serialBytes + 1)
  }

  /** It is a fixed point, and the least above h. */
  lemma {:induction false} HeaderFromLeast(serialBytes: nat, h: nat, g: nat)
    requires serialBytes + 9 < TWO_64 && serialBytes < h <= serialBytes + 9 && h <= serialBytes + Len(h)
    ensures HeaderFrom(serialBytes, h) < TWO_64 && HeaderFrom(serialBytes, h) == serialBytes + Len(HeaderFrom(serialBytes, h))
    ensures h <= g < TWO_64 && g == serialBytes + Len(g) ==> HeaderFrom(serialBytes, h) <= g
    decreases serialBytes + 9 - h
  {
    hide Len;
    LenGrows(h, h);
    var next := serialBytes + Len(h);
    if next != h {
      LenGrows(h, next);
      if h <= g < TWO_64 {
        LenGrows(h, g);
      }
      HeaderFromLeast(serialBytes, next, g);
    }
  }

  /** The header length is the least number that counts the serial types and its own varint. */
  lemma HeaderLenLeast(serialBytes: nat, g: u64)
    requires serialBytes + 9 < TWO_64
    ensures HeaderLen(serialBytes) < TWO_64 && HeaderLen(serialBytes) == serialBytes + Len(HeaderLen(serialBytes))
    ensures g == serialBytes + Len(g) ==> HeaderLen(serialBytes) <= g
  {
    hide Len;
    LenGrows(serialBytes + 1, serialBytes + 1);
    LenGrows(g, g);
    HeaderFromLeast(serialBytes, serialBytes + 1, g);
  }

  /** Rows whose sizes are 64-bit numbers. */
  predicate RowOk(vs: seq<Value>) {
    9 * |vs| + 9 < TWO_64 && forall i :: 0 <= i < |vs| ==> SizeOk(vs[i])
  }

  lemma {:induction false} SerialBytesLength(ss: seq<u64>)
    ensures |SerialBytes(ss)| <= 9 * |ss|
  {
    if ss != [] {
      SerialBytesLength(ss[1..]);
    }
  }

  function RecordBytes(vs: seq<Value>): seq<byte>
    requires RowOk(vs)
  {
    var header := SerialBytes(Serials(vs));
    SerialBytesLength(Serials(vs));
    HeaderLenLeast(|header|, 0);
    Encode(HeaderLen(|header|)) + header + Bodies(vs)
  }

  // ---- encoding ----

  lemma SerialBytesOne(ss: seq<u64>, i: nat)
    requires i < |ss|
    ensures SerialBytes(ss[i..]) == Encode(ss[i]) + SerialBytes(ss[i + 1..])
  {
    assert ss[i..][0] == ss[i] && ss[i..][1..] == ss[i + 1..];
  }

  lemma BodiesOne(vs: seq<Value>, i: nat)
    requires i < |vs|
    ensures Bodies(vs[i..]) == Body(vs[i]) + Bodies(vs[i + 1..])
  {
    hide Body;
    assert vs[i..][0] == vs[i] && vs[i..][1..] == vs[i + 1..];
  }

  /** Bytes of the header, iterated to its fixed point, then the serial types, then the bodies. */
  method EncodeRow(vs: seq<Value>) returns (out: seq<byte>)
    requires RowOk(vs)
    ensures out == RecordBytes(vs)
  {
    hide Serial, Body, Encode, Len, Bodies, SerialBytes, HeaderFrom;
    var serials: seq<u64> := [];
    var body: seq<byte> := [];
    var serialBytes := 0;
    assert vs[0..] == vs;
    for i := 0 to |vs|
      invariant serials == Serials(vs)[..i] && Bodies(vs) == body + Bodies(vs[i..])
      invariant serialBytes + |SerialBytes(Serials(vs)[i..])| == |SerialBytes(Serials(vs))|
    {
      BodiesOne(vs, i);
      SerialBytesOne(Serials(vs), i);
      serials := serials + [Serial(vs[i])];
      body := body + Body(vs[i]);
      serialBytes := serialBytes + Len(Serial(vs[i]));
    }
    assert vs[|vs|..] == [] && Serials(vs)[|vs|..] == [] && serials == Serials(vs);
    NoBytes();
    SerialBytesLength(serials);
    LenGrows(serialBytes + 1, serialBytes + 1);
    var headerLen := serialBytes + 1;
    while serialBytes + Len(headerLen) != headerLen
      invariant serialBytes < headerLen <= serialBytes + 9 && headerLen <= serialBytes + Len(headerLen)
      invariant HeaderLen(serialBytes) == HeaderFrom(serialBytes, headerLen)
      decreases serialBytes + 9 - headerLen
    {
      LenGrows(headerLen, headerLen);
      LenGrows(headerLen, serialBytes + Len(headerLen));
      HeaderStep(serialBytes, headerLen);
      headerLen := serialBytes + Len(headerLen);
    }
    HeaderStep(serialBytes, headerLen);
    var n;
    out, n := Write([], headerLen);
    ghost var front := out;
    for i := 0 to |serials|
      invariant out + SerialBytes(serials[i..]) == front + SerialBytes(serials)
    {
      SerialBytesOne(serials, i);
      out, n := Write(out, serials[i]);
    }
    assert serials[|serials|..] == [] && out + [] == out && [] + Encode(headerLen) == Encode(headerLen);
    out := out + body;
  }

  lemma NoBytes()
    ensures Bodies([]) == [] && SerialBytes([]) == []
  {
  }

  lemma HeaderStep(serialBytes: nat, h: nat)
    requires serialBytes + 9 < TWO_64 && serialBytes < h <= serialBytes + 9 && h <= serialBytes + Len(h)
    ensures serialBytes + Len(h) == h ==> HeaderFrom(serialBytes, h) == h
    ensures serialBytes + Len(h) != h ==>
              var next := serialBytes + Len(h);
              && h < next <= serialBytes + 9 && next <= serialBytes + Len(next)
              && HeaderFrom(serialBytes, h) == HeaderFrom(serialBytes, next)
  {
    hide Len;
    LenGrows(h, h);
    LenGrows(h, serialBytes + Len(h));
  }

  // ---- decoding ----

  /** Sign-extending big-endian accumulation. */
  function Accumulate(v: int, data: seq<byte>): int {
    if data == [] then v else Accumulate(v, data[..|data| - 1]) * 256 + data[|data| - 1]
  }

  function ReadInt(data: seq<byte>, n: nat): Result<i64>
    requires n in {1, 2, 3, 4, 6, 8}
  {
    if |data| < n then Err(MALFORMED)
    else
      AccumulateFits(data[..n]);
      Ok(Accumulate(if data[0] >= 128 then -1 else 0, data[..n]))
  }

  const MALFORMED: Error := FunctionError([])

  /** n bytes accumulate to a number of n bytes. */
  lemma {:induction false} AccumulateBounds(v: int, data: seq<byte>)
    ensures v * Pow256(|data|) <= Accumulate(v, data) < (v + 1) * Pow256(|data|)
  {
    if data != [] {
      var front := data[..|data| - 1];
      AccumulateBounds(v, front);
      assert Pow256(|data|) == 256 * Pow256(|front|);
      Scale(v, Pow256(|front|));
    }
  }

  lemma Scale(v: int, p: nat)
    ensures v * (256 * p) == 256 * (v * p) && (v + 1) * (256 * p) == 256 * ((v + 1) * p)
  {
  }

  lemma AccumulateFits(data: seq<byte>)
    requires |data| in {1, 2, 3, 4, 6, 8}
    ensures MIN_I64 <= Accumulate(if data[0] >= 128 then -1 else 0, data) <= MAX_I64
  {
    hide Accumulate, Pow256;
    SignedBounds(data);
    Widths(0);
    PowGrows(|data| - 1, 7);
    PowSeven();
  }

  lemma PowSeven()
    ensures 256 * Pow256(7) == TWO_64
  {
    Widths(0);
  }

  lemma {:induction false} PowGrows(n: nat, m: nat)
    requires n <= m
    ensures Pow256(n) <= Pow256(m)
    decreases m
  {
    if n < m {
      PowGrows(n, m - 1);
    }
  }

  /** The first byte decides the sign, and the value stays within one bit less. */
  lemma {:induction false} SignedBounds(data: seq<byte>)
    requires data != []
    ensures var v := Accumulate(if data[0] >= 128 then -1 else 0, data);
            -128 * Pow256(|data| - 1) <= v < 128 * Pow256(|data| - 1)
  {
    var start: int := if data[0] >= 128 then -1 else 0;
    if |data| == 1 {
      assert data[..0] == [];
      assert Accumulate(start, data) == start * 256 + data[0];
    } else {
      var front := data[..|data| - 1];
      SignedBounds(front);
      assert Pow256(|data| - 1) == 256 * Pow256(|data| - 2);
    }
  }

  /** The number of a big-endian byte string. */
  lemma {:induction false} AccumulateBytes(u: nat, n: nat, v: int)
    requires u < Pow256(n)
    ensures Accumulate(v, BeBytes(u, n)) == v * Pow256(n) + u
  {
    if n > 0 {
      AccumulateBytes(u / 256, n - 1, v);
      assert BeBytes(u, n)[..n - 1] == BeBytes(u / 256, n - 1);
      Scale(v, Pow256(n - 1));
    }
  }

  lemma {:induction false} FirstByte(u: nat, n: nat)
    requires n > 0 && u < Pow256(n)
    ensures BeBytes(u, n)[0] >= 128 <==> 2 * u >= Pow256(n)
  {
    if n > 1 {
      FirstByte(u / 256, n - 1);
      assert BeBytes(u, n)[0] == BeBytes(u / 256, n - 1)[0];
      assert Pow256(n) == 256 * Pow256(n - 1) && Pow256(n - 1) == 256 * Pow256(n - 2);
    } else {
      assert Pow256(1) == 256 * Pow256(0);
    }
  }

  /** Reading back an integer from the bytes of its width. */
  lemma IntBack(i: i64, rest: seq<byte>)
    ensures 0 - Pow256(Width(i)) <= i < Pow256(Width(i))
    ensures ReadInt(IntBytes(i, Width(i)) + rest, Width(i)) == Ok(i)
  {
    hide BeBytes, Accumulate, Pow256, Width;
    Widths(i);
    var n := Width(i);
    var u := if i >= 0 then i else i + Pow256(n);
    var data := IntBytes(i, n) + rest;
    assert data[..n] == BeBytes(u, n);
    FirstByte(u, n);
    AccumulateBytes(u, n, if data[0] >= 128 then -1 else 0);
  }

  method ReadIntBytes(data: seq<byte>, n: nat) returns (r: Result<i64>)
    requires n in {1, 2, 3, 4, 6, 8}
    ensures r == ReadInt(data, n)
  {
    if |data| < n { return Err(MALFORMED); }
    var v: int := if data[0] >= 128 then -1 else 0;
    for i := 0 to n
      invariant v == Accumulate(if data[0] >= 128 then -1 else 0, data[..i])
    {
      assert data[..i + 1][..i] == data[..i];
      v := v * 256 + data[i];
    }
    AccumulateFits(data[..n]);
    return Ok(v);
  }

  /** The value of a serial type and the bytes it takes; utf8 tells which byte strings are text. */
  function DecodeValue(utf8: Str -> bool, serial: u64, data: seq<byte>): Result<(Value, nat)> {
    if serial == 0 then Ok((Null, 0))
    else if 1 <= serial <= 6 then
      var n := if serial == 5 then 6 else if serial == 6 then 8 else serial;
      match ReadInt(data, n)
      case Err(x) => Err(x)
      case Ok(i) => Ok((Integer(i), n))
    else if serial == 7 then
      if |data| < 8 then Err(MALFORMED)
      else
        AccumulateBounds(0, data[..8]);
        PowSeven();
        Ok((Real(Accumulate(0, data[..8])), 8))
    else if serial == 8 then Ok((Integer(0), 0))
    else if serial == 9 then Ok((Integer(1), 0))
    else if serial < 12 then Err(MALFORMED)
    else
      var n := if serial % 2 == 0 then (serial - 12) / 2 else (serial - 13) / 2;
      if |data| < n then Err(MALFORMED)
      else if serial % 2 == 0 then Ok((Blob(data[..n]), n))
      else if utf8(data[..n]) then Ok((Text(data[..n]), n))
      else Err(MALFORMED)
  }

  lemma RealBack(r: F64, rest: seq<byte>)
    ensures Accumulate(0, (BeBytes(r, 8) + rest)[..8]) == r
  {
    hide BeBytes, Accumulate, Pow256;
    PowSeven();
    Widths(0);
    assert (BeBytes(r, 8) + rest)[..8] == BeBytes(r, 8);
    AccumulateBytes(r, 8, 0);
  }

  /** Every value decodes to itself, booleans to 0 or 1 and JSON to its text, whatever follows. */
  lemma ValueBack(utf8: Str -> bool, v: Value, rest: seq<byte>)
    requires SizeOk(v) && (AsStored(v).Text? ==> utf8(AsStored(v).s))
    ensures DecodeValue(utf8, Serial(v), Body(v) + rest) == Ok((AsStored(v), |Body(v)|))
  {
    hide IntBytes, BeBytes, Accumulate, ReadInt, Width;
    match AsStored(v)
    case Integer(i) =>
      if i != 0 && i != 1 {
        IntBack(i, rest);
        IntLength(i);
      }
    case Real(r) =>
      RealBack(r, rest);
    case Text(s) => assert (s + rest)[..|s|] == s;
    case Blob(b) => assert (b + rest)[..|b|] == b;
    case _ =>
  }

  lemma IntLength(i: i64)
    ensures 0 - Pow256(Width(i)) <= i < Pow256(Width(i)) && |IntBytes(i, Width(i))| == Width(i)
  {
    Widths(i);
  }

  /** The serial types from pos up to the end of the header. */
  function DecodeSerials(data: seq<byte>, pos: nat, end: nat): Result<seq<u64>>
    requires pos <= |data|
    decreases |data| - pos
  {
    if pos >= end then Ok([])
    else
      DecodeLimits(data[pos..]);
      match Decode(data[pos..])
      case None => Err(MALFORMED)
      case Some(r) =>
        match DecodeSerials(data, pos + r.1, end)
        case Err(x) => Err(x)
        case Ok(ss) => Ok([r.0] + ss)
  }

  /** The values of the serial types, read from at on; reading past the end panics. */
  function DecodeBodies(utf8: Str -> bool, serials: seq<u64>, data: seq<byte>, at: nat): Result<seq<Value>>
    decreases |serials|
  {
    if serials == [] then Ok([])
    else if at > |data| then Err(Panic)
    else
      match DecodeValue(utf8, serials[0], data[at..])
      case Err(x) => Err(x)
      case Ok((v, n)) =>
        match DecodeBodies(utf8, serials[1..], data, at + n)
        case Err(x) => Err(x)
        case Ok(vs) => Ok([v] + vs)
  }

  function DecodeRow(utf8: Str -> bool, data: seq<byte>): Result<seq<Value>> {
    DecodeLimits(data);
    match Decode(data)
    case None => Err(MALFORMED)
    case Some(r) =>
      match DecodeSerials(data, r.1, r.0)
      case Err(x) => Err(x)
      case Ok(ss) => DecodeBodies(utf8, ss, data, r.0)
  }

  function AllStored(vs: seq<Value>): (r: seq<Value>)
    ensures |r| == |vs| && forall i :: 0 <= i < |vs| ==> r[i] == AsStored(vs[i])
  {
    seq(|vs|, i requires 0 <= i < |vs| => AsStored(vs[i]))
  }

  lemma DecodeSerialsIs(data: seq<byte>, pos: nat, end: nat, s: u64, n: nat)
    requires pos <= |data| && pos < end && Decode(data[pos..]) == Some((s, n)) && pos + n <= |data| && n > 0
    ensures var rest := DecodeSerials(data, pos + n, end);
            DecodeSerials(data, pos, end) == if rest.Err? then rest else Ok([s] + rest.value)
  {
    hide Decode;
  }

  lemma {:induction false} SerialsBack(front: seq<byte>, ss: seq<u64>, rest: seq<byte>)
    ensures var data := front + SerialBytes(ss) + rest;
            DecodeSerials(data, |front|, |front| + |SerialBytes(ss)|) == Ok(ss)
    decreases |ss|
  {
    hide Decode, Encode, DecodeSerials, Len;
    var data := front + SerialBytes(ss) + rest;
    if ss == [] {
      SerialsEnd(data, |front|);
    } else {
      var e := Encode(ss[0]);
      SerialBytesOne(ss, 0);
      assert ss[0..] == ss;
      assert data == front + e + SerialBytes(ss[1..]) + rest;
      assert data[|front|..] == e + (SerialBytes(ss[1..]) + rest);
      RoundTrip(ss[0], SerialBytes(ss[1..]) + rest);
      LenGrows(ss[0], ss[0]);
      DecodeSerialsIs(data, |front|, |front| + |SerialBytes(ss)|, ss[0], |e|);
      SerialsBack(front + e, ss[1..], rest);
      assert ss == [ss[0]] + ss[1..];
    }
  }

  lemma SerialsEnd(data: seq<byte>, pos: nat)
    requires pos <= |data|
    ensures DecodeSerials(data, pos, pos) == Ok([])
  {
  }

  lemma DecodeBodiesIs(utf8: Str -> bool, ss: seq<u64>, data: seq<byte>, at: nat, v: Value, n: nat)
    requires ss != [] && at <= |data| && DecodeValue(utf8, ss[0], data[at..]) == Ok((v, n))
    ensures var rest := DecodeBodies(utf8, ss[1..], data, at + n);
            DecodeBodies(utf8, ss, data, at) == if rest.Err? then rest else Ok([v] + rest.value)
  {
    hide DecodeValue;
  }

  lemma {:induction false} BodiesBack(utf8: Str -> bool, front: seq<byte>, vs: seq<Value>)
    requires forall i :: 0 <= i < |vs| ==> SizeOk(vs[i])
    requires forall i :: 0 <= i < |vs| ==> AsStored(vs[i]).Text? ==> utf8(AsStored(vs[i]).s)
    ensures DecodeBodies(utf8, Serials(vs), front + Bodies(vs), |front|) == Ok(AllStored(vs))
    decreases |vs|
  {
    hide DecodeValue, Body, Serial, DecodeBodies;
    var data := front + Bodies(vs);
    if vs == [] {
      BodiesEnd(utf8, data, |front|);
    } else {
      BodiesOne(vs, 0);
      assert vs[0..] == vs;
      assert data == front + Body(vs[0]) + Bodies(vs[1..]);
      assert data[|front|..] == Body(vs[0]) + Bodies(vs[1..]);
      ValueBack(utf8, vs[0], Bodies(vs[1..]));
      DecodeBodiesIs(utf8, Serials(vs), data, |front|, AsStored(vs[0]), |Body(vs[0])|);
      BodiesBack(utf8, front + Body(vs[0]), vs[1..]);
      assert Serials(vs)[1..] == Serials(vs[1..]);
      assert AllStored(vs) == [AsStored(vs[0])] + AllStored(vs[1..]);
    }
  }

  lemma BodiesEnd(utf8: Str -> bool, data: seq<byte>, at: nat)
    ensures DecodeBodies(utf8, [], data, at) == Ok([])
  {
  }

  /** Decoding an encoded row, of any width, gives its values, booleans as integers and JSON as text. */
  lemma RecordRoundTrip(utf8: Str -> bool, vs: seq<Value>)
    requires RowOk(vs) && forall i :: 0 <= i < |vs| ==> AsStored(vs[i]).Text? ==> utf8(AsStored(vs[i]).s)
    ensures DecodeRow(utf8, RecordBytes(vs)) == Ok(AllStored(vs))
  {
    hide Decode, Encode, Len, DecodeSerials, DecodeBodies, SerialBytes, Bodies, HeaderFrom, Serial, AsStored;
    var header := SerialBytes(Serials(vs));
    SerialBytesLength(Serials(vs));
    HeaderLenLeast(|header|, 0);
    var h := HeaderLen(|header|);
    var data := RecordBytes(vs);
    assert data == Encode(h) + (header + Bodies(vs));
    RoundTrip(h, header + Bodies(vs));
    SerialsBack(Encode(h), Serials(vs), Bodies(vs));
    BodiesBack(utf8, Encode(h) + header, vs);
  }

  /** Reads a row: the header length, serial types up to it, then one value per serial type. */
  method DecodeRowBytes(utf8: Str -> bool, data: seq<byte>) returns (r: Result<seq<Value>>)
    ensures r == DecodeRow(utf8, data)
  {
    hide Decode, DecodeValue, DecodeSerials, DecodeBodies;
    DecodeLimits(data);
    var first := Read(data);
    if first == None { return Err(MALFORMED); }
    var headerEnd, pos := first.value.0, first.value.1;
    var serials: seq<u64> := [];
    PrependNone(DecodeSerials(data, pos, headerEnd));
    while pos < headerEnd
      invariant pos <= |data| && DecodeSerials(data, first.value.1, headerEnd) == Prepend(serials, DecodeSerials(data, pos, headerEnd))
      decreases |data| - pos
    {
      var got := Read(data[pos..]);
      DecodeLimits(data[pos..]);
      SerialsTurn(data, pos, headerEnd);
      if got == None {
        return Err(MALFORMED);
      }
      PrependMore(serials, got.value.0, DecodeSerials(data, pos + got.value.1, headerEnd));
      serials := serials + [got.value.0];
      pos := pos + got.value.1;
    }
    SerialsDone(data, pos, headerEnd);
    assert serials + [] == serials;
    var values: seq<Value> := [];
    var body: nat := headerEnd;
    assert serials[0..] == serials;
    PrependNone(DecodeBodies(utf8, serials, data, body));
    for i := 0 to |serials|
      invariant DecodeBodies(utf8, serials, data, headerEnd) == Prepend(values, DecodeBodies(utf8, serials[i..], data, body))
    {
      assert serials[i..][0] == serials[i] && serials[i..][1..] == serials[i + 1..];
      BodiesTurn(utf8, serials[i..], data, body);
      if body > |data| { return Err(Panic); }
      var got := DecodeValue(utf8, serials[i], data[body..]);
      if got.Err? { return Err(got.error); }
      PrependMore(values, got.value.0, DecodeBodies(utf8, serials[i + 1..], data, body + got.value.1));
      values := values + [got.value.0];
      body := body + got.value.1;
    }
    assert serials[|serials|..] == [];
    BodiesEnd(utf8, data, body);
    assert values + [] == values;
    return Ok(values);
  }

  function Prepend<T>(front: seq<T>, rest: Result<seq<T>>): Result<seq<T>> {
    match rest
    case Err(x) => Err(x)
    case Ok(s) => Ok(front + s)
  }

  lemma PrependNone<T>(rest: Result<seq<T>>)
    ensures Prepend([], rest) == rest
  {
    if rest.Ok? {
      assert [] + rest.value == rest.value;
    }
  }

  lemma PrependMore<T>(front: seq<T>, x: T, rest: Result<seq<T>>)
    ensures Prepend(front, Prepend([x], rest)) == Prepend(front + [x], rest)
  {
    if rest.Ok? {
      assert front + ([x] + rest.value) == front + [x] + rest.value;
    }
  }

  lemma SerialsTurn(data: seq<byte>, pos: nat, end: nat)
    requires pos <= |data| && pos < end
    ensures var got := Decode(data[pos..]);
            && (got.None? ==> DecodeSerials(data, pos, end) == Err(MALFORMED))
            && (got.Some? ==>
                  && got.value.0 < TWO_64 && 0 < got.value.1 <= |data| - pos
                  && DecodeSerials(data, pos, end) == Prepend([got.value.0], DecodeSerials(data, pos + got.value.1, end)))
  {
    hide Decode;
    DecodeLimits(data[pos..]);
  }

  lemma SerialsDone(data: seq<byte>, pos: nat, end: nat)
    requires end <= pos <= |data|
    ensures DecodeSerials(data, pos, end) == Ok([])
  {
  }

  lemma BodiesTurn(utf8: Str -> bool, ss: seq<u64>, data: seq<byte>, at: nat)
    requires ss != []
    ensures at > |data| ==> DecodeBodies(utf8, ss, data, at) == Err(Panic)
    ensures at <= |data| && DecodeValue(utf8, ss[0], data[at..]).Err? ==>
              DecodeBodies(utf8, ss, data, at) == Err(DecodeValue(utf8, ss[0], data[at..]).error)
    ensures at <= |data| && DecodeValue(utf8, ss[0], data[at..]).Ok? ==>
              var got := DecodeValue(utf8, ss[0], data[at..]).value;
              DecodeBodies(utf8, ss, data, at) == Prepend([got.0], DecodeBodies(utf8, ss[1..], data, at + got.1))
  {
    hide DecodeValue;
  }
}
