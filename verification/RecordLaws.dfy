/** Records byte by byte (SQLite Database File Format, section 2.1): what serial types and bodies stand for. */
module RecordLaws {
  import opened Common
  import opened Varint
  import opened Values
  import opened Records

  /** The number of a byte string, the most significant byte first. */
  function BigEndian(s: seq<byte>): nat {
    if s == [] then 0 else 256 * BigEndian(s[..|s| - 1]) + s[|s| - 1]
  }

  /** The same read as two's complement. */
  function TwosComplement(s: seq<byte>): int
    requires s != []
  {
    BigEndian(s) - if s[0] >= 128 then Pow256(|s|) else 0
  }

  /** The bytes of an integer of serial type 1 to 6. */
  predicate IntWidth(serial: nat, n: nat) {
    || (serial == 1 && n == 1) || (serial == 2 && n == 2) || (serial == 3 && n == 3) || (serial == 4 && n == 4)
    || (serial == 5 && n == 6) || (serial == 6 && n == 8)
  }

  /** The value that a serial type and its body stand for. */
  predicate StandsFor(serial: nat, body: seq<byte>, v: Value) {
    match v
    case Null => serial == 0 && body == []
    case Integer(i) =>
      || (serial == 8 && i == 0 && body == []) || (serial == 9 && i == 1 && body == [])
      || (IntWidth(serial, |body|) && i == TwosComplement(body))
    case Real(r) => serial == 7 && |body| == 8 && r == BigEndian(body)
    case Blob(b) => serial == 2 * |b| + 12 && body == b
    case Text(s) => serial == 2 * |s| + 13 && body == s
    case _ => false
  }

  /** Booleans are stored as 0 and 1, JSON as its text, and the other values as they are. */
  lemma StoredMeaning(v: Value)
    ensures v == Boolean(false) ==> AsStored(v) == Integer(0)
    ensures v == Boolean(true) ==> AsStored(v) == Integer(1)
    ensures v.Json? ==> AsStored(v) == Text(v.json)
    ensures !v.Boolean? && !v.Json? ==> AsStored(v) == v
  {
  }

  lemma {:induction false} AccumulateIs(v: int, s: seq<byte>)
    ensures Accumulate(v, s) == v * Pow256(|s|) + BigEndian(s)
  {
    if s != [] {
      AccumulateIs(v, s[..|s| - 1]);
      Scale(v, Pow256(|s| - 1));
    }
  }

  lemma ReadIntMeaning(data: seq<byte>, n: nat)
    requires n in {1, 2, 3, 4, 6, 8}
    ensures ReadInt(data, n).Err? <==> |data| < n
    ensures |data| >= n ==> ReadInt(data, n) == Ok(TwosComplement(data[..n]))
  {
    hide Accumulate, Pow256, BigEndian;
    if |data| >= n {
      AccumulateFits(data[..n]);
      AccumulateIs(if data[0] >= 128 then -1 else 0, data[..n]);
    }
  }

  /** What is decoded stands for the value; decoding fails exactly for the reserved types 10 and 11, for bytes that are
      not there, and for text that is not UTF-8. */
  lemma DecodedStands(utf8: Str -> bool, serial: u64, data: seq<byte>)
    ensures DecodeValue(utf8, serial, data).Ok? ==>
              var (v, n) := DecodeValue(utf8, serial, data).value;
              n <= |data| && StandsFor(serial, data[..n], v)
    ensures DecodeValue(utf8, serial, data).Err? <==>
            || serial == 10 || serial == 11
            || (exists n: nat :: IntWidth(serial, n) && |data| < n) || (serial == 7 && |data| < 8)
            || (serial >= 12 && serial % 2 == 0 && |data| < (serial - 12) / 2)
            || (serial >= 13 && serial % 2 == 1 && (|data| < (serial - 13) / 2 || !utf8(data[..(serial - 13) / 2])))
  {
    hide Accumulate, Pow256, BigEndian, ReadInt, TwosComplement;
    if 1 <= serial <= 6 {
      var n := if serial == 5 then 6 else if serial == 6 then 8 else serial;
      assert IntWidth(serial, n);
      ReadIntMeaning(data, n);
    } else if serial == 7 && |data| >= 8 {
      AccumulateIs(0, data[..8]);
    }
  }

  /** What is encoded stands for the value as it is stored. */
  lemma EncodedStands(v: Value)
    requires SizeOk(v)
    ensures StandsFor(Serial(v), Body(v), AsStored(v))
  {
    hide ReadInt, BeBytes, IntBytes, Accumulate, Pow256, BigEndian, TwosComplement, Width;
    var w := AsStored(v);
    if w.Integer? && w.i != 0 && w.i != 1 {
      IntBack(w.i, []);
      IntLength(w.i);
      var s := IntBytes(w.i, Width(w.i));
      assert s + [] == s && s[..|s|] == s;
      ReadIntMeaning(s, Width(w.i));
    } else if w.Real? {
      RealBack(w.r, []);
      var s := BeBytes(w.r, 8);
      assert s + [] == s && s[..8] == s;
      AccumulateIs(0, s);
    }
  }

  /** An integer takes as few bytes as can hold it, and 0 and 1 take none. */
  lemma Narrowest(i: i64)
    ensures i == 0 || i == 1 <==> Body(Integer(i)) == []
    ensures |Body(Integer(i))| > 1 ==> !(-0x80 <= i < 0x80)
    ensures |Body(Integer(i))| > 2 ==> !(-0x8000 <= i < 0x8000)
    ensures |Body(Integer(i))| > 3 ==> !(-0x80_0000 <= i < 0x80_0000)
    ensures |Body(Integer(i))| > 4 ==> !(-0x8000_0000 <= i < 0x8000_0000)
    ensures |Body(Integer(i))| > 6 ==> !(-0x8000_0000_0000 <= i < 0x8000_0000_0000)
  {
    hide Pow256, BeBytes, IntBytes;
    IntLength(i);
  }

  /** A varint of value s lies between two places. */
  predicate TypeAt(data: seq<byte>, from: nat, to: nat, s: nat) {
    from < to <= |data| && Decode(data[from..]) == Some((s, to - from))
  }

  predicate BodyAt(data: seq<byte>, from: nat, to: nat, body: seq<byte>) {
    from <= to <= |data| && data[from..to] == body
  }

  /** A serial type between two places, and a body between two others, stand for the value as it is stored. */
  predicate Lies(data: seq<byte>, v: Value, type0: nat, type1: nat, body0: nat, body1: nat) {
    && type0 < type1 <= |data| && body0 <= body1 <= |data| && Decode(data[type0..]).Some?
    && Decode(data[type0..]).value.1 == type1 - type0
    && StandsFor(Decode(data[type0..]).value.0, data[body0..body1], AsStored(v))
  }

  lemma LiesIs(data: seq<byte>, v: Value, type0: nat, type1: nat, body0: nat, body1: nat)
    requires SizeOk(v) && TypeAt(data, type0, type1, Serial(v)) && BodyAt(data, body0, body1, Body(v))
    ensures Lies(data, v, type0, type1, body0, body1)
  {
    hide StandsFor, Serial, Body, AsStored, Decode;
    EncodedStands(v);
  }

  /** A record's bytes: its header length, then the serial type of each value, up to that length, then each value's
      body, all in the order of the values. */
  lemma RecordNumbers(vs: seq<Value>) returns (types: seq<nat>, bodies: seq<nat>)
    requires RowOk(vs)
    ensures |types| == |bodies| == |vs| + 1
    ensures var data := RecordBytes(vs);
            && Decode(data) == Some((types[|vs|], types[0])) && types[|vs|] == bodies[0] && bodies[|vs|] == |data|
            && forall i :: 0 <= i < |vs| ==> Lies(data, vs[i], types[i], types[i + 1], bodies[i], bodies[i + 1])
  {
    hide Decode, Encode, Len, SerialBytes, Bodies, HeaderFrom, Serial, AsStored, Lies, TypeAt, BodyAt;
    var header := SerialBytes(Serials(vs));
    SerialBytesLength(Serials(vs));
    HeaderLenLeast(|header|, 0);
    var h, data := HeaderLen(|header|), RecordBytes(vs);
    assert data == Encode(h) + (header + Bodies(vs));
    RoundTrip(h, header + Bodies(vs));
    types := SerialCuts(Encode(h), Serials(vs), Bodies(vs));
    bodies := BodyCuts(Encode(h) + header, vs);
    forall i | 0 <= i < |vs|
      ensures Lies(data, vs[i], types[i], types[i + 1], bodies[i], bodies[i + 1])
    {
      assert Serials(vs)[i] == Serial(vs[i]);
      LiesIs(data, vs[i], types[i], types[i + 1], bodies[i], bodies[i + 1]);
    }
  }

  lemma {:induction false} SerialCuts(front: seq<byte>, ss: seq<u64>, rest: seq<byte>) returns (cuts: seq<nat>)
    ensures |cuts| == |ss| + 1 && cuts[0] == |front| && cuts[|ss|] == |front| + |SerialBytes(ss)|
    ensures forall i :: 0 <= i < |ss| ==> TypeAt(front + SerialBytes(ss) + rest, cuts[i], cuts[i + 1], ss[i])
    decreases |ss|
  {
    hide TypeAt, Encode, Len, SerialBytes;
    NoBytes();
    cuts := [|front|];
    if ss != [] {
      SerialBytesOne(ss, 0);
      assert ss[0..] == ss;
      var data, next := front + SerialBytes(ss) + rest, SerialBytes(ss[1..]);
      var later := SerialCuts(front + Encode(ss[0]), ss[1..], rest);
      Grouped(front, Encode(ss[0]), next, rest);
      FirstType(front, ss[0], next + rest);
      cuts := cuts + later;
      forall i | 0 <= i < |ss|
        ensures TypeAt(data, cuts[i], cuts[i + 1], ss[i])
      {
        assert i > 0 ==> ss[i] == ss[1..][i - 1] && cuts[i] == later[i - 1] && cuts[i + 1] == later[i];
      }
    }
  }

  lemma Grouped(a: seq<byte>, b: seq<byte>, c: seq<byte>, d: seq<byte>)
    ensures a + (b + c) + d == a + b + c + d == a + b + (c + d)
  {
  }

  lemma FirstType(front: seq<byte>, s: u64, rest: seq<byte>)
    ensures TypeAt(front + Encode(s) + rest, |front|, |front| + |Encode(s)|, s)
  {
    hide Decode, Encode, Len;
    var data := front + Encode(s) + rest;
    assert data[|front|..] == Encode(s) + rest;
    RoundTrip(s, rest);
    LenGrows(s, s);
  }

  lemma {:induction false} BodyCuts(front: seq<byte>, vs: seq<Value>) returns (cuts: seq<nat>)
    ensures |cuts| == |vs| + 1 && cuts[0] == |front| && cuts[|vs|] == |front + Bodies(vs)|
    ensures forall i :: 0 <= i < |vs| ==> BodyAt(front + Bodies(vs), cuts[i], cuts[i + 1], Body(vs[i]))
    decreases |vs|
  {
    hide Body;
    cuts := [|front|];
    if vs != [] {
      var b := Body(vs[0]);
      var data := front + Bodies(vs);
      assert data == front + b + Bodies(vs[1..]);
      var later := BodyCuts(front + b, vs[1..]);
      cuts := cuts + later;
      forall i | 0 <= i < |vs|
        ensures BodyAt(data, cuts[i], cuts[i + 1], Body(vs[i]))
      {
        assert i > 0 ==> vs[i] == vs[1..][i - 1] && cuts[i] == later[i - 1] && cuts[i + 1] == later[i];
      }
    }
  }
}
