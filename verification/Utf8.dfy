// The UTF-8 recogniser of the value printer, against the encoding of RFC 3629.

module Utf8 {

  type Byte = b: int | 0 <= b < 256

  /** Unicode scalar values: all code points but the surrogates. */
  predicate IsScalar(c: int) {
    0 <= c <= 0xD7FF || 0xE000 <= c <= 0x10FFFF
  }

  /** The low six bits, and the bits above them. */
  function Low(c: int): (r: int) ensures 0 <= r < 0x40 { c % 0x40 }

  function High(c: int): int { c / 0x40 }

  /** Six more bits below `hi`. */
  function Join(hi: int, lo: int): int { hi * 0x40 + lo }

  lemma JoinSplits(hi: int, lo: int)
    requires 0 <= lo < 0x40
    ensures High(Join(hi, lo)) == hi && Low(Join(hi, lo)) == lo
  {
  }

  /** The encoding of one scalar value: RFC 3629, section 3. */
  function Encode(c: int): (s: seq<Byte>)
    requires IsScalar(c)
    ensures 1 <= |s| <= 4
  {
    if c < 0x80 then [c]
    else if c < 0x800 then [0xC0 + High(c), 0x80 + Low(c)]
    else if c < 0x10000 then [0xE0 + High(High(c)), 0x80 + Low(High(c)), 0x80 + Low(c)]
    else [0xF0 + High(High(High(c))), 0x80 + Low(High(High(c))), 0x80 + Low(High(c)), 0x80 + Low(c)]
  }

  /** Some of the examples in section 7 of RFC 3629. */
  lemma ExamplesOfTheStandard()
    ensures Encode(0x41) == [0x41] && Encode(0x391) == [0xCE, 0x91] && Encode(0x2262) == [0xE2, 0x89, 0xA2]
    ensures Encode(0xD55C) == [0xED, 0x95, 0x9C] && Encode(0x233B4) == [0xF0, 0xA3, 0x8E, 0xB4]
  {
  }

  predicate AllScalars(cs: seq<int>) {
    forall i :: 0 <= i < |cs| ==> IsScalar(cs[i])
  }

  function EncodeAll(cs: seq<int>): seq<Byte>
    requires AllScalars(cs)
  {
    if cs == [] then [] else Encode(cs[0]) + EncodeAll(cs[1..])
  }

  ghost predicate Encodes(cs: seq<int>, s: seq<Byte>) {
    AllScalars(cs) && EncodeAll(cs) == s
  }

  ghost predicate WellFormed(s: seq<Byte>) {
    exists cs :: Encodes(cs, s)
  }

  predicate IsUTF8TrailByte(t: Byte) { 0x80 <= t <= 0xBF }

  /** How many bytes one turn of the recogniser consumes at the front of `s`; 0 when it rejects. */
  function CharLength(s: seq<Byte>): (n: nat)
    requires s != []
    ensures n <= |s|
  {
    var lead := s[0];
    if lead <= 0x7F then 1
    else if lead < 0xC2 then 0
    else if lead <= 0xDF && 2 <= |s| && IsUTF8TrailByte(s[1]) then 2
    else if 0xE0 <= lead <= 0xEF && 3 <= |s| && IsUTF8TrailByte(s[1]) && IsUTF8TrailByte(s[2])
            && (lead != 0xE0 || s[1] >= 0xA0) && (lead != 0xED || s[1] < 0xA0) then 3
    else if 0xF0 <= lead <= 0xF4 && 4 <= |s|
            && IsUTF8TrailByte(s[1]) && IsUTF8TrailByte(s[2]) && IsUTF8TrailByte(s[3])
            && (lead != 0xF0 || s[1] >= 0x90) && (lead != 0xF4 || s[1] < 0x90) then 4
    else 0
  }

  /** The scalar value at the front of `s`. */
  function Decode(s: seq<Byte>): int
    requires s != [] && CharLength(s) > 0
  {
    var n := CharLength(s);
    if n == 1 then s[0]
    else if n == 2 then Join(s[0] as int - 0xC0, s[1] as int - 0x80)
    else if n == 3 then Join(Join(s[0] as int - 0xE0, s[1] as int - 0x80), s[2] as int - 0x80)
    else Join(Join(Join(s[0] as int - 0xF0, s[1] as int - 0x80), s[2] as int - 0x80), s[3] as int - 0x80)
  }

  /** Whatever a turn consumes is the encoding of a scalar value. */
  lemma ConsumedIsEncoding(s: seq<Byte>)
    requires s != [] && CharLength(s) > 0
    ensures IsScalar(Decode(s)) && Encode(Decode(s)) == s[..CharLength(s)]
  {
    match CharLength(s)
    case 1 =>
    case 2 => ConsumedTwo(s);
    case 3 => ConsumedThree(s);
    case _ => ConsumedFour(s);
  }

  lemma ConsumedTwo(s: seq<Byte>)
    requires s != [] && CharLength(s) == 2
    ensures 0x80 <= Decode(s) < 0x800 && Encode(Decode(s)) == s[..2]
  {
    JoinSplits(s[0] as int - 0xC0, s[1] as int - 0x80);
  }

  predicate Trail(t: int) { 0x80 <= t <= 0xBF }

  lemma ConsumedThree(s: seq<Byte>)
    requires s != [] && CharLength(s) == 3
    ensures 0x800 <= Decode(s) < 0x10000 && IsScalar(Decode(s)) && Encode(Decode(s)) == s[..3]
  {
    JoinedThree(s[0], s[1], s[2]);
    assert s[..3] == [s[0], s[1], s[2]];
  }

  /** Three bytes that pass the checks, as numbers. */
  lemma JoinedThree(a: int, b: int, c: int)
    requires 0xE0 <= a <= 0xEF && Trail(b) && Trail(c) && (a != 0xE0 || b >= 0xA0) && (a != 0xED || b < 0xA0)
    ensures var hi := Join(a - 0xE0, b - 0x80); var v := Join(hi, c - 0x80);
            && 0x800 <= v < 0x10000 && IsScalar(v)
            && High(v) == hi && Low(v) == c - 0x80 && High(hi) == a - 0xE0 && Low(hi) == b - 0x80
  {
    JoinSplits(a - 0xE0, b - 0x80);
    JoinSplits(Join(a - 0xE0, b - 0x80), c - 0x80);
  }

  lemma ConsumedFour(s: seq<Byte>)
    requires s != [] && CharLength(s) == 4
    ensures 0x10000 <= Decode(s) <= 0x10FFFF && Encode(Decode(s)) == s[..4]
  {
    var top := Join(s[0] as int - 0xF0, s[1] as int - 0x80);
    var hi := Join(top, s[2] as int - 0x80);
    JoinedFour(s[0], s[1], s[2], s[3]);
    assert Decode(s) == Join(hi, s[3] as int - 0x80);
    EncodingFromParts(Decode(s), hi, top, s[0], s[1], s[2], s[3]);
    assert s[..4] == [s[0], s[1], s[2], s[3]];
  }

  lemma EncodingFromParts(v: int, hi: int, top: int, a: Byte, b: Byte, c: Byte, d: Byte)
    requires 0x10000 <= v <= 0x10FFFF
    requires High(v) == hi && High(hi) == top && High(top) == a - 0xF0
    requires Low(v) == d - 0x80 && Low(hi) == c - 0x80 && Low(top) == b - 0x80
    ensures Encode(v) == [a, b, c, d]
  {
  }

  lemma JoinedFour(a: int, b: int, c: int, d: int)
    requires 0xF0 <= a <= 0xF4 && Trail(b) && Trail(c) && Trail(d) && (a != 0xF0 || b >= 0x90) && (a != 0xF4 || b < 0x90)
    ensures var top := Join(a - 0xF0, b - 0x80); var hi := Join(top, c - 0x80); var v := Join(hi, d - 0x80);
            && 0x10000 <= v <= 0x10FFFF
            && High(v) == hi && Low(v) == d - 0x80 && High(hi) == top && Low(hi) == c - 0x80
            && High(top) == a - 0xF0 && Low(top) == b - 0x80
  {
    var top := Join(a - 0xF0, b - 0x80);
    JoinSplits(a - 0xF0, b - 0x80);
    JoinSplits(top, c - 0x80);
    JoinSplits(Join(top, c - 0x80), d - 0x80);
  }

  lemma SplitJoins(c: int)
    ensures c == Join(High(c), Low(c))
  {
  }

  /** The encoding of a scalar value is consumed, whole and alone, whatever follows it. */
  lemma EncodingIsConsumed(c: int, rest: seq<Byte>)
    requires IsScalar(c)
    ensures CharLength(Encode(c) + rest) == |Encode(c)|
    ensures Decode(Encode(c) + rest) == c
  {
    if 0x80 <= c < 0x800 {
      SplitJoins(c);
    } else if 0x800 <= c < 0x10000 {
      EncodingOfThree(c, rest);
    } else if 0x10000 <= c {
      EncodingOfFour(c, rest);
    }
  }

  lemma EncodingOfThree(c: int, rest: seq<Byte>)
    requires IsScalar(c) && 0x800 <= c < 0x10000
    ensures CharLength(Encode(c) + rest) == 3 && Decode(Encode(c) + rest) == c
  {
    SplitJoins(c);
    SplitJoins(High(c));
    var s := Encode(c) + rest;
    assert s[0] == 0xE0 + High(High(c)) && s[1] == 0x80 + Low(High(c)) && s[2] == 0x80 + Low(c);
  }

  lemma EncodingOfFour(c: int, rest: seq<Byte>)
    requires IsScalar(c) && 0x10000 <= c
    ensures CharLength(Encode(c) + rest) == 4 && Decode(Encode(c) + rest) == c
  {
    SplitJoins(c);
    SplitJoins(High(c));
    SplitJoins(High(High(c)));
    var s := Encode(c) + rest;
    assert s[0] == 0xF0 + High(High(High(c))) && s[1] == 0x80 + Low(High(High(c)));
    assert s[2] == 0x80 + Low(High(c)) && s[3] == 0x80 + Low(c);
  }

  /** Well-formed texts are those whose first turn succeeds and leaves a well-formed text. */
  lemma FirstTurn(s: seq<Byte>)
    requires s != []
    ensures WellFormed(s) <==> CharLength(s) > 0 && WellFormed(s[CharLength(s)..])
  {
    if CharLength(s) > 0 && WellFormed(s[CharLength(s)..]) {
      var n := CharLength(s);
      var cs :| Encodes(cs, s[n..]);
      ConsumedIsEncoding(s);
      var all := [Decode(s)] + cs;
      assert all[1..] == cs;
      assert s == s[..n] + s[n..];
      assert Encodes(all, s);
    }
    if WellFormed(s) {
      var cs :| Encodes(cs, s);
      EncodingIsConsumed(cs[0], EncodeAll(cs[1..]));
      assert s[CharLength(s)..] == EncodeAll(cs[1..]);
      assert Encodes(cs[1..], s[CharLength(s)..]);
    }
  }

  lemma EmptyIsWellFormed()
    ensures WellFormed([])
  {
    assert Encodes([], []);
  }

  /** No text encodes two sequences of scalar values. */
  lemma {:induction false} EncodingIsUnique(cs: seq<int>, ds: seq<int>)
    requires AllScalars(cs) && AllScalars(ds) && EncodeAll(cs) == EncodeAll(ds)
    ensures cs == ds
  {
    if cs != [] && ds != [] {
      EncodingIsConsumed(cs[0], EncodeAll(cs[1..]));
      EncodingIsConsumed(ds[0], EncodeAll(ds[1..]));
      var n := |Encode(cs[0])|;
      assert EncodeAll(cs)[n..] == EncodeAll(cs[1..]);
      assert EncodeAll(ds)[n..] == EncodeAll(ds[1..]);
      EncodingIsUnique(cs[1..], ds[1..]);
      assert cs == [cs[0]] + cs[1..] && ds == [ds[0]] + ds[1..];
    }
  }

  method IsValidUTF8(str: seq<Byte>) returns (valid: bool)
    ensures valid <==> WellFormed(str)
  {
    var length := |str|;
    var i := 0;
    EmptyIsWellFormed();
    while i < length
      invariant 0 <= i <= length
      invariant WellFormed(str) <==> WellFormed(str[i..])
    {
      ghost var s := str[i..];
      FirstTurn(s);
      var lead := str[i];
      i := i + 1;
      if lead <= 0x7F {
        assert s[1..] == str[i..];
        continue;
      }
      if lead < 0xC2 {
        return false;
      } else if lead <= 0xDF && i + 1 <= length && IsUTF8TrailByte(str[i]) {
        i := i + 1;
        assert s[2..] == str[i..];
      } else if 0xE0 <= lead <= 0xEF && i + 2 <= length
                && IsUTF8TrailByte(str[i]) && IsUTF8TrailByte(str[i + 1])
                && (lead != 0xE0 || str[i] >= 0xA0) && (lead != 0xED || str[i] < 0xA0) {
        i := i + 2;
        assert s[3..] == str[i..];
      } else if 0xF0 <= lead <= 0xF4 && i + 3 <= length
                && IsUTF8TrailByte(str[i]) && IsUTF8TrailByte(str[i + 1]) && IsUTF8TrailByte(str[i + 2])
                && (lead != 0xF0 || str[i] >= 0x90) && (lead != 0xF4 || str[i] < 0x90) {
        i := i + 3;
        assert s[4..] == str[i..];
      } else {
        return false;
      }
    }
    assert str[i..] == [];
    return true;
  }
}
