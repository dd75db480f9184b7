/** The byte-wise check accepts exactly the encodings of Unicode scalar values (RFC 3629, section 3). */
module Utf8Theorems {
  import opened Common
  import opened Utf8

  /** A code point that is not a surrogate. */
  predicate Scalar(c: nat) {
    c < 0xD800 || 0xE000 <= c < 0x11_0000
  }

  function Encode(c: nat): (bytes: Bytes)
    requires Scalar(c)
    ensures bytes != []
  {
    if c < 0x80 then [c]
    else if c < 0x800 then [0xC0 + c / 0x40, 0x80 + c % 0x40]
    else if c < 0x1_0000 then [0xE0 + c / 0x1000, 0x80 + c / 0x40 % 0x40, 0x80 + c % 0x40]
    else [0xF0 + c / 0x4_0000, 0x80 + c / 0x1000 % 0x40, 0x80 + c / 0x40 % 0x40, 0x80 + c % 0x40]
  }

  predicate Scalars(cs: seq<nat>) {
    forall i :: 0 <= i < |cs| ==> Scalar(cs[i])
  }

  function EncodeAll(cs: seq<nat>): Bytes
    requires Scalars(cs)
  {
    if cs == [] then [] else Encode(cs[0]) + EncodeAll(cs[1..])
  }

  /** The code point at the head of a checked string. */
  function HeadScalar(s: Bytes): nat
    requires HeadLength(s) > 0
  {
    var b: seq<int> := s[..HeadLength(s)];
    if |b| == 1 then b[0]
    else if |b| == 2 then (b[0] - 0xC0) * 0x40 + (b[1] - 0x80)
    else if |b| == 3 then (b[0] - 0xE0) * 0x1000 + (b[1] - 0x80) * 0x40 + (b[2] - 0x80)
    else (b[0] - 0xF0) * 0x4_0000 + (b[1] - 0x80) * 0x1000 + (b[2] - 0x80) * 0x40 + (b[3] - 0x80)
  }

  lemma One(a: Byte)
    requires a <= 0x7F
    ensures Scalar(a) && Encode(a) == [a]
  {
  }

  lemma Two(a: Byte, b: Byte)
    requires 0xC2 <= a <= 0xDF && Tail(b)
    ensures var x: int, y: int := a, b;
            var c := (x - 0xC0) * 0x40 + (y - 0x80);
            c >= 0 && Scalar(c) && Encode(c) == [a, b]
  {
  }

  lemma Three(a: Byte, b: Byte, c: Byte)
    requires 0xE0 <= a <= 0xEF && Tail(b) && Tail(c) && (a == 0xE0 ==> b >= 0xA0) && (a == 0xED ==> b <= 0x9F)
    ensures var x: int, y: int, z: int := a, b, c;
            var d := (x - 0xE0) * 0x1000 + (y - 0x80) * 0x40 + (z - 0x80);
            d >= 0 && Scalar(d) && Encode(d) == [a, b, c]
  {
    var x: int, y: int, z: int := a, b, c;
    var d := (x - 0xE0) * 0x1000 + (y - 0x80) * 0x40 + (z - 0x80);
    assert d / 0x40 == (x - 0xE0) * 0x40 + (y - 0x80) && d % 0x40 == z - 0x80;
    assert d / 0x1000 == x - 0xE0;
  }

  lemma Four(a: Byte, b: Byte, c: Byte, d: Byte)
    requires 0xF0 <= a <= 0xF4 && Tail(b) && Tail(c) && Tail(d)
    requires (a == 0xF0 ==> b >= 0x90) && (a == 0xF4 ==> b <= 0x8F)
    ensures var x: int, y: int, z: int, u: int := a, b, c, d;
            var e := (x - 0xF0) * 0x4_0000 + (y - 0x80) * 0x1000 + (z - 0x80) * 0x40 + (u - 0x80);
            e >= 0 && Scalar(e) && Encode(e) == [a, b, c, d]
  {
    var x: int, y: int, z: int, u: int := a, b, c, d;
    var e := (x - 0xF0) * 0x4_0000 + (y - 0x80) * 0x1000 + (z - 0x80) * 0x40 + (u - 0x80);
    assert e / 0x40 == (x - 0xF0) * 0x1000 + (y - 0x80) * 0x40 + (z - 0x80) && e % 0x40 == u - 0x80;
    assert e / 0x1000 == (x - 0xF0) * 0x40 + (y - 0x80);
    assert e / 0x4_0000 == x - 0xF0;
  }

  lemma HeadIsEncoded(s: Bytes)
    requires HeadLength(s) > 0
    ensures Scalar(HeadScalar(s)) && Encode(HeadScalar(s)) == s[..HeadLength(s)]
  {
    hide Encode, Scalar;
    var n := HeadLength(s);
    if n == 1 {
      assert s[..1] == [s[0]];
      One(s[0]);
    } else if n == 2 {
      assert s[..2] == [s[0], s[1]];
      Two(s[0], s[1]);
    } else if n == 3 {
      assert s[..3] == [s[0], s[1], s[2]];
      Three(s[0], s[1], s[2]);
    } else {
      assert s[..4] == [s[0], s[1], s[2], s[3]];
      Four(s[0], s[1], s[2], s[3]);
    }
  }

  lemma EncodedIsHead(c: nat, rest: Bytes)
    requires Scalar(c)
    ensures HeadLength(Encode(c) + rest) == |Encode(c)|
  {
    if c < 0x80 {
      assert (Encode(c) + rest)[0] == c;
    } else if c < 0x800 {
      HeadOfTwo(c, rest);
    } else if c < 0x1_0000 {
      HeadOfThree(c, rest);
    } else {
      HeadOfFour(c, rest);
    }
  }

  lemma HeadOfTwo(c: nat, rest: Bytes)
    requires 0x80 <= c < 0x800
    ensures HeadLength([0xC0 + c / 0x40, 0x80 + c % 0x40] + rest) == 2
  {
    var s: Bytes := [0xC0 + c / 0x40, 0x80 + c % 0x40] + rest;
    assert s[0] == 0xC0 + c / 0x40 && s[1] == 0x80 + c % 0x40;
  }

  lemma HeadOfThree(c: nat, rest: Bytes)
    requires 0x800 <= c < 0x1_0000 && Scalar(c)
    ensures HeadLength([0xE0 + c / 0x1000, 0x80 + c / 0x40 % 0x40, 0x80 + c % 0x40] + rest) == 3
  {
    var s: Bytes := [0xE0 + c / 0x1000, 0x80 + c / 0x40 % 0x40, 0x80 + c % 0x40] + rest;
    assert s[0] == 0xE0 + c / 0x1000 && s[1] == 0x80 + c / 0x40 % 0x40 && s[2] == 0x80 + c % 0x40;
    assert c / 0x40 == c / 0x1000 * 0x40 + c / 0x40 % 0x40;
  }

  lemma HeadOfFour(c: nat, rest: Bytes)
    requires 0x1_0000 <= c < 0x11_0000
    ensures HeadLength([0xF0 + c / 0x4_0000, 0x80 + c / 0x1000 % 0x40, 0x80 + c / 0x40 % 0x40, 0x80 + c % 0x40] + rest)
         == 4
  {
    var s: Bytes := [0xF0 + c / 0x4_0000, 0x80 + c / 0x1000 % 0x40, 0x80 + c / 0x40 % 0x40, 0x80 + c % 0x40] + rest;
    assert s[0] == 0xF0 + c / 0x4_0000 && s[1] == 0x80 + c / 0x1000 % 0x40;
    assert s[2] == 0x80 + c / 0x40 % 0x40 && s[3] == 0x80 + c % 0x40;
    assert c / 0x1000 == c / 0x4_0000 * 0x40 + c / 0x1000 % 0x40;
  }

  lemma {:induction false} ValidIsEncoded(s: Bytes) returns (cs: seq<nat>)
    requires Valid(s)
    ensures Scalars(cs) && EncodeAll(cs) == s
    decreases |s|
  {
    hide HeadLength, HeadScalar, Encode, Scalar;
    if s == [] {
      cs := [];
    } else {
      var n := HeadLength(s);
      HeadIsEncoded(s);
      var rest := ValidIsEncoded(s[n..]);
      cs := [HeadScalar(s)] + rest;
      assert cs[1..] == rest && s == s[..n] + s[n..];
    }
  }

  lemma {:induction false} EncodedIsValid(cs: seq<nat>)
    requires Scalars(cs)
    ensures Valid(EncodeAll(cs))
  {
    hide HeadLength, Encode, Scalar;
    if cs == [] {
    } else {
      var s := EncodeAll(cs);
      EncodedIsValid(cs[1..]);
      EncodedIsHead(cs[0], EncodeAll(cs[1..]));
      assert s[|Encode(cs[0])|..] == EncodeAll(cs[1..]);
    }
  }

  /** Both directions. */
  lemma ValidIff(s: Bytes)
    ensures Valid(s) <==> exists cs: seq<nat> :: Scalars(cs) && EncodeAll(cs) == s
  {
    hide Valid, EncodeAll, Scalar;
    if Valid(s) {
      var cs := ValidIsEncoded(s);
    }
    if cs: seq<nat> :| Scalars(cs) && EncodeAll(cs) == s {
      EncodedIsValid(cs);
    }
  }
}
