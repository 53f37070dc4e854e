/** What the argument parser takes for text: exactly the UTF-8 encodings of Unicode scalar values, as table 3-6 of the
    Unicode Standard spells them. */
module Utf8 {
  import opened Basics
  import opened PtrVec

  /** A code point that is not a surrogate. */
  predicate Scalar(c: nat) {
    c < 0xD800 || 0xE000 <= c < 0x11_0000
  }

  function Encode(c: nat): Bytes
    requires Scalar(c)
  {
    if c < 0x80 then [c]
    else if c < 0x800 then [0xC0 + c / 64, 0x80 + c % 64]
    else if c < 0x1_0000 then [0xE0 + c / 4096, 0x80 + c / 64 % 64, 0x80 + c % 64]
    else [0xF0 + c / 0x40000, 0x80 + c / 4096 % 64, 0x80 + c / 64 % 64, 0x80 + c % 64]
  }

  ghost predicate Scalars(cs: seq<nat>) {
    forall c | c in cs :: Scalar(c)
  }

  ghost function EncodeAll(cs: seq<nat>): Bytes
    requires Scalars(cs)
  {
    if cs == [] then [] else Encode(cs[0]) + EncodeAll(cs[1..])
  }

  /** The parser steps over one whole encoding. */
  lemma StepsOver(c: nat, rest: Bytes)
    requires Scalar(c)
    ensures FirstScalar(Encode(c) + rest) == |Encode(c)| > 0
  {
    var s := Encode(c) + rest;
    assert s[..|Encode(c)|] == Encode(c);
    if 0x800 <= c < 0x1_0000 {
      ThreeBytes(c);
    } else if c >= 0x1_0000 {
      FourBytes(c);
    }
  }

  lemma ThreeBytes(c: nat)
    requires Scalar(c) && 0x800 <= c < 0x1_0000
    ensures c / 4096 == 0 ==> c / 64 % 64 >= 0x20
    ensures c / 4096 == 0xD ==> c / 64 % 64 < 0x20
    ensures c / 4096 < 16
  {
  }

  lemma FourBytes(c: nat)
    requires 0x1_0000 <= c < 0x11_0000
    ensures c / 0x40000 <= 4
    ensures c / 0x40000 == 0 ==> c / 4096 % 64 >= 0x10
    ensures c / 0x40000 == 4 ==> c / 4096 % 64 < 0x10
  {
  }

  /** What the parser steps over is an encoding. */
  lemma StepsOverEncoding(s: Bytes) returns (c: nat)
    requires s != [] && FirstScalar(s) > 0
    ensures Scalar(c) && Encode(c) == s[..FirstScalar(s)]
  {
    var n := FirstScalar(s);
    if n <= 2 {
      c := if n == 1 then s[0] else TwoDigits(s[0] - 0xC0, s[1] - 0x80);
    } else if n == 3 {
      c := OfThree(s);
    } else {
      c := OfFour(s);
    }
  }

  function TwoDigits(x: nat, y: nat): nat {
    x * 64 + y
  }

  lemma OfThree(s: Bytes) returns (c: nat)
    requires s != [] && FirstScalar(s) == 3
    ensures Scalar(c) && Encode(c) == s[..3]
  {
    var x: nat, y: nat, z: nat := s[0] - 0xE0, s[1] - 0x80, s[2] - 0x80;
    c := x * 4096 + y * 64 + z;
    ThreeDigits(x, y, z);
  }

  lemma OfFour(s: Bytes) returns (c: nat)
    requires s != [] && FirstScalar(s) == 4
    ensures Scalar(c) && Encode(c) == s[..4]
  {
    var w: nat, x: nat, y: nat, z: nat := s[0] - 0xF0, s[1] - 0x80, s[2] - 0x80, s[3] - 0x80;
    c := w * 0x40000 + x * 4096 + y * 64 + z;
    FourDigits(w, x, y, z);
  }

  lemma ThreeDigits(x: nat, y: nat, z: nat)
    requires y < 64 && z < 64
    ensures var c := x * 4096 + y * 64 + z; c / 4096 == x && c / 64 % 64 == y && c % 64 == z
  {
    var c := x * 4096 + y * 64 + z;
    assert c / 64 == x * 64 + y;
  }

  lemma FourDigits(w: nat, x: nat, y: nat, z: nat)
    requires x < 64 && y < 64 && z < 64
    ensures var c := w * 0x40000 + x * 4096 + y * 64 + z;
            c / 0x40000 == w && c / 4096 % 64 == x && c / 64 % 64 == y && c % 64 == z
  {
    var c := w * 0x40000 + x * 4096 + y * 64 + z;
    assert c / 64 == w * 4096 + x * 64 + y;
    assert c / 4096 == w * 64 + x;
  }

  lemma {:induction false} EncodedIsUtf8(cs: seq<nat>)
    requires Scalars(cs)
    ensures IsUtf8(EncodeAll(cs))
    decreases |cs|
  {
    hide Encode, FirstScalar;
    if cs != [] {
      var rest := EncodeAll(cs[1..]);
      EncodedIsUtf8(cs[1..]);
      StepsOver(cs[0], rest);
      assert EncodeAll(cs)[|Encode(cs[0])|..] == rest;
    }
  }

  lemma {:induction false} Utf8IsEncoded(s: Bytes) returns (cs: seq<nat>)
    requires IsUtf8(s)
    ensures Scalars(cs) && EncodeAll(cs) == s
    decreases |s|
  {
    hide Encode, FirstScalar;
    if s == [] {
      cs := [];
    } else {
      var n := FirstScalar(s);
      var c := StepsOverEncoding(s);
      var rest := Utf8IsEncoded(s[n..]);
      cs := [c] + rest;
      assert cs[1..] == rest;
      assert s == s[..n] + s[n..];
    }
  }

  /** A byte string passes for text exactly when it encodes some sequence of scalar values. */
  lemma Utf8Exactly(s: Bytes)
    ensures IsUtf8(s) <==> exists cs :: Scalars(cs) && EncodeAll(cs) == s
  {
    hide IsUtf8, EncodeAll;
    if IsUtf8(s) {
      var cs := Utf8IsEncoded(s);
    }
    forall cs | Scalars(cs) && EncodeAll(cs) == s ensures IsUtf8(s) {
      EncodedIsUtf8(cs);
    }
  }
}
