/** Which byte strings a Rust `String` can hold: well-formed UTF-8, section 4 of RFC 3629. */
module Utf8 {
  import opened Bytes

  predicate Tail(b: Byte) {
    0x80 <= b <= 0xBF
  }

  /** The second byte of a character of three or four bytes: no overlong form, no surrogate, at most U+10FFFF. */
  predicate Second(lead: Byte, b: Byte) {
    if lead == 0xE0 then 0xA0 <= b <= 0xBF
    else if lead == 0xED then 0x80 <= b <= 0x9F
    else if lead == 0xF0 then 0x90 <= b <= 0xBF
    else if lead == 0xF4 then 0x80 <= b <= 0x8F
    else Tail(b)
  }

  /** The length of the character `s` starts with, or 0 if it starts with none. */
  function CharLen(s: seq<Byte>): (k: nat)
    ensures k <= |s|
  {
    if s == [] then 0
    else if s[0] <= 0x7F then 1
    else if 0xC2 <= s[0] <= 0xDF && |s| >= 2 && Tail(s[1]) then 2
    else if 0xE0 <= s[0] <= 0xEF && |s| >= 3 && Second(s[0], s[1]) && Tail(s[2]) then 3
    else if 0xF0 <= s[0] <= 0xF4 && |s| >= 4 && Second(s[0], s[1]) && Tail(s[2]) && Tail(s[3]) then 4
    else 0
  }

  predicate IsText(s: seq<Byte>) {
    s == [] || (CharLen(s) > 0 && IsText(s[CharLen(s)..]))
  }

  // ----- Text is a sequence of encoded characters -----

  /** A Unicode scalar value: any code point but a surrogate. */
  predicate IsScalar(c: nat) {
    c <= 0x10FFFF && !(0xD800 <= c <= 0xDFFF)
  }

  /** The bytes of one character, by the table of section 3 of RFC 3629. */
  function EncodeChar(c: nat): (bs: seq<Byte>)
    requires IsScalar(c)
    ensures bs != []
  {
    if c < 0x80 then [c]
    else if c < 0x800 then [0xC0 + c / 64, 0x80 + c % 64]
    else if c < 0x10000 then [0xE0 + c / 4096, 0x80 + c / 64 % 64, 0x80 + c % 64]
    else [0xF0 + c / 262144, 0x80 + c / 4096 % 64, 0x80 + c / 64 % 64, 0x80 + c % 64]
  }

  function EncodeText(codes: seq<nat>): seq<Byte>
    requires forall i | 0 <= i < |codes| :: IsScalar(codes[i])
  {
    if codes == [] then [] else EncodeChar(codes[0]) + EncodeText(codes[1..])
  }

  lemma EncodedCharIsRead(c: nat, rest: seq<Byte>)
    requires IsScalar(c)
    ensures CharLen(EncodeChar(c) + rest) == |EncodeChar(c)|
  {
    if 0x800 <= c < 0x10000 {
      ThreeBytes(c);
    } else if c >= 0x10000 {
      FourBytes(c);
    }
  }

  lemma ThreeBytes(c: nat)
    requires IsScalar(c) && 0x800 <= c < 0x10000
    ensures
      var bs := EncodeChar(c);
      0xE0 <= bs[0] <= 0xEF && Second(bs[0], bs[1]) && Tail(bs[2])
  {}

  lemma FourBytes(c: nat)
    requires IsScalar(c) && c >= 0x10000
    ensures
      var bs := EncodeChar(c);
      0xF0 <= bs[0] <= 0xF4 && Second(bs[0], bs[1]) && Tail(bs[2]) && Tail(bs[3])
  {}

  /** The digits of a code point in base 64, as `EncodeChar` takes them. */
  lemma Digits64(p: nat, q: nat, r: nat, t: nat)
    requires q < 64 && r < 64 && t < 64
    ensures
      var c := p * 262144 + q * 4096 + r * 64 + t;
      c / 262144 == p && c / 4096 % 64 == q && c / 64 % 64 == r && c % 64 == t && c / 4096 == p * 64 + q
  {
    var c := p * 262144 + q * 4096 + r * 64 + t;
    assert c / 64 == p * 4096 + q * 64 + r;
    assert c / 4096 == p * 64 + q;
  }

  lemma TwoEncoded(lead: Byte, x: Byte) returns (c: nat)
    requires 0xC2 <= lead <= 0xDF && Tail(x)
    ensures IsScalar(c) && EncodeChar(c) == [lead, x]
  {
    var r: int, t: int := lead as int - 0xC0, x as int - 0x80;
    Digits64(0, 0, r, t);
    c := r * 64 + t;
    assert c / 64 == r;
  }

  lemma ThreeEncoded(lead: Byte, x: Byte, y: Byte) returns (c: nat)
    requires 0xE0 <= lead <= 0xEF && Second(lead, x) && Tail(y)
    ensures IsScalar(c) && EncodeChar(c) == [lead, x, y]
  {
    var q: int, r: int, t: int := lead as int - 0xE0, x as int - 0x80, y as int - 0x80;
    Digits64(0, q, r, t);
    c := q * 4096 + r * 64 + t;
  }

  lemma FourEncoded(lead: Byte, x: Byte, y: Byte, z: Byte) returns (c: nat)
    requires 0xF0 <= lead <= 0xF4 && Second(lead, x) && Tail(y) && Tail(z)
    ensures IsScalar(c) && EncodeChar(c) == [lead, x, y, z]
  {
    var p: int, q: int := lead as int - 0xF0, x as int - 0x80;
    var r: int, t: int := y as int - 0x80, z as int - 0x80;
    Digits64(p, q, r, t);
    c := p * 262144 + q * 4096 + r * 64 + t;
  }

  lemma CharIsEncoded(s: seq<Byte>) returns (c: nat)
    requires CharLen(s) > 0
    ensures IsScalar(c) && s[..CharLen(s)] == EncodeChar(c)
  {
    hide Second;
    var k := CharLen(s);
    if k == 1 {
      c := s[0];
      assert s[..1] == [c];
    } else {
      hide EncodeChar, IsScalar;
      if k == 2 {
        c := TwoEncoded(s[0], s[1]);
      } else if k == 3 {
        c := ThreeEncoded(s[0], s[1], s[2]);
      } else {
        c := FourEncoded(s[0], s[1], s[2], s[3]);
      }
    }
  }

  lemma {:induction false} EncodedIsText(codes: seq<nat>)
    requires forall i | 0 <= i < |codes| :: IsScalar(codes[i])
    ensures IsText(EncodeText(codes))
  {
    hide CharLen, EncodeChar;
    if codes != [] {
      var rest := EncodeText(codes[1..]);
      EncodedCharIsRead(codes[0], rest);
      EncodedIsText(codes[1..]);
      assert (EncodeChar(codes[0]) + rest)[|EncodeChar(codes[0])|..] == rest;
    }
  }

  /** Exactly the encodings of sequences of scalar values are text. */
  lemma {:induction false} TextIsEncoded(s: seq<Byte>) returns (codes: seq<nat>)
    requires IsText(s)
    ensures (forall i | 0 <= i < |codes| :: IsScalar(codes[i])) && s == EncodeText(codes)
    decreases |s|
  {
    hide CharLen, EncodeChar;
    if s == [] {
      codes := [];
    } else {
      var k := CharLen(s);
      var c := CharIsEncoded(s);
      var rest := TextIsEncoded(s[k..]);
      codes := [c] + rest;
      assert codes[1..] == rest && s == s[..k] + s[k..];
    }
  }

  // ----- Joining and cutting -----

  lemma CharLenOfPrefix(a: seq<Byte>, b: seq<Byte>)
    ensures CharLen(a) > 0 ==> CharLen(a + b) == CharLen(a)
    ensures 0 < CharLen(a + b) <= |a| ==> CharLen(a) == CharLen(a + b)
  {}

  /** Texts one after the other are text. */
  lemma {:induction false} TextAppends(a: seq<Byte>, b: seq<Byte>)
    requires IsText(a) && IsText(b)
    ensures IsText(a + b)
  {
    hide CharLen;
    if a == [] {
      assert a + b == b;
    } else {
      var k := CharLen(a);
      CharLenOfPrefix(a, b);
      TextAppends(a[k..], b);
      assert (a + b)[k..] == a[k..] + b;
    }
  }

  /** A NUL is a character of its own, never part of another. */
  lemma NulStandsAlone(s: seq<Byte>, i: nat)
    requires i < |s| && s[i] == 0 && CharLen(s) > 0
    ensures CharLen(s) <= i || (i == 0 && CharLen(s) == 1)
  {}

  /** Text cut at a NUL is text on either side. */
  lemma {:induction false} TextCutsAtNul(x: seq<Byte>, y: seq<Byte>)
    requires IsText(x + [0] + y)
    ensures IsText(x) && IsText(y)
    decreases |x|
  {
    hide CharLen;
    var s := x + [0] + y;
    var k := CharLen(s);
    assert s[|x|] == 0;
    NulStandsAlone(s, |x|);
    if x == [] {
      assert s[1..] == y;
    } else {
      assert s == x + ([0] + y);
      CharLenOfPrefix(x, [0] + y);
      assert s[k..] == x[k..] + [0] + y;
      TextCutsAtNul(x[k..], y);
    }
  }

  /** Bytes below 128 are text. */
  lemma {:induction false} AsciiIsText(s: seq<Byte>)
    requires forall i | 0 <= i < |s| :: s[i] <= 0x7F
    ensures IsText(s)
  {
    if s != [] {
      AsciiIsText(s[1..]);
    }
  }
}
