/** A sequence of bytes is a string exactly if it encodes some Unicode scalar values (section 3 of RFC 3629). */
module Utf8Encoding {
  import opened Utf8

  /** A code point that is no surrogate. */
  predicate IsScalar(c: int) {
    0 <= c < 0xD800 || 0xE000 <= c < 0x110000
  }

  function Encode(c: int): seq<byte>
    requires IsScalar(c)
  {
    if c < 0x80 then [c]
    else if c < 0x800 then [0xC0 + c / 0x40, 0x80 + c % 0x40]
    else if c < 0x10000 then [0xE0 + c / 0x1000, 0x80 + c / 0x40 % 0x40, 0x80 + c % 0x40]
    else [0xF0 + c / 0x40000, 0x80 + c / 0x1000 % 0x40, 0x80 + c / 0x40 % 0x40, 0x80 + c % 0x40]
  }

  predicate AllScalar(cs: seq<int>) {
    forall i :: 0 <= i < |cs| ==> IsScalar(cs[i])
  }

  function EncodeAll(cs: seq<int>): seq<byte>
    requires AllScalar(cs)
  {
    if cs == [] then [] else Encode(cs[0]) + EncodeAll(cs[1..])
  }

  lemma {:induction false} SecondFitsThree(c: int)
    requires IsScalar(c) && 0x800 <= c < 0x10000
    ensures var lead, second := 0xE0 + c / 0x1000, 0x80 + c / 0x40 % 0x40;
            0xE0 <= lead < 0xF0 && SecondFits(lead, second)
  {
    assert c / 0x40 == c / 0x1000 * 0x40 + c / 0x40 % 0x40;
  }

  lemma {:induction false} SecondFitsFour(c: int)
    requires 0x10000 <= c < 0x110000
    ensures var lead, second := 0xF0 + c / 0x40000, 0x80 + c / 0x1000 % 0x40;
            0xF0 <= lead < 0xF5 && SecondFits(lead, second)
  {
    assert c / 0x1000 == c / 0x40000 * 0x40 + c / 0x1000 % 0x40;
  }

  /** An encoded character is read as one, whatever follows it. */
  lemma {:induction false} EncodedIsRead(c: int, rest: seq<byte>)
    requires IsScalar(c)
    ensures CharLength(Encode(c) + rest) == |Encode(c)|
  {
    if 0x800 <= c < 0x10000 {
      SecondFitsThree(c);
    } else if 0x10000 <= c {
      SecondFitsFour(c);
    }
  }

  /** A character that is read was encoded. */
  lemma {:induction false} ReadIsEncoded(s: seq<byte>) returns (c: int)
    requires CharLength(s) > 0
    ensures IsScalar(c) && Encode(c) == s[..CharLength(s)]
  {
    var n := CharLength(s);
    if n == 1 {
      c := s[0];
    } else if n == 2 {
      c := TwoBytes(s[0], s[1]);
    } else if n == 3 {
      c := ThreeBytes(s[0], s[1], s[2]);
    } else {
      c := FourBytes(s[0], s[1], s[2], s[3]);
    }
  }

  lemma {:induction false} TwoBytes(a: byte, b: byte) returns (c: int)
    requires 0xC2 <= a < 0xE0 && IsContinuation(b)
    ensures IsScalar(c) && Encode(c) == [a, b]
  {
    c := (a - 0xC0) * 0x40 + (b - 0x80);
  }

  lemma {:induction false} ThreeBytes(a: byte, b: byte, d: byte) returns (c: int)
    requires 0xE0 <= a < 0xF0 && SecondFits(a, b) && IsContinuation(d)
    ensures IsScalar(c) && Encode(c) == [a, b, d]
  {
    var high := (a - 0xE0) * 0x40 + (b - 0x80);
    c := high * 0x40 + (d - 0x80);
    assert c / 0x40 == high && c / 0x1000 == a - 0xE0;
  }

  lemma {:induction false} FourBytes(a: byte, b: byte, d: byte, e: byte) returns (c: int)
    requires 0xF0 <= a < 0xF5 && SecondFits(a, b) && IsContinuation(d) && IsContinuation(e)
    ensures IsScalar(c) && Encode(c) == [a, b, d, e]
  {
    var high := (a - 0xF0) * 0x40 + (b - 0x80);
    var mid := high * 0x40 + (d - 0x80);
    c := mid * 0x40 + (e - 0x80);
    assert c / 0x40 == mid && c / 0x1000 == high && c / 0x40000 == a - 0xF0;
  }

  lemma {:induction false} EncodedIsString(cs: seq<int>)
    requires AllScalar(cs)
    ensures IsUtf8(EncodeAll(cs))
  {
    if cs != [] {
      var first, rest := Encode(cs[0]), EncodeAll(cs[1..]);
      EncodedIsString(cs[1..]);
      EncodedIsRead(cs[0], rest);
      assert (first + rest)[|first|..] == rest;
    }
  }

  lemma {:induction false} StringIsEncoded(s: seq<byte>) returns (cs: seq<int>)
    requires IsUtf8(s)
    ensures AllScalar(cs) && EncodeAll(cs) == s
    decreases |s|
  {
    if s == [] {
      cs := [];
    } else {
      var n := CharLength(s);
      var c := ReadIsEncoded(s);
      var rest := StringIsEncoded(s[n..]);
      cs := [c] + rest;
      EncodeFirst(c, rest, s, n);
    }
  }

  lemma {:induction false} EncodeFirst(c: int, rest: seq<int>, s: seq<byte>, n: nat)
    requires IsScalar(c) && AllScalar(rest) && n <= |s| && Encode(c) == s[..n] && EncodeAll(rest) == s[n..]
    ensures AllScalar([c] + rest) && EncodeAll([c] + rest) == s
  {
    assert ([c] + rest)[1..] == rest && s == s[..n] + s[n..];
  }

  lemma {:induction false} StringExactly(s: seq<byte>)
    ensures IsUtf8(s) <==> exists cs :: AllScalar(cs) && EncodeAll(cs) == s
  {
    if IsUtf8(s) {
      var cs := StringIsEncoded(s);
    }
    if cs :| AllScalar(cs) && EncodeAll(cs) == s {
      EncodedIsString(cs);
    }
  }
}
