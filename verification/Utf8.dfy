/** Rust strings: bytes in well-formed UTF-8 (section 4 of RFC 3629) and the boundaries between their characters. */
module Utf8 {
  type byte = b: int | 0 <= b < 256

  predicate IsContinuation(b: byte) {
    0x80 <= b < 0xC0
  }

  /** The range of the second byte after a lead byte of three or four bytes. */
  predicate SecondFits(lead: byte, b: byte) {
    if lead == 0xE0 then 0xA0 <= b < 0xC0
    else if lead == 0xED then 0x80 <= b < 0xA0
    else if lead == 0xF0 then 0x90 <= b < 0xC0
    else if lead == 0xF4 then 0x80 <= b < 0x90
    else IsContinuation(b)
  }

  /** The length of the well-formed character at the start, or zero if there is none. */
  function CharLength(s: seq<byte>): (n: nat)
    ensures n <= |s| && forall i :: 1 <= i < n ==> IsContinuation(s[i])
    ensures n > 0 ==> !IsContinuation(s[0])
  {
    if s == [] then 0
    else if s[0] < 0x80 then 1
    else if 0xC2 <= s[0] < 0xE0 then if |s| >= 2 && IsContinuation(s[1]) then 2 else 0
    else if 0xE0 <= s[0] < 0xF0 then
      if |s| >= 3 && SecondFits(s[0], s[1]) && IsContinuation(s[2]) then 3 else 0
    else if 0xF0 <= s[0] < 0xF5 then
      if |s| >= 4 && SecondFits(s[0], s[1]) && IsContinuation(s[2]) && IsContinuation(s[3]) then 4 else 0
    else 0
  }

  predicate IsUtf8(s: seq<byte>) {
    s == [] || (CharLength(s) > 0 && IsUtf8(s[CharLength(s)..]))
  }

  /** `str::is_char_boundary`. */
  predicate IsBoundary(s: seq<byte>, i: nat) {
    i == 0 || i == |s| || (i < |s| && !IsContinuation(s[i]))
  }

  /** A string cut at a boundary is two strings. */
  lemma {:induction false} CutAtBoundary(s: seq<byte>, i: nat)
    requires IsUtf8(s) && i <= |s| && IsBoundary(s, i)
    ensures IsUtf8(s[..i]) && IsUtf8(s[i..])
    decreases |s|
  {
    var n := CharLength(s);
    if i == 0 {
      assert s[0..] == s;
    } else if i == |s| {
      assert s[..|s|] == s;
    } else {
      assert n <= i;
      var rest := s[n..];
      assert IsBoundary(rest, i - n);
      CutAtBoundary(rest, i - n);
      assert rest[..i - n] == s[..i][n..] && rest[i - n..] == s[i..];
      SameFirstChar(s, s[..i]);
    }
  }

  lemma {:induction false} SameFirstChar(s: seq<byte>, prefix: seq<byte>)
    requires prefix <= s && CharLength(s) <= |prefix| && CharLength(s) > 0
    ensures CharLength(prefix) == CharLength(s)
  {
  }

  /** Two strings put together are a string. */
  lemma {:induction false} JoinStrings(a: seq<byte>, b: seq<byte>)
    requires IsUtf8(a) && IsUtf8(b)
    ensures IsUtf8(a + b)
    decreases |a|
  {
    if a == [] {
      assert a + b == b;
    } else {
      var n := CharLength(a);
      JoinStrings(a[n..], b);
      JoinChar(a, b, n);
    }
  }

  lemma {:induction false} JoinChar(a: seq<byte>, b: seq<byte>, n: nat)
    requires 0 < n == CharLength(a) && IsUtf8(a[n..] + b)
    ensures IsUtf8(a + b)
  {
    var s := a + b;
    assert s[n..] == a[n..] + b;
    SameFirstCharLonger(a, s);
    OneMoreChar(s, n);
  }

  lemma {:induction false} OneMoreChar(s: seq<byte>, n: nat)
    requires 0 < n == CharLength(s) && IsUtf8(s[n..])
    ensures IsUtf8(s)
  {
  }

  lemma {:induction false} SameFirstCharLonger(prefix: seq<byte>, s: seq<byte>)
    requires prefix <= s && CharLength(prefix) > 0
    ensures CharLength(s) == CharLength(prefix)
  {
  }
}
