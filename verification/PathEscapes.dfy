/**
 Percent decoding of path mentions (`decode_path_escapes` in `crates/acp_thread/src/mention.rs`; the escapes are those
 of section 2.1 of RFC 3986).
 */
module PathEscapes {
  import opened Options
  import opened Utf8

  const PERCENT: byte := 0x25
  const SLASH: byte := 0x2F
  const BACKSLASH: byte := 0x5C

  predicate IsSeparator(b: byte) {
    b == SLASH || b == BACKSLASH
  }

  function HexDigit(b: byte): Option<byte> {
    if 0x30 <= b <= 0x39 then Some(b - 0x30)
    else if 0x61 <= b <= 0x66 then Some(b - 0x61 + 10)
    else if 0x41 <= b <= 0x46 then Some(b - 0x41 + 10)
    else None
  }

  /** The byte that an escape at the start stands for, unless it is a separator. */
  function EscapeAt(s: seq<byte>): (r: Option<byte>)
    ensures r.Some? ==> !IsSeparator(r.value) && |s| >= 3 && forall i :: 0 <= i < 3 ==> !IsSeparator(s[i])
  {
    if |s| >= 3 && s[0] == PERCENT && HexDigit(s[1]).Some? && HexDigit(s[2]).Some? then
      var value := 16 * HexDigit(s[1]).value + HexDigit(s[2]).value;
      if IsSeparator(value) then None else Some(value)
    else None
  }

  function Decoded(s: seq<byte>): seq<byte> {
    if s == [] then []
    else if EscapeAt(s).Some? then [EscapeAt(s).value] + Decoded(s[3..])
    else [s[0]] + Decoded(s[1..])
  }

  /** `Cow<str>`: the input itself, or a new string. */
  datatype Cow = Borrowed | Owned(text: seq<byte>)

  function TextOf(cow: Cow, input: seq<byte>): seq<byte> {
    if cow.Owned? then cow.text else input
  }

  function DecodedPath(input: seq<byte>): Cow {
    if PERCENT !in input || Decoded(input) == input || !IsUtf8(Decoded(input)) then Borrowed else Owned(Decoded(input))
  }

  lemma {:induction false} DecodeStep(input: seq<byte>, index: nat, decoded: seq<byte>)
    requires index < |input| && decoded + Decoded(input[index..]) == Decoded(input)
    ensures var escape := EscapeAt(input[index..]);
            if escape.Some? then decoded + [escape.value] + Decoded(input[index + 3..]) == Decoded(input)
            else decoded + [input[index]] + Decoded(input[index + 1..]) == Decoded(input)
  {
    var rest := input[index..];
    if EscapeAt(rest).Some? {
      assert rest[3..] == input[index + 3..];
    } else {
      assert rest[1..] == input[index + 1..];
    }
  }

  /** The loop that pushes bytes into a buffer. */
  method DecodeBytes(input: seq<byte>) returns (decoded: seq<byte>)
    ensures decoded == Decoded(input)
  {
    decoded := [];
    var index := 0;
    while index < |input|
      invariant 0 <= index <= |input| && decoded + Decoded(input[index..]) == Decoded(input)
    {
      DecodeStep(input, index, decoded);
      var escape := EscapeAt(input[index..]);
      if escape.Some? {
        decoded, index := decoded + [escape.value], index + 3;
      } else {
        decoded, index := decoded + [input[index]], index + 1;
      }
    }
  }

  method DecodePathEscapes(input: seq<byte>) returns (result: Cow)
    ensures result == DecodedPath(input)
  {
    if PERCENT !in input {
      return Borrowed;
    }
    var decoded := DecodeBytes(input);
    if decoded == input || !IsUtf8(decoded) {
      return Borrowed;
    }
    result := Owned(decoded);
  }

  lemma {:induction false} NothingToDecode(s: seq<byte>)
    requires PERCENT !in s
    ensures Decoded(s) == s
  {
    if s != [] {
      NothingToDecode(s[1..]);
    }
  }

  /** The result is a new string exactly if decoding changes the text and the outcome is a string. */
  lemma {:induction false} OwnedExactlyIfChanged(input: seq<byte>)
    ensures DecodedPath(input).Owned? <==> TextOf(DecodedPath(input), input) != input
    ensures DecodedPath(input).Owned? <==> Decoded(input) != input && IsUtf8(Decoded(input))
  {
    if PERCENT !in input {
      NothingToDecode(input);
    }
  }

  // ----- what an escape stands for -----

  /** The digits of RFC 3986, in either case. */
  const DIGITS: seq<byte> := [0x30, 0x31, 0x32, 0x33, 0x34, 0x35, 0x36, 0x37, 0x38, 0x39,
                              0x61, 0x62, 0x63, 0x64, 0x65, 0x66]
  const CAPITALS: seq<byte> := [0x30, 0x31, 0x32, 0x33, 0x34, 0x35, 0x36, 0x37, 0x38, 0x39,
                                0x41, 0x42, 0x43, 0x44, 0x45, 0x46]

  predicate IsDigitOf(b: byte, value: int) {
    0 <= value < 16 && (b == DIGITS[value] || b == CAPITALS[value])
  }

  lemma {:induction false} HexDigitExactly(b: byte, value: byte)
    ensures HexDigit(b) == Some(value) <==> IsDigitOf(b, value)
  {
  }

  /** A percent sign and the two digits of a byte, the high one first; separators cannot be escaped. */
  predicate StartsWithEscapeOf(s: seq<byte>, b: byte) {
    |s| >= 3 && s[0] == 0x25 && IsDigitOf(s[1], b / 16) && IsDigitOf(s[2], b % 16) && b != 0x2F && b != 0x5C
  }

  lemma {:induction false} EscapeExactly(s: seq<byte>, b: byte)
    ensures EscapeAt(s) == Some(b) <==> StartsWithEscapeOf(s, b)
  {
    if |s| >= 3 {
      HexDigitExactly(s[1], b / 16);
      HexDigitExactly(s[2], b % 16);
      if HexDigit(s[1]).Some? && HexDigit(s[2]).Some? {
        TwoDigits(HexDigit(s[1]).value, HexDigit(s[2]).value, b);
      }
    }
  }

  lemma {:induction false} TwoDigits(high: nat, low: nat, b: byte)
    requires high < 16 && low < 16
    ensures 16 * high + low == b <==> high == b / 16 && low == b % 16
  {
  }

  /** Decoding replaces every escape, from left to right, by the byte it stands for, and keeps everything else. */
  lemma {:induction false} DecodesByteByByte(s: seq<byte>)
    ensures forall b :: StartsWithEscapeOf(s, b) ==> Decoded(s) == [b] + Decoded(s[3..])
    ensures s != [] && (forall b :: !StartsWithEscapeOf(s, b)) ==> Decoded(s) == [s[0]] + Decoded(s[1..])
    ensures s == [] ==> Decoded(s) == []
  {
    forall b: byte ensures EscapeAt(s) == Some(b) <==> StartsWithEscapeOf(s, b) {
      EscapeExactly(s, b);
    }
  }

  /** Every byte but the separators escaped, as an encoder would that knows no safe characters. */
  function Encoded(s: seq<byte>): seq<byte> {
    if s == [] then []
    else
      (if IsSeparator(s[0]) then [s[0]] else [PERCENT, CAPITALS[s[0] / 16], CAPITALS[s[0] % 16]]) + Encoded(s[1..])
  }

  /** Decoding undoes encoding. */
  lemma {:induction false} EncodedRoundTrip(s: seq<byte>)
    ensures Decoded(Encoded(s)) == s
  {
    if s != [] {
      var b, rest := s[0], Encoded(s[1..]);
      EncodedRoundTrip(s[1..]);
      if IsSeparator(b) {
        EscapeExactly([b] + rest, 0);
        assert EscapeAt([b] + rest).None?;
        assert ([b] + rest)[1..] == rest;
      } else {
        var code := [PERCENT, CAPITALS[b / 16], CAPITALS[b % 16]] + rest;
        EscapeExactly(code, b);
        assert code[3..] == rest;
      }
      assert s == [b] + s[1..];
    }
  }

  /** The text of the result: the decoded bytes if they are a string, and otherwise the input. */
  lemma {:induction false} ResultExactly(input: seq<byte>)
    ensures TextOf(DecodedPath(input), input) == if IsUtf8(Decoded(input)) then Decoded(input) else input
  {
    if PERCENT !in input {
      NothingToDecode(input);
    }
  }

  // ----- components -----

  /** The parts between separators. */
  function Components(s: seq<byte>): (parts: seq<seq<byte>>)
    ensures parts != []
  {
    if s == [] then [[]]
    else
      var rest := Components(s[1..]);
      if IsSeparator(s[0]) then [[]] + rest else [[s[0]] + rest[0]] + rest[1..]
  }

  function Separators(s: seq<byte>): seq<byte> {
    if s == [] then [] else (if IsSeparator(s[0]) then [s[0]] else []) + Separators(s[1..])
  }

  function DecodedParts(parts: seq<seq<byte>>): (r: seq<seq<byte>>)
    ensures |r| == |parts|
  {
    if parts == [] then [] else [Decoded(parts[0])] + DecodedParts(parts[1..])
  }

  lemma {:induction false} FirstComponentStarts(s: seq<byte>)
    ensures Components(s)[0] <= s
    ensures forall i :: 0 <= i < |s| && i <= |Components(s)[0]| ==>
                          (i < |Components(s)[0]| <==> !IsSeparator(s[i]))
  {
    if s != [] && !IsSeparator(s[0]) {
      FirstComponentStarts(s[1..]);
      var rest := Components(s[1..])[0];
      assert Components(s)[0] == [s[0]] + rest;
      forall i | 0 <= i < |s| && i <= |rest| + 1 ensures i < |rest| + 1 <==> !IsSeparator(s[i]) {
        if i > 0 {
          assert s[1..][i - 1] == s[i];
        }
      }
    }
  }

  /** An escape never reaches across a separator, so it is the same in the path and in its component. */
  lemma {:induction false} EscapeIsLocal(s: seq<byte>)
    ensures EscapeAt(Components(s)[0]) == EscapeAt(s)
  {
    FirstComponentStarts(s);
    var first := Components(s)[0];
    if EscapeAt(s).Some? {
      assert |first| >= 3 by {
        assert !IsSeparator(s[0]) && !IsSeparator(s[1]) && !IsSeparator(s[2]);
      }
    }
  }

  lemma {:induction false} SkipThree(s: seq<byte>)
    requires |s| >= 3 && !IsSeparator(s[0]) && !IsSeparator(s[1]) && !IsSeparator(s[2])
    ensures Components(s)[0] == s[..3] + Components(s[3..])[0] && Components(s)[1..] == Components(s[3..])[1..]
    ensures Separators(s) == Separators(s[3..])
  {
    assert s[1..][1..] == s[2..] && s[2..][1..] == s[3..];
    var c3 := Components(s[3..]);
    assert Components(s[2..]) == [[s[2]] + c3[0]] + c3[1..];
    assert Components(s[1..]) == [[s[1]] + ([s[2]] + c3[0])] + c3[1..];
    assert s[..3] == [s[0], s[1], s[2]];
    assert Separators(s[2..]) == Separators(s[3..]) && Separators(s[1..]) == Separators(s[2..]);
  }

  lemma {:induction false} DecodeHead(part: seq<byte>, v: byte)
    requires EscapeAt(part) == Some(v)
    ensures Decoded(part) == [v] + Decoded(part[3..])
  {
  }

  /** Decoding a path decodes each of its components and leaves the separators as they are. */
  lemma {:induction false} DecodesPartByPart(s: seq<byte>)
    ensures Components(Decoded(s)) == DecodedParts(Components(s)) && Separators(Decoded(s)) == Separators(s)
    decreases |s|
  {
    if s == [] {
    } else if EscapeAt(s).Some? {
      EscapeCase(s);
    } else {
      PlainCase(s);
    }
  }

  lemma {:induction false} EscapeCase(s: seq<byte>)
    requires EscapeAt(s).Some?
    ensures Components(Decoded(s)) == DecodedParts(Components(s)) && Separators(Decoded(s)) == Separators(s)
    decreases |s|, 0
  {
    var v := EscapeAt(s).value;
    DecodesPartByPart(s[3..]);
    SkipThree(s);
    EscapeIsLocal(s);
    var c, d := Components(s[3..]), Components(Decoded(s[3..]));
    assert Decoded(s)[1..] == Decoded(s[3..]);
    assert Components(s) == [s[..3] + c[0]] + c[1..];
    DecodeHead(s[..3] + c[0], v);
    assert (s[..3] + c[0])[3..] == c[0];
    PartsOf(s[..3] + c[0], c[1..]);
    assert c == [c[0]] + c[1..];
    PartsOf(c[0], c[1..]);
  }

  lemma {:induction false} PartsOf(first: seq<byte>, rest: seq<seq<byte>>)
    ensures DecodedParts([first] + rest) == [Decoded(first)] + DecodedParts(rest)
  {
    assert ([first] + rest)[1..] == rest;
  }

  lemma {:induction false} PlainCase(s: seq<byte>)
    requires s != [] && EscapeAt(s).None?
    ensures Components(Decoded(s)) == DecodedParts(Components(s)) && Separators(Decoded(s)) == Separators(s)
    decreases |s|, 0
  {
    DecodesPartByPart(s[1..]);
    var c := Components(s[1..]);
    assert Decoded(s)[1..] == Decoded(s[1..]);
    assert c == [c[0]] + c[1..];
    PartsOf(c[0], c[1..]);
    if IsSeparator(s[0]) {
      PartsOf([], c);
    } else {
      EscapeIsLocal(s);
      assert Components(s)[0] == [s[0]] + c[0] && ([s[0]] + c[0])[1..] == c[0];
      PartsOf([s[0]] + c[0], c[1..]);
    }
  }

  // ----- components as strings -----

  /** The first component, and what follows its separator. */
  lemma {:induction false} SplitFirst(s: seq<byte>)
    ensures var n := |Components(s)[0]|;
            && n <= |s| && s[..n] == Components(s)[0]
            && (n == |s| ==> Components(s) == [s])
            && (n < |s| ==> IsSeparator(s[n]) && Components(s)[1..] == Components(s[n + 1..]))
  {
    FirstComponentStarts(s);
    if s != [] && !IsSeparator(s[0]) {
      SplitFirst(s[1..]);
      var n := |Components(s[1..])[0]|;
      assert Components(s)[0] == [s[0]] + Components(s[1..])[0];
      if n + 1 < |s| {
        assert s[1..][n] == s[n + 1] && s[1..][n + 1..] == s[n + 2..];
      } else {
        assert Components(s[1..]) == [s[1..]] && [s[0]] + s[1..] == s;
      }
    }
  }

  /** A path is a string exactly if every component is. */
  lemma {:induction false} StringPartByPart(s: seq<byte>)
    ensures IsUtf8(s) <==> forall k :: 0 <= k < |Components(s)| ==> IsUtf8(Components(s)[k])
    decreases |s|
  {
    SplitFirst(s);
    var parts := Components(s);
    var n := |parts[0]|;
    if n < |s| {
      var rest := s[n + 1..];
      StringPartByPart(rest);
      assert forall k :: 1 <= k < |parts| ==> parts[k] == Components(rest)[k - 1];
      assert IsUtf8(s) <==> IsUtf8(parts[0]) && IsUtf8(rest) by {
        AroundSeparator(s, n);
      }
      assert forall k :: 0 <= k < |Components(rest)| ==> Components(rest)[k] == parts[k + 1];
    }
  }

  lemma {:induction false} AroundSeparator(s: seq<byte>, n: nat)
    requires n < |s| && IsSeparator(s[n])
    ensures IsUtf8(s) <==> IsUtf8(s[..n]) && IsUtf8(s[n + 1..])
  {
    var tail := s[n..];
    assert tail[1..] == s[n + 1..] && CharLength(tail) == 1;
    assert IsUtf8(tail) <==> IsUtf8(s[n + 1..]);
    if IsUtf8(s) {
      CutAtBoundary(s, n);
    }
    if IsUtf8(s[..n]) && IsUtf8(tail) {
      JoinStrings(s[..n], tail);
      assert s[..n] + tail == s;
    }
  }

  lemma {:induction false} DecodedPartAt(parts: seq<seq<byte>>, k: nat)
    requires k < |parts|
    ensures DecodedParts(parts)[k] == Decoded(parts[k])
  {
    if k > 0 {
      DecodedPartAt(parts[1..], k - 1);
    }
  }

  /** Decoding never adds, removes or changes a separator: either the text stays as it is, or the new text has the same
      separators and as many components, each of them what decoding its counterpart alone gives. */
  lemma {:induction false} NeverMovesSeparators(input: seq<byte>)
    ensures var result := TextOf(DecodedPath(input), input);
            && Separators(result) == Separators(input) && |Components(result)| == |Components(input)|
            && (DecodedPath(input).Owned? ==>
                  forall k :: 0 <= k < |Components(input)| ==>
                                Components(result)[k] ==
                                TextOf(DecodedPath(Components(input)[k]), Components(input)[k]))
  {
    DecodesPartByPart(input);
    if DecodedPath(input).Owned? {
      StringPartByPart(Decoded(input));
      var parts := Components(input);
      forall k | 0 <= k < |parts| ensures Components(Decoded(input))[k] == TextOf(DecodedPath(parts[k]), parts[k]) {
        DecodedPartAt(parts, k);
        if PERCENT !in parts[k] {
          NothingToDecode(parts[k]);
        }
      }
    }
  }
}
