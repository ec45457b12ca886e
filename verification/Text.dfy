/** The parts of Python's string library that the duplicate-magnet scripts use. */
module Text {
  import opened Options

  /** The characters that `str.isspace` accepts. */
  predicate IsSpace(c: char) {
    var n := c as int;
    || 9 <= n <= 13 || 28 <= n <= 32 || n == 0x85 || n == 0xA0 || n == 0x1680 || 0x2000 <= n <= 0x200A
    || n == 0x2028 || n == 0x2029 || n == 0x202F || n == 0x205F || n == 0x3000
  }

  predicate NoSpaces(s: string) {
    forall i :: 0 <= i < |s| ==> !IsSpace(s[i])
  }

  // ----- lines -----

  /** `"\n".join(lines)`. */
  function Join(lines: seq<string>): string {
    if lines == [] then ""
    else if |lines| == 1 then lines[0]
    else lines[0] + "\n" + Join(lines[1..])
  }

  /** `s.split("\n")`. */
  function Lines(s: string): (lines: seq<string>)
    ensures lines != []
  {
    if s == "" then [""]
    else
      var rest := Lines(s[1..]);
      if s[0] == '\n' then [""] + rest else [[s[0]] + rest[0]] + rest[1..]
  }

  predicate OneLine(s: string) {
    '\n' !in s
  }

  lemma {:induction false} LinesOfOne(line: string)
    requires OneLine(line)
    ensures Lines(line) == [line]
  {
    if line != "" {
      LinesOfOne(line[1..]);
      assert [line[0]] + line[1..] == line;
    }
  }

  lemma {:induction false} LinesOfMore(line: string, rest: string)
    requires OneLine(line)
    ensures Lines(line + "\n" + rest) == [line] + Lines(rest)
  {
    var all := line + "\n" + rest;
    if line == "" {
      assert all[1..] == rest;
    } else {
      assert all[1..] == line[1..] + "\n" + rest;
      LinesOfMore(line[1..], rest);
      assert [line[0]] + line[1..] == line;
    }
  }

  /** Splitting undoes joining. */
  lemma {:induction false} LinesOfJoin(lines: seq<string>)
    requires lines != [] && forall i :: 0 <= i < |lines| ==> OneLine(lines[i])
    ensures Lines(Join(lines)) == lines
  {
    if |lines| == 1 {
      LinesOfOne(lines[0]);
    } else {
      LinesOfJoin(lines[1..]);
      LinesOfMore(lines[0], Join(lines[1..]));
    }
  }

  // ----- trimming and words -----

  function StripLeft(s: string): string {
    if s != "" && IsSpace(s[0]) then StripLeft(s[1..]) else s
  }

  function StripRight(s: string): string {
    if s != "" && IsSpace(s[|s| - 1]) then StripRight(s[..|s| - 1]) else s
  }

  function Strip(s: string): string {
    StripRight(StripLeft(s))
  }

  /** `s.rstrip(")")`. */
  function StripParens(s: string): string {
    if s != "" && s[|s| - 1] == ')' then StripParens(s[..|s| - 1]) else s
  }

  /** The characters before the first space. */
  function Word(s: string): string {
    if s == "" || IsSpace(s[0]) then "" else [s[0]] + Word(s[1..])
  }

  /** `s.split()[0]`; there is no such element if `s` is blank. */
  function FirstWord(s: string): Option<string> {
    var t := StripLeft(s);
    if t == "" then None else Some(Word(t))
  }

  lemma {:induction false} WordEnds(word: string, rest: string)
    requires NoSpaces(word) && (rest == "" || IsSpace(rest[0]))
    ensures Word(word + rest) == word
  {
    if word == "" {
      assert word + rest == rest;
    } else {
      assert (word + rest)[1..] == word[1..] + rest;
      WordEnds(word[1..], rest);
    }
  }

  lemma {:induction false} FirstWordIs(word: string, rest: string)
    requires word != "" && NoSpaces(word) && (rest == "" || IsSpace(rest[0]))
    ensures FirstWord(word + rest) == Some(word)
    ensures FirstWord(" " + (word + rest)) == Some(word)
  {
    WordEnds(word, rest);
    assert (" " + (word + rest))[1..] == word + rest;
  }

  // ----- searching -----

  predicate FoundAt(s: string, part: string, i: nat) {
    i + |part| <= |s| && s[i..i + |part|] == part
  }

  /** The first position at or after `i` where `part` occurs. */
  function Find(s: string, part: string, i: nat): (r: Option<nat>)
    ensures r.Some? ==>
              i <= r.value && FoundAt(s, part, r.value) && forall j :: i <= j < r.value ==> !FoundAt(s, part, j)
    ensures r.None? ==> forall j :: i <= j ==> !FoundAt(s, part, j)
    decreases |s| - i
  {
    if i + |part| > |s| then None
    else if FoundAt(s, part, i) then Some(i)
    else if i < |s| then Find(s, part, i + 1)
    else None
  }

  predicate Contains(s: string, part: string) {
    Find(s, part, 0).Some?
  }

  /** `s.split(part)[1]`: what lies between the first two occurrences of `part`. */
  function SecondPiece(s: string, part: string): Option<string>
    requires part != ""
  {
    var first := Find(s, part, 0);
    if first.None? then None
    else
      var start := first.value + |part|;
      var next := Find(s, part, start);
      Some(if next.None? then s[start..] else s[start..next.value])
  }

  // ----- numbers -----

  predicate IsDigit(c: char) {
    '0' <= c <= '9'
  }

  function Digit(d: nat): char
    requires d < 10
  {
    (d + '0' as int) as char
  }

  function DigitValue(c: char): nat
    requires IsDigit(c)
  {
    c as int - '0' as int
  }

  /** `str(n)` of a natural number. */
  function Decimal(n: nat): (s: string)
    ensures s != "" && forall i :: 0 <= i < |s| ==> IsDigit(s[i])
  {
    if n < 10 then [Digit(n)] else Decimal(n / 10) + [Digit(n % 10)]
  }

  /** `f"{n:2d}"`. */
  function Padded(n: nat): string {
    if n < 10 then " " + Decimal(n) else Decimal(n)
  }

  /** Digits with single underscores between them, as `int` reads them. */
  function ParseDigits(s: string): Option<nat> {
    if s == "" || !IsDigit(s[|s| - 1]) then None
    else if |s| == 1 then Some(DigitValue(s[0]))
    else
      var front := s[..|s| - 1];
      var head := ParseDigits(if front[|front| - 1] == '_' then front[..|front| - 1] else front);
      if head.None? then None else Some(10 * head.value + DigitValue(s[|s| - 1]))
  }

  /** `int(s)` of a word in ASCII. */
  function ParseInt(s: string): Option<int> {
    if s != "" && (s[0] == '-' || s[0] == '+') then
      var n: Option<int> := ParseDigits(s[1..]);
      if n.None? then None else if s[0] == '-' then Some(-n.value) else Some(n.value)
    else ParseDigits(s)
  }

  lemma {:induction false} DigitsRoundTrip(n: nat)
    ensures ParseDigits(Decimal(n)) == Some(n)
  {
    if n < 10 {
    } else {
      DigitsRoundTrip(n / 10);
      var s, head := Decimal(n), Decimal(n / 10);
      assert s[..|s| - 1] == head && IsDigit(head[|head| - 1]);
    }
  }

  /** Reading a printed number gives the number back. */
  lemma {:induction false} IntRoundTrip(n: nat)
    ensures ParseInt(Decimal(n)) == Some(n)
  {
    DigitsRoundTrip(n);
    assert IsDigit(Decimal(n)[0]);
  }

  // ----- sorting -----

  function InsertDesc<T>(x: T, sorted: seq<T>, key: T -> int): seq<T> {
    if sorted == [] || key(sorted[0]) <= key(x) then [x] + sorted
    else [sorted[0]] + InsertDesc(x, sorted[1..], key)
  }

  /** `sorted(xs, key=key, reverse=True)`: descending, and stable. */
  function SortDesc<T>(xs: seq<T>, key: T -> int): seq<T> {
    if xs == [] then [] else InsertDesc(xs[0], SortDesc(xs[1..], key), key)
  }

  ghost predicate IsDescending<T>(xs: seq<T>, key: T -> int) {
    forall i, j :: 0 <= i < j < |xs| ==> key(xs[i]) >= key(xs[j])
  }

  lemma {:induction false} InsertAdds<T>(x: T, sorted: seq<T>, key: T -> int)
    ensures multiset(InsertDesc(x, sorted, key)) == multiset(sorted) + multiset{x}
  {
    if sorted != [] && key(sorted[0]) > key(x) {
      InsertAdds(x, sorted[1..], key);
      assert sorted == [sorted[0]] + sorted[1..];
    }
  }

  lemma {:induction false} InsertKeepsOrder<T>(x: T, sorted: seq<T>, key: T -> int)
    requires IsDescending(sorted, key)
    ensures IsDescending(InsertDesc(x, sorted, key), key)
  {
    if sorted == [] || key(sorted[0]) <= key(x) {
      forall j | 0 <= j < |sorted| ensures key(sorted[j]) <= key(x) {
        assert j == 0 || key(sorted[0]) >= key(sorted[j]);
      }
    } else {
      var inserted := InsertDesc(x, sorted[1..], key);
      InsertKeepsOrder(x, sorted[1..], key);
      InsertAdds(x, sorted[1..], key);
      forall j | 0 <= j < |inserted| ensures key(sorted[0]) >= key(inserted[j]) {
        assert inserted[j] in multiset(inserted);
        assert inserted[j] in sorted[1..] || inserted[j] == x;
      }
    }
  }

  /** Sorting reorders: the same elements as often, in descending order of their keys. */
  lemma {:induction false} SortReorders<T>(xs: seq<T>, key: T -> int)
    ensures IsDescending(SortDesc(xs, key), key) && multiset(SortDesc(xs, key)) == multiset(xs)
  {
    if xs != [] {
      SortReorders(xs[1..], key);
      InsertAdds(xs[0], SortDesc(xs[1..], key), key);
      InsertKeepsOrder(xs[0], SortDesc(xs[1..], key), key);
      assert xs == [xs[0]] + xs[1..];
    }
  }

  lemma {:induction false} SortKeepsMembers<T>(xs: seq<T>, key: T -> int)
    ensures forall x :: x in SortDesc(xs, key) <==> x in xs
  {
    SortReorders(xs, key);
    assert forall x :: x in SortDesc(xs, key) <==> x in multiset(SortDesc(xs, key));
  }

  function WithKey<T>(xs: seq<T>, key: T -> int, k: int): seq<T> {
    if xs == [] then [] else (if key(xs[0]) == k then [xs[0]] else []) + WithKey(xs[1..], key, k)
  }

  lemma {:induction false} WithKeyFirst<T>(x: T, xs: seq<T>, key: T -> int, k: int)
    ensures WithKey([x] + xs, key, k) == (if key(x) == k then [x] else []) + WithKey(xs, key, k)
  {
    assert ([x] + xs)[1..] == xs;
  }

  lemma {:induction false} InsertIsStable<T>(x: T, sorted: seq<T>, key: T -> int, k: int)
    ensures WithKey(InsertDesc(x, sorted, key), key, k) == (if key(x) == k then [x] else []) + WithKey(sorted, key, k)
  {
    if sorted == [] || key(sorted[0]) <= key(x) {
      WithKeyFirst(x, sorted, key, k);
    } else {
      var rest := InsertDesc(x, sorted[1..], key);
      InsertIsStable(x, sorted[1..], key, k);
      WithKeyFirst(sorted[0], rest, key, k);
      if key(x) == k {
        assert WithKey(sorted, key, k) == WithKey(sorted[1..], key, k);
      }
    }
  }

  /** Elements of equal key keep their order. */
  lemma {:induction false} SortIsStable<T>(xs: seq<T>, key: T -> int, k: int)
    ensures WithKey(SortDesc(xs, key), key, k) == WithKey(xs, key, k)
  {
    if xs != [] {
      SortIsStable(xs[1..], key, k);
      InsertIsStable(xs[0], SortDesc(xs[1..], key), key, k);
    }
  }

  /** The elements of every key are the same, in the same order. */
  ghost predicate SameByKey<T>(a: seq<T>, b: seq<T>, key: T -> int) {
    forall k :: WithKey(a, key, k) == WithKey(b, key, k)
  }

  lemma {:induction false} WithKeyNone<T>(xs: seq<T>, key: T -> int, k: int)
    ensures WithKey(xs, key, k) == [] <==> forall i :: 0 <= i < |xs| ==> key(xs[i]) != k
  {
    if xs != [] {
      WithKeyNone(xs[1..], key, k);
      assert forall i :: 1 <= i < |xs| ==> xs[i] == xs[1..][i - 1];
    }
  }

  /** Of two sequences with the same elements of every key, in descending order, neither starts higher. */
  lemma {:induction false} StartsNoHigher<T>(a: seq<T>, b: seq<T>, key: T -> int)
    requires a != [] && IsDescending(b, key) && SameByKey(a, b, key)
    ensures b != [] && key(a[0]) <= key(b[0])
  {
    WithKeyNone(a, key, key(a[0]));
    WithKeyNone(b, key, key(a[0]));
    var i :| 0 <= i < |b| && key(b[i]) == key(a[0]);
    assert i == 0 || key(b[0]) >= key(b[i]);
  }

  lemma {:induction false} SameOrder<T>(a: seq<T>, b: seq<T>, key: T -> int)
    requires IsDescending(a, key) && IsDescending(b, key) && SameByKey(a, b, key)
    ensures a == b
  {
    if a == [] {
      if b != [] {
        StartsNoHigher(b, a, key);
      }
    } else {
      StartsNoHigher(a, b, key);
      StartsNoHigher(b, a, key);
      assert WithKey(a, key, key(a[0]))[0] == a[0] && WithKey(b, key, key(a[0]))[0] == b[0];
      forall k ensures WithKey(a[1..], key, k) == WithKey(b[1..], key, k) {
        var first := if key(a[0]) == k then [a[0]] else [];
        assert WithKey(a, key, k) == first + WithKey(a[1..], key, k);
        assert WithKey(b, key, k) == first + WithKey(b[1..], key, k);
        assert WithKey(a[1..], key, k) == WithKey(a, key, k)[|first|..];
        assert WithKey(b[1..], key, k) == WithKey(b, key, k)[|first|..];
      }
      SameOrder(a[1..], b[1..], key);
      assert a == [a[0]] + a[1..] && b == [b[0]] + b[1..];
    }
  }

  /** There is only one way to sort: descending keys, and elements of equal key in their order. */
  lemma {:induction false} SortedInOneWay<T>(xs: seq<T>, sorted: seq<T>, key: T -> int)
    ensures sorted == SortDesc(xs, key) <==>
            IsDescending(sorted, key) && SameByKey(sorted, xs, key)
  {
    SortReorders(xs, key);
    assert SameByKey(SortDesc(xs, key), xs, key) by {
      forall k ensures WithKey(SortDesc(xs, key), key, k) == WithKey(xs, key, k) {
        SortIsStable(xs, key, k);
      }
    }
    if IsDescending(sorted, key) && SameByKey(sorted, xs, key) {
      SameOrder(sorted, SortDesc(xs, key), key);
    }
  }

  /** Elements of equal key are in the order of some rank. */
  ghost predicate TiesRanked<T(!new)>(xs: seq<T>, key: T -> int, rank: T -> int) {
    forall i, j :: 0 <= i < j < |xs| && key(xs[i]) == key(xs[j]) ==> rank(xs[i]) < rank(xs[j])
  }

  lemma {:induction false} FirstKeepsTies<T(!new)>(x: T, xs: seq<T>, key: T -> int, rank: T -> int)
    requires TiesRanked(xs, key, rank) && forall y :: y in xs && key(y) == key(x) ==> rank(x) < rank(y)
    ensures TiesRanked([x] + xs, key, rank)
  {
    assert forall i :: 0 <= i < |xs| ==> xs[i] in xs;
  }

  lemma {:induction false} InsertMembers<T>(x: T, sorted: seq<T>, key: T -> int)
    ensures forall y :: y in InsertDesc(x, sorted, key) ==> y == x || y in sorted
  {
    if sorted != [] && key(sorted[0]) > key(x) {
      InsertMembers(x, sorted[1..], key);
    }
  }

  lemma {:induction false} InsertKeepsTies<T(!new)>(x: T, sorted: seq<T>, key: T -> int, rank: T -> int)
    requires TiesRanked(sorted, key, rank) && forall y :: y in sorted ==> rank(x) < rank(y)
    ensures TiesRanked(InsertDesc(x, sorted, key), key, rank)
  {
    if sorted == [] || key(sorted[0]) <= key(x) {
      FirstKeepsTies(x, sorted, key, rank);
    } else {
      var head, tail := sorted[0], sorted[1..];
      InsertKeepsTies(x, tail, key, rank);
      InsertMembers(x, tail, key);
      forall y | y in tail && key(y) == key(head) ensures rank(head) < rank(y) {
        var k :| 0 <= k < |tail| && tail[k] == y;
        assert sorted[k + 1] == y;
      }
      FirstKeepsTies(head, InsertDesc(x, tail, key), key, rank);
    }
  }

  /** Sorting keeps elements of equal key in the order they were in. */
  lemma {:induction false} SortKeepsTies<T(!new)>(xs: seq<T>, key: T -> int, rank: T -> int)
    requires forall i, j :: 0 <= i < j < |xs| ==> rank(xs[i]) < rank(xs[j])
    ensures TiesRanked(SortDesc(xs, key), key, rank)
  {
    if xs != [] {
      SortKeepsTies(xs[1..], key, rank);
      SortKeepsMembers(xs[1..], key);
      forall y | y in SortDesc(xs[1..], key) ensures rank(xs[0]) < rank(y) {
        var k :| 0 <= k < |xs[1..]| && xs[1..][k] == y;
        assert xs[k + 1] == y;
      }
      InsertKeepsTies(xs[0], SortDesc(xs[1..], key), key, rank);
    }
  }

  // ----- what the parts of the string library mean -----

  predicate AllSpaces(s: string) {
    forall i :: 0 <= i < |s| ==> IsSpace(s[i])
  }

  lemma {:induction false} StripLeftIs(s: string) returns (left: string)
    ensures AllSpaces(left) && s == left + StripLeft(s)
    ensures StripLeft(s) == "" || !IsSpace(StripLeft(s)[0])
  {
    left := "";
    if s != "" && IsSpace(s[0]) {
      var rest := StripLeftIs(s[1..]);
      left := [s[0]] + rest;
    }
  }

  lemma {:induction false} StripRightIs(s: string) returns (right: string)
    ensures AllSpaces(right) && s == StripRight(s) + right
    ensures StripRight(s) == "" || !IsSpace(StripRight(s)[|StripRight(s)| - 1])
  {
    right := "";
    if s != "" && IsSpace(s[|s| - 1]) {
      var rest := StripRightIs(s[..|s| - 1]);
      right := rest + [s[|s| - 1]];
    }
  }

  /** Stripping takes the spaces off both ends, and nothing else. */
  lemma {:induction false} StripIs(s: string) returns (left: string, right: string)
    ensures AllSpaces(left) && AllSpaces(right) && s == left + Strip(s) + right
    ensures Strip(s) == "" || (!IsSpace(Strip(s)[0]) && !IsSpace(Strip(s)[|Strip(s)| - 1]))
  {
    left := StripLeftIs(s);
    right := StripRightIs(StripLeft(s));
    assert Strip(s) != "" ==> Strip(s)[0] == StripLeft(s)[0];
  }

  lemma {:induction false} WordIs(s: string) returns (rest: string)
    ensures s == Word(s) + rest && NoSpaces(Word(s)) && (rest == "" || IsSpace(rest[0]))
  {
    if s == "" || IsSpace(s[0]) {
      rest := s;
    } else {
      rest := WordIs(s[1..]);
      assert s == [s[0]] + s[1..];
    }
  }

  /** The first word comes after nothing but spaces, and ends before the next one; there is none in a blank text. */
  lemma {:induction false} FirstWordExactly(s: string) returns (left: string, rest: string)
    ensures FirstWord(s).None? <==> AllSpaces(s)
    ensures FirstWord(s).Some? ==>
              && s == left + FirstWord(s).value + rest && AllSpaces(left) && FirstWord(s).value != ""
              && NoSpaces(FirstWord(s).value) && (rest == "" || IsSpace(rest[0]))
  {
    left := StripLeftIs(s);
    rest := WordIs(StripLeft(s));
    if StripLeft(s) != "" {
      assert s[|left|] == StripLeft(s)[0];
    }
  }

  /** The second piece lies between the first two occurrences, or between the first one and the end. */
  ghost predicate LiesBetween(s: string, part: string, i: nat, j: nat, piece: string) {
    && FoundAt(s, part, i) && (forall k: nat :: k < i ==> !FoundAt(s, part, k)) && i + |part| <= j <= |s|
    && piece == s[i + |part|..j] && (j == |s| || FoundAt(s, part, j))
    && forall k: nat :: i + |part| <= k < j ==> !FoundAt(s, part, k)
  }

  lemma {:induction false} SecondPieceExactly(s: string, part: string) returns (i: nat, j: nat)
    requires part != ""
    ensures SecondPiece(s, part).None? <==> forall k: nat :: !FoundAt(s, part, k)
    ensures SecondPiece(s, part).Some? ==> LiesBetween(s, part, i, j, SecondPiece(s, part).value)
  {
    i, j := 0, 0;
    var first := Find(s, part, 0);
    if first.Some? {
      i := first.value;
      var next := Find(s, part, i + |part|);
      j := if next.None? then |s| else next.value;
      assert s[i + |part|..] == s[i + |part|..|s|];
    }
  }

  /** How digits are read: each one more makes it ten times as much, and a single underscore may stand before it. */
  lemma {:induction false} DigitsAreRead(s: string, n: nat, c: char)
    requires ParseDigits(s) == Some(n) && IsDigit(c)
    ensures ParseDigits([c]) == Some(c as int - '0' as int)
    ensures ParseDigits(s + [c]) == Some(10 * n + (c as int - '0' as int))
    ensures ParseDigits(s + "_" + [c]) == Some(10 * n + (c as int - '0' as int))
  {
    assert (s + [c])[..|s|] == s;
    var t := s + "_" + [c];
    assert t[..|t| - 1] == s + "_" && (s + "_")[..|s|] == s;
  }

  lemma {:induction false} SignsAreRead(n: nat)
    ensures ParseInt("-" + Decimal(n)).Some? && ParseInt("-" + Decimal(n)).value == 0 - n
    ensures ParseInt("+" + Decimal(n)).Some? && ParseInt("+" + Decimal(n)).value == n
  {
    DigitsRoundTrip(n);
    assert ("-" + Decimal(n))[1..] == Decimal(n) && ("+" + Decimal(n))[1..] == Decimal(n);
  }
}
