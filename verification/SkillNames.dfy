/** Skill names: `slugify_skill_name` and `validate_name` in `crates/agent_skills/agent_skills.rs`. */
module SkillNames {
  import opened Options

  const MAX_SKILL_NAME_LEN := 64

  predicate IsLower(c: char) { 'a' <= c <= 'z' }
  predicate IsUpper(c: char) { 'A' <= c <= 'Z' }
  predicate IsDigit(c: char) { '0' <= c <= '9' }
  predicate IsAlphanumeric(c: char) { IsLower(c) || IsUpper(c) || IsDigit(c) }
  predicate IsNameChar(c: char) { IsLower(c) || IsDigit(c) || c == '-' }

  function ToLower(c: char): char {
    if IsUpper(c) then (c as int + 32) as char else c
  }

  /** The number of bytes of a string in UTF-8. */
  function ByteLength(s: string): nat {
    if s == "" then 0
    else
      var n := s[0] as int;
      (if n < 0x80 then 1 else if n < 0x800 then 2 else if n < 0x10000 then 3 else 4) + ByteLength(s[1..])
  }

  // ----- validation -----

  datatype NameError = EmptyName | TooLong | EdgeHyphen | BadCharacter

  function ValidateName(name: string): Option<NameError> {
    if name == "" then Some(EmptyName)
    else if ByteLength(name) > MAX_SKILL_NAME_LEN then Some(TooLong)
    else if name[0] == '-' || name[|name| - 1] == '-' then Some(EdgeHyphen)
    else if !AllNameChars(name) then Some(BadCharacter)
    else None
  }

  predicate AllNameChars(s: string) {
    forall i :: 0 <= i < |s| ==> IsNameChar(s[i])
  }

  predicate IsValid(name: string) {
    ValidateName(name).None?
  }

  predicate NoDoubleHyphen(s: string) {
    forall i :: 0 <= i < |s| - 1 ==> !(s[i] == '-' && s[i + 1] == '-')
  }

  // ----- slugs -----

  /** `input.replace('&', "-and-")`. */
  function Expanded(s: string): string {
    if s == "" then "" else (if s[0] == '&' then "-and-" else [s[0]]) + Expanded(s[1..])
  }

  /** What a character becomes: a letter or digit in lower case, a hyphen, or nothing. */
  function Mapped(c: char): Option<char> {
    if IsAlphanumeric(c) then Some(ToLower(c)) else if c == ' ' || c == '-' then Some('-') else None
  }

  predicate EndsInHyphen(s: string) {
    s != "" && s[|s| - 1] == '-'
  }

  /** One turn of the loop; a hyphen is kept only after something else. */
  function Push(slug: string, c: char): string {
    var m := Mapped(c);
    if m.None? then slug
    else if m.value == '-' && (slug == "" || EndsInHyphen(slug)) then slug
    else slug + [m.value]
  }

  function Collapsed(s: string): string {
    if s == "" then "" else Push(Collapsed(s[..|s| - 1]), s[|s| - 1])
  }

  function TrimHyphens(s: string): string {
    if EndsInHyphen(s) then TrimHyphens(s[..|s| - 1]) else s
  }

  /** The end of the slug: one trailing hyphen goes, and a long slug is cut and trimmed. */
  function Finished(slug: string): Option<string> {
    var s1 := if EndsInHyphen(slug) then slug[..|slug| - 1] else slug;
    var s2 := if |s1| > MAX_SKILL_NAME_LEN then TrimHyphens(s1[..MAX_SKILL_NAME_LEN]) else s1;
    if s2 == "" then None else Some(s2)
  }

  function Slug(input: string): Option<string> {
    Finished(Collapsed(Expanded(input)))
  }

  method CollapseHyphens(s: string) returns (slug: string)
    ensures slug == Collapsed(s)
  {
    slug := "";
    var lastWasHyphen := true;
    for i := 0 to |s|
      invariant slug == Collapsed(s[..i]) && (lastWasHyphen <==> slug == "" || EndsInHyphen(slug))
    {
      assert s[..i + 1][..i] == s[..i];
      var m := Mapped(s[i]);
      if m.Some? {
        if m.value == '-' {
          if !lastWasHyphen {
            lastWasHyphen := true;
            slug := slug + [m.value];
          }
        } else {
          lastWasHyphen := false;
          slug := slug + [m.value];
        }
      }
    }
    assert s[..|s|] == s;
  }

  method SlugifySkillName(input: string) returns (result: Option<string>)
    ensures result == Slug(input)
  {
    var slug := CollapseHyphens(Expanded(input));
    ghost var collapsed := slug;
    if EndsInHyphen(slug) {
      slug := slug[..|slug| - 1];
    }
    if |slug| > MAX_SKILL_NAME_LEN {
      slug := slug[..MAX_SKILL_NAME_LEN];
      ghost var cut := slug;
      while EndsInHyphen(slug)
        invariant TrimHyphens(slug) == TrimHyphens(cut)
        decreases |slug|
      {
        slug := slug[..|slug| - 1];
      }
    }
    result := if slug == "" then None else Some(slug);
  }

  // ----- what slugs look like -----

  /** What the loop keeps: name characters, no leading and no double hyphen. */
  predicate IsShaped(s: string) {
    AllNameChars(s) && NoDoubleHyphen(s) && (s == "" || s[0] != '-')
  }

  lemma {:induction false} PushKeepsShape(slug: string, c: char)
    requires IsShaped(slug)
    ensures IsShaped(Push(slug, c))
  {
  }

  lemma {:induction false} CollapsedIsShaped(s: string)
    ensures IsShaped(Collapsed(s))
  {
    if s != "" {
      CollapsedIsShaped(s[..|s| - 1]);
      PushKeepsShape(Collapsed(s[..|s| - 1]), s[|s| - 1]);
    }
  }

  predicate HasAlphanumeric(s: string) {
    exists i :: 0 <= i < |s| && IsAlphanumeric(s[i])
  }

  lemma {:induction false} CollapsedEmpty(s: string)
    ensures Collapsed(s) != "" <==> HasAlphanumeric(s)
  {
    if s != "" {
      var front, last := s[..|s| - 1], s[|s| - 1];
      CollapsedEmpty(front);
      assert HasAlphanumeric(s) <==> HasAlphanumeric(front) || IsAlphanumeric(last) by {
        if HasAlphanumeric(front) {
          var i :| 0 <= i < |front| && IsAlphanumeric(front[i]);
          assert IsAlphanumeric(s[i]);
        }
      }
    }
  }

  /** Whether anything of the input survives. */
  predicate HasSlugChar(s: string) {
    exists i :: 0 <= i < |s| && (IsAlphanumeric(s[i]) || s[i] == '&')
  }

  lemma {:induction false} AlphanumericInBoth(a: string, b: string)
    ensures HasAlphanumeric(a + b) <==> HasAlphanumeric(a) || HasAlphanumeric(b)
  {
    var ab := a + b;
    if HasAlphanumeric(a) {
      var i :| 0 <= i < |a| && IsAlphanumeric(a[i]);
      assert IsAlphanumeric(ab[i]);
    }
    if HasAlphanumeric(b) {
      var i :| 0 <= i < |b| && IsAlphanumeric(b[i]);
      assert IsAlphanumeric(ab[|a| + i]);
    }
  }

  lemma {:induction false} ExpandedHasAlphanumeric(s: string)
    ensures HasAlphanumeric(Expanded(s)) <==> HasSlugChar(s)
  {
    if s != "" {
      ExpandedHasAlphanumeric(s[1..]);
      var head := if s[0] == '&' then "-and-" else [s[0]];
      AlphanumericInBoth(head, Expanded(s[1..]));
      assert HasAlphanumeric(head) <==> IsAlphanumeric(s[0]) || s[0] == '&' by {
        if s[0] == '&' {
          assert IsAlphanumeric(head[1]);
        } else {
          assert head[0] == s[0];
        }
      }
      assert HasSlugChar(s) <==> IsAlphanumeric(s[0]) || s[0] == '&' || HasSlugChar(s[1..]) by {
        if HasSlugChar(s[1..]) {
          var i :| 0 <= i < |s[1..]| && (IsAlphanumeric(s[1..][i]) || s[1..][i] == '&');
          assert s[i + 1] == s[1..][i];
        }
      }
    }
  }

  lemma {:induction false} TrimKeepsShape(s: string)
    requires IsShaped(s)
    ensures IsShaped(TrimHyphens(s)) && !EndsInHyphen(TrimHyphens(s)) && |TrimHyphens(s)| <= |s|
    ensures s != "" ==> TrimHyphens(s) != ""
    decreases |s|
  {
    if EndsInHyphen(s) {
      TrimKeepsShape(s[..|s| - 1]);
    }
  }

  lemma {:induction false} FinishedIsName(slug: string)
    requires IsShaped(slug)
    ensures Finished(slug).None? <==> slug == ""
    ensures Finished(slug).Some? ==>
              var name := Finished(slug).value;
              IsShaped(name) && name != "" && !EndsInHyphen(name) && |name| <= MAX_SKILL_NAME_LEN
  {
    var s1 := if EndsInHyphen(slug) then slug[..|slug| - 1] else slug;
    assert IsShaped(s1);
    if |s1| > MAX_SKILL_NAME_LEN {
      assert IsShaped(s1[..MAX_SKILL_NAME_LEN]);
      TrimKeepsShape(s1[..MAX_SKILL_NAME_LEN]);
    }
  }

  lemma {:induction false} NameBytes(s: string)
    requires AllNameChars(s)
    ensures ByteLength(s) == |s|
  {
    if s != "" {
      NameBytes(s[1..]);
    }
  }

  /** A slug is a valid name without a double hyphen, and there is none exactly if the input has no ASCII letter, digit
      or ampersand. */
  lemma {:induction false} SlugIsValid(input: string)
    ensures Slug(input).None? <==> !HasSlugChar(input)
    ensures Slug(input).Some? ==> IsValid(Slug(input).value) && NoDoubleHyphen(Slug(input).value)
  {
    var slug := Collapsed(Expanded(input));
    CollapsedIsShaped(Expanded(input));
    CollapsedEmpty(Expanded(input));
    ExpandedHasAlphanumeric(input);
    FinishedIsName(slug);
    if Slug(input).Some? {
      NameBytes(Slug(input).value);
    }
  }

  // ----- fixed points -----

  lemma {:induction false} ShapedIsExpanded(s: string)
    requires AllNameChars(s)
    ensures Expanded(s) == s
  {
    if s != "" {
      assert IsNameChar(s[0]);
      ShapedIsExpanded(s[1..]);
    }
  }

  lemma {:induction false} ShapedIsCollapsed(s: string)
    requires IsShaped(s)
    ensures Collapsed(s) == s
  {
    if s != "" {
      var front := s[..|s| - 1];
      assert IsShaped(front);
      ShapedIsCollapsed(front);
      assert IsNameChar(s[|s| - 1]);
      if EndsInHyphen(front) {
        assert !(s[|s| - 2] == '-' && s[|s| - 2 + 1] == '-');
      }
    }
  }

  /** The names that slugify to themselves are exactly the valid ones without a double hyphen. */
  lemma {:induction false} FixedPoints(name: string)
    ensures Slug(name) == Some(name) <==> IsValid(name) && NoDoubleHyphen(name)
  {
    SlugIsValid(name);
    if IsValid(name) && NoDoubleHyphen(name) {
      NameBytes(name);
      ShapedIsExpanded(name);
      ShapedIsCollapsed(name);
    }
  }

  /** Slugifying a slug changes nothing. */
  lemma {:induction false} SlugIsIdempotent(input: string)
    ensures Slug(input).Some? ==> Slug(Slug(input).value) == Slug(input)
  {
    SlugIsValid(input);
    if Slug(input).Some? {
      FixedPoints(Slug(input).value);
    }
  }

  // ----- the words of a slug -----

  /** A letter in lower case, or a digit. */
  function Lowered(c: char): string {
    if 'A' <= c <= 'Z' then ["abcdefghijklmnopqrstuvwxyz"[c as int - 'A' as int]]
    else if 'a' <= c <= 'z' || '0' <= c <= '9' then [c]
    else ""
  }

  /** The pieces between spaces, hyphens and ampersands, reduced to their letters and digits; an ampersand is a piece of
      its own, spelled out. The last piece is the one still growing. */
  function Pieces(input: string): (ps: seq<string>)
    ensures ps != []
  {
    if input == "" then [""]
    else
      var before, c := Pieces(input[..|input| - 1]), input[|input| - 1];
      if c == ' ' || c == '-' then before + [""]
      else if c == '&' then before + ["and", ""]
      else before[..|before| - 1] + [before[|before| - 1] + Lowered(c)]
  }

  /** The pieces that are not empty, with hyphens between them. */
  function Hyphenated(ps: seq<string>): string {
    if ps == [] then ""
    else
      var front, last := Hyphenated(ps[..|ps| - 1]), ps[|ps| - 1];
      if last == "" then front else if front == "" then last else front + "-" + last
  }

  /** What the loop has collected: the words so far and, after a separator, the hyphen that the next one needs. */
  function Collected(ps: seq<string>): string
    requires ps != []
  {
    Hyphenated(ps) + if ps[|ps| - 1] == "" && Hyphenated(ps) != "" then "-" else ""
  }

  ghost predicate AreWords(ps: seq<string>) {
    forall i, j :: 0 <= i < |ps| && 0 <= j < |ps[i]| ==> IsLower(ps[i][j]) || IsDigit(ps[i][j])
  }

  lemma {:induction false} LoweredIsMapped(c: char)
    ensures Lowered(c) == if IsAlphanumeric(c) then [ToLower(c)] else ""
    ensures Lowered(c) != "" ==> |Lowered(c)| == 1 && (IsLower(Lowered(c)[0]) || IsDigit(Lowered(c)[0]))
  {
  }

  lemma {:induction false} ExpandedMore(s: string, c: char)
    ensures Expanded(s + [c]) == Expanded(s) + if c == '&' then "-and-" else [c]
  {
    if s == "" {
      assert (s + [c])[1..] == "";
    } else {
      assert (s + [c])[1..] == s[1..] + [c];
      ExpandedMore(s[1..], c);
    }
  }

  lemma {:induction false} CollapsedMore(s: string, c: char)
    ensures Collapsed(s + [c]) == Push(Collapsed(s), c)
  {
    assert (s + [c])[..|s|] == s;
  }

  lemma {:induction false} WordsEnd(ps: seq<string>)
    requires AreWords(ps)
    ensures !EndsInHyphen(Hyphenated(ps))
  {
    if ps != [] {
      var front, last := ps[..|ps| - 1], ps[|ps| - 1];
      WordsEnd(front);
      assert last != "" ==> IsLower(last[|last| - 1]) || IsDigit(last[|last| - 1]);
    }
  }

  lemma {:induction false} HyphenatedMore(ps: seq<string>, last: string)
    ensures var front := Hyphenated(ps);
            Hyphenated(ps + [last]) == if last == "" then front else if front == "" then last else front + "-" + last
  {
    assert (ps + [last])[..|ps|] == ps;
  }

  /** A separator closes the word that is growing. */
  lemma {:induction false} SeparatorStep(ps: seq<string>, c: char)
    requires ps != [] && AreWords(ps) && (c == ' ' || c == '-')
    ensures AreWords(ps + [""]) && Push(Collected(ps), c) == Collected(ps + [""])
  {
    WordsEnd(ps);
    HyphenatedMore(ps, "");
  }

  /** Any other character adds its letter or digit, if it is one, to the word that is growing. */
  lemma {:induction false} LetterStep(ps: seq<string>, last: string, c: char)
    requires AreWords(ps + [last]) && c != ' ' && c != '-'
    ensures AreWords(ps + [last + Lowered(c)]) && Push(Collected(ps + [last]), c) == Collected(ps + [last + Lowered(c)])
  {
    LoweredIsMapped(c);
    HyphenatedMore(ps, last);
    HyphenatedMore(ps, last + Lowered(c));
    var now := ps + [last + Lowered(c)];
    forall i, j | 0 <= i < |now| && 0 <= j < |now[i]| ensures IsLower(now[i][j]) || IsDigit(now[i][j]) {
      if i == |ps| && j < |last| {
        assert (ps + [last])[i] == last;
      } else if i < |ps| {
        assert (ps + [last])[i] == now[i];
      }
    }
    if Lowered(c) == "" {
      assert last + Lowered(c) == last;
    }
  }

  lemma {:induction false} SeparatorMore(s: string, ps: seq<string>, c: char)
    requires ps != [] && AreWords(ps) && (c == ' ' || c == '-') && Collapsed(s) == Collected(ps)
    ensures AreWords(ps + [""]) && Collapsed(s + [c]) == Collected(ps + [""])
  {
    SeparatorStep(ps, c);
    CollapsedMore(s, c);
  }

  lemma {:induction false} LetterMore(s: string, ps: seq<string>, last: string, c: char, now: string)
    requires AreWords(ps + [last]) && c != ' ' && c != '-' && Collapsed(s) == Collected(ps + [last])
    requires now == last + Lowered(c)
    ensures AreWords(ps + [now]) && Collapsed(s + [c]) == Collected(ps + [now])
  {
    LetterStep(ps, last, c);
    CollapsedMore(s, c);
  }

  lemma {:induction false} AndMore(s: string, ps: seq<string>)
    requires AreWords(ps + [""]) && Collapsed(s) == Collected(ps + [""])
    ensures AreWords(ps + ["and"]) && Collapsed(s + ['a'] + ['n'] + ['d']) == Collected(ps + ["and"])
  {
    LetterMore(s, ps, "", 'a', "a");
    LetterMore(s + ['a'], ps, "a", 'n', "an");
    LetterMore(s + ['a'] + ['n'], ps, "an", 'd', "and");
  }

  lemma {:induction false} AmpersandMore(s: string, ps: seq<string>)
    requires ps != [] && AreWords(ps) && Collapsed(s) == Collected(ps)
    ensures AreWords(ps + ["and"] + [""])
    ensures Collapsed(s + ['-'] + ['a'] + ['n'] + ['d'] + ['-']) == Collected(ps + ["and"] + [""])
  {
    SeparatorMore(s, ps, '-');
    AndMore(s + ['-'], ps);
    SeparatorMore(s + ['-'] + ['a'] + ['n'] + ['d'], ps + ["and"], '-');
  }

  /** The loop collects the words of the input. */
  lemma {:induction false} CollapsedIsCollected(input: string)
    ensures AreWords(Pieces(input)) && Collapsed(Expanded(input)) == Collected(Pieces(input))
  {
    if input == "" {
      HyphenatedMore([], "");
      assert [] + [""] == [""];
    } else {
      var front, c := input[..|input| - 1], input[|input| - 1];
      CollapsedIsCollected(front);
      assert input == front + [c];
      ExpandedMore(front, c);
      CollectsMore(Expanded(front), Pieces(front), c);
    }
  }

  lemma {:induction false} CollectsMore(s: string, before: seq<string>, c: char)
    requires before != [] && AreWords(before) && Collapsed(s) == Collected(before)
    ensures var now := if c == ' ' || c == '-' then before + [""]
                       else if c == '&' then before + ["and", ""]
                       else before[..|before| - 1] + [before[|before| - 1] + Lowered(c)];
            AreWords(now) && Collapsed(s + if c == '&' then "-and-" else [c]) == Collected(now)
  {
    if c == '&' {
      AmpersandMore(s, before);
      assert s + ['-'] + ['a'] + ['n'] + ['d'] + ['-'] == s + "-and-";
      assert before + ["and"] + [""] == before + ["and", ""];
    } else if c == ' ' || c == '-' {
      SeparatorMore(s, before, c);
    } else {
      var front, last := before[..|before| - 1], before[|before| - 1];
      assert before == front + [last];
      LetterMore(s, front, last, c, last + Lowered(c));
    }
  }

  lemma {:induction false} TrimsOneHyphen(s: string)
    requires IsShaped(s) && s != ""
    ensures TrimHyphens(s) == if s[|s| - 1] == '-' then s[..|s| - 1] else s
  {
    if s[|s| - 1] == '-' {
      var k := |s| - 2;
      assert !(s[k + 1] == '-' && s[k] == '-');
      assert !EndsInHyphen(s[..k + 1]);
    }
  }

  lemma {:induction false} CutExactly(full: string)
    requires IsShaped(full) && !EndsInHyphen(full)
    ensures Finished(full) ==
            if full == "" then None
            else if |full| <= 64 then Some(full)
            else Some(if full[63] == '-' then full[..63] else full[..64])
  {
    if |full| > 64 {
      var cut := full[..64];
      assert IsShaped(cut);
      TrimsOneHyphen(cut);
      assert cut[..63] == full[..63];
    }
  }

  lemma {:induction false} OneHyphenGoes(full: string)
    requires !EndsInHyphen(full)
    ensures Finished(full + "-") == Finished(full)
  {
    assert (full + "-")[..|full|] == full;
  }

  /** The slug is the words of the input, in lower case and with hyphens between them. If that is too long it is cut,
      and a hyphen at the cut goes as well. */
  lemma {:induction false} SlugExactly(input: string)
    ensures var full := Hyphenated(Pieces(input));
            Slug(input) ==
            if full == "" then None
            else if |full| <= 64 then Some(full)
            else Some(if full[63] == '-' then full[..63] else full[..64])
  {
    var full := Hyphenated(Pieces(input));
    CollapsedIsCollected(input);
    CollapsedIsShaped(Expanded(input));
    WordsEnd(Pieces(input));
    assert full <= Collapsed(Expanded(input));
    assert IsShaped(full);
    CutExactly(full);
    OneHyphenGoes(full);
    assert full + "" == full;
  }

  /** Validity in plain terms. */
  lemma {:induction false} ValidExactly(name: string)
    ensures IsValid(name) <==>
            && 1 <= |name| <= 64 && name[0] != '-' && name[|name| - 1] != '-'
            && forall i :: 0 <= i < |name| ==> 'a' <= name[i] <= 'z' || '0' <= name[i] <= '9' || name[i] == '-'
  {
    if AllNameChars(name) {
      NameBytes(name);
    }
  }
}
