/** Reading the printed tracking issue gives back what was printed. */
module MagnetRoundTrip {
  import opened Options
  import opened Text
  import opened DuplicateMagnets

  const OWNER := "zed-industries"
  const REPO := "zed"

  function RepositoryUrl(): string {
    "https:" + ("/" + ("/github.com" + ("/" + (OWNER + ("/" + REPO)))))
  }

  function IssueUrl(number: nat): string {
    RepositoryUrl() + ISSUES + Decimal(number)
  }

  /** Area names as labels have them: one line, not blank, no space at either end. */
  predicate IsAreaName(area: string) {
    area != "" && OneLine(area) && !IsSpace(area[0]) && !IsSpace(area[|area| - 1])
  }

  /** What the printer is given: distinct issues of the repository, each under at least one area. */
  ghost predicate Printable(infos: seq<Info>) {
    && (forall i, j :: 0 <= i < j < |infos| ==> infos[i].number != infos[j].number)
    && (forall i :: 0 <= i < |infos| ==> infos[i].url == IssueUrl(infos[i].number) && infos[i].areas != [])
    && (forall i, k :: 0 <= i < |infos| && 0 <= k < |infos[i].areas| ==> IsAreaName(infos[i].areas[k]))
  }

  // ----- one issue line -----

  /** No occurrence of `/issues/` starts within such a text, whatever follows it. */
  predicate NoIssuesStart(s: string) {
    forall i :: 0 <= i < |s| && s[i] == '/' ==> i + 1 < |s| && s[i + 1] != 'i'
  }

  lemma {:induction false} NoStartInBoth(a: string, b: string)
    requires NoIssuesStart(a) && NoIssuesStart(b)
    ensures NoIssuesStart(a + b)
  {
    forall i | 0 <= i < |a + b| && (a + b)[i] == '/' ensures i + 1 < |a + b| && (a + b)[i + 1] != 'i' {
      if |a| <= i {
        assert b[i - |a|] == '/';
      }
    }
  }

  lemma {:induction false} NoStartAfterSlash(s: string)
    requires s != "" && s[0] != 'i' && NoIssuesStart(s)
    ensures NoIssuesStart("/" + s)
  {
    forall i | 0 <= i < |"/" + s| && ("/" + s)[i] == '/' ensures i + 1 < |"/" + s| && ("/" + s)[i + 1] != 'i' {
      if i > 0 {
        assert s[i - 1] == '/';
      }
    }
  }

  lemma {:induction false} NoStartWithoutSlash(s: string)
    requires '/' !in s
    ensures NoIssuesStart(s)
  {
  }

  lemma {:induction false} NoStartInRepository()
    ensures NoIssuesStart(RepositoryUrl())
  {
    NoStartWithoutSlash(REPO);
    NoStartAfterSlash(REPO);
    NoStartWithoutSlash(OWNER);
    NoStartInBoth(OWNER, "/" + REPO);
    NoStartAfterSlash(OWNER + ("/" + REPO));
    NoStartWithoutSlash("github.com");
    assert "/" + "github.com" == "/github.com";
    NoStartAfterSlash("github.com");
    NoStartInBoth("/github.com", "/" + (OWNER + ("/" + REPO)));
    NoStartAfterSlash("/github.com" + ("/" + (OWNER + ("/" + REPO))));
    NoStartWithoutSlash("https:");
    NoStartInBoth("https:", "/" + ("/github.com" + ("/" + (OWNER + ("/" + REPO)))));
  }

  lemma {:induction false} FoundStarts(s: string, part: string, i: nat)
    requires part != ""
    ensures FoundAt(s, part, i) ==> s[i] == part[0]
    ensures FoundAt(s, part, i) && |part| > 1 ==> s[i + 1] == part[1]
  {
    if FoundAt(s, part, i) {
      assert s[i..i + |part|][0] == s[i];
      assert |part| > 1 ==> s[i..i + |part|][1] == s[i + 1];
    }
  }

  /** The text after the only occurrence of `/issues/`. */
  lemma {:induction false} AfterIssues(a: string, b: string)
    requires NoIssuesStart(a) && '/' !in b
    ensures SecondPiece(a + ISSUES + b, ISSUES) == Some(b) && Contains(a + ISSUES + b, ISSUES)
  {
    var s := a + ISSUES + b;
    assert FoundAt(s, ISSUES, |a|);
    forall i | 0 <= i < |a| ensures !FoundAt(s, ISSUES, i) {
      FoundStarts(s, ISSUES, i);
      assert s[i] == a[i] && (i + 1 < |a| ==> s[i + 1] == a[i + 1]);
    }
    var start := |a| + |ISSUES|;
    assert s[start..] == b;
    forall j | start <= j ensures !FoundAt(s, ISSUES, j) {
      FoundStarts(s, ISSUES, j);
      assert j < |s| ==> s[j] == b[j - start];
    }
  }

  lemma {:induction false} AfterBracket(a: string, b: string)
    requires '[' !in a && '[' !in b
    ensures SecondPiece(a + "[" + b, "[") == Some(b)
  {
    var s := a + "[" + b;
    assert FoundAt(s, "[", |a|);
    forall i | 0 <= i < |a| ensures !FoundAt(s, "[", i) {
      FoundStarts(s, "[", i);
      assert s[i] == a[i];
    }
    assert s[|a| + 1..] == b;
    forall j | |a| + 1 <= j ensures !FoundAt(s, "[", j) {
      FoundStarts(s, "[", j);
      assert j < |s| ==> s[j] == b[j - |a| - 1];
    }
  }

  lemma {:induction false} PlainNumber(n: nat)
    ensures NoSpaces(Decimal(n)) && StripParens(Decimal(n)) == Decimal(n)
    ensures forall c :: c in Decimal(n) || c in Padded(n) ==> IsDigit(c) || c == ' '
  {
    var s := Decimal(n);
    assert IsDigit(s[|s| - 1]);
  }

  /** Neither a bracket nor a line end. */
  predicate IsPlain(s: string) {
    '[' !in s && OneLine(s)
  }

  lemma {:induction false} PlainUrl(n: nat)
    ensures IsPlain(IssueUrl(n)) && '/' !in Decimal(n)
  {
    PlainNumber(n);
    PlainRepository();
    assert IsPlain(Decimal(n)) && IsPlain(ISSUES);
    assert IsPlain(RepositoryUrl() + ISSUES);
  }

  lemma {:induction false} PlainRepository()
    ensures IsPlain(RepositoryUrl())
  {
    assert IsPlain(OWNER + ("/" + REPO)) by {
      assert IsPlain(OWNER) && IsPlain("/" + REPO);
    }
    assert IsPlain("/" + (OWNER + ("/" + REPO)));
    assert IsPlain("/github.com" + ("/" + (OWNER + ("/" + REPO)))) by {
      assert IsPlain("/github.com");
    }
    assert IsPlain("/" + ("/github.com" + ("/" + (OWNER + ("/" + REPO)))));
    assert IsPlain("https:");
  }

  lemma {:induction false} BracketIsFound(count: nat, tail: string)
    requires '[' !in tail
    ensures SecondPiece("-   [" + Padded(count) + tail, "[") == Some(Padded(count) + tail)
  {
    PlainNumber(count);
    var rest := Padded(count) + tail;
    AfterBracket("-   ", rest);
    assert "-   [" == "-   " + "[";
    assert "-   [" + Padded(count) + tail == "-   " + "[" + rest;
  }

  lemma {:induction false} PaddedWord(count: nat, tail: string)
    requires tail != "" && IsSpace(tail[0])
    ensures FirstWord(Padded(count) + tail) == Some(Decimal(count))
  {
    PlainNumber(count);
    FirstWordIs(Decimal(count), tail);
    assert " " + (Decimal(count) + tail) == " " + Decimal(count) + tail;
  }

  lemma {:induction false} CountIsRead(info: Info)
    requires IsPlain(info.url)
    ensures var counted := SecondPiece(IssueLine(info), "[");
            counted.Some? && FirstWord(counted.value) == Some(Decimal(info.count))
  {
    var tail := " dupes] " + info.url;
    assert '[' !in " dupes] ";
    BracketIsFound(info.count, tail);
    PaddedWord(info.count, tail);
    assert "-   [" + Padded(info.count) + tail == IssueLine(info);
  }

  lemma {:induction false} NumberIsRead(info: Info)
    requires info.url == IssueUrl(info.number)
    ensures var linked := SecondPiece(IssueLine(info), ISSUES);
            linked.Some? && FirstWord(linked.value) == Some(Decimal(info.number)) && Contains(IssueLine(info), ISSUES)
  {
    var before := BeforeLink(info);
    LinkIsRead(info, before);
  }

  lemma {:induction false} LinkIsRead(info: Info, before: string)
    requires IssueLine(info) == before + ISSUES + Decimal(info.number) && NoIssuesStart(before)
    ensures var linked := SecondPiece(IssueLine(info), ISSUES);
            linked.Some? && FirstWord(linked.value) == Some(Decimal(info.number)) && Contains(IssueLine(info), ISSUES)
  {
    PlainNumber(info.number);
    AfterIssues(before, Decimal(info.number));
    assert Decimal(info.number) + "" == Decimal(info.number);
    FirstWordIs(Decimal(info.number), "");
  }

  /** An issue line is read as the numbers that were printed in it. */
  lemma {:induction false} LineIsRead(info: Info)
    requires info.url == IssueUrl(info.number)
    ensures ReadNumbers(IssueLine(info)) == Some((info.count, info.number)) && Contains(IssueLine(info), ISSUES)
  {
    PlainUrl(info.number);
    CountIsRead(info);
    NumberIsRead(info);
    PlainNumber(info.number);
    IntRoundTrip(info.count);
    IntRoundTrip(info.number);
  }

  function Parens(k: nat): string {
    if k == 0 then "" else Parens(k - 1) + ")"
  }

  lemma {:induction false} ParensAreStripped(word: string, k: nat)
    requires word != "" && word[|word| - 1] != ')'
    ensures StripParens(word + Parens(k)) == word
  {
    if k == 0 {
      assert word + Parens(k) == word;
    } else {
      ParensAreStripped(word, k - 1);
      var s := word + Parens(k);
      assert s[..|s| - 1] == word + Parens(k - 1);
    }
  }

  lemma {:induction false} OnlyParens(k: nat)
    ensures forall c :: c in Parens(k) ==> c == ')'
  {
    if k > 0 {
      OnlyParens(k - 1);
    }
  }

  lemma {:induction false} EditedCount(info: Info, tail: string)
    requires IsPlain(info.url) && '[' !in tail
    ensures var counted := SecondPiece(IssueLine(info) + tail, "[");
            counted.Some? && FirstWord(counted.value) == Some(Decimal(info.count))
  {
    var all := " dupes] " + info.url + tail;
    assert '[' !in " dupes] ";
    BracketIsFound(info.count, all);
    PaddedWord(info.count, all);
    assert "-   [" + Padded(info.count) + all == IssueLine(info) + tail;
  }

  lemma {:induction false} BeforeLink(info: Info) returns (before: string)
    requires info.url == IssueUrl(info.number)
    ensures IssueLine(info) == before + ISSUES + Decimal(info.number) && NoIssuesStart(before)
  {
    var head := "-   [" + Padded(info.count) + " dupes] ";
    PlainNumber(info.count);
    NoStartInRepository();
    NoStartWithoutSlash(head);
    NoStartInBoth(head, RepositoryUrl());
    before := head + RepositoryUrl();
  }

  lemma {:induction false} EditedNumber(before: string, word: string, rest: string)
    requires NoIssuesStart(before) && word != "" && NoSpaces(word) && '/' !in word
    requires '/' !in rest && (rest == "" || IsSpace(rest[0]))
    ensures var linked := SecondPiece(before + ISSUES + (word + rest), ISSUES);
            linked.Some? && FirstWord(linked.value) == Some(word)
  {
    AfterIssues(before, word + rest);
    FirstWordIs(word, rest);
  }

  lemma {:induction false} Regrouped(a: string, b: string, c: string, d: string, e: string)
    ensures a + b + c + (d + e) == a + b + (c + d + e)
  {
  }

  /** The number with its closing parentheses is one word, and reads as the number. */
  lemma {:induction false} EditedWord(n: nat, k: nat)
    ensures var word := Decimal(n) + Parens(k);
            word != "" && NoSpaces(word) && '/' !in word && ParseInt(StripParens(word)) == Some(n)
    ensures '[' !in Parens(k)
  {
    PlainUrl(n);
    PlainNumber(n);
    OnlyParens(k);
    ParensAreStripped(Decimal(n), k);
    IntRoundTrip(n);
    var word := Decimal(n) + Parens(k);
    forall i | 0 <= i < |word| ensures !IsSpace(word[i]) {
      if i < |Decimal(n)| {
        assert word[i] == Decimal(n)[i];
      } else {
        assert word[i] in Parens(k);
      }
    }
  }

  lemma {:induction false} NumbersAreRead(line: string, countWord: string, numberWord: string, count: int, number: int)
    requires SecondPiece(line, "[").Some? && FirstWord(SecondPiece(line, "[").value) == Some(countWord)
    requires SecondPiece(line, ISSUES).Some? && FirstWord(SecondPiece(line, ISSUES).value) == Some(numberWord)
    requires ParseInt(countWord) == Some(count) && ParseInt(StripParens(numberWord)) == Some(number)
    ensures ReadNumbers(line) == Some((count, number))
  {
  }

  /** Closing parentheses after the link, and words after that, do not change what is read. */
  lemma {:induction false} EditedLineIsRead(info: Info, k: nat, rest: string)
    requires info.url == IssueUrl(info.number)
    requires '[' !in rest && '/' !in rest && (rest == "" || IsSpace(rest[0]))
    ensures ReadNumbers(IssueLine(info) + (Parens(k) + rest)) == Some((info.count, info.number))
  {
    var number, line := Decimal(info.number), IssueLine(info) + (Parens(k) + rest);
    PlainUrl(info.number);
    EditedWord(info.number, k);
    EditedCount(info, Parens(k) + rest);
    var before := BeforeLink(info);
    EditedNumber(before, number + Parens(k), rest);
    Regrouped(before, ISSUES, number, Parens(k), rest);
    IntRoundTrip(info.count);
    NumbersAreRead(line, Decimal(info.count), number + Parens(k), info.count, info.number);
  }

  // ----- a section of the body -----

  function NoteAll(p: Parsed, infos: seq<Info>, area: string): Parsed {
    if infos == [] then p
    else
      var last := infos[|infos| - 1];
      Note(NoteAll(p, infos[..|infos| - 1], area), last.number, last.count, area)
  }

  lemma {:induction false} FeedInTurn(p: Parsed, a: seq<string>, b: seq<string>)
    ensures FeedAll(p, a + b) == FeedAll(FeedAll(p, a), b)
    decreases |a|
  {
    if a == [] {
      assert a + b == b;
    } else {
      assert (a + b)[0] == a[0] && (a + b)[1..] == a[1..] + b;
      FeedInTurn(Feed(p, a[0]), a[1..], b);
    }
  }

  lemma {:induction false} FeedOne(p: Parsed, line: string)
    ensures FeedAll(p, [line]) == Feed(p, line)
  {
    assert [line][1..] == [];
  }

  lemma {:induction false} HeaderIsRead(p: Parsed, area: string)
    requires IsAreaName(area)
    ensures Feed(p, "## " + area) == p.(area := Some(area))
  {
    assert ("## " + area)[3..] == area;
    assert "## " <= "## " + area;
  }

  lemma {:induction false} IssueIsNoted(p: Parsed, info: Info, area: string)
    requires p.area == Some(area) && area != "" && info.url == IssueUrl(info.number)
    ensures Feed(p, IssueLine(info)) == Note(p, info.number, info.count, area)
  {
    LineIsRead(info);
    MentionIsNoted(p, IssueLine(info), info.count, info.number, area);
  }

  lemma {:induction false} MentionIsNoted(p: Parsed, line: string, count: int, number: int, area: string)
    requires p.area == Some(area) && area != "" && line != "" && line[0] == '-'
    requires Contains(line, ISSUES) && ReadNumbers(line) == Some((count, number))
    ensures Feed(p, line) == Note(p, number, count, area)
  {
    assert "-" <= line && !("## " <= line);
  }

  lemma {:induction false} IssuesAreNoted(p: Parsed, infos: seq<Info>, area: string)
    requires p.area == Some(area) && area != ""
    requires forall i :: 0 <= i < |infos| ==> infos[i].url == IssueUrl(infos[i].number)
    ensures FeedAll(p, IssueLines(infos)) == NoteAll(p, infos, area) && NoteAll(p, infos, area).area == Some(area)
  {
    if infos != [] {
      var front, last := infos[..|infos| - 1], infos[|infos| - 1];
      IssuesAreNoted(p, front, area);
      FeedInTurn(p, IssueLines(front), [IssueLine(last)]);
      FeedOne(NoteAll(p, front, area), IssueLine(last));
      IssueIsNoted(NoteAll(p, front, area), last, area);
    }
  }

  lemma {:induction false} SectionIsRead(p: Parsed, area: string, filings: seq<Filing>)
    requires IsAreaName(area)
    requires forall x :: x in InArea(filings, area) ==> x.url == IssueUrl(x.number)
    ensures FeedAll(p, Section(area, filings))
         == NoteAll(p.(area := Some(area)), SortDesc(InArea(filings, area), InfoCount), area)
  {
    var header, issues := ["", "## " + area, ""], SortDesc(InArea(filings, area), InfoCount);
    SortKeepsMembers(InArea(filings, area), InfoCount);
    HeaderIsRead(p, area);
    assert Feed(p, "") == p;
    HeaderLines(p, area);
    FeedInTurn(p, header, IssueLines(issues));
    IssuesAreNoted(p.(area := Some(area)), issues, area);
  }

  lemma {:induction false} HeaderLines(p: Parsed, area: string)
    requires IsAreaName(area)
    ensures FeedAll(p, ["", "## " + area, ""]) == p.(area := Some(area))
  {
    HeaderIsRead(p, area);
    var lines := ["", "## " + area, ""];
    assert lines[1..] == ["## " + area, ""] && lines[1..][1..] == [""];
    FeedOne(p.(area := Some(area)), "");
  }

  // ----- what becomes of one issue -----

  ghost predicate SameAreas(areas: seq<string>, seen: set<string>) {
    forall a :: a in areas <==> a in seen && a != UNLABELED
  }

  /** The parser's entry for an issue of which it has read the areas `seen`. */
  ghost predicate Entered(p: Parsed, info: Info, seen: set<string>) {
    && (info.number in p.entries <==> seen != {})
    && (seen != {} ==>
          var m := p.entries[info.number];
          m.number == info.number && m.count == info.count && SameAreas(m.areas, seen))
  }

  lemma {:induction false} NoteEnters(p: Parsed, info: Info, area: string, seen: set<string>)
    requires Entered(p, info, seen)
    ensures Entered(Note(p, info.number, info.count, area), info, seen + {area})
  {
  }

  lemma {:induction false} NoteAllEnters(p: Parsed, noted: seq<Info>, area: string, info: Info, seen: set<string>)
    requires Entered(p, info, seen) && forall x :: x in noted && x.number == info.number ==> x == info
    ensures Entered(NoteAll(p, noted, area), info, if info in noted then seen + {area} else seen)
  {
    if noted != [] {
      var front, last := noted[..|noted| - 1], noted[|noted| - 1];
      assert forall x :: x in noted <==> x in front || x == last;
      NoteAllEnters(p, front, area, info, seen);
      if last == info {
        var before := if info in front then seen + {area} else seen;
        NoteEnters(NoteAll(p, front, area), info, area, before);
        assert before + {area} == seen + {area};
      }
    }
  }

  // ----- filings -----

  lemma {:induction false} FiledUnderExactly(info: Info, areas: seq<string>)
    ensures forall f :: f in FiledUnder(info, areas) <==> f.1 == info && f.0 in areas
  {
    if areas != [] {
      FiledUnderExactly(info, areas[..|areas| - 1]);
      assert areas == areas[..|areas| - 1] + [areas[|areas| - 1]];
    }
  }

  lemma {:induction false} FilingsExactly(infos: seq<Info>)
    ensures forall f :: f in Filings(infos) <==> f.1 in infos && f.0 in f.1.areas
  {
    if infos != [] {
      var last := infos[|infos| - 1];
      FilingsExactly(infos[..|infos| - 1]);
      FiledUnderExactly(last, last.areas);
      assert infos == infos[..|infos| - 1] + [last];
    }
  }

  lemma {:induction false} InAreaExactly(filings: seq<Filing>, area: string)
    ensures forall x :: x in InArea(filings, area) <==> (area, x) in filings
  {
    if filings != [] {
      var front, last := filings[..|filings| - 1], filings[|filings| - 1];
      InAreaExactly(front, area);
      assert filings == front + [last];
      assert last == (last.0, last.1);
    }
  }

  lemma {:induction false} AreaOrderExactly(filings: seq<Filing>)
    ensures forall a :: a in AreaOrder(filings) <==> exists x :: (a, x) in filings
  {
    if filings != [] {
      var front, last := filings[..|filings| - 1], filings[|filings| - 1];
      AreaOrderExactly(front);
      assert filings == front + [last];
      assert (last.0, last.1) in filings;
      forall a ensures a in AreaOrder(filings) <==> exists x :: (a, x) in filings {
        if a in AreaOrder(front) {
          var x :| (a, x) in front;
          assert (a, x) in filings;
        }
      }
    }
  }

  // ----- all sections -----

  function NoteSections(p: Parsed, areas: seq<string>, filings: seq<Filing>): Parsed {
    if areas == [] then p
    else
      var area := areas[|areas| - 1];
      NoteAll(NoteSections(p, areas[..|areas| - 1], filings).(area := Some(area)),
              SortDesc(InArea(filings, area), InfoCount), area)
  }

  lemma {:induction false} SectionsAreRead(p: Parsed, areas: seq<string>, filings: seq<Filing>)
    requires forall a :: a in areas ==> IsAreaName(a)
    requires forall f :: f in filings ==> f.1.url == IssueUrl(f.1.number)
    ensures FeedAll(p, Sections(areas, filings)) == NoteSections(p, areas, filings)
  {
    if areas != [] {
      var front, area := areas[..|areas| - 1], areas[|areas| - 1];
      SectionsAreRead(p, front, filings);
      FeedInTurn(p, Sections(front, filings), Section(area, filings));
      InAreaExactly(filings, area);
      SectionIsRead(NoteSections(p, front, filings), area, filings);
    }
  }

  ghost predicate Distinct(infos: seq<Info>) {
    forall x, y :: x in infos && y in infos && x.number == y.number ==> x == y
  }

  ghost function SeenIn(info: Info, areas: seq<string>): set<string> {
    set a | a in areas && a in info.areas
  }

  /** After the sections of some areas, the entry of an issue holds exactly those of its areas. */
  lemma {:induction false} SectionsEnter(areas: seq<string>, infos: seq<Info>, info: Info)
    requires Distinct(infos) && info in infos
    ensures Entered(NoteSections(NOTHING, areas, Filings(infos)), info, SeenIn(info, areas))
  {
    if areas != [] {
      var front, area := areas[..|areas| - 1], areas[|areas| - 1];
      var filings := Filings(infos);
      SectionsEnter(front, infos, info);
      FilingsExactly(infos);
      InAreaExactly(filings, area);
      var noted := SortDesc(InArea(filings, area), InfoCount);
      SortKeepsMembers(InArea(filings, area), InfoCount);
      NoteAllEnters(NoteSections(NOTHING, front, filings).(area := Some(area)), noted, area, info, SeenIn(info, front));
      assert areas == front + [area];
      assert SeenIn(info, areas) == if info in noted then SeenIn(info, front) + {area} else SeenIn(info, front);
    }
  }

  /** Entries are listed once each, under their own number, and stem from printed issues. */
  ghost predicate Orderly(p: Parsed, infos: seq<Info>) {
    && (forall i, j :: 0 <= i < j < |p.order| ==> p.order[i] != p.order[j])
    && (forall n :: n in p.order <==> n in p.entries)
    && (forall n :: n in p.entries ==> p.entries[n].number == n && exists x :: x in infos && x.number == n)
  }

  lemma {:induction false} NoteStaysOrderly(p: Parsed, infos: seq<Info>, info: Info, area: string)
    requires Orderly(p, infos) && info in infos
    ensures Orderly(Note(p, info.number, info.count, area), infos)
  {
  }

  lemma {:induction false} NoteAllStaysOrderly(p: Parsed, infos: seq<Info>, noted: seq<Info>, area: string)
    requires Orderly(p, infos) && forall x :: x in noted ==> x in infos
    ensures Orderly(NoteAll(p, noted, area), infos)
  {
    if noted != [] {
      NoteAllStaysOrderly(p, infos, noted[..|noted| - 1], area);
      NoteStaysOrderly(NoteAll(p, noted[..|noted| - 1], area), infos, noted[|noted| - 1], area);
    }
  }

  lemma {:induction false} SectionsStayOrderly(areas: seq<string>, infos: seq<Info>)
    ensures Orderly(NoteSections(NOTHING, areas, Filings(infos)), infos)
  {
    if areas != [] {
      var front, area := areas[..|areas| - 1], areas[|areas| - 1];
      SectionsStayOrderly(front, infos);
      FilingsExactly(infos);
      InAreaExactly(Filings(infos), area);
      SortKeepsMembers(InArea(Filings(infos), area), InfoCount);
      NoteAllStaysOrderly(NoteSections(NOTHING, front, Filings(infos)).(area := Some(area)), infos,
                          SortDesc(InArea(Filings(infos), area), InfoCount), area);
    }
  }

  // ----- the whole body -----

  /** The areas in the order in which they are printed. */
  function PrintedAreas(infos: seq<Info>): seq<string> {
    SortDesc(AreaOrder(Filings(infos)), Totals(Filings(infos)))
  }

  lemma {:induction false} PrintedAreasExactly(infos: seq<Info>)
    ensures forall a :: a in PrintedAreas(infos) <==> exists x :: x in infos && a in x.areas
  {
    var filings := Filings(infos);
    SortKeepsMembers(AreaOrder(filings), Totals(filings));
    AreaOrderExactly(filings);
    FilingsExactly(infos);
    forall a: string, x: Info | x in infos && a in x.areas ensures (a, x) in filings {
      assert (a, x).1 in infos && (a, x).0 in (a, x).1.areas;
    }
  }

  lemma {:induction false} PrintableFacts(infos: seq<Info>)
    requires Printable(infos)
    ensures Distinct(infos)
    ensures forall f :: f in Filings(infos) ==> f.1.url == IssueUrl(f.1.number) && IsAreaName(f.0)
    ensures forall a :: a in PrintedAreas(infos) ==> IsAreaName(a)
  {
    FilingsExactly(infos);
    PrintedAreasExactly(infos);
    forall x, y | x in infos && y in infos && x.number == y.number ensures x == y {
      var i :| 0 <= i < |infos| && infos[i] == x;
      var j :| 0 <= j < |infos| && infos[j] == y;
    }
  }

  predicate AllOneLine(lines: seq<string>) {
    forall i :: 0 <= i < |lines| ==> OneLine(lines[i])
  }

  lemma {:induction false} LineIsOneLine(info: Info)
    requires info.url == IssueUrl(info.number)
    ensures OneLine(IssueLine(info))
  {
    PlainUrl(info.number);
    PlainNumber(info.count);
    assert OneLine("-   [" + Padded(info.count));
    assert OneLine("-   [" + Padded(info.count) + " dupes] ");
  }

  lemma {:induction false} IssueLinesOneLine(infos: seq<Info>)
    requires forall i :: 0 <= i < |infos| ==> infos[i].url == IssueUrl(infos[i].number)
    ensures AllOneLine(IssueLines(infos))
  {
    if infos != [] {
      IssueLinesOneLine(infos[..|infos| - 1]);
      LineIsOneLine(infos[|infos| - 1]);
    }
  }

  lemma {:induction false} SectionOneLine(area: string, filings: seq<Filing>)
    requires IsAreaName(area) && forall x :: x in InArea(filings, area) ==> x.url == IssueUrl(x.number)
    ensures AllOneLine(Section(area, filings))
  {
    var issues := SortDesc(InArea(filings, area), InfoCount);
    SortKeepsMembers(InArea(filings, area), InfoCount);
    assert forall i :: 0 <= i < |issues| ==> issues[i] in issues;
    IssueLinesOneLine(issues);
    assert OneLine("## " + area) by {
      assert OneLine("## ");
    }
  }

  lemma {:induction false} SectionsOneLine(areas: seq<string>, filings: seq<Filing>)
    requires forall a :: a in areas ==> IsAreaName(a)
    requires forall f :: f in filings ==> f.1.url == IssueUrl(f.1.number)
    ensures AllOneLine(Sections(areas, filings))
  {
    if areas != [] {
      var area := areas[|areas| - 1];
      SectionsOneLine(areas[..|areas| - 1], filings);
      InAreaExactly(filings, area);
      SectionOneLine(area, filings);
    }
  }

  lemma {:induction false} OtherLinesAreSkipped(p: Parsed, line: string)
    requires line != "" && line[0] != '#' && line[0] != '-'
    ensures Feed(p, line) == p
  {
  }

  lemma {:induction false} IntroIsSkipped()
    ensures OneLine(INTRO) && Feed(NOTHING, INTRO) == NOTHING
  {
    assert OneLine("These are the issues that are ") && OneLine("frequently re-reported. ");
    assert OneLine("The list is generated ") && OneLine("regularly by running a script.");
    assert "These are the issues that are "[0] == 'T';
    OtherLinesAreSkipped(NOTHING, INTRO);
  }

  /** Reading the printed body is noting the issues section by section. */
  lemma {:induction false} BodyIsRead(infos: seq<Info>)
    requires Printable(infos)
    ensures FeedAll(NOTHING, Lines(Join(BodyLines(infos)))) ==
            NoteSections(NOTHING, PrintedAreas(infos), Filings(infos))
  {
    var filings, areas := Filings(infos), PrintedAreas(infos);
    PrintableFacts(infos);
    IntroIsSkipped();
    SectionsOneLine(areas, filings);
    assert AllOneLine([INTRO] + Sections(areas, filings));
    LinesOfJoin(BodyLines(infos));
    FeedInTurn(NOTHING, [INTRO], Sections(areas, filings));
    FeedOne(NOTHING, INTRO);
    SectionsAreRead(NOTHING, areas, filings);
  }

  lemma {:induction false} ValuesExactly(p: Parsed, order: seq<int>)
    ensures forall m :: m in Values(p, order) <==> exists n :: n in order && n in p.entries && p.entries[n] == m
  {
    if order != [] {
      var front, last := order[..|order| - 1], order[|order| - 1];
      ValuesExactly(p, front);
      assert order == front + [last];
    }
  }

  lemma {:induction false} ValuesOnce(p: Parsed, order: seq<int>, m: Magnet)
    requires forall i, j :: 0 <= i < j < |order| ==> order[i] != order[j]
    requires forall n :: n in p.entries ==> p.entries[n].number == n
    ensures multiset(Values(p, order))[m] <= 1
  {
    if order != [] {
      var front, last := order[..|order| - 1], order[|order| - 1];
      ValuesOnce(p, front, m);
      ValuesExactly(p, front);
      assert last !in front;
      if last in p.entries && p.entries[last] == m {
        assert m !in Values(p, front);
      }
    }
  }

  lemma {:induction false} TwiceCounts(ms: seq<Magnet>, i: nat, j: nat)
    requires i < j < |ms| && ms[i] == ms[j]
    ensures multiset(ms)[ms[i]] >= 2
  {
    assert ms == ms[..j] + [ms[j]] + ms[j + 1..];
    assert ms[..j][i] == ms[j];
  }

  /** What the parser owes for a printed issue. */
  ghost predicate Restores(m: Magnet, info: Info) {
    && m.number == info.number && m.count == info.count
    && forall a :: a in m.areas <==> a in info.areas && a != UNLABELED
  }

  lemma {:induction false} EntryRestores(infos: seq<Info>, info: Info)
    requires Printable(infos) && info in infos
    ensures var p := NoteSections(NOTHING, PrintedAreas(infos), Filings(infos));
            info.number in p.entries && Restores(p.entries[info.number], info)
  {
    PrintableFacts(infos);
    PrintedAreasExactly(infos);
    SectionsEnter(PrintedAreas(infos), infos, info);
    assert forall a :: a in info.areas <==> a in SeenIn(info, PrintedAreas(infos));
    assert info.areas[0] in info.areas;
  }

  lemma {:induction false} EntryBehind(p: Parsed, magnets: seq<Magnet>, i: nat) returns (n: int)
    requires multiset(magnets) == multiset(Values(p, p.order)) && i < |magnets|
    ensures n in p.entries && p.entries[n] == magnets[i]
  {
    ValuesExactly(p, p.order);
    var m := magnets[i];
    assert m in multiset(magnets);
    assert m in Values(p, p.order);
    n :| n in p.order && n in p.entries && p.entries[n] == m;
  }

  lemma {:induction false} ListedOnce(p: Parsed, infos: seq<Info>, magnets: seq<Magnet>)
    requires Orderly(p, infos) && multiset(magnets) == multiset(Values(p, p.order))
    ensures forall i, j :: 0 <= i < j < |magnets| ==> magnets[i].number != magnets[j].number
  {
    forall i, j | 0 <= i < j < |magnets| ensures magnets[i].number != magnets[j].number {
      ValuesOnce(p, p.order, magnets[i]);
      var n := EntryBehind(p, magnets, i);
      var k := EntryBehind(p, magnets, j);
      if n == k {
        TwiceCounts(magnets, i, j);
      }
    }
  }

  ghost predicate HasMagnet(magnets: seq<Magnet>, info: Info) {
    exists m :: m in magnets && Restores(m, info)
  }

  ghost predicate HasIssue(infos: seq<Info>, m: Magnet) {
    exists info :: info in infos && Restores(m, info)
  }

  lemma {:induction false} IssueRestored(infos: seq<Info>, p: Parsed, magnets: seq<Magnet>, info: Info)
    requires Printable(infos) && p == NoteSections(NOTHING, PrintedAreas(infos), Filings(infos)) && Orderly(p, infos)
    requires info in infos && forall m :: m in magnets <==> m in Values(p, p.order)
    ensures HasMagnet(magnets, info)
  {
    ValuesExactly(p, p.order);
    EntryRestores(infos, info);
    assert p.entries[info.number] in Values(p, p.order);
  }

  lemma {:induction false} MagnetStems(infos: seq<Info>, p: Parsed, m: Magnet)
    requires Printable(infos) && p == NoteSections(NOTHING, PrintedAreas(infos), Filings(infos)) && Orderly(p, infos)
    requires m in Values(p, p.order)
    ensures HasIssue(infos, m)
  {
    ValuesExactly(p, p.order);
    var info :| info in infos && info.number == m.number;
    EntryRestores(infos, info);
  }

  /** What parsing a printed body owes: every issue back with its number, its duplicate count and its areas without the
      placeholder; nothing else, nothing twice, and in descending order of counts. */
  ghost predicate RestoresAll(infos: seq<Info>, magnets: seq<Magnet>) {
    && (forall i, j :: 0 <= i < j < |magnets| ==> magnets[i].count >= magnets[j].count)
    && (forall i, j :: 0 <= i < j < |magnets| ==> magnets[i].number != magnets[j].number)
    && (forall info {:trigger HasMagnet(magnets, info)} :: info in infos ==> HasMagnet(magnets, info))
    && (forall m {:trigger HasIssue(infos, m)} :: m in magnets ==> HasIssue(infos, m))
  }

  lemma {:induction false} SortedRestores(infos: seq<Info>, p: Parsed, values: seq<Magnet>, magnets: seq<Magnet>)
    requires Printable(infos) && p == NoteSections(NOTHING, PrintedAreas(infos), Filings(infos))
    requires values == Values(p, p.order) && magnets == SortDesc(values, MagnetCount)
    ensures RestoresAll(infos, magnets)
  {
    SectionsStayOrderly(PrintedAreas(infos), infos);
    SortReorders(values, MagnetCount);
    SortKeepsMembers(values, MagnetCount);
    ListedOnce(p, infos, magnets);
    CountsDescend(magnets);
    forall info | info in infos ensures HasMagnet(magnets, info) {
      IssueRestored(infos, p, magnets, info);
    }
    forall m | m in magnets ensures HasIssue(infos, m) {
      MagnetStems(infos, p, m);
    }
  }

  /** Parsing undoes printing. */
  lemma {:induction false} RoundTrip(infos: seq<Info>)
    requires Printable(infos)
    ensures RestoresAll(infos, ParseBody(Join(BodyLines(infos))))
  {
    var p := NoteSections(NOTHING, PrintedAreas(infos), Filings(infos));
    var values := Values(p, p.order);
    BodyIsRead(infos);
    SortedRestores(infos, p, values, SortDesc(values, MagnetCount));
  }

  lemma {:induction false} CountsDescend(magnets: seq<Magnet>)
    requires IsDescending(magnets, MagnetCount)
    ensures forall i, j :: 0 <= i < j < |magnets| ==> magnets[i].count >= magnets[j].count
  {
    forall i, j | 0 <= i < j < |magnets| ensures magnets[i].count >= magnets[j].count {
      assert MagnetCount(magnets[i]) >= MagnetCount(magnets[j]);
    }
  }
}
