/**
 What the printer of the tracking issue prints, line by line, and what its parser makes of any body at all, printed or
 edited by hand.
 */
module MagnetBodies {
  import opened Options
  import opened Text
  import opened DuplicateMagnets
  import opened MagnetRoundTrip

  // ----- the printed body -----

  /** How often an area is named. */
  function Times(area: string, areas: seq<string>): nat {
    if areas == [] then 0 else Times(area, areas[..|areas| - 1]) + if areas[|areas| - 1] == area then 1 else 0
  }

  /** The duplicates of an area: the counts of its issues, added up. */
  function DuplicatesIn(infos: seq<Info>, area: string): nat {
    if infos == [] then 0
    else DuplicatesIn(infos[..|infos| - 1], area) + infos[|infos| - 1].count * Times(area, infos[|infos| - 1].areas)
  }

  /** How often an issue belongs under an area. */
  function FiledTimes(infos: seq<Info>, area: string, x: Info): nat {
    if infos == [] then 0
    else
      FiledTimes(infos[..|infos| - 1], area, x) +
      if infos[|infos| - 1] == x then Times(area, infos[|infos| - 1].areas) else 0
  }

  lemma {:induction false} FiledInTurn(a: seq<Filing>, b: seq<Filing>, area: string)
    ensures AreaTotal(a + b, area) == AreaTotal(a, area) + AreaTotal(b, area)
    ensures InArea(a + b, area) == InArea(a, area) + InArea(b, area)
  {
    if b == [] {
      assert a + b == a;
    } else {
      FiledInTurn(a, b[..|b| - 1], area);
      assert (a + b)[..|a + b| - 1] == a + b[..|b| - 1];
    }
  }

  lemma {:induction false} OneTotal(info: Info, areas: seq<string>, area: string)
    ensures AreaTotal(FiledUnder(info, areas), area) == info.count * Times(area, areas)
  {
    if areas != [] {
      var front, last := areas[..|areas| - 1], areas[|areas| - 1];
      OneTotal(info, front, area);
      FiledInTurn(FiledUnder(info, front), [(last, info)], area);
      assert [(last, info)][..0] == [];
      assert info.count * (Times(area, front) + 1) == info.count * Times(area, front) + info.count;
    }
  }

  lemma {:induction false} OneFiled(info: Info, areas: seq<string>, area: string, x: Info)
    ensures multiset(InArea(FiledUnder(info, areas), area))[x] == if x == info then Times(area, areas) else 0
  {
    if areas != [] {
      var front, last := areas[..|areas| - 1], areas[|areas| - 1];
      OneFiled(info, front, area, x);
      FiledInTurn(FiledUnder(info, front), [(last, info)], area);
      assert [(last, info)][..0] == [];
      assert InArea([(last, info)], area) == if last == area then [info] else [];
    }
  }

  /** The totals by which areas are sorted are the duplicates of their issues, and the issues of an area are those that
      name it, as often as they do. */
  lemma {:induction false} FiledExactly(infos: seq<Info>, area: string, x: Info)
    ensures AreaTotal(Filings(infos), area) == DuplicatesIn(infos, area)
    ensures multiset(InArea(Filings(infos), area))[x] == FiledTimes(infos, area, x)
  {
    if infos != [] {
      var front, last := infos[..|infos| - 1], infos[|infos| - 1];
      FiledExactly(front, area, x);
      FiledInTurn(Filings(front), FiledUnder(last, last.areas), area);
      OneTotal(last, last.areas, area);
      OneFiled(last, last.areas, area, x);
    }
  }

  /** `-   [ 5 dupes] https://…`, the count padded to two places. */
  predicate IsLineOf(line: string, info: Info) {
    line == "-   [" + (if info.count < 10 then " " else "") + Decimal(info.count) + " dupes] " + info.url
  }

  /** The lines of one area: a blank line, its heading, another blank line, and a line for each issue. */
  ghost predicate IsBlock(lines: seq<string>, area: string, listed: seq<Info>) {
    && |lines| == 3 + |listed| && lines[0] == "" && lines[1] == "## " + area && lines[2] == ""
    && forall k :: 0 <= k < |listed| ==> IsLineOf(lines[3 + k], listed[k])
  }

  lemma {:induction false} LineOfIssue(info: Info)
    ensures IsLineOf(IssueLine(info), info)
  {
    assert "-   [" + "" == "-   [";
    assert "-   [" + " " + Decimal(info.count) == "-   [" + (" " + Decimal(info.count));
  }

  lemma {:induction false} LinesOfIssues(infos: seq<Info>)
    ensures |IssueLines(infos)| == |infos|
    ensures forall k :: 0 <= k < |infos| ==> IsLineOf(IssueLines(infos)[k], infos[k])
  {
    if infos != [] {
      LinesOfIssues(infos[..|infos| - 1]);
      LineOfIssue(infos[|infos| - 1]);
    }
  }

  /** The issues of an area as they are listed: those that name it, by descending counts. */
  ghost predicate IsListing(infos: seq<Info>, area: string, listed: seq<Info>) {
    && (forall i, j :: 0 <= i < j < |listed| ==> listed[i].count >= listed[j].count)
    && (forall x :: multiset(listed)[x] == FiledTimes(infos, area, x))
  }

  lemma {:induction false} SectionIsBlock(infos: seq<Info>, area: string) returns (listed: seq<Info>)
    ensures IsBlock(Section(area, Filings(infos)), area, listed) && IsListing(infos, area, listed)
  {
    var filed := InArea(Filings(infos), area);
    listed := SortDesc(filed, InfoCount);
    LinesOfIssues(listed);
    SortReorders(filed, InfoCount);
    forall i, j | 0 <= i < j < |listed| ensures listed[i].count >= listed[j].count {
      assert InfoCount(listed[i]) >= InfoCount(listed[j]);
    }
    forall x ensures multiset(listed)[x] == FiledTimes(infos, area, x) {
      FiledExactly(infos, area, x);
    }
  }

  /** The block of an area: the issues that name it, by descending counts. */
  ghost predicate IsBlockOf(infos: seq<Info>, area: string, lines: seq<string>) {
    exists listed :: IsListing(infos, area, listed) && IsBlock(lines, area, listed)
  }

  lemma {:induction false} SectionIsBlockOf(infos: seq<Info>, area: string)
    ensures IsBlockOf(infos, area, Section(area, Filings(infos)))
  {
    var listed := SectionIsBlock(infos, area);
  }

  function Concat(blocks: seq<seq<string>>): seq<string> {
    if blocks == [] then [] else Concat(blocks[..|blocks| - 1]) + blocks[|blocks| - 1]
  }

  lemma {:induction false} SectionsArePrinted(infos: seq<Info>, areas: seq<string>) returns (blocks: seq<seq<string>>)
    ensures Sections(areas, Filings(infos)) == Concat(blocks) && |blocks| == |areas|
    ensures forall k :: 0 <= k < |areas| ==> IsBlockOf(infos, areas[k], blocks[k])
  {
    blocks := [];
    if areas != [] {
      var n := |areas| - 1;
      var before := SectionsArePrinted(infos, areas[..n]);
      SectionIsBlockOf(infos, areas[n]);
      blocks := before + [Section(areas[n], Filings(infos))];
      assert blocks[..n] == before;
    }
  }

  lemma {:induction false} AreasOnce(filings: seq<Filing>)
    ensures forall i, j :: 0 <= i < j < |AreaOrder(filings)| ==> AreaOrder(filings)[i] != AreaOrder(filings)[j]
  {
    if filings != [] {
      AreasOnce(filings[..|filings| - 1]);
    }
  }

  lemma {:induction false} SortedOnce(xs: seq<string>, key: string -> int)
    requires forall i, j :: 0 <= i < j < |xs| ==> xs[i] != xs[j]
    ensures forall i, j :: 0 <= i < j < |SortDesc(xs, key)| ==> SortDesc(xs, key)[i] != SortDesc(xs, key)[j]
  {
    if xs != [] {
      var rest := SortDesc(xs[1..], key);
      SortedOnce(xs[1..], key);
      SortKeepsMembers(xs[1..], key);
      InsertedOnce(xs[0], rest, key);
    }
  }

  lemma {:induction false} InsertedOnce(x: string, sorted: seq<string>, key: string -> int)
    requires x !in sorted && forall i, j :: 0 <= i < j < |sorted| ==> sorted[i] != sorted[j]
    ensures var r := InsertDesc(x, sorted, key);
            && (forall y :: y in r <==> y == x || y in sorted)
            && forall i, j :: 0 <= i < j < |r| ==> r[i] != r[j]
  {
    if sorted != [] && key(sorted[0]) > key(x) {
      InsertedOnce(x, sorted[1..], key);
      assert sorted == [sorted[0]] + sorted[1..];
      assert sorted[0] !in sorted[1..];
      var inserted := InsertDesc(x, sorted[1..], key);
      assert forall i :: 0 <= i < |inserted| ==> inserted[i] in inserted;
    }
  }

  /** The printed body: the introduction, and a block for every area that some issue names, once each and by descending
      duplicates; in each block the issues that name the area, by descending counts. */
  lemma {:induction false} BodyIsPrinted(infos: seq<Info>) returns (areas: seq<string>, blocks: seq<seq<string>>)
    ensures BodyLines(infos) == [INTRO] + Concat(blocks) && |blocks| == |areas|
    ensures forall k :: 0 <= k < |areas| ==> IsBlockOf(infos, areas[k], blocks[k])
    ensures forall a :: a in areas <==> exists x :: x in infos && a in x.areas
    ensures forall i, j :: 0 <= i < j < |areas| ==> areas[i] != areas[j]
    ensures forall i, j :: 0 <= i < j < |areas| ==> DuplicatesIn(infos, areas[i]) >= DuplicatesIn(infos, areas[j])
  {
    var filings := Filings(infos);
    areas := PrintedAreas(infos);
    blocks := SectionsArePrinted(infos, areas);
    PrintedAreasExactly(infos);
    AreasOnce(filings);
    SortedOnce(AreaOrder(filings), Totals(filings));
    SortReorders(AreaOrder(filings), Totals(filings));
    forall i, j | 0 <= i < j < |areas| ensures DuplicatesIn(infos, areas[i]) >= DuplicatesIn(infos, areas[j]) {
      assert Totals(filings)(areas[i]) >= Totals(filings)(areas[j]);
      TotalIsDuplicates(infos, areas[i]);
      TotalIsDuplicates(infos, areas[j]);
    }
  }

  lemma {:induction false} TotalIsDuplicates(infos: seq<Info>, area: string)
    ensures AreaTotal(Filings(infos), area) == DuplicatesIn(infos, area)
  {
    FiledExactly(infos, area, Info(0, "", [], 0));
  }

  // ----- any body -----

  predicate IsHeading(line: string) {
    |line| >= 3 && line[0] == '#' && line[1] == '#' && line[2] == ' '
  }

  /** The text of the last heading before a line. */
  function AreaBefore(lines: seq<string>, i: nat): Option<string>
    requires i <= |lines|
  {
    if i == 0 then None
    else if IsHeading(lines[i - 1]) then Some(Strip(lines[i - 1][3..]))
    else AreaBefore(lines, i - 1)
  }

  datatype Mention = Mention(number: int, count: int, area: string)

  /** What a line says about an issue: a list item with a link and both numbers, under a heading that is not blank. */
  function MentionAt(lines: seq<string>, i: nat): Option<Mention>
    requires i < |lines|
  {
    var area, numbers := AreaBefore(lines, i), ReadNumbers(lines[i]);
    if |lines[i]| > 0 && lines[i][0] == '-' && Contains(lines[i], "/issues/") && numbers.Some? && area.Some?
       && area.value != ""
    then Some(Mention(numbers.value.1, numbers.value.0, area.value))
    else None
  }

  predicate Mentions(lines: seq<string>, i: nat, n: int) {
    i < |lines| && MentionAt(lines, i).Some? && MentionAt(lines, i).value.number == n
  }

  /** The lines among the first `k` that mention an issue, in order. */
  ghost predicate AreMentions(lines: seq<string>, k: nat, n: int, ps: seq<nat>) {
    && k <= |lines| && (forall i: nat :: i in ps <==> i < k && Mentions(lines, i, n))
    && forall i, j :: 0 <= i < j < |ps| ==> ps[i] < ps[j]
  }

  /** The areas under which these lines stand, without the placeholder. */
  function AreasAt(lines: seq<string>, ps: seq<nat>): seq<string>
    requires forall k :: 0 <= k < |ps| ==> ps[k] < |lines| && MentionAt(lines, ps[k]).Some?
  {
    if ps == [] then []
    else
      var area := MentionAt(lines, ps[|ps| - 1]).value.area;
      AreasAt(lines, ps[..|ps| - 1]) + if area == "(unlabeled)" then [] else [area]
  }

  /** The magnet that the mentions of an issue make: the count of the first, the areas of all. */
  ghost predicate IsMagnetOf(lines: seq<string>, n: int, ps: seq<nat>, m: Magnet) {
    && ps != [] && (forall k :: 0 <= k < |ps| ==> ps[k] < |lines| && MentionAt(lines, ps[k]).Some?)
    && m == Magnet(n, AreasAt(lines, ps), MentionAt(lines, ps[0]).value.count)
  }

  function Fed(lines: seq<string>, k: nat): Parsed
    requires k <= |lines|
  {
    FeedAll(NOTHING, lines[..k])
  }

  lemma {:induction false} FedStep(lines: seq<string>, k: nat)
    requires k < |lines|
    ensures Fed(lines, k + 1) == Feed(Fed(lines, k), lines[k])
  {
    assert lines[..k + 1] == lines[..k] + [lines[k]];
    FeedInTurn(NOTHING, lines[..k], [lines[k]]);
    FeedOne(Fed(lines, k), lines[k]);
  }

  lemma {:induction false} HeadingStarts(line: string)
    ensures "## " <= line <==> IsHeading(line)
    ensures "-" <= line <==> |line| > 0 && line[0] == '-'
  {
    if IsHeading(line) {
      assert line[..3] == "## ";
    }
    if "## " <= line {
      assert line[0] == "## "[0] && line[1] == "## "[1] && line[2] == "## "[2];
    }
  }

  /** One line: a heading sets the area, a mention is noted, anything else is skipped. */
  lemma {:induction false} FeedExactly(p: Parsed, lines: seq<string>, i: nat)
    requires i < |lines| && p.area == AreaBefore(lines, i)
    ensures var m := MentionAt(lines, i);
            && Feed(p, lines[i]).area == AreaBefore(lines, i + 1)
            && Feed(p, lines[i]) ==
               if m.Some? then Note(p, m.value.number, m.value.count, m.value.area)
               else p.(area := AreaBefore(lines, i + 1))
  {
    HeadingStarts(lines[i]);
  }

  lemma {:induction false} MentionsStep(lines: seq<string>, k: nat, n: int, ps: seq<nat>)
    requires k < |lines| && AreMentions(lines, k, n, ps)
    ensures AreMentions(lines, k + 1, n, if Mentions(lines, k, n) then ps + [k] else ps)
  {
    forall i | 0 <= i < |ps| ensures ps[i] < k {
      assert ps[i] in ps;
    }
  }

  /** The parser's entry for an issue: none if no line mentions it, and otherwise what its mentions make. */
  ghost predicate HasEntry(p: Parsed, lines: seq<string>, n: int, ps: seq<nat>) {
    && (n in p.entries <==> ps != [])
    && (ps != [] ==> IsMagnetOf(lines, n, ps, p.entries[n]))
  }

  lemma {:induction false} FirstMention(lines: seq<string>, k: nat)
    requires k < |lines| && MentionAt(lines, k).Some?
    ensures var m := MentionAt(lines, k).value;
            IsMagnetOf(lines, m.number, [k],
                       Magnet(m.number, if m.area == "(unlabeled)" then [] else [m.area], m.count))
  {
    assert [k][..0] == [];
    assert AreasAt(lines, [k][..0]) == [];
  }

  lemma {:induction false} AreasMore(lines: seq<string>, ps: seq<nat>, k: nat)
    requires forall i :: 0 <= i < |ps| ==> ps[i] < |lines| && MentionAt(lines, ps[i]).Some?
    requires k < |lines| && MentionAt(lines, k).Some?
    ensures forall i :: 0 <= i < |ps + [k]| ==> (ps + [k])[i] < |lines| && MentionAt(lines, (ps + [k])[i]).Some?
    ensures var area := MentionAt(lines, k).value.area;
            AreasAt(lines, ps + [k]) == AreasAt(lines, ps) + if area == "(unlabeled)" then [] else [area]
  {
    assert (ps + [k])[..|ps|] == ps;
  }

  lemma {:induction false} NextMention(lines: seq<string>, k: nat, n: int, ps: seq<nat>, m: Magnet)
    requires k < |lines| && MentionAt(lines, k).Some? && IsMagnetOf(lines, n, ps, m)
    ensures var area := MentionAt(lines, k).value.area;
            IsMagnetOf(lines, n, ps + [k], m.(areas := m.areas + if area == "(unlabeled)" then [] else [area]))
  {
    AreasMore(lines, ps, k);
  }

  lemma {:induction false} EntryStep(p: Parsed, lines: seq<string>, k: nat, n: int, ps: seq<nat>)
    requires k < |lines| && p.area == AreaBefore(lines, k) && HasEntry(p, lines, n, ps)
    ensures HasEntry(Feed(p, lines[k]), lines, n, if Mentions(lines, k, n) then ps + [k] else ps)
  {
    FeedExactly(p, lines, k);
    if Mentions(lines, k, n) {
      if ps == [] {
        FirstMention(lines, k);
        assert ps + [k] == [k];
      } else {
        NextMention(lines, k, n, ps, p.entries[n]);
        var m := p.entries[n];
        assert m.(areas := m.areas + []) == m;
      }
    }
  }

  lemma {:induction false} EntriesExactly(lines: seq<string>, k: nat, n: int) returns (ps: seq<nat>)
    requires k <= |lines|
    ensures Fed(lines, k).area == AreaBefore(lines, k)
    ensures AreMentions(lines, k, n, ps) && HasEntry(Fed(lines, k), lines, n, ps)
  {
    if k == 0 {
      ps := [];
    } else {
      var before := EntriesExactly(lines, k - 1, n);
      FedStep(lines, k - 1);
      FeedExactly(Fed(lines, k - 1), lines, k - 1);
      MentionsStep(lines, k - 1, n, before);
      EntryStep(Fed(lines, k - 1), lines, k - 1, n, before);
      ps := if Mentions(lines, k - 1, n) then before + [k - 1] else before;
    }
  }

  ghost predicate IsFirstMention(lines: seq<string>, i: nat, n: int) {
    Mentions(lines, i, n) && forall j: nat :: j < i ==> !Mentions(lines, j, n)
  }

  /** The issues are remembered in the order in which they are first mentioned. */
  ghost predicate InOrder(p: Parsed, lines: seq<string>, k: nat, firsts: seq<nat>) {
    && |firsts| == |p.order| && (forall n :: n in p.order <==> n in p.entries)
    && (forall i :: 0 <= i < |firsts| ==> firsts[i] < k && IsFirstMention(lines, firsts[i], p.order[i]))
    && forall i, j :: 0 <= i < j < |firsts| ==> firsts[i] < firsts[j]
  }

  lemma {:induction false} OrderStep(p: Parsed, lines: seq<string>, k: nat, firsts: seq<nat>, ps: seq<nat>)
    returns (firsts': seq<nat>)
    requires k < |lines| && p.area == AreaBefore(lines, k) && InOrder(p, lines, k, firsts)
    requires MentionAt(lines, k).Some? ==>
               AreMentions(lines, k, MentionAt(lines, k).value.number, ps)
               && HasEntry(p, lines, MentionAt(lines, k).value.number, ps)
    ensures InOrder(Feed(p, lines[k]), lines, k + 1, firsts')
  {
    FeedExactly(p, lines, k);
    firsts' := firsts;
    if MentionAt(lines, k).Some? && MentionAt(lines, k).value.number !in p.entries {
      var n := MentionAt(lines, k).value.number;
      forall j: nat | j < k ensures !Mentions(lines, j, n) {
        assert j !in ps;
      }
      assert IsFirstMention(lines, k, n);
      firsts' := firsts + [k];
    }
  }

  lemma {:induction false} OrderExactly(lines: seq<string>, k: nat) returns (firsts: seq<nat>)
    requires k <= |lines|
    ensures InOrder(Fed(lines, k), lines, k, firsts)
  {
    if k == 0 {
      firsts := [];
    } else {
      var before := OrderExactly(lines, k - 1);
      FedStep(lines, k - 1);
      var n := if MentionAt(lines, k - 1).Some? then MentionAt(lines, k - 1).value.number else 0;
      var ps := EntriesExactly(lines, k - 1, n);
      firsts := OrderStep(Fed(lines, k - 1), lines, k - 1, before, ps);
    }
  }

  lemma {:induction false} ValuesInOrder(p: Parsed, order: seq<int>)
    requires forall n :: n in order ==> n in p.entries
    ensures |Values(p, order)| == |order|
    ensures forall i :: 0 <= i < |order| ==> order[i] in p.entries && Values(p, order)[i] == p.entries[order[i]]
  {
    if order != [] {
      var front, last := order[..|order| - 1], order[|order| - 1];
      assert order == front + [last];
      ValuesInOrder(p, front);
    }
  }

  /** What a parsed magnet stands for. */
  ghost predicate IsParsed(lines: seq<string>, m: Magnet) {
    exists ps :: AreMentions(lines, |lines|, m.number, ps) && IsMagnetOf(lines, m.number, ps, m)
  }

  lemma {:induction false} EntryIsParsed(lines: seq<string>, n: int)
    ensures var p := Fed(lines, |lines|);
            && (n in p.entries ==> p.entries[n].number == n && IsParsed(lines, p.entries[n]))
            && ((exists i: nat :: Mentions(lines, i, n)) ==> n in p.entries)
  {
    var ps := EntriesExactly(lines, |lines|, n);
    if i: nat :| Mentions(lines, i, n) {
      assert i in ps;
    }
  }

  lemma {:induction false} ParsedOnce(lines: seq<string>, m: Magnet)
    requires IsParsed(lines, m)
    ensures m.number in Fed(lines, |lines|).entries && Fed(lines, |lines|).entries[m.number] == m
  {
    var qs :| AreMentions(lines, |lines|, m.number, qs) && IsMagnetOf(lines, m.number, qs, m);
    var ps := EntriesExactly(lines, |lines|, m.number);
    SameMentions(lines, m.number, ps, qs);
  }

  lemma {:induction false} SameMentions(lines: seq<string>, n: int, ps: seq<nat>, qs: seq<nat>)
    requires AreMentions(lines, |lines|, n, ps) && AreMentions(lines, |lines|, n, qs)
    ensures ps == qs
  {
    AscendingAgree(ps, qs);
  }

  lemma {:induction false} AscendingAgree(ps: seq<nat>, qs: seq<nat>)
    requires forall i: nat :: i in ps <==> i in qs
    requires forall i, j :: 0 <= i < j < |ps| ==> ps[i] < ps[j]
    requires forall i, j :: 0 <= i < j < |qs| ==> qs[i] < qs[j]
    ensures ps == qs
  {
    assert qs == [] || qs[0] in qs;
    if ps != [] {
      assert ps[0] in qs;
      assert qs[0] in ps;
      assert ps[0] == qs[0];
      assert ps == [ps[0]] + ps[1..] && qs == [qs[0]] + qs[1..];
      forall i: nat ensures i in ps[1..] <==> i in qs[1..] {
        assert i in ps[1..] <==> i in ps && i != ps[0];
        assert i in qs[1..] <==> i in qs && i != qs[0];
      }
      AscendingAgree(ps[1..], qs[1..]);
    }
  }

  /** The first line that mentions an issue. */
  function FirstLine(lines: seq<string>, k: nat, n: int): nat
    requires k <= |lines|
    decreases |lines| - k
  {
    if k == |lines| || Mentions(lines, k, n) then k else FirstLine(lines, k + 1, n)
  }

  lemma {:induction false} FirstLineIs(lines: seq<string>, k: nat, n: int, i: nat)
    requires k <= i < |lines| && Mentions(lines, i, n) && forall j: nat :: k <= j < i ==> !Mentions(lines, j, n)
    ensures FirstLine(lines, k, n) == i
    decreases i - k
  {
    if k < i {
      FirstLineIs(lines, k + 1, n, i);
    }
  }

  function FirstLineOf(lines: seq<string>): Magnet -> int {
    (m: Magnet) => FirstLine(lines, 0, m.number)
  }

  lemma {:induction false} ValuesAreParsed(lines: seq<string>, values: seq<Magnet>)
    requires var p := Fed(lines, |lines|); values == Values(p, p.order)
    ensures forall m :: m in values <==> IsParsed(lines, m)
    ensures forall i, j :: 0 <= i < j < |values| ==> FirstLineOf(lines)(values[i]) < FirstLineOf(lines)(values[j])
  {
    var p := Fed(lines, |lines|);
    var firsts := OrderExactly(lines, |lines|);
    ValuesInOrder(p, p.order);
    forall i | 0 <= i < |values|
      ensures values[i].number == p.order[i] && IsParsed(lines, values[i]) && FirstLineOf(lines)(values[i]) == firsts[i]
    {
      EntryIsParsed(lines, p.order[i]);
      FirstLineIs(lines, 0, p.order[i], firsts[i]);
    }
    forall m | IsParsed(lines, m) ensures m in values {
      ParsedOnce(lines, m);
      var i :| 0 <= i < |p.order| && p.order[i] == m.number;
      assert values[i] == m;
    }
  }

  /** For any body: the magnets are exactly what the mentions of issues make, by descending counts and, for equal
      counts, in the order in which they are first mentioned. */
  lemma {:induction false} ParsesExactly(body: string, magnets: seq<Magnet>)
    requires magnets == ParseBody(body)
    ensures forall m :: m in magnets <==> IsParsed(Lines(body), m)
    ensures forall i, j :: 0 <= i < j < |magnets| ==> magnets[i].count >= magnets[j].count
    ensures forall i, j :: 0 <= i < j < |magnets| ==> magnets[i].number != magnets[j].number
    ensures forall i, j :: 0 <= i < j < |magnets| && magnets[i].count == magnets[j].count ==>
                             FirstLine(Lines(body), 0, magnets[i].number) < FirstLine(Lines(body), 0, magnets[j].number)
  {
    var lines := Lines(body);
    assert lines[..|lines|] == lines;
    var p := Fed(lines, |lines|);
    var values := Values(p, p.order);
    ValuesAreParsed(lines, values);
    SortReorders(values, MagnetCount);
    SortKeepsMembers(values, MagnetCount);
    SortKeepsTies(values, MagnetCount, FirstLineOf(lines));
    CountsDescend(magnets);
    forall i, j | 0 <= i < j < |magnets| && magnets[i].count == magnets[j].count
      ensures FirstLine(lines, 0, magnets[i].number) < FirstLine(lines, 0, magnets[j].number)
    {
      assert MagnetCount(magnets[i]) == MagnetCount(magnets[j]);
    }
    forall i, j | 0 <= i < j < |magnets| ensures magnets[i].number != magnets[j].number {
      assert magnets[i] in magnets && magnets[j] in magnets;
      ParsedOnce(lines, magnets[i]);
      ParsedOnce(lines, magnets[j]);
    }
  }
}
