/**
 The tracking issue of duplicate magnets: `script/github-find-top-duplicated-bugs.py` prints it and
 `script/github-check-new-issue-for-duplicates.py` reads it back.
 */
module DuplicateMagnets {
  import opened Options
  import opened Text

  const UNLABELED := "(unlabeled)"
  const INTRO := "These are the issues that are " +
                 ("frequently re-reported. " + ("The list is generated " + "regularly by running a script."))
  const ISSUES := "/issues/"

  /** An issue with duplicates, as the printer gets it. */
  datatype Info = Info(number: nat, url: string, areas: seq<string>, count: nat)

  /** A magnet, as the parser returns it. */
  datatype Magnet = Magnet(number: int, areas: seq<string>, count: int)

  // ----- the printer -----

  type Filing = (string, Info)

  /** The issue filed under each of its areas, in the order of the printer's loops. */
  function FiledUnder(info: Info, areas: seq<string>): seq<Filing> {
    if areas == [] then [] else FiledUnder(info, areas[..|areas| - 1]) + [(areas[|areas| - 1], info)]
  }

  function Filings(infos: seq<Info>): seq<Filing> {
    if infos == [] then []
    else Filings(infos[..|infos| - 1]) + FiledUnder(infos[|infos| - 1], infos[|infos| - 1].areas)
  }

  /** The areas in the order in which they first appear. */
  function AreaOrder(filings: seq<Filing>): seq<string> {
    if filings == [] then []
    else
      var before := AreaOrder(filings[..|filings| - 1]);
      if filings[|filings| - 1].0 in before then before else before + [filings[|filings| - 1].0]
  }

  function InArea(filings: seq<Filing>, area: string): seq<Info> {
    if filings == [] then []
    else
      InArea(filings[..|filings| - 1], area) +
      if filings[|filings| - 1].0 == area then [filings[|filings| - 1].1] else []
  }

  function AreaTotal(filings: seq<Filing>, area: string): nat {
    if filings == [] then 0
    else
      AreaTotal(filings[..|filings| - 1], area) +
      if filings[|filings| - 1].0 == area then filings[|filings| - 1].1.count else 0
  }

  function Totals(filings: seq<Filing>): string -> int {
    (area: string) => AreaTotal(filings, area)
  }

  function InfoCount(info: Info): int {
    info.count
  }

  function IssueLine(info: Info): string {
    "-   [" + Padded(info.count) + " dupes] " + info.url
  }

  function IssueLines(infos: seq<Info>): seq<string> {
    if infos == [] then [] else IssueLines(infos[..|infos| - 1]) + [IssueLine(infos[|infos| - 1])]
  }

  function Section(area: string, filings: seq<Filing>): seq<string> {
    ["", "## " + area, ""] + IssueLines(SortDesc(InArea(filings, area), InfoCount))
  }

  function Sections(areas: seq<string>, filings: seq<Filing>): seq<string> {
    if areas == [] then [] else Sections(areas[..|areas| - 1], filings) + Section(areas[|areas| - 1], filings)
  }

  function BodyLines(infos: seq<Info>): seq<string> {
    var filings := Filings(infos);
    [INTRO] + Sections(SortDesc(AreaOrder(filings), Totals(filings)), filings)
  }

  /** The dictionaries that the printer's first loop fills. */
  ghost predicate Tallied(
    filings: seq<Filing>, order: seq<string>, byArea: map<string, seq<Info>>, totals: map<string, nat>) {
    && order == AreaOrder(filings)
    && (forall a :: a in order <==> a in byArea) && (forall a :: a in order <==> a in totals)
    && (forall a :: a in byArea ==> byArea[a] == InArea(filings, a))
    && (forall a :: a in totals ==> totals[a] == AreaTotal(filings, a))
  }

  lemma {:induction false} UnseenArea(filings: seq<Filing>, area: string)
    requires area !in AreaOrder(filings)
    ensures InArea(filings, area) == [] && AreaTotal(filings, area) == 0
  {
    if filings != [] {
      UnseenArea(filings[..|filings| - 1], area);
    }
  }

  lemma {:induction false} TallyStep(filings: seq<Filing>, f: Filing)
    ensures AreaOrder(filings + [f]) ==
            if f.0 in AreaOrder(filings) then AreaOrder(filings) else AreaOrder(filings) + [f.0]
    ensures forall a :: InArea(filings + [f], a) == InArea(filings, a) + if f.0 == a then [f.1] else []
    ensures forall a :: AreaTotal(filings + [f], a) == AreaTotal(filings, a) + if f.0 == a then f.1.count else 0
  {
    assert (filings + [f])[..|filings|] == filings;
  }

  /** One turn of the printer's inner loop. */
  method File(
    ghost filings: seq<Filing>, f: Filing, order: seq<string>, byArea: map<string, seq<Info>>, totals: map<string, nat>)
    returns (order': seq<string>, byArea': map<string, seq<Info>>, totals': map<string, nat>)
    requires Tallied(filings, order, byArea, totals)
    ensures Tallied(filings + [f], order', byArea', totals')
  {
    TallyStep(filings, f);
    if f.0 !in order {
      UnseenArea(filings, f.0);
    }
    order' := if f.0 in order then order else order + [f.0];
    byArea' := byArea[f.0 := (if f.0 in byArea then byArea[f.0] else []) + [f.1]];
    totals' := totals[f.0 := (if f.0 in totals then totals[f.0] else 0) + f.1.count];
  }

  lemma {:induction false} FiledMore(info: Info, j: nat)
    requires j < |info.areas|
    ensures FiledUnder(info, info.areas[..j + 1]) == FiledUnder(info, info.areas[..j]) + [(info.areas[j], info)]
  {
    assert info.areas[..j + 1][..j] == info.areas[..j];
  }

  /** The printer's inner loop. */
  method FileInfo(
    ghost before: seq<Filing>, info: Info, order0: seq<string>, byArea0: map<string, seq<Info>>,
    totals0: map<string, nat>)
    returns (order: seq<string>, byArea: map<string, seq<Info>>, totals: map<string, nat>)
    requires Tallied(before, order0, byArea0, totals0)
    ensures Tallied(before + FiledUnder(info, info.areas), order, byArea, totals)
  {
    order, byArea, totals := order0, byArea0, totals0;
    assert before + FiledUnder(info, info.areas[..0]) == before;
    for j := 0 to |info.areas|
      invariant Tallied(before + FiledUnder(info, info.areas[..j]), order, byArea, totals)
    {
      ghost var filed := before + FiledUnder(info, info.areas[..j]);
      order, byArea, totals := File(filed, (info.areas[j], info), order, byArea, totals);
      FiledMore(info, j);
      assert filed + [(info.areas[j], info)] == before + FiledUnder(info, info.areas[..j + 1]);
    }
    assert info.areas[..|info.areas|] == info.areas;
  }

  method Tally(infos: seq<Info>) returns (order: seq<string>, byArea: map<string, seq<Info>>, totals: map<string, nat>)
    ensures Tallied(Filings(infos), order, byArea, totals)
  {
    order, byArea, totals := [], map[], map[];
    for i := 0 to |infos|
      invariant Tallied(Filings(infos[..i]), order, byArea, totals)
    {
      order, byArea, totals := FileInfo(Filings(infos[..i]), infos[i], order, byArea, totals);
      assert infos[..i + 1][..i] == infos[..i];
    }
    assert infos[..|infos|] == infos;
  }

  method PrintSections(sorted: seq<string>, byArea: map<string, seq<Info>>, ghost filings: seq<Filing>)
    returns (lines: seq<string>)
    requires forall a :: a in sorted ==> a in byArea && byArea[a] == InArea(filings, a)
    ensures lines == Sections(sorted, filings)
  {
    lines := [];
    for k := 0 to |sorted|
      invariant lines == Sections(sorted[..k], filings)
    {
      var section := PrintSection(sorted[k], byArea[sorted[k]], filings);
      lines := lines + section;
      assert sorted[..k + 1][..k] == sorted[..k];
    }
    assert sorted[..|sorted|] == sorted;
  }

  method BuildMarkdownBody(infos: seq<Info>) returns (body: string)
    ensures body == Join(BodyLines(infos))
  {
    var order, byArea, totals := Tally(infos);
    ghost var filings := Filings(infos);
    var sorted := SortAreas(filings, order, totals);
    SortKeepsMembers(order, Totals(filings));
    var lines := PrintSections(sorted, byArea, filings);
    body := Join([INTRO] + lines);
  }

  /** `area_totals.most_common()`. */
  method SortAreas(ghost filings: seq<Filing>, order: seq<string>, totals: map<string, nat>)
    returns (sorted: seq<string>)
    requires (forall a :: a in order <==> a in totals) && forall a :: a in totals ==> totals[a] == AreaTotal(filings, a)
    ensures sorted == SortDesc(order, Totals(filings))
  {
    var key := (area: string) => if area in totals then totals[area] else 0;
    sorted := SortDesc(order, key);
    SortAgrees(order, key, Totals(filings));
  }

  lemma {:induction false} SortAgrees(xs: seq<string>, f: string -> int, g: string -> int)
    requires forall x :: x in xs ==> f(x) == g(x)
    ensures SortDesc(xs, f) == SortDesc(xs, g)
  {
    if xs != [] {
      SortAgrees(xs[1..], f, g);
      SortKeepsMembers(xs[1..], g);
      InsertAgrees(xs[0], SortDesc(xs[1..], g), f, g);
    }
  }

  lemma {:induction false} InsertAgrees(x: string, sorted: seq<string>, f: string -> int, g: string -> int)
    requires f(x) == g(x) && forall y :: y in sorted ==> f(y) == g(y)
    ensures InsertDesc(x, sorted, f) == InsertDesc(x, sorted, g)
  {
    if sorted != [] && g(sorted[0]) > g(x) {
      InsertAgrees(x, sorted[1..], f, g);
    }
  }

  method PrintSection(area: string, infos: seq<Info>, ghost filings: seq<Filing>) returns (lines: seq<string>)
    requires infos == InArea(filings, area)
    ensures lines == Section(area, filings)
  {
    var issues := SortDesc(infos, InfoCount);
    lines := ["", "## " + area, ""];
    for k := 0 to |issues|
      invariant lines == ["", "## " + area, ""] + IssueLines(issues[..k])
    {
      lines := lines + [IssueLine(issues[k])];
      assert issues[..k + 1][..k] == issues[..k];
    }
    assert issues[..|issues|] == issues;
  }

  // ----- the parser -----

  /** The parser's state: the magnets so far, in the order of their first appearance, and the current area. */
  datatype Parsed = Parsed(order: seq<int>, entries: map<int, Magnet>, area: Option<string>)

  const NOTHING := Parsed([], map[], None)

  function Note(p: Parsed, number: int, count: int, area: string): Parsed {
    var isUnlabeled := area == UNLABELED;
    if number in p.entries then
      if isUnlabeled then p
      else p.(entries := p.entries[number := p.entries[number].(areas := p.entries[number].areas + [area])])
    else
      p.(order := p.order + [number],
      entries := p.entries[number := Magnet(number, if isUnlabeled then [] else [area], count)])
  }

  /** The two numbers of an issue line, unless one cannot be read. */
  function ReadNumbers(line: string): Option<(int, int)> {
    var counted := SecondPiece(line, "[");
    var linked := SecondPiece(line, ISSUES);
    if counted.None? || linked.None? then None
    else
      var countWord, numberWord := FirstWord(counted.value), FirstWord(linked.value);
      if countWord.None? || numberWord.None? then None
      else
        var count, number := ParseInt(countWord.value), ParseInt(StripParens(numberWord.value));
        if count.None? || number.None? then None else Some((count.value, number.value))
  }

  function Feed(p: Parsed, line: string): Parsed {
    if "## " <= line then p.(area := Some(Strip(line[3..])))
    else if p.area.None? || p.area.value == "" || !("-" <= line) || !Contains(line, ISSUES) then p
    else
      var numbers := ReadNumbers(line);
      if numbers.None? then p else Note(p, numbers.value.1, numbers.value.0, p.area.value)
  }

  function FeedAll(p: Parsed, lines: seq<string>): Parsed
    decreases |lines|
  {
    if lines == [] then p else FeedAll(Feed(p, lines[0]), lines[1..])
  }

  function Values(p: Parsed, order: seq<int>): seq<Magnet> {
    if order == [] then []
    else
      var last := order[|order| - 1];
      Values(p, order[..|order| - 1]) + if last in p.entries then [p.entries[last]] else []
  }

  function MagnetCount(m: Magnet): int {
    m.count
  }

  function ParseBody(body: string): seq<Magnet> {
    var p := FeedAll(NOTHING, Lines(body));
    SortDesc(Values(p, p.order), MagnetCount)
  }

  method ParseDuplicateMagnets(body: string) returns (magnets: seq<Magnet>)
    ensures magnets == ParseBody(body)
  {
    var lines := Lines(body);
    var p := NOTHING;
    for i := 0 to |lines|
      invariant FeedAll(p, lines[i..]) == FeedAll(NOTHING, lines)
    {
      var line := lines[i];
      assert lines[i..][0] == line && lines[i..][1..] == lines[i + 1..];
      ghost var before := p;
      if "## " <= line {
        p := p.(area := Some(Strip(line[3..])));
      } else if p.area.Some? && p.area.value != "" && "-" <= line && Contains(line, ISSUES) {
        var numbers := ReadNumbers(line);
        if numbers.Some? {
          p := Note(p, numbers.value.1, numbers.value.0, p.area.value);
        }
      }
      assert p == Feed(before, line);
    }
    magnets := SortDesc(Values(p, p.order), MagnetCount);
  }
}
