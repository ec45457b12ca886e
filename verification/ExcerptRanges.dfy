/** The merged excerpt ranges of a pending diff (`PendingDiff::excerpt_ranges` in `crates/acp_thread/src/diff.rs`). */
module ExcerptRanges {
  datatype Point = Point(row: nat, column: nat)

  predicate Lt(a: Point, b: Point) {
    a.row < b.row || (a.row == b.row && a.column < b.column)
  }

  predicate Le(a: Point, b: Point) {
    a == b || Lt(a, b)
  }

  datatype Range = Range(start: Point, end: Point)

  predicate WellFormed(ranges: seq<Range>) {
    forall i :: 0 <= i < |ranges| ==> Le(ranges[i].start, ranges[i].end)
  }

  /** Each range ends strictly before the next one starts. */
  predicate Separated(ranges: seq<Range>) {
    forall i, j :: 0 <= i < j < |ranges| ==> Lt(ranges[i].end, ranges[j].start)
  }

  /** The points of a range as Rust counts them, its end excluded. */
  predicate Within(r: Range, x: Point) {
    Le(r.start, x) && Lt(x, r.end)
  }

  /** The points of a range, both ends included: an empty range still marks its place. */
  predicate Touching(r: Range, x: Point) {
    Le(r.start, x) && Le(x, r.end)
  }

  predicate Covers(ranges: seq<Range>, x: Point) {
    exists i :: 0 <= i < |ranges| && Within(ranges[i], x)
  }

  predicate Touches(ranges: seq<Range>, x: Point) {
    exists i :: 0 <= i < |ranges| && Touching(ranges[i], x)
  }

  ghost predicate SamePoints(a: seq<Range>, b: seq<Range>) {
    (forall x :: Covers(a, x) <==> Covers(b, x)) && forall x :: Touches(a, x) <==> Touches(b, x)
  }

  /** What merging owes: well-formed separate ranges over the same points. */
  ghost predicate IsMergeOf(merged: seq<Range>, ranges: seq<Range>) {
    WellFormed(merged) && Separated(merged) && SamePoints(ranges, merged)
  }

  // ----- sorting -----

  /** The sort key: by start, and for equal starts the longer range first. */
  predicate Before(a: Range, b: Range) {
    Lt(a.start, b.start) || (a.start == b.start && Le(b.end, a.end))
  }

  ghost predicate Sorted(ranges: seq<Range>) {
    forall i, j :: 0 <= i < j < |ranges| ==> Before(ranges[i], ranges[j])
  }

  /** `sort_unstable_by_key`. Ranges with equal keys are equal, so the result does not depend on how it sorts. */
  method Sort(ranges: seq<Range>) returns (sorted: seq<Range>)
    ensures Sorted(sorted) && multiset(sorted) == multiset(ranges)
  {
    sorted := [];
    for i := 0 to |ranges|
      invariant Sorted(sorted) && multiset(sorted) == multiset(ranges[..i])
    {
      sorted := Insert(ranges[i], sorted);
      assert ranges[..i + 1] == ranges[..i] + [ranges[i]];
    }
    assert ranges[..|ranges|] == ranges;
  }

  method Insert(r: Range, sorted: seq<Range>) returns (inserted: seq<Range>)
    requires Sorted(sorted)
    ensures Sorted(inserted) && multiset(inserted) == multiset(sorted) + multiset{r}
  {
    var k := 0;
    while k < |sorted| && Before(sorted[k], r)
      invariant 0 <= k <= |sorted| && forall i :: 0 <= i < k ==> Before(sorted[i], r)
    {
      k := k + 1;
    }
    inserted := sorted[..k] + [r] + sorted[k..];
    InsertedIsSorted(r, sorted, k);
    assert sorted == sorted[..k] + sorted[k..];
  }

  lemma {:induction false} InsertedIsSorted(r: Range, sorted: seq<Range>, k: nat)
    requires Sorted(sorted) && k <= |sorted| && (forall i :: 0 <= i < k ==> Before(sorted[i], r))
    requires k < |sorted| ==> !Before(sorted[k], r)
    ensures Sorted(sorted[..k] + [r] + sorted[k..])
  {
    forall j | k <= j < |sorted| ensures Before(r, sorted[j]) {
      assert k == j || Before(sorted[k], sorted[j]);
    }
  }

  // ----- merging -----

  function MaxPoint(a: Point, b: Point): Point {
    if Le(b, a) then a else b
  }

  function Joined(r: Range, next: Range): Range {
    Range(r.start, MaxPoint(r.end, next.end))
  }

  lemma {:induction false} JoinCoversBoth(r: Range, next: Range)
    requires Le(r.start, r.end) && Le(next.start, next.end) && Le(r.start, next.start) && Le(next.start, r.end)
    ensures forall x :: Within(Joined(r, next), x) <==> Within(r, x) || Within(next, x)
    ensures forall x :: Touching(Joined(r, next), x) <==> Touching(r, x) || Touching(next, x)
  {
  }

  lemma {:induction false} AppendPoints(ranges: seq<Range>, r: Range)
    ensures forall x :: Covers(ranges + [r], x) <==> Covers(ranges, x) || Within(r, x)
    ensures forall x :: Touches(ranges + [r], x) <==> Touches(ranges, x) || Touching(r, x)
  {
    var all := ranges + [r];
    assert all[|ranges|] == r;
    forall x ensures Covers(all, x) <==> Covers(ranges, x) || Within(r, x) {
      if Covers(ranges, x) {
        var i :| 0 <= i < |ranges| && Within(ranges[i], x);
        assert Within(all[i], x);
      }
    }
    forall x ensures Touches(all, x) <==> Touches(ranges, x) || Touching(r, x) {
      if Touches(ranges, x) {
        var i :| 0 <= i < |ranges| && Touching(ranges[i], x);
        assert Touching(all[i], x);
      }
    }
  }

  lemma {:induction false} JoinStep(seen: seq<Range>, merged: seq<Range>, r: Range, next: Range)
    requires SamePoints(seen, merged + [r])
    requires Le(r.start, r.end) && Le(next.start, next.end) && Le(r.start, next.start) && Le(next.start, r.end)
    ensures SamePoints(seen + [next], merged + [Joined(r, next)])
  {
    AppendPoints(seen, next);
    AppendPoints(merged, r);
    AppendPoints(merged, Joined(r, next));
    JoinCoversBoth(r, next);
  }

  lemma {:induction false} PushStep(seen: seq<Range>, merged: seq<Range>, r: Range)
    requires SamePoints(seen, merged)
    ensures SamePoints(seen + [r], merged + [r])
  {
    AppendPoints(seen, r);
    AppendPoints(merged, r);
  }

  /** The merge loop over sorted ranges. */
  method Merge(ranges: seq<Range>) returns (merged: seq<Range>)
    requires WellFormed(ranges) && Sorted(ranges)
    ensures IsMergeOf(merged, ranges)
  {
    merged := [];
    var i := 0;
    while i < |ranges|
      invariant 0 <= i <= |ranges| && WellFormed(merged) && Separated(merged) && SamePoints(ranges[..i], merged)
      invariant merged != [] && i < |ranges| ==> Lt(merged[|merged| - 1].end, ranges[i].start)
    {
      var range := ranges[i];
      PushStep(ranges[..i], merged, range);
      assert ranges[..i] + [ranges[i]] == ranges[..i + 1];
      i := i + 1;
      while i < |ranges| && Le(ranges[i].start, range.end)
        invariant 0 < i <= |ranges| && Le(range.start, range.end)
        invariant i < |ranges| ==> Le(range.start, ranges[i].start)
        invariant merged != [] ==> Lt(merged[|merged| - 1].end, range.start)
        invariant SamePoints(ranges[..i], merged + [range])
      {
        JoinStep(ranges[..i], merged, range, ranges[i]);
        assert ranges[..i] + [ranges[i]] == ranges[..i + 1];
        assert i + 1 < |ranges| ==> Before(ranges[i], ranges[i + 1]);
        range := Joined(range, ranges[i]);
        i := i + 1;
      }
      LastSeparates(merged, range);
      merged := merged + [range];
    }
    assert ranges[..|ranges|] == ranges;
  }

  lemma {:induction false} LastSeparates(merged: seq<Range>, r: Range)
    requires WellFormed(merged) && Separated(merged) && (merged != [] ==> Lt(merged[|merged| - 1].end, r.start))
    ensures Separated(merged + [r])
  {
  }

  lemma {:induction false} SameRangesSamePoints(a: seq<Range>, b: seq<Range>)
    requires forall r :: r in a <==> r in b
    ensures SamePoints(a, b)
  {
    forall x ensures Covers(a, x) <==> Covers(b, x) {
      assert Covers(a, x) <==> exists r :: r in a && Within(r, x);
      assert Covers(b, x) <==> exists r :: r in b && Within(r, x);
    }
    forall x ensures Touches(a, x) <==> Touches(b, x) {
      assert Touches(a, x) <==> exists r :: r in a && Touching(r, x);
      assert Touches(b, x) <==> exists r :: r in b && Touching(r, x);
    }
  }

  method ExcerptRanges(ranges: seq<Range>) returns (merged: seq<Range>)
    requires WellFormed(ranges)
    ensures IsMergeOf(merged, ranges)
  {
    var sorted := Sort(ranges);
    assert forall r :: r in ranges <==> r in multiset(ranges);
    assert forall r :: r in sorted <==> r in multiset(sorted);
    assert WellFormed(sorted) by {
      forall i | 0 <= i < |sorted| ensures Le(sorted[i].start, sorted[i].end) {
        assert sorted[i] in ranges;
      }
    }
    SameRangesSamePoints(ranges, sorted);
    merged := Merge(sorted);
  }

  // ----- the result is determined by the points -----

  lemma {:induction false} FirstStarts(m: seq<Range>, n: seq<Range>)
    requires WellFormed(m) && WellFormed(n) && Separated(n) && m != [] && forall x :: Touches(m, x) ==> Touches(n, x)
    ensures n != [] && Le(n[0].start, m[0].start)
  {
    assert Touching(m[0], m[0].start);
    assert Touches(m, m[0].start);
    var j :| 0 <= j < |n| && Touching(n[j], m[0].start);
    assert j == 0 || Lt(n[0].end, n[j].start);
  }

  lemma {:induction false} FirstEnds(m: seq<Range>, n: seq<Range>)
    requires WellFormed(m) && WellFormed(n) && Separated(m) && m != [] && n != [] && m[0].start == n[0].start
    requires forall x :: Covers(n, x) ==> Covers(m, x)
    ensures Le(n[0].end, m[0].end)
  {
    if Lt(m[0].end, n[0].end) {
      assert Within(n[0], m[0].end);
      assert Covers(n, m[0].end);
    }
  }

  lemma {:induction false} RestPoints(m: seq<Range>, n: seq<Range>)
    requires WellFormed(m) && Separated(m) && m != [] && n != [] && m[0] == n[0] && SamePoints(m, n)
    ensures forall x :: Covers(m[1..], x) ==> Covers(n[1..], x)
    ensures forall x :: Touches(m[1..], x) ==> Touches(n[1..], x)
  {
    forall x | Covers(m[1..], x) ensures Covers(n[1..], x) {
      var i :| 0 <= i < |m[1..]| && Within(m[1..][i], x);
      assert Within(m[i + 1], x) && Lt(m[0].end, m[i + 1].start);
      assert Covers(m, x);
      var j :| 0 <= j < |n| && Within(n[j], x);
      assert Within(n[1..][j - 1], x);
    }
    forall x | Touches(m[1..], x) ensures Touches(n[1..], x) {
      var i :| 0 <= i < |m[1..]| && Touching(m[1..][i], x);
      assert Touching(m[i + 1], x) && Lt(m[0].end, m[i + 1].start);
      assert Touches(m, x);
      var j :| 0 <= j < |n| && Touching(n[j], x);
      assert Touching(n[1..][j - 1], x);
    }
  }

  /** Separate ranges over the same points are the same ranges. */
  lemma {:induction false} PointsDetermineRanges(m: seq<Range>, n: seq<Range>)
    requires WellFormed(m) && WellFormed(n) && Separated(m) && Separated(n) && SamePoints(m, n)
    ensures m == n
  {
    if m == [] {
      if n != [] {
        FirstStarts(n, m);
      }
    } else {
      FirstStarts(m, n);
      FirstStarts(n, m);
      FirstEnds(m, n);
      FirstEnds(n, m);
      RestPoints(m, n);
      RestPoints(n, m);
      PointsDetermineRanges(m[1..], n[1..]);
      assert m == [m[0]] + m[1..] && n == [n[0]] + n[1..];
    }
  }

  /** The merged ranges depend neither on the order of the inputs nor on repeats among them. */
  lemma {:induction false} OrderAndRepeatsDoNotMatter(a: seq<Range>, b: seq<Range>, m: seq<Range>, n: seq<Range>)
    requires IsMergeOf(m, a) && IsMergeOf(n, b) && forall r :: r in a <==> r in b
    ensures m == n
  {
    SameRangesSamePoints(a, b);
    PointsDetermineRanges(m, n);
  }
}
