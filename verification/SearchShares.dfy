/**
 What `select_search_candidates` selects, said in terms of positions in the list of candidates: the first matches of
 every channel up to its quota, then the rest in order, each key once, up to the limit.
 */
module SearchShares {
  import opened SearchCandidates

  /** The reserved share of a channel, with the floor divisions written out. */
  function Quota(search: string, limit: nat): nat {
    if search == "semantic_query" then if limit < 6 then 2 else limit / 3
    else if search == "error_pattern" then if limit < 10 then 1 else limit / 10
    else if search == "title_keywords" then if limit < 6 then 1 else limit / 6
    else if search == "popular_area" then if limit < 5 then 1 else limit / 5
    else if search == "area_label" then if limit < 6 then 1 else limit / 6
    else 0
  }

  /** The earlier candidates that the same search found. */
  ghost function Ahead(cs: seq<Candidate>, i: nat, search: string): set<nat>
    requires i <= |cs|
  {
    set j | 0 <= j < i && search in cs[j].searches
  }

  /** A candidate among the first matches of a channel. */
  ghost predicate IsReserved(cs: seq<Candidate>, i: nat, search: string, quota: nat) {
    i < |cs| && search in cs[i].searches && |Ahead(cs, i, search)| < quota
  }

  ghost predicate IsSelected(cs: seq<Candidate>, limit: nat, key: string) {
    exists k :: 0 <= k < |Selection(cs, limit)| && Selection(cs, limit)[k].key == key
  }

  // ----- the first matches of a channel -----

  ghost predicate Ascending(ps: seq<nat>) {
    forall i, j :: 0 <= i < j < |ps| ==> ps[i] < ps[j]
  }

  function At(cs: seq<Candidate>, ps: seq<nat>): (r: seq<Candidate>)
    requires forall k :: 0 <= k < |ps| ==> ps[k] < |cs|
  {
    seq(|ps|, k requires 0 <= k < |ps| => cs[ps[k]])
  }

  /** The positions of the first matches, in order. */
  ghost predicate ListsFirst(cs: seq<Candidate>, search: string, quota: nat, ps: seq<nat>) {
    && Ascending(ps) && (forall k :: 0 <= k < |ps| ==> ps[k] < |cs|)
    && forall i: nat :: i in ps <==> IsReserved(cs, i, search, quota)
  }

  lemma {:induction false} AheadStep(cs: seq<Candidate>, i: nat, search: string)
    requires i < |cs|
    ensures |Ahead(cs, i + 1, search)| == |Ahead(cs, i, search)| + if search in cs[i].searches then 1 else 0
  {
    assert Ahead(cs, i + 1, search) == Ahead(cs, i, search) + if search in cs[i].searches then {i} else {};
  }

  lemma {:induction false} AheadGrows(cs: seq<Candidate>, i: nat, j: nat, search: string)
    requires i <= j <= |cs|
    ensures |Ahead(cs, i, search)| <= |Ahead(cs, j, search)|
  {
    if i < j {
      AheadGrows(cs, i, j - 1, search);
      AheadStep(cs, j - 1, search);
    }
  }

  /** The matches among the first `n` candidates, as positions. */
  lemma {:induction false} MatchingPositions(cs: seq<Candidate>, n: nat, search: string) returns (ps: seq<nat>)
    requires n <= |cs|
    ensures Ascending(ps) && (forall k :: 0 <= k < |ps| ==> ps[k] < n && |Ahead(cs, ps[k], search)| == k)
    ensures forall i: nat :: i in ps <==> i < n && search in cs[i].searches
    ensures Matching(cs[..n], search) == At(cs, ps) && |ps| == |Ahead(cs, n, search)|
  {
    if n == 0 {
      ps := [];
      assert Ahead(cs, 0, search) == {};
    } else {
      ps := MatchingPositions(cs, n - 1, search);
      assert cs[..n][..n - 1] == cs[..n - 1];
      AheadStep(cs, n - 1, search);
      if search in cs[n - 1].searches {
        AtMore(cs, ps, n - 1);
        ps := ps + [n - 1];
      }
    }
  }

  lemma {:induction false} AtMore(cs: seq<Candidate>, ps: seq<nat>, p: nat)
    requires p < |cs| && forall k :: 0 <= k < |ps| ==> ps[k] < |cs|
    ensures At(cs, ps + [p]) == At(cs, ps) + [cs[p]]
  {
  }

  /** The share of a channel is its first matches, in order. */
  lemma {:induction false} ShareListsFirst(cs: seq<Candidate>, search: string, quota: nat) returns (ps: seq<nat>)
    ensures ListsFirst(cs, search, quota, ps) && Share(cs, Channel(search, quota)) == At(cs, ps)
  {
    var all := MatchingPositions(cs, |cs|, search);
    assert cs[..|cs|] == cs;
    ps := if |all| < quota then all else all[..quota];
    forall i: nat ensures i in ps <==> IsReserved(cs, i, search, quota) {
      if i < |cs| && search in cs[i].searches {
        var k :| 0 <= k < |all| && all[k] == i;
        assert k < |ps| ==> ps[k] == i;
        if k2 :| 0 <= k2 < |ps| && ps[k2] == i {
          assert all[k2] == all[k];
        }
      }
    }
  }

  // ----- the reservations -----

  lemma {:induction false} QuotasAreReserved(limit: nat, search: string) returns (k: nat)
    requires Quota(search, limit) > 0
    ensures k < |Reserved(limit)| && Reserved(limit)[k] == Channel(search, Quota(search, limit))
  {
    k := if search == "semantic_query" then 0
    else if search == "error_pattern" then 1
    else if search == "title_keywords" then 2
    else if search == "popular_area" then 3
    else 4;
  }

  lemma {:induction false} SelectedByKey(cs: seq<Candidate>, limit: nat, key: string)
    ensures key in Keys(Selection(cs, limit)) <==> IsSelected(cs, limit, key)
  {
    var r := Selection(cs, limit);
    if key in Keys(r) {
      var i := KeyHasOwner(r, key);
    }
    if k :| 0 <= k < |r| && r[k].key == key {
      KeyIsListed(r, r[k]);
    }
  }

  /** From a limit of six on, every candidate among the first matches of a channel, up to the channel's quota, is
      selected, or another one with its key. */
  lemma {:induction false} KeepsFirstMatches(cs: seq<Candidate>, limit: nat, i: nat, search: string)
    requires 6 <= limit && IsReserved(cs, i, search, Quota(search, limit))
    ensures IsSelected(cs, limit, cs[i].key)
  {
    var quota := Quota(search, limit);
    var k := QuotasAreReserved(limit, search);
    var ps := ShareListsFirst(cs, search, quota);
    assert i in ps;
    var n :| 0 <= n < |ps| && ps[n] == i;
    assert Share(cs, Channel(search, quota))[n] == cs[i];
    KeyIsListed(Share(cs, Channel(search, quota)), cs[i]);
    KeepsEveryShare(cs, limit, k);
    SelectedByKey(cs, limit, cs[i].key);
  }

  /** Below six that fails: one of six candidates, each among the first matches of its channel, is lost. */
  lemma {:induction false} BelowSixMatchesAreLost(limit: nat) returns (i: nat, search: string)
    requires limit < 6
    ensures IsReserved(CROWDED, i, search, Quota(search, limit)) && !IsSelected(CROWDED, limit, CROWDED[i].key)
  {
    SelectsAsManyAsPossible(CROWDED, limit);
    DistinctCount(Selection(CROWDED, limit));
    i := SomeKeyMissing(Keys(Selection(CROWDED, limit)));
    SelectedByKey(CROWDED, limit, CROWDED[i].key);
    search := CrowdedIsReserved(limit, i);
  }

  lemma {:induction false} CrowdedIsReserved(limit: nat, i: nat) returns (search: string)
    requires i < 6
    ensures IsReserved(CROWDED, i, search, Quota(search, limit))
  {
    search :| search in CROWDED[i].searches;
    var ahead := Ahead(CROWDED, i, search);
    assert ahead == if i == 1 then {0} else {};
  }

  // ----- the whole selection -----

  /** Of several candidates with one key only the first counts. */
  ghost predicate IsFirstOfKey(offers: seq<Candidate>, p: nat) {
    p < |offers| && forall j :: 0 <= j < p ==> offers[j].key != offers[p].key
  }

  /** The first offer of every key, in order, as many as the limit allows. */
  ghost predicate PicksFirst(offers: seq<Candidate>, limit: nat, picked: seq<Candidate>, ps: seq<nat>) {
    && Ascending(ps) && |ps| == |picked| <= limit
    && (forall k :: 0 <= k < |ps| ==> IsFirstOfKey(offers, ps[k]) && picked[k] == offers[ps[k]])
    && (|ps| < limit ==> forall p: nat :: IsFirstOfKey(offers, p) ==> p in ps)
    && (forall p: nat, k :: IsFirstOfKey(offers, p) && 0 <= k < |ps| && p < ps[k] ==> p in ps)
  }

  lemma {:induction false} KeysAreOffered(
    offers: seq<Candidate>, limit: nat, picked: seq<Candidate>, ps: seq<nat>, key: string)
    requires PicksFirst(offers, limit, picked, ps) && |ps| < limit
    ensures key in Keys(picked) <==> exists j :: 0 <= j < |offers| && offers[j].key == key
  {
    if key in Keys(picked) {
      var k := KeyHasOwner(picked, key);
      assert offers[ps[k]].key == key;
    }
    if j :| 0 <= j < |offers| && offers[j].key == key {
      var p := FirstOfKey(offers, j);
      assert p in ps;
      var k :| 0 <= k < |ps| && ps[k] == p;
      KeyIsListed(picked, picked[k]);
    }
  }

  lemma {:induction false} FirstOfKey(offers: seq<Candidate>, j: nat) returns (p: nat)
    requires j < |offers|
    ensures p <= j && IsFirstOfKey(offers, p) && offers[p].key == offers[j].key
  {
    if i :| 0 <= i < j && offers[i].key == offers[j].key {
      p := FirstOfKey(offers, i);
    } else {
      p := j;
    }
  }

  lemma {:induction false} FirstsOfFront(offers: seq<Candidate>)
    requires offers != []
    ensures forall p: nat :: p < |offers| - 1 ==> (IsFirstOfKey(offers, p) <==> IsFirstOfKey(offers[..|offers| - 1], p))
    ensures IsFirstOfKey(offers, |offers| - 1) <==>
            forall j :: 0 <= j < |offers| - 1 ==> offers[j].key != offers[|offers| - 1].key
  {
    var front := offers[..|offers| - 1];
    assert forall j :: 0 <= j < |front| ==> front[j] == offers[j];
  }

  /** Adding one offer after the other picks the first of every key. */
  lemma {:induction false} AddingPicksFirst(offers: seq<Candidate>, limit: nat) returns (ps: seq<nat>)
    ensures PicksFirst(offers, limit, AddedAll([], offers, limit), ps)
  {
    if offers == [] {
      ps := [];
    } else {
      var front, last := offers[..|offers| - 1], |offers| - 1;
      var before := AddingPicksFirst(front, limit);
      var picked := AddedAll([], front, limit);
      FirstsOfFront(offers);
      assert forall k :: 0 <= k < |before| ==> before[k] < last;
      if |picked| < limit {
        KeysAreOffered(front, limit, picked, before, offers[last].key);
      }
      assert forall j :: 0 <= j < |front| ==> front[j] == offers[j];
      if |picked| < limit && IsFirstOfKey(offers, last) {
        ps := before + [last];
        PickedMore(offers, limit, picked, before);
      } else {
        ps := before;
        PickedNoMore(offers, limit, picked, before);
      }
    }
  }

  lemma {:induction false} PickedNoMore(offers: seq<Candidate>, limit: nat, picked: seq<Candidate>, ps: seq<nat>)
    requires offers != [] && PicksFirst(offers[..|offers| - 1], limit, picked, ps)
    requires |picked| < limit ==> !IsFirstOfKey(offers, |offers| - 1)
    ensures PicksFirst(offers, limit, picked, ps)
  {
    FirstsOfFront(offers);
    forall k | 0 <= k < |ps| ensures IsFirstOfKey(offers, ps[k]) && picked[k] == offers[ps[k]] {
      assert IsFirstOfKey(offers[..|offers| - 1], ps[k]);
    }
    forall p: nat | IsFirstOfKey(offers, p) && |ps| < limit ensures p in ps {
      assert IsFirstOfKey(offers[..|offers| - 1], p);
    }
  }

  lemma {:induction false} PickedMore(offers: seq<Candidate>, limit: nat, picked: seq<Candidate>, before: seq<nat>)
    requires offers != [] && PicksFirst(offers[..|offers| - 1], limit, picked, before)
    requires |picked| < limit && IsFirstOfKey(offers, |offers| - 1)
    ensures PicksFirst(offers, limit, picked + [offers[|offers| - 1]], before + [|offers| - 1])
  {
    FirstsOfFront(offers);
    var front, last := offers[..|offers| - 1], |offers| - 1;
    var ps := before + [last];
    forall k | 0 <= k < |before| ensures IsFirstOfKey(offers, before[k]) && before[k] < last {
      assert IsFirstOfKey(front, before[k]);
    }
    forall p: nat | IsFirstOfKey(offers, p) ensures p in ps {
      if p < last {
        assert IsFirstOfKey(front, p);
        assert p in before;
      } else {
        assert ps[|before|] == p;
      }
    }
  }

  lemma {:induction false} AddedInTurn(selected: seq<Candidate>, a: seq<Candidate>, b: seq<Candidate>, limit: nat)
    ensures AddedAll(AddedAll(selected, a, limit), b, limit) == AddedAll(selected, a + b, limit)
  {
    if b == [] {
      assert a + b == a;
    } else {
      AddedInTurn(selected, a, b[..|b| - 1], limit);
      assert (a + b)[..|a + b| - 1] == a + b[..|b| - 1];
    }
  }

  /** Everything that is offered, in order: the shares of the channels and then all candidates. */
  function Offered(cs: seq<Candidate>, channels: seq<Channel>): seq<Candidate> {
    if channels == [] then [] else Offered(cs, channels[..|channels| - 1]) + Share(cs, channels[|channels| - 1])
  }

  lemma {:induction false} ChannelsInTurn(cs: seq<Candidate>, channels: seq<Channel>, limit: nat)
    ensures AfterChannels(cs, channels, limit) == AddedAll([], Offered(cs, channels), limit)
  {
    if channels != [] {
      var front, last := channels[..|channels| - 1], channels[|channels| - 1];
      ChannelsInTurn(cs, front, limit);
      AddedInTurn([], Offered(cs, front), Share(cs, last), limit);
    }
  }

  lemma {:induction false} ReservedQuotas(limit: nat)
    ensures Reserved(limit) == [Channel("semantic_query", Quota("semantic_query", limit)),
                                Channel("error_pattern", Quota("error_pattern", limit)),
                                Channel("title_keywords", Quota("title_keywords", limit)),
                                Channel("popular_area", Quota("popular_area", limit)),
                                Channel("area_label", Quota("area_label", limit))]
  {
  }

  lemma {:induction false} OfferedShares(cs: seq<Candidate>, r: seq<Channel>)
    requires |r| == 5
    ensures Offered(cs, r) == Share(cs, r[0]) + Share(cs, r[1]) + Share(cs, r[2]) + Share(cs, r[3]) + Share(cs, r[4])
  {
    assert r[..4][..3] == r[..3] && r[..3][..2] == r[..2] && r[..2][..1] == r[..1] && r[..1][..0] == [];
    assert Offered(cs, r[..1]) == Share(cs, r[0]);
    assert Offered(cs, r[..2]) == Share(cs, r[0]) + Share(cs, r[1]);
    assert Offered(cs, r[..3]) == Share(cs, r[0]) + Share(cs, r[1]) + Share(cs, r[2]);
  }

  /** For every limit, the selection is the first of every key among the first matches of the five channels, in their
      order and up to their quotas, followed by all candidates; as many as the limit allows. */
  lemma {:induction false} SelectionExactly(cs: seq<Candidate>, limit: nat)
    returns (a: seq<nat>, b: seq<nat>, c: seq<nat>, d: seq<nat>, e: seq<nat>, ps: seq<nat>)
    ensures ListsFirst(cs, "semantic_query", Quota("semantic_query", limit), a)
    ensures ListsFirst(cs, "error_pattern", Quota("error_pattern", limit), b)
    ensures ListsFirst(cs, "title_keywords", Quota("title_keywords", limit), c)
    ensures ListsFirst(cs, "popular_area", Quota("popular_area", limit), d)
    ensures ListsFirst(cs, "area_label", Quota("area_label", limit), e)
    ensures var offers := At(cs, a) + At(cs, b) + At(cs, c) + At(cs, d) + At(cs, e) + cs;
            PicksFirst(offers, limit, Selection(cs, limit), ps)
  {
    a := ShareListsFirst(cs, "semantic_query", Quota("semantic_query", limit));
    b := ShareListsFirst(cs, "error_pattern", Quota("error_pattern", limit));
    c := ShareListsFirst(cs, "title_keywords", Quota("title_keywords", limit));
    d := ShareListsFirst(cs, "popular_area", Quota("popular_area", limit));
    e := ShareListsFirst(cs, "area_label", Quota("area_label", limit));
    ReservedQuotas(limit);
    OfferedShares(cs, Reserved(limit));
    ChannelsInTurn(cs, Reserved(limit), limit);
    AddedInTurn([], Offered(cs, Reserved(limit)), cs, limit);
    ps := AddingPicksFirst(Offered(cs, Reserved(limit)) + cs, limit);
  }
}
