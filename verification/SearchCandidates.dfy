/** Choosing search candidates with capacity reserved for each retrieval channel (`select_search_candidates` in
    `script/github-check-new-issue-for-duplicates.py`). */
module SearchCandidates {
  datatype Candidate = Candidate(key: string, searches: set<string>)

  datatype Channel = Channel(search: string, quota: nat)

  function Max(a: nat, b: nat): nat {
    if a < b then b else a
  }

  function Reserved(limit: nat): seq<Channel> {
    [Channel("semantic_query", Max(2, limit / 3)),
     Channel("error_pattern", Max(1, limit / 10)),
     Channel("title_keywords", Max(1, limit / 6)),
     Channel("popular_area", Max(1, limit / 5)),
     Channel("area_label", Max(1, limit / 6))]
  }

  function Keys(cs: seq<Candidate>): set<string> {
    if cs == [] then {} else Keys(cs[..|cs| - 1]) + {cs[|cs| - 1].key}
  }

  function Matching(cs: seq<Candidate>, search: string): seq<Candidate> {
    if cs == [] then []
    else Matching(cs[..|cs| - 1], search) + if search in cs[|cs| - 1].searches then [cs[|cs| - 1]] else []
  }

  /** `matching[:quota]`. */
  function First(cs: seq<Candidate>, quota: nat): seq<Candidate> {
    if |cs| < quota then cs else cs[..quota]
  }

  function Share(cs: seq<Candidate>, ch: Channel): seq<Candidate> {
    First(Matching(cs, ch.search), ch.quota)
  }

  /** `add`: a candidate whose key is new, while there is room. */
  function Added(selected: seq<Candidate>, c: Candidate, limit: nat): seq<Candidate> {
    if c.key !in Keys(selected) && |selected| < limit then selected + [c] else selected
  }

  function AddedAll(selected: seq<Candidate>, cs: seq<Candidate>, limit: nat): seq<Candidate> {
    if cs == [] then selected else Added(AddedAll(selected, cs[..|cs| - 1], limit), cs[|cs| - 1], limit)
  }

  /** The selection after the first `n` channels. */
  function AfterChannels(cs: seq<Candidate>, channels: seq<Channel>, limit: nat): seq<Candidate> {
    if channels == [] then []
    else AddedAll(AfterChannels(cs, channels[..|channels| - 1], limit), Share(cs, channels[|channels| - 1]), limit)
  }

  function Selection(cs: seq<Candidate>, limit: nat): seq<Candidate> {
    AddedAll(AfterChannels(cs, Reserved(limit), limit), cs, limit)
  }

  method AddAll(selected: seq<Candidate>, keys: set<string>, cs: seq<Candidate>, limit: nat)
    returns (selected': seq<Candidate>, keys': set<string>)
    requires keys == Keys(selected)
    ensures selected' == AddedAll(selected, cs, limit) && keys' == Keys(selected')
  {
    selected', keys' := selected, keys;
    for i := 0 to |cs|
      invariant selected' == AddedAll(selected, cs[..i], limit) && keys' == Keys(selected')
    {
      assert cs[..i + 1][..i] == cs[..i];
      if cs[i].key !in keys' && |selected'| < limit {
        KeysOfMore(selected', cs[i]);
        selected' := selected' + [cs[i]];
        keys' := keys' + {cs[i].key};
      }
    }
    assert cs[..|cs|] == cs;
  }

  method SelectSearchCandidates(candidates: seq<Candidate>, limit: nat) returns (selected: seq<Candidate>)
    ensures selected == Selection(candidates, limit)
  {
    var keys: set<string>;
    selected, keys := [], {};
    var channels := Reserved(limit);
    for k := 0 to |channels|
      invariant selected == AfterChannels(candidates, channels[..k], limit) && keys == Keys(selected)
    {
      selected, keys := AddAll(selected, keys, Share(candidates, channels[k]), limit);
      assert channels[..k + 1][..k] == channels[..k];
    }
    assert channels[..|channels|] == channels;
    selected, keys := AddAll(selected, keys, candidates, limit);
  }

  // ----- adding -----

  predicate DistinctKeys(cs: seq<Candidate>) {
    forall i, j :: 0 <= i < j < |cs| ==> cs[i].key != cs[j].key
  }

  lemma {:induction false} KeysOfMore(cs: seq<Candidate>, c: Candidate)
    ensures Keys(cs + [c]) == Keys(cs) + {c.key}
  {
    assert (cs + [c])[..|cs|] == cs;
  }

  lemma {:induction false} KeyIsListed(cs: seq<Candidate>, c: Candidate)
    requires c in cs
    ensures c.key in Keys(cs)
  {
    if c != cs[|cs| - 1] {
      KeyIsListed(cs[..|cs| - 1], c);
    }
  }

  lemma {:induction false} KeyHasOwner(cs: seq<Candidate>, key: string) returns (i: nat)
    requires key in Keys(cs)
    ensures i < |cs| && cs[i].key == key
  {
    if cs[|cs| - 1].key == key {
      i := |cs| - 1;
    } else {
      i := KeyHasOwner(cs[..|cs| - 1], key);
    }
  }

  /** One addition keeps the keys distinct. */
  lemma {:induction false} AddedStaysDistinct(selected: seq<Candidate>, c: Candidate, limit: nat)
    requires DistinctKeys(selected)
    ensures DistinctKeys(Added(selected, c, limit))
  {
    forall i | 0 <= i < |selected| && c.key !in Keys(selected) ensures selected[i].key != c.key {
      KeyIsListed(selected, selected[i]);
    }
  }

  /** Adding keeps what was selected, in place and without repeats, and within the limit. */
  lemma {:induction false} AddingIsSafe(selected: seq<Candidate>, cs: seq<Candidate>, limit: nat)
    requires DistinctKeys(selected) && |selected| <= limit
    ensures var r := AddedAll(selected, cs, limit);
            selected <= r && DistinctKeys(r) && |r| <= limit && |r| <= |selected| + |cs|
  {
    if cs != [] {
      AddingIsSafe(selected, cs[..|cs| - 1], limit);
      AddedStaysDistinct(AddedAll(selected, cs[..|cs| - 1], limit), cs[|cs| - 1], limit);
    }
  }

  /** Adding takes only what is offered. */
  lemma {:induction false} AddingTakesOffered(selected: seq<Candidate>, cs: seq<Candidate>, limit: nat)
    ensures forall c :: c in AddedAll(selected, cs, limit) ==> c in selected || c in cs
  {
    if cs != [] {
      AddingTakesOffered(selected, cs[..|cs| - 1], limit);
      assert cs == cs[..|cs| - 1] + [cs[|cs| - 1]];
    }
  }

  lemma {:induction false} KeysWithin(a: seq<Candidate>, b: seq<Candidate>)
    requires forall c :: c in a ==> c in b
    ensures Keys(a) <= Keys(b)
  {
    if a != [] {
      KeysWithin(a[..|a| - 1], b);
      KeyIsListed(b, a[|a| - 1]);
    }
  }

  lemma {:induction false} TakesKey(selected: seq<Candidate>, c: Candidate, limit: nat)
    requires |selected| < limit
    ensures Keys(Added(selected, c, limit)) == Keys(selected) + {c.key}
  {
    KeysOfMore(selected, c);
  }

  /** While there is room for all of them, all keys are taken. */
  lemma {:induction false} RoomForAll(selected: seq<Candidate>, cs: seq<Candidate>, limit: nat)
    requires DistinctKeys(selected) && |selected| <= limit
    requires |AddedAll(selected, cs, limit)| < limit || |selected| + |cs| <= limit
    ensures Keys(cs) <= Keys(AddedAll(selected, cs, limit))
  {
    if cs != [] {
      var front, last := cs[..|cs| - 1], cs[|cs| - 1];
      var before := AddedAll(selected, front, limit);
      AddingIsSafe(selected, front, limit);
      assert |before| < limit;
      RoomForAll(selected, front, limit);
      TakesKey(before, last, limit);
    }
  }

  // ----- quotas -----

  function TotalQuota(channels: seq<Channel>): nat {
    if channels == [] then 0 else TotalQuota(channels[..|channels| - 1]) + channels[|channels| - 1].quota
  }

  /** The floor-division quotas fit into the limit exactly from six on. */
  lemma {:induction false} QuotasFit(limit: nat)
    ensures TotalQuota(Reserved(limit)) <= limit <==> 6 <= limit
  {
    var r := Reserved(limit);
    assert r[..4][..3] == r[..3] && r[..3][..2] == r[..2] && r[..2][..1] == r[..1] && r[..1][..0] == [];
    assert TotalQuota(r[..1]) == r[0].quota;
    assert TotalQuota(r[..2]) == r[0].quota + r[1].quota;
    assert TotalQuota(r[..3]) == r[0].quota + r[1].quota + r[2].quota;
    assert TotalQuota(r[..4]) == r[0].quota + r[1].quota + r[2].quota + r[3].quota;
  }

  lemma {:induction false} ChannelsAreSafe(cs: seq<Candidate>, channels: seq<Channel>, limit: nat)
    ensures var r := AfterChannels(cs, channels, limit);
            DistinctKeys(r) && |r| <= limit && |r| <= TotalQuota(channels) && forall c :: c in r ==> c in cs
  {
    if channels != [] {
      var front, last := channels[..|channels| - 1], channels[|channels| - 1];
      ChannelsAreSafe(cs, front, limit);
      AddingIsSafe(AfterChannels(cs, front, limit), Share(cs, last), limit);
      AddingTakesOffered(AfterChannels(cs, front, limit), Share(cs, last), limit);
      MatchingIsPart(cs, last.search);
      assert forall c :: c in Share(cs, last) ==> c in Matching(cs, last.search);
    }
  }

  lemma {:induction false} MatchingIsPart(cs: seq<Candidate>, search: string)
    ensures forall c :: c in Matching(cs, search) <==> c in cs && search in c.searches
  {
    if cs != [] {
      MatchingIsPart(cs[..|cs| - 1], search);
      assert cs == cs[..|cs| - 1] + [cs[|cs| - 1]];
    }
  }

  lemma {:induction false} EveryShareTaken(cs: seq<Candidate>, channels: seq<Channel>, limit: nat, k: nat)
    requires k < |channels| && TotalQuota(channels) <= limit
    ensures Keys(Share(cs, channels[k])) <= Keys(AfterChannels(cs, channels, limit))
  {
    var front, last := channels[..|channels| - 1], channels[|channels| - 1];
    ChannelsAreSafe(cs, front, limit);
    if k == |channels| - 1 {
      RoomForAll(AfterChannels(cs, front, limit), Share(cs, last), limit);
    } else {
      AddingIsSafe(AfterChannels(cs, front, limit), Share(cs, last), limit);
      KeysWithin(AfterChannels(cs, front, limit), AfterChannels(cs, channels, limit));
      EveryShareTaken(cs, front, limit, k);
    }
  }

  /** From a limit of six on, the first quota-many matches of every channel are selected. */
  lemma {:induction false} KeepsEveryShare(cs: seq<Candidate>, limit: nat, k: nat)
    requires 6 <= limit && k < |Reserved(limit)|
    ensures Keys(Share(cs, Reserved(limit)[k])) <= Keys(Selection(cs, limit))
  {
    QuotasFit(limit);
    EveryShareTaken(cs, Reserved(limit), limit, k);
    ChannelsAreSafe(cs, Reserved(limit), limit);
    AddingIsSafe(AfterChannels(cs, Reserved(limit), limit), cs, limit);
    KeysWithin(AfterChannels(cs, Reserved(limit), limit), Selection(cs, limit));
  }

  lemma {:induction false} DistinctCount(cs: seq<Candidate>)
    requires DistinctKeys(cs)
    ensures |Keys(cs)| == |cs|
  {
    if cs != [] {
      var front, last := cs[..|cs| - 1], cs[|cs| - 1];
      DistinctCount(front);
      if last.key in Keys(front) {
        var i := KeyHasOwner(front, last.key);
      }
    }
  }

  lemma {:induction false} SubsetCount(a: set<string>, b: set<string>)
    requires a <= b
    ensures |a| <= |b|
  {
    assert b == a + (b - a);
  }

  /** The selection has no key twice, takes only candidates, and has exactly as many as the limit and the number of
      distinct keys allow. */
  lemma {:induction false} SelectsAsManyAsPossible(cs: seq<Candidate>, limit: nat)
    ensures var r := Selection(cs, limit);
            && DistinctKeys(r) && (forall c :: c in r ==> c in cs)
            && |r| == if |Keys(cs)| < limit then |Keys(cs)| else limit
  {
    var base, r := AfterChannels(cs, Reserved(limit), limit), Selection(cs, limit);
    ChannelsAreSafe(cs, Reserved(limit), limit);
    AddingIsSafe(base, cs, limit);
    AddingTakesOffered(base, cs, limit);
    DistinctCount(r);
    KeysWithin(r, cs);
    SubsetCount(Keys(r), Keys(cs));
    if |r| < limit {
      RoomForAll(base, cs, limit);
      assert Keys(r) == Keys(cs);
    }
  }

  // ----- below six -----

  /** Six candidates that are all within the quotas of their channels. */
  const CROWDED: seq<Candidate> :=
    [Candidate("1", {"semantic_query"}), Candidate("2", {"semantic_query"}), Candidate("3", {"error_pattern"}),
     Candidate("4", {"title_keywords"}), Candidate("5", {"popular_area"}), Candidate("6", {"area_label"})]

  lemma {:induction false} FirstMatches(cs: seq<Candidate>, search: string, quota: nat, c: Candidate)
    requires c in cs && search in c.searches && |Matching(cs, search)| <= quota
    ensures c.key in Keys(Share(cs, Channel(search, quota)))
  {
    MatchingIsPart(cs, search);
    KeyIsListed(Share(cs, Channel(search, quota)), c);
  }

  lemma {:induction false} CrowdedMatches(search: string)
    ensures search == "semantic_query" ==> |Matching(CROWDED, search)| <= 2
    ensures search in {"error_pattern", "title_keywords", "popular_area", "area_label"} ==>
              |Matching(CROWDED, search)| <= 1
  {
    var c := CROWDED;
    assert c[..6] == c && c[..6][..5] == c[..5] && c[..5][..4] == c[..4] && c[..4][..3] == c[..3];
    assert c[..3][..2] == c[..2] && c[..2][..1] == c[..1] && c[..1][..0] == [];
    assert Matching(c[..1], search) == if search == "semantic_query" then [c[0]] else [];
    assert |Matching(c[..2], search)| == if search == "semantic_query" then 2 else 0;
    assert |Matching(c[..3], search)| == |Matching(c[..2], search)| + if search == "error_pattern" then 1 else 0;
    assert |Matching(c[..4], search)| == |Matching(c[..3], search)| + if search == "title_keywords" then 1 else 0;
    assert |Matching(c[..5], search)| == |Matching(c[..4], search)| + if search == "popular_area" then 1 else 0;
    assert |Matching(c[..6], search)| == |Matching(c[..5], search)| + if search == "area_label" then 1 else 0;
  }

  function ChannelOf(i: nat): nat {
    if i < 2 then 0 else i - 1
  }

  lemma {:induction false} WithinShare(limit: nat, i: nat)
    requires i < 6
    ensures CROWDED[i].key in Keys(Share(CROWDED, Reserved(limit)[ChannelOf(i)]))
  {
    var ch := Reserved(limit)[ChannelOf(i)];
    CrowdedMatches(ch.search);
    FirstMatches(CROWDED, ch.search, ch.quota, CROWDED[i]);
  }

  lemma {:induction false} SomeKeyMissing(keys: set<string>) returns (i: nat)
    requires |keys| < 6
    ensures i < 6 && CROWDED[i].key !in keys
  {
    if forall i :: 0 <= i < 6 ==> CROWDED[i].key in keys {
      var all := {CROWDED[0].key, CROWDED[1].key, CROWDED[2].key, CROWDED[3].key, CROWDED[4].key, CROWDED[5].key};
      assert all == {"1", "2", "3", "4", "5", "6"} && all <= keys;
      SubsetCount(all, keys);
    }
    i :| 0 <= i < 6 && CROWDED[i].key !in keys;
  }

  /** Below a limit of six some channel can lose a reserved match, so six is exactly the limit from which the
      reservations hold for every list of candidates. */
  lemma {:induction false} BelowSixSharesAreLost(limit: nat) returns (k: nat)
    requires limit < 6
    ensures k < |Reserved(limit)| && !(Keys(Share(CROWDED, Reserved(limit)[k])) <= Keys(Selection(CROWDED, limit)))
  {
    SelectsAsManyAsPossible(CROWDED, limit);
    DistinctCount(Selection(CROWDED, limit));
    var i := SomeKeyMissing(Keys(Selection(CROWDED, limit)));
    WithinShare(limit, i);
    k := ChannelOf(i);
  }
}
