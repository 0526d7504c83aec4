/** `getTopClustersForTags`: score every cluster of the registry against a
    triple's tags and return the ids of the best `topN`, most matches first,
    ties in the order the clusters were first recorded. */
module TagClassifier {
  import opened Values
  import opened Clusters

  /** One entry of the script's `Map<clusterId, matchCount>`. */
  datatype Score = Score(id: int, count: nat)

  // ---------------------------------------------------------------------
  // Counting the matches of one cluster

  /** `tags.filter(tag => members.includes(tag))`: the input tags, in input
      order and with their repeats, that are members of the cluster. */
  function Matching(tags: seq<string>, members: seq<string>): (r: seq<string>)
    ensures |r| <= |tags|
    ensures forall t :: t in r ==> t in members && t in tags
  {
    if tags == [] then []
    else
      var last := tags[|tags| - 1];
      Matching(tags[..|tags| - 1], members) + (if last in members then [last] else [])
  }

  /** `matchCount` of one cluster. */
  function MatchCount(tags: seq<string>, members: seq<string>): nat
  {
    |Matching(tags, members)|
  }

  /** The positions of the input list that hold a member of the cluster. */
  ghost function MatchPositions(tags: seq<string>, members: seq<string>): set<int>
  {
    set i | 0 <= i < |tags| && tags[i] in members
  }

  /** The match count is the number of input positions whose tag is a member:
      a tag repeated in the input counts once per occurrence. */
  lemma {:induction false} MatchCountIsPositions(tags: seq<string>, members: seq<string>)
    ensures MatchCount(tags, members) == |MatchPositions(tags, members)|
  {
    if tags != [] {
      var n := |tags| - 1;
      var init := tags[..n];
      MatchCountIsPositions(init, members);
      MatchPositionsStep(tags, members);
      assert n !in MatchPositions(init, members);
    }
  }

  /** Extending the input by one tag adds its position exactly when the
      tag is a member. */
  lemma MatchPositionsStep(tags: seq<string>, members: seq<string>)
    requires tags != []
    ensures var n := |tags| - 1;
            MatchPositions(tags, members) ==
            MatchPositions(tags[..n], members) + (if tags[n] in members then {n} else {})
  {
    var n := |tags| - 1;
    var init := tags[..n];
    forall i ensures i in MatchPositions(tags, members) <==>
                     i in MatchPositions(init, members) || (i == n && tags[n] in members) {
      if 0 <= i < n {
        assert tags[i] == init[i];
      }
    }
  }

  /** A cluster scores above zero exactly when some input tag is a member. */
  lemma {:induction false} MatchCountPositive(tags: seq<string>, members: seq<string>)
    ensures MatchCount(tags, members) > 0 <==> exists i :: 0 <= i < |tags| && tags[i] in members
  {
    MatchCountIsPositions(tags, members);
    if exists i :: 0 <= i < |tags| && tags[i] in members {
      var i :| 0 <= i < |tags| && tags[i] in members;
      assert i in MatchPositions(tags, members);
    } else {
      assert MatchPositions(tags, members) == {};
    }
  }

  // ---------------------------------------------------------------------
  // The insertion-ordered Map

  /** The ids of the entries, in entry order. */
  function Ids(scores: seq<Score>): seq<int>
  {
    seq(|scores|, i requires 0 <= i < |scores| => scores[i].id)
  }

  lemma IdsAppend(a: seq<Score>, b: seq<Score>)
    ensures Ids(a + b) == Ids(a) + Ids(b)
  {
  }

  /** `map.set(id, count)` on a JavaScript Map, which remembers insertion
      order: a key already present keeps its place and takes the new count,
      a new key goes last. */
  function Record(scores: seq<Score>, id: int, count: nat): seq<Score>
  {
    if scores == [] then [Score(id, count)]
    else if scores[0].id == id then [Score(id, count)] + scores[1..]
    else [scores[0]] + Record(scores[1..], id, count)
  }

  /** Setting a new key appends it. */
  lemma {:induction false} RecordNew(scores: seq<Score>, id: int, count: nat)
    requires id !in Ids(scores)
    ensures Record(scores, id, count) == scores + [Score(id, count)]
  {
    if scores != [] {
      assert Ids(scores) == [scores[0].id] + Ids(scores[1..]);
      RecordNew(scores[1..], id, count);
      assert scores == [scores[0]] + scores[1..];
    }
  }

  /** Setting a key already present overwrites its count in place, at its
      first position. */
  lemma {:induction false} RecordExisting(scores: seq<Score>, id: int, count: nat, k: nat)
    requires k < |scores| && scores[k].id == id
    requires forall j :: 0 <= j < k ==> scores[j].id != id
    ensures Record(scores, id, count) == scores[k := Score(id, count)]
  {
    if k > 0 {
      RecordExisting(scores[1..], id, count, k - 1);
    }
  }

  /** `Record` keeps the key order: a key already present stays where it
      is, a new key is appended. */
  lemma {:induction false} RecordIds(scores: seq<Score>, id: int, count: nat)
    ensures Ids(Record(scores, id, count)) == if id in Ids(scores) then Ids(scores) else Ids(scores) + [id]
  {
    if scores != [] {
      var tail := scores[1..];
      assert scores == [scores[0]] + tail;
      IdsAppend([scores[0]], tail);
      if scores[0].id == id {
        IdsAppend([Score(id, count)], tail);
        assert Ids(scores)[0] == id;
      } else {
        RecordIds(tail, id, count);
        IdsAppend([scores[0]], Record(tail, id, count));
      }
    }
  }

  /** After `Record` the new entry is present and every other entry was
      there before. */
  lemma {:induction false} RecordEntries(scores: seq<Score>, id: int, count: nat)
    ensures Score(id, count) in Record(scores, id, count)
    ensures forall e :: e in Record(scores, id, count) ==> e == Score(id, count) || e in scores
  {
    if scores != [] && scores[0].id != id {
      RecordEntries(scores[1..], id, count);
    }
  }

  /** `Record` never makes a key occur twice. */
  lemma RecordDistinct(scores: seq<Score>, id: int, count: nat)
    requires NoDuplicates(Ids(scores))
    ensures NoDuplicates(Ids(Record(scores, id, count)))
  {
    RecordIds(scores, id, count);
    if id !in Ids(scores) {
      assert multiset(Ids(scores) + [id]) == multiset(Ids(scores)) + multiset{id};
    }
  }

  // ---------------------------------------------------------------------
  // Scoring the registry

  /** `matchCount > 0` for this cluster. */
  predicate Matches(tags: seq<string>, cluster: TagCluster)
  {
    MatchCount(tags, cluster.tags) > 0
  }

  /** The Map after `tagClusters.forEach(...)`: every cluster visited in
      registry order, and recorded when its count is above zero. */
  function Tally(tags: seq<string>, registry: seq<TagCluster>): seq<Score>
  {
    if registry == [] then []
    else
      var cluster := registry[|registry| - 1];
      var earlier := Tally(tags, registry[..|registry| - 1]);
      var n := MatchCount(tags, cluster.tags);
      if n > 0 then Record(earlier, cluster.id, n) else earlier
  }

  /** The Map holds each id once and has at most one entry per cluster. */
  lemma {:induction false} TallyDistinct(tags: seq<string>, registry: seq<TagCluster>)
    ensures NoDuplicates(Ids(Tally(tags, registry)))
    ensures |Tally(tags, registry)| <= |registry|
  {
    if registry != [] {
      var n := |registry| - 1;
      var cluster := registry[n];
      var earlier := Tally(tags, registry[..n]);
      TallyDistinct(tags, registry[..n]);
      var m := MatchCount(tags, cluster.tags);
      if m > 0 {
        RecordDistinct(earlier, cluster.id, m);
        RecordIds(earlier, cluster.id, m);
      }
    }
  }

  /** Some cluster at a position before `n` has id `x` and matches. */
  ghost predicate MatchedBefore(tags: seq<string>, registry: seq<TagCluster>, n: int, x: int)
  {
    exists i :: 0 <= i < n && i < |registry| && registry[i].id == x && Matches(tags, registry[i])
  }

  /** The keys of the Map are exactly the ids of the matching clusters. */
  lemma {:induction false} TallyIds(tags: seq<string>, registry: seq<TagCluster>)
    ensures forall x :: x in Ids(Tally(tags, registry)) <==> MatchedBefore(tags, registry, |registry|, x)
  {
    if registry != [] {
      var n := |registry| - 1;
      var init := registry[..n];
      var cluster := registry[n];
      var earlier := Tally(tags, init);
      TallyIds(tags, init);
      var m := MatchCount(tags, cluster.tags);
      if m > 0 {
        RecordIds(earlier, cluster.id, m);
      }
      forall x ensures MatchedBefore(tags, init, n, x) <==> MatchedBefore(tags, registry, n, x) {
        if MatchedBefore(tags, registry, n, x) {
          var i :| 0 <= i < n && i < |registry| && registry[i].id == x && Matches(tags, registry[i]);
          assert init[i] == registry[i];
        }
      }
      forall x ensures MatchedBefore(tags, registry, n + 1, x) <==>
                       MatchedBefore(tags, registry, n, x) || (x == cluster.id && m > 0) {
        if MatchedBefore(tags, registry, n + 1, x) {
          var i :| 0 <= i < n + 1 && i < |registry| && registry[i].id == x && Matches(tags, registry[i]);
          if i < n {
            assert MatchedBefore(tags, registry, n, x);
          }
        }
        if x == cluster.id && m > 0 {
          assert registry[n].id == x && Matches(tags, registry[n]);
        }
      }
    }
  }

  /** Every count in the Map is positive and is the count of some cluster
      with that id. */
  lemma {:induction false} TallyCounts(tags: seq<string>, registry: seq<TagCluster>)
    ensures forall e :: e in Tally(tags, registry) ==>
              e.count > 0 &&
              exists i :: 0 <= i < |registry| && registry[i].id == e.id && MatchCount(tags, registry[i].tags) == e.count
  {
    if registry != [] {
      var n := |registry| - 1;
      var init := registry[..n];
      var cluster := registry[n];
      var earlier := Tally(tags, init);
      TallyCounts(tags, init);
      var m := MatchCount(tags, cluster.tags);
      if m > 0 {
        RecordEntries(earlier, cluster.id, m);
      }
      forall e | e in Tally(tags, registry)
        ensures e.count > 0 &&
                exists i :: 0 <= i < |registry| && registry[i].id == e.id && MatchCount(tags, registry[i].tags) == e.count
      {
        if m > 0 && e == Score(cluster.id, m) {
          assert registry[n].id == e.id;
        } else {
          assert e in earlier;
          var i :| 0 <= i < |init| && init[i].id == e.id && MatchCount(tags, init[i].tags) == e.count;
          assert registry[i] == init[i];
        }
      }
    }
  }

  /** Reference order: one entry per matching cluster, in registry order. */
  function MatchingInOrder(tags: seq<string>, registry: seq<TagCluster>): seq<Score>
  {
    if registry == [] then []
    else
      var cluster := registry[|registry| - 1];
      var n := MatchCount(tags, cluster.tags);
      MatchingInOrder(tags, registry[..|registry| - 1]) + (if n > 0 then [Score(cluster.id, n)] else [])
  }

  /** With unique cluster ids no `set` ever overwrites, so the Map lists the
      matching clusters in registry order with their own counts. */
  lemma {:induction false} TallyInRegistryOrder(tags: seq<string>, registry: seq<TagCluster>)
    requires UniqueIds(registry)
    ensures Tally(tags, registry) == MatchingInOrder(tags, registry)
  {
    if registry != [] {
      var n := |registry| - 1;
      var init := registry[..n];
      var cluster := registry[n];
      var earlier := Tally(tags, init);
      var m := MatchCount(tags, cluster.tags);
      assert UniqueIds(init) by {
        forall i, j | 0 <= i < j < |init| ensures init[i].id != init[j].id {
          assert init[i] == registry[i] && init[j] == registry[j];
        }
      }
      TallyInRegistryOrder(tags, init);
      assert MatchingInOrder(tags, registry) ==
             MatchingInOrder(tags, init) + (if m > 0 then [Score(cluster.id, m)] else []);
      if m > 0 {
        assert Tally(tags, registry) == Record(earlier, cluster.id, m);
        TallyIds(tags, init);
        forall i | 0 <= i < n ensures init[i].id != cluster.id {
          assert init[i] == registry[i];
        }
        assert !MatchedBefore(tags, init, n, cluster.id);
        RecordNew(earlier, cluster.id, m);
      } else {
        assert Tally(tags, registry) == earlier;
      }
    }
  }

  // ---------------------------------------------------------------------
  // Stable sort by count, highest first

  /** The counts never increase along the sequence. */
  predicate Descending(s: seq<Score>)
  {
    forall i, j :: 0 <= i < j < |s| ==> s[i].count >= s[j].count
  }

  /** The entries with count `n`, in sequence order. */
  function WithCount(s: seq<Score>, n: nat): seq<Score>
  {
    if s == [] then []
    else (if s[0].count == n then [s[0]] else []) + WithCount(s[1..], n)
  }

  /** Places an entry that came before every entry of `ranked` in the input:
      after the entries with a strictly higher count, before the rest. */
  function Insert(s: Score, ranked: seq<Score>): seq<Score>
  {
    if ranked == [] || ranked[0].count <= s.count then [s] + ranked
    else [ranked[0]] + Insert(s, ranked[1..])
  }

  /** `.sort((a, b) => b[1] - a[1])` under the stable sort that ECMAScript
      requires of `Array.prototype.sort`. */
  function Rank(scores: seq<Score>): seq<Score>
  {
    if scores == [] then [] else Insert(scores[0], Rank(scores[1..]))
  }

  /** Inserting adds exactly the one entry. */
  lemma {:induction false} InsertPermutes(s: Score, ranked: seq<Score>)
    ensures |Insert(s, ranked)| == |ranked| + 1
    ensures multiset(Insert(s, ranked)) == multiset(ranked) + multiset{s}
  {
    if !(ranked == [] || ranked[0].count <= s.count) {
      InsertPermutes(s, ranked[1..]);
      assert ranked == [ranked[0]] + ranked[1..];
    }
  }

  /** Inserting adds exactly the one id. */
  lemma {:induction false} InsertPermutesIds(s: Score, ranked: seq<Score>)
    ensures multiset(Ids(Insert(s, ranked))) == multiset(Ids(ranked)) + multiset{s.id}
  {
    if ranked == [] || ranked[0].count <= s.count {
      IdsAppend([s], ranked);
      assert Ids([s]) == [s.id];
    } else {
      var tail := ranked[1..];
      InsertPermutesIds(s, tail);
      assert ranked == [ranked[0]] + tail;
      IdsAppend([ranked[0]], tail);
      IdsAppend([ranked[0]], Insert(s, tail));
      assert Ids([ranked[0]]) == [ranked[0].id];
    }
  }

  /** Inserting an entry no higher than a bound into entries no higher than
      it keeps every entry under the bound. */
  lemma {:induction false} InsertBounded(s: Score, ranked: seq<Score>, bound: nat)
    requires s.count <= bound
    requires forall i :: 0 <= i < |ranked| ==> ranked[i].count <= bound
    ensures forall i :: 0 <= i < |Insert(s, ranked)| ==> Insert(s, ranked)[i].count <= bound
  {
    if !(ranked == [] || ranked[0].count <= s.count) {
      InsertBounded(s, ranked[1..], bound);
    }
  }

  /** Inserting into a ranking gives a ranking. */
  lemma {:induction false} InsertDescending(s: Score, ranked: seq<Score>)
    requires Descending(ranked)
    ensures Descending(Insert(s, ranked))
  {
    if !(ranked == [] || ranked[0].count <= s.count) {
      var tail := ranked[1..];
      InsertDescending(s, tail);
      InsertBounded(s, tail, ranked[0].count);
    }
  }

  /** Inserting puts the new entry first among the entries of its count. */
  lemma {:induction false} InsertWithCount(s: Score, ranked: seq<Score>, n: nat)
    ensures WithCount(Insert(s, ranked), n) == (if s.count == n then [s] else []) + WithCount(ranked, n)
  {
    var head: seq<Score> := if s.count == n then [s] else [];
    if ranked == [] || ranked[0].count <= s.count {
      var r := [s] + ranked;
      assert r[0] == s && r[1..] == ranked;
      assert WithCount(r, n) == head + WithCount(ranked, n);
    } else {
      var first := ranked[0];
      var rest := Insert(s, ranked[1..]);
      InsertWithCount(s, ranked[1..], n);
      var r := [first] + rest;
      assert r[0] == first && r[1..] == rest;
      var mid: seq<Score> := if first.count == n then [first] else [];
      assert WithCount(r, n) == mid + WithCount(rest, n);
      assert WithCount(ranked, n) == mid + WithCount(ranked[1..], n);
      assert first.count == n ==> s.count != n;
    }
  }

  /** The ranking is a permutation of the Map's entries. */
  lemma {:induction false} RankPermutes(scores: seq<Score>)
    ensures |Rank(scores)| == |scores|
    ensures multiset(Rank(scores)) == multiset(scores)
  {
    if scores != [] {
      var tail := scores[1..];
      RankPermutes(tail);
      InsertPermutes(scores[0], Rank(tail));
      assert scores == [scores[0]] + tail;
    }
  }

  /** The ranking holds the same ids, as often, as the Map. */
  lemma {:induction false} RankPermutesIds(scores: seq<Score>)
    ensures multiset(Ids(Rank(scores))) == multiset(Ids(scores))
  {
    if scores != [] {
      var first := scores[0];
      var tail := scores[1..];
      RankPermutesIds(tail);
      InsertPermutesIds(first, Rank(tail));
      assert multiset(Ids(Rank(scores))) == multiset(Ids(tail)) + multiset{first.id};
      assert scores == [first] + tail;
      IdsAppend([first], tail);
      assert Ids([first]) == [first.id];
    }
  }

  /** The ranking is sorted by count, highest first. */
  lemma {:induction false} RankDescending(scores: seq<Score>)
    ensures Descending(Rank(scores))
  {
    if scores != [] {
      RankDescending(scores[1..]);
      InsertDescending(scores[0], Rank(scores[1..]));
    }
  }

  /** The sort is stable: the entries of each count keep their Map order. */
  lemma {:induction false} RankStable(scores: seq<Score>, n: nat)
    ensures WithCount(Rank(scores), n) == WithCount(scores, n)
  {
    if scores != [] {
      RankStable(scores[1..], n);
      InsertWithCount(scores[0], Rank(scores[1..]), n);
    }
  }

  /** `a` is an initial segment of `b`. */
  predicate IsPrefix(a: seq<Score>, b: seq<Score>)
  {
    |a| <= |b| && b[..|a|] == a
  }

  /** Cutting a sequence short cuts each count's subsequence short. */
  lemma {:induction false} WithCountOfPrefix(s: seq<Score>, k: nat, n: nat)
    requires k <= |s|
    ensures IsPrefix(WithCount(s[..k], n), WithCount(s, n))
  {
    if k > 0 {
      WithCountOfPrefix(s[1..], k - 1, n);
      assert s[..k][1..] == s[1..][..k - 1];
    }
  }

  // ---------------------------------------------------------------------
  // The classifier

  /** `.slice(0, topN)` of the ranking. */
  function TopScores(tags: seq<string>, registry: seq<TagCluster>, topN: nat): seq<Score>
  {
    var ranked := Rank(Tally(tags, registry));
    if topN < |ranked| then ranked[..topN] else ranked
  }

  /** `getTopClustersForTags(tags, topN)` with the loaded registry passed in. */
  function TopClustersForTags(tags: seq<string>, registry: seq<TagCluster>, topN: nat): (r: seq<int>)
    ensures |r| <= topN && |r| <= |registry|
  {
    TallyDistinct(tags, registry);
    RankPermutes(Tally(tags, registry));
    Ids(TopScores(tags, registry, topN))
  }

  /** The ids of every cluster that matches at least one tag. */
  ghost function MatchingIds(tags: seq<string>, registry: seq<TagCluster>): set<int>
  {
    set i | 0 <= i < |registry| && Matches(tags, registry[i]) :: registry[i].id
  }

  lemma {:induction false} DistinctCardinality(s: seq<int>)
    requires NoDuplicates(s)
    ensures |set x | x in s| == |s|
  {
    if s != [] {
      var tail := s[1..];
      assert s == [s[0]] + tail;
      assert multiset(s) == multiset{s[0]} + multiset(tail);
      assert NoDuplicates(tail) by {
        forall x ensures multiset(tail)[x] <= 1 {
          assert multiset(s)[x] <= 1;
        }
      }
      DistinctCardinality(tail);
      assert s[0] !in tail by {
        assert multiset(s)[s[0]] <= 1;
      }
      assert (set x | x in s) == {s[0]} + (set x | x in tail);
    }
  }

  /** The Map's keys, as a set, are the matching ids, one entry each. */
  lemma {:induction false} TallyMatchingIds(tags: seq<string>, registry: seq<TagCluster>)
    ensures forall x :: x in Ids(Tally(tags, registry)) <==> x in MatchingIds(tags, registry)
    ensures |Tally(tags, registry)| == |MatchingIds(tags, registry)|
  {
    var t := Tally(tags, registry);
    TallyDistinct(tags, registry);
    TallyIds(tags, registry);
    forall x ensures x in Ids(t) <==> x in MatchingIds(tags, registry) {
      if x in Ids(t) {
        assert MatchedBefore(tags, registry, |registry|, x);
        var i :| 0 <= i < |registry| && registry[i].id == x && Matches(tags, registry[i]);
      }
    }
    DistinctCardinality(Ids(t));
    assert (set x | x in Ids(t)) == MatchingIds(tags, registry);
  }

  /** The ranking holds every matching id once and no other. */
  lemma {:induction false} RankedIds(tags: seq<string>, registry: seq<TagCluster>)
    ensures var ranked := Rank(Tally(tags, registry));
            NoDuplicates(Ids(ranked)) &&
            |ranked| == |MatchingIds(tags, registry)| &&
            forall x :: x in Ids(ranked) <==> x in MatchingIds(tags, registry)
  {
    var t := Tally(tags, registry);
    var ranked := Rank(t);
    TallyDistinct(tags, registry);
    TallyMatchingIds(tags, registry);
    RankPermutes(t);
    RankPermutesIds(t);
    forall x ensures x in Ids(ranked) <==> x in Ids(t) {
      assert x in Ids(ranked) <==> x in multiset(Ids(ranked));
      assert x in Ids(t) <==> x in multiset(Ids(t));
    }
    forall x | x in Ids(ranked) ensures multiset(Ids(ranked))[x] <= 1 {
      assert multiset(Ids(t))[x] <= 1;
    }
  }

  /** The result holds at most `topN` ids and no id twice, each the id of a
      cluster with at least one of the tags as a member; when no more than
      `topN` clusters match, it holds all of them. */
  lemma {:induction false} TopClustersMembers(tags: seq<string>, registry: seq<TagCluster>, topN: nat)
    ensures var r := TopClustersForTags(tags, registry, topN);
            |r| <= topN &&
            |r| == (if topN < |MatchingIds(tags, registry)| then topN else |MatchingIds(tags, registry)|) &&
            NoDuplicates(r) &&
            (forall x :: x in r ==> x in MatchingIds(tags, registry)) &&
            (|MatchingIds(tags, registry)| <= topN ==> forall x :: x in r <==> x in MatchingIds(tags, registry))
  {
    var ranked := Rank(Tally(tags, registry));
    RankedIds(tags, registry);
    var ids := Ids(ranked);
    var r := TopClustersForTags(tags, registry, topN);
    if topN < |ranked| {
      assert r == ids[..topN];
      PrefixDistinct(ids, topN);
    } else {
      assert r == ids;
    }
  }

  /** A prefix of a sequence without repeats has no repeats and holds only
      elements of the sequence. */
  lemma PrefixDistinct(s: seq<int>, k: nat)
    requires k <= |s| && NoDuplicates(s)
    ensures NoDuplicates(s[..k]) && forall x :: x in s[..k] ==> x in s
  {
    assert s == s[..k] + s[k..];
    assert multiset(s) == multiset(s[..k]) + multiset(s[k..]);
    forall x | x in s[..k] ensures multiset(s[..k])[x] <= 1 {
      assert multiset(s)[x] <= 1;
    }
  }

  /** A cluster whose own tag list is empty (such as the fallback cluster)
      never matches, so with unique ids it is never returned. */
  lemma {:induction false} EmptyClusterNeverReturned(tags: seq<string>, registry: seq<TagCluster>, topN: nat, k: nat)
    requires UniqueIds(registry)
    requires k < |registry| && registry[k].tags == []
    ensures registry[k].id !in TopClustersForTags(tags, registry, topN)
  {
    TopClustersMembers(tags, registry, topN);
    MatchCountPositive(tags, registry[k].tags);
    forall i | 0 <= i < |registry| && Matches(tags, registry[i]) ensures registry[i].id != registry[k].id {
      if i < k || k < i {
      }
    }
    assert registry[k].id !in MatchingIds(tags, registry);
  }

  /** An empty tag list matches no cluster and yields no ids. */
  lemma {:induction false} NoTagsNoClusters(registry: seq<TagCluster>, topN: nat)
    ensures TopClustersForTags([], registry, topN) == []
  {
    RankedIds([], registry);
    assert MatchingIds([], registry) == {};
  }

  /** The entries behind the result come in non-increasing count order, and
      among entries of equal count the result keeps the Map's order (the
      order of first insertion): for each count, the result's entries with
      that count are the first ones the Map holds with that count. */
  lemma {:induction false} TopClustersRanked(tags: seq<string>, registry: seq<TagCluster>, topN: nat)
    ensures var top := TopScores(tags, registry, topN);
            Ids(top) == TopClustersForTags(tags, registry, topN) &&
            Descending(top) &&
            (forall e, f :: e in Tally(tags, registry) && e !in top && f in top ==> f.count >= e.count) &&
            forall n :: IsPrefix(WithCount(top, n), WithCount(Tally(tags, registry), n))
  {
    var t := Tally(tags, registry);
    var ranked := Rank(t);
    RankDescending(t);
    TopScoresBest(tags, registry, topN);
    var top := TopScores(tags, registry, topN);
    forall n ensures IsPrefix(WithCount(top, n), WithCount(t, n)) {
      RankStable(t, n);
      if topN < |ranked| {
        WithCountOfPrefix(ranked, topN, n);
      } else {
        assert top == ranked;
      }
    }
  }

  /** No Map entry left out of the cut scores higher than one kept. */
  lemma TopScoresBest(tags: seq<string>, registry: seq<TagCluster>, topN: nat)
    ensures var top := TopScores(tags, registry, topN);
            forall e, f :: e in Tally(tags, registry) && e !in top && f in top ==> f.count >= e.count
  {
    var t := Tally(tags, registry);
    var ranked := Rank(t);
    var top := TopScores(tags, registry, topN);
    RankPermutes(t);
    RankDescending(t);
    assert |top| <= |ranked| && forall k :: 0 <= k < |top| ==> top[k] == ranked[k];
    forall e, f | e in t && e !in top && f in top ensures f.count >= e.count {
      assert e in multiset(ranked) by {
        assert e in multiset(t);
      }
      var j :| 0 <= j < |ranked| && ranked[j] == e;
      var i :| 0 <= i < |top| && top[i] == f;
      assert |top| <= j;
      assert ranked[i] == f;
    }
  }

  /** The two match counts of the repeated-tags example. */
  lemma RepeatedTagsMatchCounts(a: string, b: string)
    requires a != b
    ensures MatchCount([b, b, a], [a]) == 1 && MatchCount([b, b, a], [b]) == 2
  {
    var tags := [b, b, a];
    assert tags[..2] == [b, b] && [b, b][..1] == [b] && [b][..0] == [];
    assert Matching([b], [a]) == [];
    assert Matching([b, b], [a]) == [];
    assert Matching([b], [b]) == [b];
    assert Matching([b, b], [b]) == [b, b];
  }

  /** Repeated tags count every time they occur: with tags [b, b, a], a
      cluster holding only b (two matches) ranks ahead of an earlier cluster
      holding only a (one match). */
  lemma RepeatedTagsCountTwice(a: string, b: string)
    requires a != b
    ensures TopClustersForTags([b, b, a], [TagCluster(1, "A", [], [a]), TagCluster(2, "B", [], [b])], 3) == [2, 1]
  {
    var tags := [b, b, a];
    RepeatedTagsMatchCounts(a, b);
    var ca := TagCluster(1, "A", [], [a]);
    var cb := TagCluster(2, "B", [], [b]);
    assert Tally(tags, [ca, cb]) == [Score(1, 1), Score(2, 2)] by {
      assert [ca, cb][..1] == [ca] && [ca][..0] == [];
      assert Tally(tags, [ca]) == [Score(1, 1)];
      RecordNew([Score(1, 1)], 2, 2);
    }
    assert Rank([Score(1, 1), Score(2, 2)]) == [Score(2, 2), Score(1, 1)] by {
      assert Rank([Score(2, 2)]) == [Score(2, 2)];
    }
  }

  /** The three match counts of the tie-breaking example. */
  lemma TieMatchCounts(a: string, b: string, c: string)
    requires a != b && b != c && a != c
    ensures MatchCount([a, b], [a, b]) == 2 && MatchCount([a, b], [a]) == 1 && MatchCount([a, b], [a, b, c]) == 2
  {
    assert [a, b][..1] == [a] && [a][..0] == [];
    assert Matching([a], [a, b]) == [a];
    assert Matching([a], [a]) == [a];
    assert Matching([a], [a, b, c]) == [a];
  }

  /** Clusters [1: a b], [2: a], [3: a b c] against tags [a, b] score 2, 1, 2
      and rank 1, 3, 2: the tie between 1 and 3 keeps registry order. */
  lemma RegistryOrderBreaksTies(a: string, b: string, c: string)
    requires a != b && b != c && a != c
    ensures TopClustersForTags([a, b],
                               [TagCluster(1, "", [], [a, b]), TagCluster(2, "", [], [a]),
                                TagCluster(3, "", [], [a, b, c])], 3) == [1, 3, 2]
  {
    var tags := [a, b];
    var c1 := TagCluster(1, "", [], [a, b]);
    var c2 := TagCluster(2, "", [], [a]);
    var c3 := TagCluster(3, "", [], [a, b, c]);
    TieMatchCounts(a, b, c);
    assert Tally(tags, [c1, c2]) == [Score(1, 2), Score(2, 1)] by {
      assert [c1, c2][..1] == [c1] && [c1][..0] == [];
      assert Tally(tags, [c1]) == [Score(1, 2)];
      RecordNew([Score(1, 2)], 2, 1);
    }
    assert Tally(tags, [c1, c2, c3]) == [Score(1, 2), Score(2, 1), Score(3, 2)] by {
      assert [c1, c2, c3][..2] == [c1, c2];
      RecordNew([Score(1, 2), Score(2, 1)], 3, 2);
    }
    assert Rank([Score(1, 2), Score(2, 1), Score(3, 2)]) == [Score(1, 2), Score(3, 2), Score(2, 1)] by {
      assert Rank([Score(3, 2)]) == [Score(3, 2)];
      assert Rank([Score(2, 1), Score(3, 2)]) == [Score(3, 2), Score(2, 1)];
    }
  }
}
