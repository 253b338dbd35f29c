/** Reciprocal rank fusion (internal/index/rank.go), over real scores. */
module Rank {

  type Ranking = seq<int>

  const RRF_K := 60.0

  /** What position pos of a ranking is worth. */
  function Worth(pos: nat): (w: real)
    ensures w > 0.0
  {
    1.0 / (RRF_K + (pos + 1) as real)
  }

  /** What the first n places of a ranking give an ID. */
  function Share(ranking: Ranking, n: nat, id: int): (w: real)
    requires n <= |ranking|
    ensures w >= 0.0
  {
    if n == 0 then 0.0 else Share(ranking, n - 1, id) + if ranking[n - 1] == id then Worth(n - 1) else 0.0
  }

  /** An ID's score over all rankings. */
  function Score(rankings: seq<Ranking>, id: int): (w: real)
    ensures w >= 0.0
  {
    if rankings == [] then 0.0
    else
      var last := rankings[|rankings| - 1];
      Score(rankings[..|rankings| - 1], id) + Share(last, |last|, id)
  }

  ghost predicate Ranked(rankings: seq<Ranking>, id: int) {
    exists r :: 0 <= r < |rankings| && id in rankings[r]
  }

  /** a comes before b in the fused order. */
  ghost predicate Ahead(rankings: seq<Ranking>, a: int, b: int) {
    Score(rankings, a) > Score(rankings, b) || (Score(rankings, a) == Score(rankings, b) && a < b)
  }

  /** Each ranked ID once, by score descending, ties by ID. */
  ghost predicate IsFusion(rankings: seq<Ranking>, ids: seq<int>) {
    && (forall id :: id in ids <==> Ranked(rankings, id))
    && (forall i, j :: 0 <= i < j < |ids| ==> Ahead(rankings, ids[i], ids[j]))
  }

  // ---------------------------------------------------------------------
  // The computation
  // ---------------------------------------------------------------------

  /** Reading a Go map: zero for an absent key. */
  function At(scores: map<int, real>, id: int): real {
    if id in scores then scores[id] else 0.0
  }

  /** The comparator given to the sort. */
  predicate Less(scores: map<int, real>, a: int, b: int) {
    if At(scores, a) != At(scores, b) then At(scores, a) > At(scores, b) else a < b
  }

  ghost predicate SortedBy(scores: map<int, real>, ids: seq<int>) {
    forall i, j :: 0 <= i < j < |ids| ==> Less(scores, ids[i], ids[j])
  }

  /** Put one more ID in its place. */
  method Insert(scores: map<int, real>, sorted: seq<int>, id: int) returns (r: seq<int>)
    requires SortedBy(scores, sorted) && id !in sorted
    ensures forall x :: x in r <==> x in sorted || x == id
    ensures SortedBy(scores, r)
  {
    hide Less;
    var n := |sorted|;
    while n > 0 && Less(scores, id, sorted[n - 1])
      invariant 0 <= n <= |sorted|
      invariant forall k :: n <= k < |sorted| ==> Less(scores, id, sorted[k])
    {
      n := n - 1;
    }
    r := sorted[..n] + [id] + sorted[n..];
    assert sorted == sorted[..n] + sorted[n..];
    forall k | 0 <= k < n ensures Less(scores, sorted[k], id) {
      assert sorted[k] in sorted;
      LessChain(scores, sorted[k], sorted[n - 1], id);
    }
  }

  /** What is not after id comes before it. */
  lemma LessChain(scores: map<int, real>, a: int, b: int, id: int)
    requires !Less(scores, id, b) && (a == b || Less(scores, a, b)) && a != id
    ensures Less(scores, a, id)
  {
  }

  /** scores holds exactly the IDs ranked so far, each with its score. */
  ghost predicate Scored(rankings: seq<Ranking>, scores: map<int, real>) {
    && (forall id :: id in scores <==> Ranked(rankings, id))
    && (forall id :: At(scores, id) == Score(rankings, id))
  }

  /** The inner loop: add one ranking's shares to the scores. */
  method AddRanking(before: map<int, real>, ranking: Ranking) returns (scores: map<int, real>)
    ensures forall id :: id in scores <==> id in before || id in ranking
    ensures forall id :: At(scores, id) == At(before, id) + Share(ranking, |ranking|, id)
  {
    hide Worth;
    scores := before;
    for pos := 0 to |ranking|
      invariant forall id :: id in scores <==> id in before || id in ranking[..pos]
      invariant forall id :: At(scores, id) == At(before, id) + Share(ranking, pos, id)
    {
      var id := ranking[pos];
      assert ranking[..pos + 1] == ranking[..pos] + [id];
      scores := scores[id := At(scores, id) + Worth(pos)];
    }
    assert ranking[..|ranking|] == ranking;
  }

  lemma SomeMember(s: set<int>)
    requires s != {}
    ensures exists x :: x in s
  {
    assert (forall x :: x !in s) ==> s == {};
  }

  /** Collect the IDs and sort them. */
  method Order(scores: map<int, real>) returns (ids: seq<int>)
    ensures forall id :: id in ids <==> id in scores
    ensures SortedBy(scores, ids)
  {
    ids := [];
    var todo := scores.Keys;
    while todo != {}
      invariant todo <= scores.Keys
      invariant forall id :: id in ids <==> id in scores && id !in todo
      invariant SortedBy(scores, ids)
      decreases |todo|
    {
      SomeMember(todo);
      var id :| id in todo;
      todo := todo - {id};
      ids := Insert(scores, ids, id);
    }
  }

  method FuseRRF(rankings: seq<Ranking>) returns (ids: seq<int>)
    ensures IsFusion(rankings, ids)
  {
    hide Share;
    var scores: map<int, real> := map[];
    for r := 0 to |rankings|
      invariant Scored(rankings[..r], scores)
    {
      scores := AddRanking(scores, rankings[r]);
      OneMoreRanking(rankings, r);
    }
    assert rankings[..|rankings|] == rankings;
    ids := Order(scores);
    OrderIsFusion(rankings, scores, ids);
  }

  lemma OrderIsFusion(rankings: seq<Ranking>, scores: map<int, real>, ids: seq<int>)
    requires Scored(rankings, scores) && (forall id :: id in ids <==> id in scores) && SortedBy(scores, ids)
    ensures IsFusion(rankings, ids)
  {
    hide Score, Ranked;
    forall i, j | 0 <= i < j < |ids| ensures Ahead(rankings, ids[i], ids[j]) {
      assert Less(scores, ids[i], ids[j]);
    }
  }

  lemma OneMoreRanking(rankings: seq<Ranking>, r: nat)
    requires r < |rankings|
    ensures forall id :: Score(rankings[..r + 1], id) == Score(rankings[..r], id) + Share(rankings[r], |rankings[r]|, id)
    ensures forall id :: Ranked(rankings[..r + 1], id) <==> Ranked(rankings[..r], id) || id in rankings[r]
  {
    var more := rankings[..r + 1];
    assert more[..r] == rankings[..r] && more[r] == rankings[r];
    forall id ensures Ranked(more, id) <==> Ranked(rankings[..r], id) || id in rankings[r] {
      if Ranked(rankings[..r], id) {
        var k :| 0 <= k < r && id in rankings[..r][k];
        assert id in more[k];
      }
      if id in rankings[r] { assert id in more[r]; }
    }
  }

  // ---------------------------------------------------------------------
  // What the order means
  // ---------------------------------------------------------------------

  /** The fused order is the only one: no order of the map, no sort, can change it. */
  lemma {:induction false} FusionIsUnique(rankings: seq<Ranking>, a: seq<int>, b: seq<int>)
    requires IsFusion(rankings, a) && IsFusion(rankings, b)
    ensures a == b
  {
    SameOrder(rankings, a, b);
  }

  lemma {:induction false} SameOrder(rankings: seq<Ranking>, a: seq<int>, b: seq<int>)
    requires forall id :: id in a <==> id in b
    requires forall i, j :: 0 <= i < j < |a| ==> Ahead(rankings, a[i], a[j])
    requires forall i, j :: 0 <= i < j < |b| ==> Ahead(rankings, b[i], b[j])
    ensures a == b
    decreases |a|
  {
    hide Score;
    EmptyTogether(a, b);
    if a != [] {
      assert a[0] in a;
      var i :| 0 <= i < |b| && b[i] == a[0];
      assert b[0] in b;
      var j :| 0 <= j < |a| && a[j] == b[0];
      FirstIsAhead(rankings, b, i);
      FirstIsAhead(rankings, a, j);
      assert a[0] == b[0];
      forall id ensures id in a[1..] <==> id in b[1..] {
        Rest(rankings, a, id);
        Rest(rankings, b, id);
      }
      SameOrder(rankings, a[1..], b[1..]);
      assert a == [a[0]] + a[1..] && b == [b[0]] + b[1..];
    }
  }

  lemma SameMember(a: seq<int>, b: seq<int>, id: int)
    requires forall x :: x in a <==> x in b
    ensures id in a <==> id in b
  {
  }

  lemma EmptyTogether(a: seq<int>, b: seq<int>)
    requires forall id :: id in a <==> id in b
    ensures a == [] <==> b == []
  {
    if a != [] { assert a[0] in a; SameMember(a, b, a[0]); }
    if b != [] { assert b[0] in b; SameMember(a, b, b[0]); }
  }

  lemma FirstIsAhead(rankings: seq<Ranking>, s: seq<int>, i: nat)
    requires i < |s| && forall i, j :: 0 <= i < j < |s| ==> Ahead(rankings, s[i], s[j])
    ensures i == 0 || Ahead(rankings, s[0], s[i])
  {
  }

  lemma Rest(rankings: seq<Ranking>, a: seq<int>, id: int)
    requires a != [] && forall i, j :: 0 <= i < j < |a| ==> Ahead(rankings, a[i], a[j])
    ensures id in a[1..] <==> id in a && id != a[0]
  {
    if id in a[1..] {
      var k :| 0 <= k < |a[1..]| && a[1..][k] == id;
      assert Ahead(rankings, a[0], a[k + 1]);
    }
  }

  ghost predicate NoDuplicates(ranking: Ranking) {
    forall i, j :: 0 <= i < j < |ranking| ==> ranking[i] != ranking[j]
  }

  /** a is placed above b. */
  ghost predicate Above(ranking: Ranking, a: int, b: int) {
    exists i, j :: 0 <= i < j < |ranking| && ranking[i] == a && ranking[j] == b
  }

  lemma {:induction false} NoShare(ranking: Ranking, n: nat, id: int)
    requires n <= |ranking| && id !in ranking[..n]
    ensures Share(ranking, n, id) == 0.0
  {
    if n > 0 {
      assert ranking[n - 1] == ranking[..n][n - 1];
      assert ranking[..n - 1] == ranking[..n][..n - 1];
      NoShare(ranking, n - 1, id);
    }
  }

  lemma {:induction false} ShareOf(ranking: Ranking, n: nat, i: nat)
    requires NoDuplicates(ranking) && i < n <= |ranking|
    ensures Share(ranking, n, ranking[i]) == Worth(i)
  {
    if i == n - 1 {
      NoShare(ranking, i, ranking[i]);
    } else {
      ShareOf(ranking, n - 1, i);
    }
  }

  lemma WorthFalls(i: nat, j: nat)
    requires i < j
    ensures Worth(i) > Worth(j)
  {
    var x, y := RRF_K + (i + 1) as real, RRF_K + (j + 1) as real;
    InverseFalls(x, y, Worth(i), Worth(j));
  }

  lemma InverseFalls(x: real, y: real, u: real, v: real)
    requires 0.0 < x < y && u * x == 1.0 && v * y == 1.0
    ensures u > v
  {
    assert x * y > 0.0;
    assert (u - v) * (x * y) == u * x * y - v * y * x == y - x;
    PositiveFactor(u - v, x * y);
  }

  lemma PositiveFactor(d: real, p: real)
    requires p > 0.0 && d * p > 0.0
    ensures d > 0.0
  {
  }

  lemma AboveSharesMore(ranking: Ranking, a: int, b: int)
    requires NoDuplicates(ranking) && (b in ranking ==> Above(ranking, a, b))
    ensures Share(ranking, |ranking|, a) >= Share(ranking, |ranking|, b)
    ensures b in ranking ==> Share(ranking, |ranking|, a) > Share(ranking, |ranking|, b)
  {
    if b in ranking {
      var i, j :| 0 <= i < j < |ranking| && ranking[i] == a && ranking[j] == b;
      ShareOf(ranking, |ranking|, i);
      ShareOf(ranking, |ranking|, j);
      WorthFalls(i, j);
    } else {
      assert ranking[..|ranking|] == ranking;
      NoShare(ranking, |ranking|, b);
    }
  }

  lemma {:induction false} DominantScoresMore(rankings: seq<Ranking>, a: int, b: int)
    requires forall r :: 0 <= r < |rankings| ==> NoDuplicates(rankings[r])
    requires forall r :: 0 <= r < |rankings| && b in rankings[r] ==> Above(rankings[r], a, b)
    ensures Score(rankings, a) >= Score(rankings, b)
    ensures Ranked(rankings, b) ==> Score(rankings, a) > Score(rankings, b)
  {
    if rankings != [] {
      var n := |rankings| - 1;
      DominantScoresMore(rankings[..n], a, b);
      AboveSharesMore(rankings[n], a, b);
      if r :| 0 <= r < |rankings| && b in rankings[r] {
        if r < n { assert b in rankings[..n][r]; }
      }
    }
  }

  /** Agreement is respected: in duplicate-free rankings, an ID placed above another
      in every ranking that has the other comes first in the fusion. */
  lemma DominantComesFirst(rankings: seq<Ranking>, ids: seq<int>, i: nat, j: nat)
    requires IsFusion(rankings, ids) && i < |ids| && j < |ids| && ids[i] != ids[j]
    requires forall r :: 0 <= r < |rankings| ==> NoDuplicates(rankings[r])
    requires forall r :: 0 <= r < |rankings| && ids[j] in rankings[r] ==> Above(rankings[r], ids[i], ids[j])
    ensures i < j
  {
    DominantScoresMore(rankings, ids[i], ids[j]);
    assert ids[j] in ids;
    assert j < i ==> Ahead(rankings, ids[j], ids[i]);
  }

  /** The order of a fusion, by scores and, for equal scores, by the smaller ID. */
  lemma FusedInOrder(rankings: seq<Ranking>, ids: seq<int>, i: nat, j: nat)
    requires IsFusion(rankings, ids) && i < |ids| && j < |ids| && ids[i] != ids[j]
    ensures i < j <==> Score(rankings, ids[i]) > Score(rankings, ids[j])
                       || (Score(rankings, ids[i]) == Score(rankings, ids[j]) && ids[j] > ids[i])
  {
    hide Score;
    assert i < j ==> Ahead(rankings, ids[i], ids[j]);
    assert j < i ==> Ahead(rankings, ids[j], ids[i]);
  }

  /** Place i, from 0, of a duplicate-free ranking is worth 1 / (61 + i). */
  lemma PlaceIsWorth(ranking: Ranking, i: nat)
    requires NoDuplicates(ranking) && i < |ranking|
    ensures Share(ranking, |ranking|, ranking[i]) * (61 + i) as real == 1.0
  {
    ShareOf(ranking, |ranking|, i);
  }

  /** An ID's score in two rankings is the sum of its shares. */
  lemma ScoreOfTwo(a: Ranking, b: Ranking, id: int)
    ensures Score([a, b], id) == Share(a, |a|, id) + Share(b, |b|, id)
  {
    hide Share;
    var rankings: seq<Ranking> := [a, b];
    assert rankings[..1] == [a] && [a][..0] == [];
    assert Score([a], id) == Score([], id) + Share(a, |a|, id);
  }
}
