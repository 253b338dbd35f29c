/** The ranking part of Search (internal/service/index.go): what a query returns, given
    each chunk's similarity to it and the keyword ranking. */
module Search {
  import opened Wrappers
  import opened Store
  import Rank

  const DEFAULT_LIMIT: nat := 6
  const MAX_LIMIT: nat := 20
  const POOL: nat := 40
  const PREVIEW: nat := 700
  const MIN_RELEVANCE := 0.3

  datatype Hit = Hit(key: Key, index: nat, score: real, text: string)

  /** Cosine similarity to the query. */
  type Similarity = Vec -> real

  function ScoreOf(sim: Similarity, c: ChunkRow): real {
    sim(c.content.embedding)
  }

  function Truncate(s: string): string {
    if |s| <= PREVIEW then s else s[..PREVIEW] + "…"
  }

  function HitFor(sim: Similarity, c: ChunkRow): Hit {
    Hit(c.key, c.content.index, ScoreOf(sim, c), Truncate(c.content.text))
  }

  ghost predicate UniqueIds(all: seq<ChunkRow>) {
    forall i, j :: 0 <= i < j < |all| ==> all[i].id != all[j].id
  }

  /** The chunks similar enough to count, each once, most similar first. */
  ghost predicate IsNearest(all: seq<ChunkRow>, sim: Similarity, near: seq<ChunkRow>) {
    && (forall c :: c in near <==> c in all && ScoreOf(sim, c) >= MIN_RELEVANCE)
    && Descending(sim, near) && UniqueIds(near)
  }

  ghost predicate Descending(sim: Similarity, rows: seq<ChunkRow>) {
    forall i, j :: 0 <= i < j < |rows| ==> ScoreOf(sim, rows[i]) >= ScoreOf(sim, rows[j])
  }

  function IdsOf(rows: seq<ChunkRow>): (ids: seq<int>)
    ensures |ids| == |rows| && forall i :: 0 <= i < |rows| ==> ids[i] == rows[i].id
  {
    seq(|rows|, i requires 0 <= i < |rows| => rows[i].id as int)
  }

  function Pool(near: seq<ChunkRow>): (pool: seq<ChunkRow>)
    ensures pool <= near
  {
    if |near| > POOL then near[..POOL] else near
  }

  function Limit(limit: int): (n: nat)
    ensures 1 <= n <= MAX_LIMIT
  {
    if limit <= 0 || limit > MAX_LIMIT then DEFAULT_LIMIT else limit
  }

  function First(ids: seq<int>, n: nat): seq<int> {
    if |ids| > n then ids[..n] else ids
  }

  function ById(all: seq<ChunkRow>, id: int): (r: Option<ChunkRow>)
    ensures r.Some? ==> r.value in all && r.value.id == id
    ensures r.None? ==> forall i :: 0 <= i < |all| ==> all[i].id != id
  {
    if all == [] then None
    else if all[|all| - 1].id == id then Some(all[|all| - 1])
    else ById(all[..|all| - 1], id)
  }

  /** One hit per id that is a stored chunk. */
  function HitsFor(all: seq<ChunkRow>, sim: Similarity, ids: seq<int>): (hits: seq<Hit>)
    ensures |hits| <= |ids|
  {
    if ids == [] then []
    else
      var c := ById(all, ids[|ids| - 1]);
      HitsFor(all, sim, ids[..|ids| - 1]) + if c.Some? then [HitFor(sim, c.value)] else []
  }

  // ---------------------------------------------------------------------
  // The computation
  // ---------------------------------------------------------------------

  /** Put one more chunk in its place. */
  method Insert(sim: Similarity, sorted: seq<ChunkRow>, c: ChunkRow) returns (r: seq<ChunkRow>)
    requires Descending(sim, sorted) && UniqueIds(sorted) && forall i :: 0 <= i < |sorted| ==> sorted[i].id != c.id
    ensures forall x :: x in r <==> x in sorted || x == c
    ensures Descending(sim, r) && UniqueIds(r)
  {
    hide ScoreOf, Descending, UniqueIds;
    var n := |sorted|;
    while n > 0 && ScoreOf(sim, c) > ScoreOf(sim, sorted[n - 1])
      invariant 0 <= n <= |sorted|
      invariant forall k :: n <= k < |sorted| ==> ScoreOf(sim, c) > ScoreOf(sim, sorted[k])
    {
      n := n - 1;
    }
    r := sorted[..n] + [c] + sorted[n..];
    PlacedMembers(sorted, n, c);
    PlacedUnique(sorted, n, c);
    PlacedDescending(sim, sorted, n, c);
  }

  lemma PlacedMembers(sorted: seq<ChunkRow>, n: nat, c: ChunkRow)
    requires n <= |sorted|
    ensures forall x :: x in sorted[..n] + [c] + sorted[n..] <==> x in sorted || x == c
  {
    assert sorted == sorted[..n] + sorted[n..];
  }

  lemma PlacedUnique(sorted: seq<ChunkRow>, n: nat, c: ChunkRow)
    requires n <= |sorted| && UniqueIds(sorted) && forall i :: 0 <= i < |sorted| ==> sorted[i].id != c.id
    ensures UniqueIds(sorted[..n] + [c] + sorted[n..])
  {
  }

  lemma PlacedDescending(sim: Similarity, sorted: seq<ChunkRow>, n: nat, c: ChunkRow)
    requires n <= |sorted| && Descending(sim, sorted)
    requires n > 0 ==> ScoreOf(sim, sorted[n - 1]) >= ScoreOf(sim, c)
    requires forall k :: n <= k < |sorted| ==> ScoreOf(sim, c) > ScoreOf(sim, sorted[k])
    ensures Descending(sim, sorted[..n] + [c] + sorted[n..])
  {
    hide ScoreOf;
  }

  method Sort(sim: Similarity, rows: seq<ChunkRow>) returns (sorted: seq<ChunkRow>)
    requires UniqueIds(rows)
    ensures forall x :: x in sorted <==> x in rows
    ensures Descending(sim, sorted) && UniqueIds(sorted)
  {
    hide ScoreOf;
    sorted := [];
    for i := 0 to |rows|
      invariant forall x :: x in sorted <==> x in rows[..i]
      invariant Descending(sim, sorted) && UniqueIds(sorted)
    {
      assert rows[..i + 1] == rows[..i] + [rows[i]];
      forall k | 0 <= k < |sorted| ensures sorted[k].id != rows[i].id {
        assert sorted[k] in rows[..i];
      }
      sorted := Insert(sim, sorted, rows[i]);
    }
    assert rows[..|rows|] == rows;
  }

  /** Drop what is closer to noise than to signal, and sort the rest. */
  method Nearest(all: seq<ChunkRow>, sim: Similarity) returns (near: seq<ChunkRow>)
    requires UniqueIds(all)
    ensures IsNearest(all, sim, near)
  {
    hide ScoreOf;
    var ranked: seq<ChunkRow> := [];
    for i := 0 to |all|
      invariant UniqueIds(ranked)
      invariant forall c :: c in ranked <==> c in all[..i] && ScoreOf(sim, c) >= MIN_RELEVANCE
    {
      assert all[..i + 1] == all[..i] + [all[i]];
      if ScoreOf(sim, all[i]) < MIN_RELEVANCE { continue; }
      forall k | 0 <= k < |ranked| ensures ranked[k].id != all[i].id {
        assert ranked[k] in all[..i];
      }
      ranked := ranked + [all[i]];
    }
    assert all[..|all|] == all;
    near := Sort(sim, ranked);
  }

  method CollectHits(all: seq<ChunkRow>, sim: Similarity, ids: seq<int>) returns (hits: seq<Hit>)
    ensures hits == HitsFor(all, sim, ids)
  {
    var byId: map<int, ChunkRow> := map[];
    for i := 0 to |all|
      invariant forall id :: ById(all[..i], id) == if id in byId then Some(byId[id]) else None
    {
      assert all[..i + 1][..i] == all[..i];
      byId := byId[all[i].id := all[i]];
    }
    assert all[..|all|] == all;
    hits := [];
    for i := 0 to |ids|
      invariant hits == HitsFor(all, sim, ids[..i])
    {
      assert ids[..i + 1][..i] == ids[..i];
      if ids[i] !in byId { continue; }
      hits := hits + [HitFor(sim, byId[ids[i]])];
    }
    assert ids[..|ids|] == ids;
  }

  /** keyword is the keyword ranking, or nothing when that search failed. */
  method Search(all: seq<ChunkRow>, sim: Similarity, keyword: Option<seq<int>>, limit: int)
    returns (hits: seq<Hit>, ghost near: seq<ChunkRow>, ghost fused: seq<int>)
    requires UniqueIds(all)
    ensures Answers(all, sim, keyword, limit, hits, near, fused)
    ensures |hits| <= Limit(limit) && forall i :: 0 <= i < |hits| ==> Justified(all, sim, keyword, hits[i])
  {
    hide Justified, IsNearest, HitsFor, Rank.IsFusion;
    near, fused := [], [];
    if |all| == 0 { return [], near, fused; }
    var ranked := Nearest(all, sim);
    near := ranked;
    var words := if keyword.Some? then keyword.value else [];
    var ids := Rank.FuseRRF([IdsOf(Pool(ranked)), words]);
    fused := ids;
    hits := CollectHits(all, sim, First(ids, Limit(limit)));
    HitsAreJustified(all, sim, keyword, limit, hits, near, fused);
  }

  /** The hits are the first entries of the fusion of the two rankings. */
  ghost predicate Answers(all: seq<ChunkRow>, sim: Similarity, keyword: Option<seq<int>>, limit: int,
                          hits: seq<Hit>, near: seq<ChunkRow>, fused: seq<int>) {
    if all == [] then hits == []
    else
      && IsNearest(all, sim, near)
      && Rank.IsFusion([IdsOf(Pool(near)), if keyword.Some? then keyword.value else []], fused)
      && hits == HitsFor(all, sim, First(fused, Limit(limit)))
  }

  // ---------------------------------------------------------------------
  // What the answer means
  // ---------------------------------------------------------------------

  /** Every hit is a stored chunk that is similar enough to the query or a keyword match. */
  ghost predicate Justified(all: seq<ChunkRow>, sim: Similarity, keyword: Option<seq<int>>, h: Hit) {
    exists c :: c in all && h == HitFor(sim, c)
                && (ScoreOf(sim, c) >= MIN_RELEVANCE || (keyword.Some? && c.id as int in keyword.value))
  }

  lemma HitsAreJustified(all: seq<ChunkRow>, sim: Similarity, keyword: Option<seq<int>>, limit: int,
                         hits: seq<Hit>, near: seq<ChunkRow>, fused: seq<int>)
    requires UniqueIds(all) && Answers(all, sim, keyword, limit, hits, near, fused)
    ensures |hits| <= Limit(limit)
    ensures forall i :: 0 <= i < |hits| ==> Justified(all, sim, keyword, hits[i])
  {
    hide Justified, HitsFor;
    if all != [] {
      var ids := First(fused, Limit(limit));
      forall i | 0 <= i < |ids| && ById(all, ids[i]).Some?
        ensures Justified(all, sim, keyword, HitFor(sim, ById(all, ids[i]).value))
      {
        RankedIsJustified(all, sim, keyword, near, fused, ids[i]);
      }
      EachHit(all, sim, keyword, ids);
    }
  }

  lemma RankedIsJustified(all: seq<ChunkRow>, sim: Similarity, keyword: Option<seq<int>>, near: seq<ChunkRow>, fused: seq<int>, id: int)
    requires UniqueIds(all) && IsNearest(all, sim, near) && id in fused && ById(all, id).Some?
    requires Rank.IsFusion([IdsOf(Pool(near)), if keyword.Some? then keyword.value else []], fused)
    ensures Justified(all, sim, keyword, HitFor(sim, ById(all, id).value))
  {
    var rankings := [IdsOf(Pool(near)), if keyword.Some? then keyword.value else []];
    var c := ById(all, id).value;
    assert Rank.Ranked(rankings, id);
    var r :| 0 <= r < |rankings| && id in rankings[r];
    if r == 0 {
      var i :| 0 <= i < |rankings[0]| && rankings[0][i] == id;
      assert near[i] in all && near[i].id == c.id;
      SameChunk(all, near[i], c);
    }
  }

  lemma SameChunk(all: seq<ChunkRow>, a: ChunkRow, b: ChunkRow)
    requires UniqueIds(all) && a in all && b in all && a.id == b.id
    ensures a == b
  {
  }

  lemma {:induction false} EachHit(all: seq<ChunkRow>, sim: Similarity, keyword: Option<seq<int>>, ids: seq<int>)
    requires forall i :: 0 <= i < |ids| && ById(all, ids[i]).Some? ==> Justified(all, sim, keyword, HitFor(sim, ById(all, ids[i]).value))
    ensures forall i :: 0 <= i < |HitsFor(all, sim, ids)| ==> Justified(all, sim, keyword, HitsFor(all, sim, ids)[i])
    decreases |ids|
  {
    hide Justified, ById, HitFor;
    if ids != [] { EachHit(all, sim, keyword, ids[..|ids| - 1]); }
  }

  /** Fused with nothing, a ranking keeps its order. */
  lemma FusedAlone(ranking: seq<int>)
    requires Rank.NoDuplicates(ranking)
    ensures Rank.IsFusion([ranking, []], ranking)
  {
    hide Rank.Share, Rank.Worth, Rank.Score;
    var rankings := [ranking, []];
    forall id: int ensures id in ranking <==> Rank.Ranked(rankings, id) {
      AloneRanked(ranking, id);
    }
    forall i, j | 0 <= i < j < |ranking| ensures Rank.Ahead(rankings, ranking[i], ranking[j]) {
      AloneScore(ranking, ranking[i]);
      AloneScore(ranking, ranking[j]);
      Rank.ShareOf(ranking, |ranking|, i);
      Rank.ShareOf(ranking, |ranking|, j);
      Rank.WorthFalls(i, j);
    }
  }

  lemma AloneRanked(ranking: seq<int>, id: int)
    ensures id in ranking <==> Rank.Ranked([ranking, []], id)
  {
    var rankings := [ranking, []];
    if id in ranking { assert id in rankings[0]; }
    if Rank.Ranked(rankings, id) {
      var r :| 0 <= r < |rankings| && id in rankings[r];
      assert r == 0;
    }
  }

  lemma AloneScore(ranking: seq<int>, id: int)
    ensures Rank.Score([ranking, []], id) == Rank.Share(ranking, |ranking|, id)
  {
    hide Rank.Share;
    var rankings: seq<seq<int>> := [ranking, []];
    assert rankings[..1] == [ranking] && [ranking][..0] == [];
    Rank.NoShare([], 0, id);
    assert Rank.Score([ranking], id) == Rank.Score([], id) + Rank.Share(ranking, |ranking|, id);
  }

  /** A failing keyword search does not take the vector search down: the hits are the
      most similar chunks, most similar first, up to the limit. */
  lemma WithoutKeywords(all: seq<ChunkRow>, sim: Similarity, limit: int, hits: seq<Hit>, near: seq<ChunkRow>, fused: seq<int>)
    requires all != [] && UniqueIds(all) && Answers(all, sim, None, limit, hits, near, fused)
    ensures var best := if |near| > Limit(limit) then near[..Limit(limit)] else near;
            |hits| == |best| && forall i :: 0 <= i < |best| ==> hits[i] == HitFor(sim, best[i])
  {
    hide Rank.IsFusion, HitsFor, HitFor;
    var pool := IdsOf(Pool(near));
    FusedAlone(pool);
    Rank.FusionIsUnique([pool, []], fused, pool);
    var best := if |near| > Limit(limit) then near[..Limit(limit)] else near;
    assert First(fused, Limit(limit)) == IdsOf(best);
    forall i | 0 <= i < |best| ensures best[i] in all {
      assert best[i] in near;
    }
    HitsOfChunks(all, sim, best);
  }

  lemma {:induction false} HitsOfChunks(all: seq<ChunkRow>, sim: Similarity, rows: seq<ChunkRow>)
    requires UniqueIds(all) && forall i :: 0 <= i < |rows| ==> rows[i] in all
    ensures |HitsFor(all, sim, IdsOf(rows))| == |rows|
    ensures forall i :: 0 <= i < |rows| ==> HitsFor(all, sim, IdsOf(rows))[i] == HitFor(sim, rows[i])
    decreases |rows|
  {
    hide ById, HitFor;
    if rows != [] {
      var n := |rows| - 1;
      assert IdsOf(rows)[..n] == IdsOf(rows[..n]);
      HitsOfChunks(all, sim, rows[..n]);
      assert rows[n] in all;
      FoundById(all, rows[n]);
    }
  }

  lemma FoundById(all: seq<ChunkRow>, c: ChunkRow)
    requires UniqueIds(all) && c in all
    ensures ById(all, c.id) == Some(c)
  {
    var i :| 0 <= i < |all| && all[i] == c;
    SameChunk(all, ById(all, c.id).value, c);
  }

  /** The limits: six hits unless one to twenty are asked for, from the forty most similar
      chunks of similarity at least 0.3, each shown with at most 700 runes. */
  lemma Limits(all: seq<ChunkRow>, sim: Similarity, keyword: Option<seq<int>>, limit: int,
               hits: seq<Hit>, near: seq<ChunkRow>, fused: seq<int>)
    requires Answers(all, sim, keyword, limit, hits, near, fused) && all != []
    ensures |hits| <= if 1 <= limit <= 20 then limit else 6
    ensures forall c :: c in near <==> c in all && sim(c.content.embedding) >= 0.3
    ensures Pool(near) == if |near| > 40 then near[..40] else near
  {
    hide HitsFor, Rank.IsFusion;
  }

  /** What a hit shows of its chunk. */
  lemma HitShows(sim: Similarity, c: ChunkRow)
    ensures var h := HitFor(sim, c);
            && h.key == c.key && h.index == c.content.index && h.score == sim(c.content.embedding)
            && (|c.content.text| <= 700 ==> h.text == c.content.text)
            && (|c.content.text| > 700 ==> h.text == c.content.text[..700] + "…")
  {
  }

  /** What an ID's places among the forty most similar chunks and among the keyword
      matches are worth together. */
  ghost function Standing(near: seq<ChunkRow>, words: seq<int>, id: int): real {
    var pool := IdsOf(if |near| > 40 then near[..40] else near);
    Rank.Share(pool, |pool|, id) + Rank.Share(words, |words|, id)
  }

  /** Both searches count: what is fused is the forty most similar chunks and the keyword
      matches, nothing else, in the order of their standing. */
  lemma BothSearchesCount(all: seq<ChunkRow>, sim: Similarity, words: seq<int>, limit: int,
                          hits: seq<Hit>, near: seq<ChunkRow>, fused: seq<int>, id: int)
    requires all != [] && Answers(all, sim, Some(words), limit, hits, near, fused)
    ensures id in fused <==> id in words || exists i :: 0 <= i < |near| && i < 40 && near[i].id == id
    ensures forall i, j :: 0 <= i < j < |fused| ==> Standing(near, words, fused[i]) >= Standing(near, words, fused[j])
  {
    hide HitsFor, IsNearest, Rank.Score, Rank.Share;
    var pool := IdsOf(Pool(near));
    InOneOfTwo(pool, words, id);
    if id in pool {
      var i :| 0 <= i < |pool| && pool[i] == id;
      assert near[i].id == id;
    }
    if i :| 0 <= i < |near| && i < 40 && near[i].id == id {
      assert pool[i] == id;
    }
    forall i, j | 0 <= i < j < |fused| ensures Standing(near, words, fused[i]) >= Standing(near, words, fused[j]) {
      Rank.ScoreOfTwo(pool, words, fused[i]);
      Rank.ScoreOfTwo(pool, words, fused[j]);
      assert Rank.Ahead([pool, words], fused[i], fused[j]);
    }
  }

  lemma InOneOfTwo(a: seq<int>, b: seq<int>, id: int)
    ensures Rank.Ranked([a, b], id) <==> id in a || id in b
  {
    var rankings := [a, b];
    if id in a { assert id in rankings[0]; }
    if id in b { assert id in rankings[1]; }
  }
}
