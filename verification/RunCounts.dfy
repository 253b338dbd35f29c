/** What the counters of a finished run mean. */
module RunCounts {
  import opened Store
  import opened Indexer

  ghost function Count(w: World, existing: map<Key, DocRow>, es: seq<Emission>, o: Outcome): nat {
    if es == [] then 0
    else Count(w, existing, es[..|es| - 1], o) + if OutcomeOf(w, existing, es[|es| - 1]) == o then 1 else 0
  }

  /** During a crawl every counter is the number of emissions with its outcome, the
      five outcomes share out the items, and the chunk counter is the number of rows
      inserted (row ids are never reused, so that is how far the id has moved). */
  lemma {:induction false} CrawlCounts(w: World, inst: string, model: string, existing: map<Key, DocRow>, db: Db, es: seq<Emission>)
    ensures var p := EmitAll(w, inst, model, existing, db, es);
            && p.counts.items == |es|
            && p.counts.items == p.counts.skipped + p.counts.emptyText + p.counts.failed
                                 + Count(w, existing, es, Written) + Count(w, existing, es, Chunkless)
            && p.counts.skipped == Count(w, existing, es, Skipped)
            && p.counts.emptyText == Count(w, existing, es, EmptyText)
            && p.counts.failed == Count(w, existing, es, Failed)
            && p.db.nextId == db.nextId + p.counts.chunks
            && p.counts.pruned == 0
            && (p.hasError <==> p.counts.failed > 0)
    decreases |es|
  {
    hide OutcomeOf, Kept, Clears;
    if es != [] { CrawlCounts(w, inst, model, existing, db, es[..|es| - 1]); }
  }

  /** The known documents that no emission is about and that neither deletion fails for. */
  ghost function PrunedKeys(r: RunInput, existing: map<Key, DocRow>): set<Key> {
    set k | k in existing && k !in r.chunksBad && k !in r.rowBad && forall i :: 0 <= i < |r.emissions| ==> r.emissions[i].key != k
  }

  lemma PrunedAre(r: RunInput, existing: map<Key, DocRow>)
    ensures PrunedCount(Gone(r, existing), r.chunksBad, r.rowBad)
         == if r.mode.Rebuild? || r.truncated || r.crawlFailed then 0 else |PrunedKeys(r, existing)|
  {
    NoneGone(r);
    if r.mode.Update? && !r.truncated && !r.crawlFailed {
      assert Gone(r, existing) - r.chunksBad - r.rowBad == PrunedKeys(r, existing);
    }
  }

  /** At the end of a run that was not refused: the same, with the pruned counter
      equal to the number of documents it pruned completely. */
  lemma CountsAddUp(w: World, inst: string, db: Db, r: RunInput)
    requires !Refuses(db, inst, r)
    ensures var result, existing := Run(w, inst, db, r), Known(db, inst, r);
            && result.counts.items == |r.emissions|
            && result.counts.items == result.counts.skipped + result.counts.emptyText + result.counts.failed
                                      + Count(w, existing, r.emissions, Written) + Count(w, existing, r.emissions, Chunkless)
            && result.counts.failed == Count(w, existing, r.emissions, Failed)
            && result.db.nextId == db.nextId + result.counts.chunks
            && result.counts.pruned == (if r.mode.Rebuild? || r.truncated || r.crawlFailed then 0 else |PrunedKeys(r, existing)|)
            && (result.hasError <==> r.crawlFailed || result.counts.failed > 0)
  {
    hide EmitAll, OutcomeOf, Keys, WithoutDocs, RowsWithout, DocsOf;
    CrawlCounts(w, inst, r.Model(), Known(db, inst, r), Start(db, inst, r), r.emissions);
    ClearedId(db, inst);
    PrunedAre(r, Known(db, inst, r));
    NoneGone(r);
  }

  lemma ClearedId(db: Db, inst: string)
    ensures Cleared(db, inst).nextId == db.nextId
  {
  }

  lemma NoneGone(r: RunInput)
    ensures PrunedCount({}, r.chunksBad, r.rowBad) == 0
  {
    assert {} - r.chunksBad - r.rowBad == {};
  }
}
