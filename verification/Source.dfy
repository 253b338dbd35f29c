/** What crawlers hand to the indexer (internal/index/source/source.go), and what an
    update run therefore prunes. */
module Source {
  import opened Store
  import DocumentView
  import Indexer

  datatype Emitted = Emitted(key: Key, dialect: string, text: string)

  /** The outcome of a crawl: its emits in order, and what it returned. */
  datatype Report = Report(emits: seq<Emitted>, truncated: bool, failed: bool)

  /** The emit callback, as the crawlers see it: it takes every document and never
      stops the crawl. */
  class Sink {
    var emitted: seq<Emitted>

    constructor ()
      ensures emitted == []
    {
      emitted := [];
    }

    method Emit(e: Emitted)
      modifies this
      ensures emitted == old(emitted) + [e]
    {
      emitted := emitted + [e];
    }
  }

  ghost function KeysOf(emits: seq<Emitted>): set<Key> {
    set i | 0 <= i < |emits| :: emits[i].key
  }

  predicate Distinct(emits: seq<Emitted>) {
    forall i, j :: 0 <= i < j < |emits| ==> emits[i].key != emits[j].key
  }

  /** What a crawl does after it has emitted some documents. */
  function After(emits: seq<Emitted>, rest: Report): Report {
    rest.(emits := emits + rest.emits)
  }

  lemma AfterTwice(a: seq<Emitted>, b: seq<Emitted>, rest: Report)
    ensures After(a, After(b, rest)) == After(a + b, rest)
  {
    assert a + (b + rest.emits) == a + b + rest.emits;
  }

  // ---------------------------------------------------------------------
  // Runs fed by a crawl
  // ---------------------------------------------------------------------

  /** The run whose crawl gives this report, whatever else fails in it. */
  ghost predicate FedBy(r: Indexer.RunInput, rep: Report) {
    && |r.emissions| == |rep.emits| && r.truncated == rep.truncated && r.crawlFailed == rep.failed
    && forall i :: 0 <= i < |rep.emits| ==> SameDocument(r.emissions[i], rep.emits[i])
  }

  predicate SameDocument(e: Indexer.Emission, d: Emitted) {
    e.key == d.key && e.dialect == d.dialect && e.text == d.text
  }

  lemma SameKeys(r: Indexer.RunInput, rep: Report)
    requires FedBy(r, rep)
    ensures Indexer.Keys(r.emissions) == KeysOf(rep.emits)
  {
    forall k | k in Indexer.Keys(r.emissions) ensures k in KeysOf(rep.emits) {
      var i :| 0 <= i < |r.emissions| && r.emissions[i].key == k;
      assert SameDocument(r.emissions[i], rep.emits[i]);
    }
    forall k | k in KeysOf(rep.emits) ensures k in Indexer.Keys(r.emissions) {
      var i :| 0 <= i < |rep.emits| && rep.emits[i].key == k;
      assert SameDocument(r.emissions[i], rep.emits[i]);
    }
  }

  /** Whatever the index knew, the run prunes none of the live documents. */
  ghost predicate PrunesOnlyGone(r: Indexer.RunInput, live: set<Key>) {
    forall existing: map<Key, DocRow> :: Indexer.Gone(r, existing) !! live
  }

  /** An update that finished its crawl untruncated prunes only documents that are gone
      exactly when the crawl emitted every live one. */
  lemma PrunesOnlyGoneIff(r: Indexer.RunInput, rep: Report, live: set<Key>)
    requires FedBy(r, rep) && r.mode.Update? && !rep.truncated && !rep.failed
    ensures PrunesOnlyGone(r, live) <==> live <= KeysOf(rep.emits)
  {
    SameKeys(r, rep);
    if PrunesOnlyGone(r, live) {
      var existing := map k | k in live :: DocRow("", 0);
      assert Indexer.Gone(r, existing) !! live;
      assert Indexer.Gone(r, existing) == live - KeysOf(rep.emits);
    }
  }

  /** A document that the index knows and an untruncated crawl did not emit is gone after
      the update, row and chunks, unless deleting them fails. */
  lemma UnseenIsPruned(w: Indexer.World, inst: string, db: Db, r: Indexer.RunInput, rep: Report, k: Key)
    requires FedBy(r, rep) && r.mode.Update? && !rep.truncated && !rep.failed && !Indexer.Refuses(db, inst, r)
    requires View(db, inst, k).row.Some? && k !in KeysOf(rep.emits) && k !in r.chunksBad + r.rowBad
    ensures View(Indexer.Run(w, inst, db, r).db, inst, k) == ABSENT
  {
    hide Indexer.Run, View, DocsOf, DocumentView.KeyFold, Indexer.Refuses;
    SameKeys(r, rep);
    DocumentView.KnownRows(db, inst, k);
    DocumentView.RunView(w, inst, db, r, inst, k);
  }
}
