/** A run, seen from one document: every document of the instance goes through its
    own emissions and its own pruning, whatever happens to the others. */
module DocumentView {
  import opened Wrappers
  import opened Store
  import opened Indexer

  /** What one emission does to the document it is about. */
  ghost function KeyStep(w: World, model: string, existing: map<Key, DocRow>, ks: KeyState, e: Emission): KeyState {
    var ks1 := if Clears(w, existing, e) then ks.(contents := []) else ks;
    if OutcomeOf(w, existing, e).Written? then
      var cs := Complete(w, model, e.dialect, e.text);
      KeyState(if e.upsertOk then Some(DocRow(w.hash(e.text), |cs|)) else ks1.row, ks1.contents + cs)
    else ks1
  }

  ghost function KeyFold(w: World, model: string, existing: map<Key, DocRow>, ks: KeyState, k: Key, es: seq<Emission>): KeyState {
    if es == [] then ks
    else
      var before := KeyFold(w, model, existing, ks, k, es[..|es| - 1]);
      var e := es[|es| - 1];
      if e.key == k then KeyStep(w, model, existing, before, e) else before
  }

  lemma EmitView(w: World, inst: string, model: string, existing: map<Key, DocRow>, db: Db, e: Emission, inst': string, k: Key)
    ensures View(EmitDb(w, inst, model, existing, db, e), inst', k)
         == if inst' == inst && k == e.key then KeyStep(w, model, existing, View(db, inst', k), e) else View(db, inst', k)
  {
    hide Complete, View, OutcomeOf, Clears, ChunksDeleted, Inserted, DocUpserted;
    var db1 := if Clears(w, existing, e) then ChunksDeleted(db, inst, e.key) else db;
    ViewChunksDeleted(db, inst, e.key, inst', k);
    if OutcomeOf(w, existing, e).Written? {
      var cs := Complete(w, model, e.dialect, e.text);
      var db2 := Inserted(db1, inst, e.key, cs);
      ViewInserted(db1, inst, e.key, cs, inst', k);
      ViewDocUpserted(db2, inst, e.key, DocRow(w.hash(e.text), |cs|), inst', k);
    }
  }

  lemma {:induction false} EmitAllView(w: World, inst: string, model: string, existing: map<Key, DocRow>,
                                        db: Db, es: seq<Emission>, inst': string, k: Key)
    ensures View(EmitAll(w, inst, model, existing, db, es).db, inst', k)
         == if inst' == inst then KeyFold(w, model, existing, View(db, inst', k), k, es) else View(db, inst', k)
  {
    hide EmitDb, KeyStep, View, OutcomeOf, Complete;
    if es != [] {
      EmitAllView(w, inst, model, existing, db, es[..|es| - 1], inst', k);
      EmitView(w, inst, model, existing, EmitAll(w, inst, model, existing, db, es[..|es| - 1]).db, es[|es| - 1], inst', k);
    }
  }

  /** A crawl that does not emit a document leaves it alone. */
  lemma {:induction false} FoldNone(w: World, model: string, existing: map<Key, DocRow>, ks: KeyState, k: Key, es: seq<Emission>)
    requires forall i :: 0 <= i < |es| ==> es[i].key != k
    ensures KeyFold(w, model, existing, ks, k, es) == ks
    decreases |es|
  {
    hide KeyStep;
    if es != [] { FoldNone(w, model, existing, ks, k, es[..|es| - 1]); }
  }

  lemma {:induction false} ContentsWithoutDocs(rows: seq<ChunkRow>, inst: string, keys: set<Key>, inst': string, k: Key)
    ensures ContentsOf(WithoutDocs(rows, inst, keys), inst', k)
         == if inst' == inst && k in keys then [] else ContentsOf(rows, inst', k)
    decreases |rows|
  {
    if rows != [] {
      var init, c := rows[..|rows| - 1], rows[|rows| - 1];
      ContentsWithoutDocs(init, inst, keys, inst', k);
      if !(c.inst == inst && c.key in keys) {
        assert WithoutDocs(rows, inst, keys)[..|WithoutDocs(rows, inst, keys)| - 1] == WithoutDocs(init, inst, keys);
      }
    }
  }

  /** Pruning touches exactly the documents it is told to. */
  ghost function PruneStep(ks: KeyState, k: Key, gone: set<Key>, chunksBad: set<Key>, rowBad: set<Key>): KeyState {
    if k !in gone || k in chunksBad then ks
    else if k in rowBad then ks.(contents := [])
    else ABSENT
  }

  lemma PrunedView(db: Db, inst: string, gone: set<Key>, chunksBad: set<Key>, rowBad: set<Key>, inst': string, k: Key)
    ensures View(Pruned(db, inst, gone, chunksBad, rowBad), inst', k)
         == if inst' == inst then PruneStep(View(db, inst', k), k, gone, chunksBad, rowBad) else View(db, inst', k)
  {
    ContentsWithoutDocs(db.chunks, inst, gone - chunksBad, inst', k);
  }

  /** What a run that is not refused leaves for document k of its instance. */
  ghost function AfterRun(w: World, inst: string, db: Db, r: RunInput, k: Key): KeyState {
    var existing := Known(db, inst, r);
    var start := if r.mode.Rebuild? then ABSENT else View(db, inst, k);
    PruneStep(KeyFold(w, r.Model(), existing, start, k, r.emissions), k, Gone(r, existing), r.chunksBad, r.rowBad)
  }

  lemma PruneNothing(ks: KeyState, k: Key, chunksBad: set<Key>, rowBad: set<Key>)
    ensures PruneStep(ks, k, {}, chunksBad, rowBad) == ks
  {
  }

  /** A run changes the documents of its own instance, each by its own emissions and
      its own pruning, and nothing of any other instance. */
  lemma RunView(w: World, inst: string, db: Db, r: RunInput, inst': string, k: Key)
    ensures View(Run(w, inst, db, r).db, inst', k)
         == if inst' != inst || Refuses(db, inst, r) then View(db, inst', k) else AfterRun(w, inst, db, r, k)
  {
    hide EmitAll, View, Pruned, PruneStep, Keys, Cleared, DocsOf, KeyFold;
    if !Refuses(db, inst, r) {
      var existing, start := Known(db, inst, r), Start(db, inst, r);
      ViewCleared(db, inst, inst', k);
      EmitAllView(w, inst, r.Model(), existing, start, r.emissions, inst', k);
      var p := EmitAll(w, inst, r.Model(), existing, start, r.emissions);
      var gone := Gone(r, existing);
      PrunedView(p.db, inst, gone, r.chunksBad, r.rowBad, inst', k);
      PruneNothing(View(p.db, inst', k), k, r.chunksBad, r.rowBad);
      MetaIsNotViewed(Pruned(p.db, inst, gone, r.chunksBad, r.rowBad), inst, Meta(r.Model(), p.dimension), inst', k);
    }
  }

  lemma MetaIsNotViewed(db: Db, inst: string, m: Meta, inst': string, k: Key)
    ensures View(MetaSet(db, inst, m), inst', k) == View(db, inst', k)
  {
  }

  lemma KnownRows(db: Db, inst: string, k: Key)
    ensures var row := View(db, inst, k).row;
            (k in DocsOf(db, inst) <==> row.Some?) && (row.Some? ==> DocsOf(db, inst)[k] == row.value)
  {
    assert DocId(inst, k) in db.docs ==> k in DocsOf(db, inst);
  }

  // ---------------------------------------------------------------------
  // What a crawl stores for good
  // ---------------------------------------------------------------------

  /** Emission i stores chunks that no later emission of its document clears. */
  ghost predicate Lasting(w: World, existing: map<Key, DocRow>, es: seq<Emission>, i: nat)
    requires i < |es|
  {
    && OutcomeOf(w, existing, es[i]).Written?
    && forall j :: i < j < |es| && es[j].key == es[i].key ==> !Clears(w, existing, es[j])
  }

  ghost predicate LastingFor(w: World, existing: map<Key, DocRow>, es: seq<Emission>, k: Key) {
    exists i :: 0 <= i < |es| && es[i].key == k && Lasting(w, existing, es, i)
  }

  lemma LastingStep(w: World, existing: map<Key, DocRow>, es: seq<Emission>, k: Key)
    requires es != []
    ensures var init, e := es[..|es| - 1], es[|es| - 1];
            LastingFor(w, existing, es, k) <==>
            if e.key == k
            then OutcomeOf(w, existing, e).Written? || (!Clears(w, existing, e) && LastingFor(w, existing, init, k))
            else LastingFor(w, existing, init, k)
  {
    hide OutcomeOf, Clears;
    var n := |es| - 1;
    var init, e := es[..n], es[n];
    if LastingFor(w, existing, init, k) && (e.key != k || !Clears(w, existing, e)) {
      var i :| 0 <= i < |init| && init[i].key == k && Lasting(w, existing, init, i);
      assert Lasting(w, existing, es, i) by {
        forall j | i < j < |es| && es[j].key == es[i].key ensures !Clears(w, existing, es[j]) {
          assert j < n ==> init[j] == es[j];
        }
      }
    }
    if e.key == k && OutcomeOf(w, existing, e).Written? { assert Lasting(w, existing, es, n); }
    if LastingFor(w, existing, es, k) {
      var i :| 0 <= i < |es| && es[i].key == k && Lasting(w, existing, es, i);
      if i < n { assert Lasting(w, existing, init, i); }
    }
  }

  lemma {:induction false} FoldStoresIff(w: World, model: string, existing: map<Key, DocRow>, ks: KeyState, k: Key, es: seq<Emission>)
    requires ks.contents == []
    ensures KeyFold(w, model, existing, ks, k, es).contents != [] <==> LastingFor(w, existing, es, k)
    decreases |es|
  {
    hide KeyStep, OutcomeOf, Clears;
    if es != [] {
      var init, e := es[..|es| - 1], es[|es| - 1];
      FoldStoresIff(w, model, existing, ks, k, init);
      StepStores(w, model, existing, KeyFold(w, model, existing, ks, k, init), e);
      LastingStep(w, existing, es, k);
    }
  }

  lemma StepStores(w: World, model: string, existing: map<Key, DocRow>, ks: KeyState, e: Emission)
    ensures KeyStep(w, model, existing, ks, e).contents != []
       <==> OutcomeOf(w, existing, e).Written? || (!Clears(w, existing, e) && ks.contents != [])
  {
    hide Kept, Complete;
    if OutcomeOf(w, existing, e).Written? { WrittenIsNotEmpty(w, model, existing, e); }
  }

  lemma WrittenIsNotEmpty(w: World, model: string, existing: map<Key, DocRow>, e: Emission)
    requires OutcomeOf(w, existing, e).Written?
    ensures Kept(e.dialect, e.text) != [] && Complete(w, model, e.dialect, e.text) != []
    ensures Complete(w, model, e.dialect, e.text)[0].embedding == w.embed(model, Kept(e.dialect, e.text)[0].text)
  {
    hide Kept;
  }
}
