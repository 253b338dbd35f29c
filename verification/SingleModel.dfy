/** All vectors of an instance come from the one model its meta row names. */
module SingleModel {
  import opened Wrappers
  import opened Store
  import opened Indexer
  import opened DocumentView
  import opened HealthyRuns

  ghost predicate FromModel(w: World, m: string, cs: seq<Content>) {
    forall i :: 0 <= i < |cs| ==> cs[i].embedding == w.embed(m, cs[i].text)
  }

  ghost predicate HasChunks(db: Db, inst: string) {
    exists k: Key :: View(db, inst, k).contents != []
  }

  ghost predicate AllFromModel(w: World, m: string, db: Db, inst: string) {
    forall k: Key :: FromModel(w, m, View(db, inst, k).contents)
  }

  /** Either there are no chunks, or the meta row names the model of all of them. */
  ghost predicate OneModel(w: World, db: Db, inst: string) {
    HasChunks(db, inst) ==> inst in db.meta && AllFromModel(w, db.meta[inst].model, db, inst)
  }

  lemma StepFromModel(w: World, model: string, existing: map<Key, DocRow>, ks: KeyState, e: Emission)
    requires FromModel(w, model, ks.contents)
    ensures FromModel(w, model, KeyStep(w, model, existing, ks, e).contents)
  {
    hide Kept, OutcomeOf, Clears;
  }

  lemma {:induction false} FoldFromModel(w: World, model: string, existing: map<Key, DocRow>, ks: KeyState, k: Key, es: seq<Emission>)
    requires FromModel(w, model, ks.contents)
    ensures FromModel(w, model, KeyFold(w, model, existing, ks, k, es).contents)
    decreases |es|
  {
    hide KeyStep, FromModel;
    if es != [] {
      FoldFromModel(w, model, existing, ks, k, es[..|es| - 1]);
      if es[|es| - 1].key == k {
        StepFromModel(w, model, existing, KeyFold(w, model, existing, ks, k, es[..|es| - 1]), es[|es| - 1]);
      }
    }
  }

  /** The crawl stored something with a vector. */
  ghost function LastDimension(w: World, inst: string, db: Db, r: RunInput): nat {
    EmitAll(w, inst, r.Model(), Known(db, inst, r), Start(db, inst, r), r.emissions).dimension
  }

  lemma {:induction false} CrawlKeepsMeta(w: World, inst: string, model: string, existing: map<Key, DocRow>, db: Db, es: seq<Emission>)
    ensures EmitAll(w, inst, model, existing, db, es).db.meta == db.meta
  {
    hide OutcomeOf, Complete, Clears;
    if es != [] { CrawlKeepsMeta(w, inst, model, existing, db, es[..|es| - 1]); }
  }

  /** The meta rows after a run. */
  lemma RunMeta(w: World, inst: string, db: Db, r: RunInput)
    ensures Run(w, inst, db, r).db.meta
         == if Refuses(db, inst, r) then db.meta
            else if !r.crawlFailed && LastDimension(w, inst, db, r) > 0 && r.setMetaOk
            then Start(db, inst, r).meta[inst := Meta(r.Model(), LastDimension(w, inst, db, r))]
            else Start(db, inst, r).meta
  {
    hide EmitAll, Cleared, Keys, WithoutDocs, RowsWithout, DocsOf;
    CrawlKeepsMeta(w, inst, r.Model(), Known(db, inst, r), Start(db, inst, r), r.emissions);
  }

  /** From one model, whatever fails: everything in the index after a run that was
      not refused comes from the model of that run. */
  lemma RunFromModel(w: World, inst: string, db: Db, r: RunInput)
    requires OneModel(w, db, inst) && !Refuses(db, inst, r)
    requires r.mode.Update? && HasChunks(db, inst) ==> inst in db.meta && db.meta[inst].model == r.Model()
    ensures AllFromModel(w, r.Model(), Run(w, inst, db, r).db, inst)
  {
    hide Run, View, KeyFold, Keys, Refuses, DocsOf;
    forall k: Key
      ensures FromModel(w, r.Model(), View(Run(w, inst, db, r).db, inst, k).contents)
    {
      RunView(w, inst, db, r, inst, k);
      var start := if r.mode.Rebuild? then ABSENT else View(db, inst, k);
      assert FromModel(w, r.Model(), start.contents);
      FoldFromModel(w, r.Model(), Known(db, inst, r), start, k, r.emissions);
    }
  }

  /** Whatever a run leaves comes from one model, so only the meta row can be missing. */
  lemma OneModelMeansMeta(w: World, inst: string, db: Db, r: RunInput)
    requires OneModel(w, db, inst)
    ensures var after := Run(w, inst, db, r).db;
            OneModel(w, after, inst) <==> (HasChunks(after, inst) ==> inst in after.meta)
  {
    hide Run, AllFromModel, LastDimension, Cleared;
    var after := Run(w, inst, db, r).db;
    RunMeta(w, inst, db, r);
    if Refuses(db, inst, r) {
      RefusalChangesNothing(w, inst, db, r);
    } else {
      RunFromModel(w, inst, db, r);
      ClearedMeta(db, inst);
    }
  }

  lemma RefusalChangesNothing(w: World, inst: string, db: Db, r: RunInput)
    requires Refuses(db, inst, r)
    ensures Run(w, inst, db, r).db == db
  {
  }

  lemma ClearedMeta(db: Db, inst: string)
    ensures Cleared(db, inst).meta == db.meta - {inst}
  {
  }

  /** After a run that was let in, an Update under the same model is let in. */
  lemma RunAdmitsUpdate(w: World, inst: string, db: Db, r: RunInput, u: RunInput)
    requires !Refuses(db, inst, r)
    requires u.mode.Update? && u.ready && u.metaOk && u.listOk && u.Model() == r.Model()
    ensures !Refuses(Run(w, inst, db, r).db, inst, u)
  {
    hide Run, Cleared, LastDimension;
    RunMeta(w, inst, db, r);
    ClearedMeta(db, inst);
  }

  // ---------------------------------------------------------------------
  // Runs whose crawl and SetMeta succeed
  // ---------------------------------------------------------------------

  ghost predicate VectorsNonEmpty(w: World) {
    forall m, t :: w.embed(m, t) != []
  }

  /** Either the last stored vector has a dimension, or nothing was stored at all. */
  lemma {:induction false} NoDimensionNoChunks(w: World, inst: string, model: string, existing: map<Key, DocRow>,
                                                  db: Db, es: seq<Emission>, k: Key)
    requires VectorsNonEmpty(w) && EmitAll(w, inst, model, existing, db, es).dimension == 0
    requires View(db, inst, k).contents == []
    ensures View(EmitAll(w, inst, model, existing, db, es).db, inst, k).contents == []
    decreases |es|
  {
    hide Complete, Kept, Clears, View, EmitDb, Counted;
    if es != [] {
      var init, e := es[..|es| - 1], es[|es| - 1];
      WrittenHasDimension(w, model, existing, e);
      NoDimensionNoChunks(w, inst, model, existing, db, init, k);
      EmitView(w, inst, model, existing, EmitAll(w, inst, model, existing, db, init).db, e, inst, k);
    }
  }

  lemma WrittenHasDimension(w: World, model: string, existing: map<Key, DocRow>, e: Emission)
    requires VectorsNonEmpty(w)
    ensures OutcomeOf(w, existing, e).Written? ==> |Complete(w, model, e.dialect, e.text)[0].embedding| > 0
  {
  }

  /** A run that stored nothing leaves no chunks where there were none. */
  lemma NothingStored(w: World, inst: string, db: Db, r: RunInput, k: Key)
    requires VectorsNonEmpty(w) && !Refuses(db, inst, r) && LastDimension(w, inst, db, r) == 0
    requires r.mode.Update? ==> View(db, inst, k).contents == []
    ensures View(Run(w, inst, db, r).db, inst, k).contents == []
  {
    hide Run, View, KeyFold, EmitAll, Keys, Refuses, DocsOf, Cleared;
    var existing, start := Known(db, inst, r), Start(db, inst, r);
    ViewCleared(db, inst, inst, k);
    NoDimensionNoChunks(w, inst, r.Model(), existing, start, r.emissions, k);
    EmitAllView(w, inst, r.Model(), existing, start, r.emissions, inst, k);
    RunView(w, inst, db, r, inst, k);
  }

  /** A crawl that does not fail, with SetMeta succeeding, leaves a single model. */
  lemma RunKeepsOneModel(w: World, inst: string, db: Db, r: RunInput)
    requires OneModel(w, db, inst) && VectorsNonEmpty(w) && !r.crawlFailed && r.setMetaOk
    ensures OneModel(w, Run(w, inst, db, r).db, inst)
  {
    hide Run, AllFromModel, LastDimension, Cleared, OneModel, View;
    var after := Run(w, inst, db, r).db;
    OneModelMeansMeta(w, inst, db, r);
    RunMeta(w, inst, db, r);
    ClearedMeta(db, inst);
    if Refuses(db, inst, r) {
      RefusalChangesNothing(w, inst, db, r);
    } else if inst !in after.meta {
      forall k: Key ensures View(after, inst, k).contents == [] {
        NoMetaNoChunks(w, db, inst, k);
        NothingStored(w, inst, db, r, k);
      }
    }
  }

  lemma NoMetaNoChunks(w: World, db: Db, inst: string, k: Key)
    requires OneModel(w, db, inst)
    ensures inst !in db.meta ==> View(db, inst, k).contents == []
  {
    hide View;
  }

  // ---------------------------------------------------------------------
  // The exact condition, on what a run is given
  // ---------------------------------------------------------------------

  /** The crawl stores chunks that it does not clear again. */
  ghost predicate StoresForGood(w: World, existing: map<Key, DocRow>, es: seq<Emission>) {
    exists i :: 0 <= i < |es| && Lasting(w, existing, es, i)
  }

  /** Emission i is the last to store chunks, and the first of their vectors is not empty. */
  ghost predicate LastMeasured(w: World, model: string, existing: map<Key, DocRow>, es: seq<Emission>, i: nat)
    requires i < |es|
  {
    && OutcomeOf(w, existing, es[i]).Written?
    && (forall j :: i < j < |es| ==> !OutcomeOf(w, existing, es[j]).Written?)
    && w.embed(model, Kept(es[i].dialect, es[i].text)[0].text) != []
  }

  ghost predicate Measured(w: World, model: string, existing: map<Key, DocRow>, es: seq<Emission>) {
    exists i :: 0 <= i < |es| && LastMeasured(w, model, existing, es, i)
  }

  lemma {:induction false} DimensionIff(w: World, inst: string, model: string, existing: map<Key, DocRow>, db: Db, es: seq<Emission>)
    ensures EmitAll(w, inst, model, existing, db, es).dimension > 0 <==> Measured(w, model, existing, es)
    decreases |es|
  {
    hide EmitDb, Counted, OutcomeOf, Complete, Kept;
    if es != [] {
      var n := |es| - 1;
      var init, e := es[..n], es[n];
      DimensionIff(w, inst, model, existing, db, init);
      if OutcomeOf(w, existing, e).Written? {
        WrittenIsNotEmpty(w, model, existing, e);
        assert LastMeasured(w, model, existing, es, n) <==> Complete(w, model, e.dialect, e.text)[0].embedding != [];
      }
      MeasuredStep(w, model, existing, es);
    }
  }

  lemma MeasuredStep(w: World, model: string, existing: map<Key, DocRow>, es: seq<Emission>)
    requires es != []
    ensures Measured(w, model, existing, es) <==>
            if OutcomeOf(w, existing, es[|es| - 1]).Written? then LastMeasured(w, model, existing, es, |es| - 1)
            else Measured(w, model, existing, es[..|es| - 1])
  {
    hide OutcomeOf, Kept;
    var n := |es| - 1;
    var init := es[..n];
    if Measured(w, model, existing, es) {
      var i :| 0 <= i < |es| && LastMeasured(w, model, existing, es, i);
      if i < n { assert LastMeasured(w, model, existing, init, i); }
    }
    if Measured(w, model, existing, init) && !OutcomeOf(w, existing, es[n]).Written? {
      var i :| 0 <= i < n && LastMeasured(w, model, existing, init, i);
      assert LastMeasured(w, model, existing, es, i) by {
        forall j | i < j < |es| ensures !OutcomeOf(w, existing, es[j]).Written? {
          assert j < n ==> init[j] == es[j];
        }
      }
    }
  }

  /** A run that begins without chunks ends with chunks exactly when the crawl stores
      some for good: what it stored it has seen, and so does not prune. */
  lemma ChunksAfterIff(w: World, inst: string, db: Db, r: RunInput)
    requires !Refuses(db, inst, r)
    requires r.mode.Update? ==> !HasChunks(db, inst)
    ensures HasChunks(Run(w, inst, db, r).db, inst) <==> StoresForGood(w, Known(db, inst, r), r.emissions)
  {
    hide Run, View, Refuses, KeyFold, Lasting, Known;
    var existing, after := Known(db, inst, r), Run(w, inst, db, r).db;
    forall k: Key
      ensures View(after, inst, k).contents != [] <==> LastingFor(w, existing, r.emissions, k)
    {
      var start := if r.mode.Rebuild? then ABSENT else View(db, inst, k);
      RunView(w, inst, db, r, inst, k);
      FoldStoresIff(w, r.Model(), existing, start, k, r.emissions);
      LastingIsSeen(w, existing, r, k);
    }
    if StoresForGood(w, existing, r.emissions) {
      var i :| 0 <= i < |r.emissions| && Lasting(w, existing, r.emissions, i);
      assert LastingFor(w, existing, r.emissions, r.emissions[i].key);
    }
  }

  lemma LastingIsSeen(w: World, existing: map<Key, DocRow>, r: RunInput, k: Key)
    ensures LastingFor(w, existing, r.emissions, k) ==> k !in Gone(r, existing)
  {
    hide Lasting;
  }

  /** The exact condition, for every store and every run, whatever fails in it: from a
      single model a run leaves a single model if and only if it is refused, or it
      updates under a meta row that is there, or its crawl stores nothing for good, or
      it comes to record its model: neither the crawl nor SetMeta fails and the last
      document stored has a vector that is not empty. */
  lemma OneModelIff(w: World, inst: string, db: Db, r: RunInput)
    requires OneModel(w, db, inst)
    ensures OneModel(w, Run(w, inst, db, r).db, inst)
       <==> || Refuses(db, inst, r)
            || (r.mode.Update? && inst in db.meta)
            || !StoresForGood(w, Known(db, inst, r), r.emissions)
            || (!r.crawlFailed && r.setMetaOk && Measured(w, r.Model(), Known(db, inst, r), r.emissions))
  {
    hide Run, AllFromModel, OneModel, EmitAll, Cleared, Refuses, Known, HasChunks, StoresForGood, Measured;
    OneModelMeansMeta(w, inst, db, r);
    RunMeta(w, inst, db, r);
    ClearedMeta(db, inst);
    if Refuses(db, inst, r) {
      RefusalChangesNothing(w, inst, db, r);
    } else {
      DimensionIff(w, inst, r.Model(), Known(db, inst, r), Start(db, inst, r), r.emissions);
      if r.mode.Rebuild? || inst !in db.meta {
        if r.mode.Update? { NoMetaMeansNoChunks(w, db, inst); }
        ChunksAfterIff(w, inst, db, r);
      }
    }
  }

  lemma NoMetaMeansNoChunks(w: World, db: Db, inst: string)
    requires OneModel(w, db, inst) && inst !in db.meta
    ensures !HasChunks(db, inst)
  {
    hide View;
  }

  /** A run of another instance leaves the single model alone. */
  lemma OtherRunKeepsOneModel(w: World, inst: string, other: string, db: Db, r: RunInput)
    requires OneModel(w, db, inst) && other != inst
    ensures OneModel(w, Run(w, other, db, r).db, inst)
  {
    hide Run, View, AfterRun, LastDimension, Refuses, FromModel, Cleared;
    var after := Run(w, other, db, r).db;
    forall k: Key ensures View(after, inst, k) == View(db, inst, k) { RunView(w, other, db, r, inst, k); }
    RunMeta(w, other, db, r);
    ClearedMeta(db, other);
    assert inst in after.meta <==> inst in db.meta;
    assert inst in db.meta ==> after.meta[inst] == db.meta[inst];
    if HasChunks(after, inst) {
      var k: Key :| View(after, inst, k).contents != [];
      assert View(db, inst, k).contents != [];
    }
  }

  // ---------------------------------------------------------------------
  // The hypothesis is needed
  // ---------------------------------------------------------------------

  /** Update refuses to mix models only while a meta row exists.  A Rebuild under
      model a whose crawl fails after one document leaves chunks and no meta row;
      the next Update, under model b, is let in, keeps them, stores its own beside
      them and records b for both. */
  lemma FailedRebuildLetsModelsMix(w: World, inst: string, a: string, b: string, key: Key, key2: Key, text: string)
    requires a != "" && b != "" && key != key2 && Indexable("", text) && VectorsNonEmpty(w)
    requires !FromModel(w, b, Complete(w, a, "", text))
    ensures var e1, e2 := Good(key, text), Good(key2, text);
            var db1 := Run(w, inst, Db([], map[], map[], 0), Healthy(Rebuild, a, [e1], true)).db;
            var after := Run(w, inst, db1, Healthy(Update, b, [e1, e2], false)).db;
            && View(after, inst, key).contents == Complete(w, a, "", text)
            && View(after, inst, key2).contents == Complete(w, b, "", text)
            && inst in after.meta && after.meta[inst].model == b
            && !OneModel(w, after, inst)
  {
    hide Run, KeyFold, KeyStep, Complete, Kept, View, Indexable, FromModel, EmitAll, Cleared, Keys, DocsOf, VectorsNonEmpty;
    var e1, e2 := Good(key, text), Good(key2, text);
    var db0, r1, r2 := Db([], map[], map[], 0), Healthy(Rebuild, a, [e1], true), Healthy(Update, b, [e1, e2], false);
    var db1 := Run(w, inst, db0, r1).db;
    RunMeta(w, inst, db0, r1);
    ClearedMeta(db0, inst);
    RunView(w, inst, db0, r1, inst, key);
    RunView(w, inst, db0, r1, inst, key2);
    FoldTwo(w, a, map[], ABSENT, key, e1, e2);
    FoldTwo(w, a, map[], ABSENT, key2, e1, e2);
    StoresOne(w, a, map[], key, text);
    assert View(db1, inst, key2) == ABSENT;
    var existing := DocsOf(db1, inst);
    KnownRows(db1, inst, key);
    KnownRows(db1, inst, key2);
    var after := Run(w, inst, db1, r2).db;
    RunView(w, inst, db1, r2, inst, key);
    RunView(w, inst, db1, r2, inst, key2);
    FoldTwo(w, b, existing, View(db1, inst, key), key, e1, e2);
    FoldTwo(w, b, existing, ABSENT, key2, e1, e2);
    SkipsOne(w, b, existing, View(db1, inst, key), key, text);
    StoresOne(w, b, existing, key2, text);
    TwoKeys(e1, e2);
    LastWritten(w, inst, b, existing, db1, e1, e2);
    RunMeta(w, inst, db1, r2);
    assert View(after, inst, key).contents == Complete(w, a, "", text);
  }

  lemma LastWritten(w: World, inst: string, model: string, existing: map<Key, DocRow>, db: Db, e1: Emission, e2: Emission)
    requires OutcomeOf(w, existing, e2).Written? && VectorsNonEmpty(w)
    ensures EmitAll(w, inst, model, existing, db, [e1, e2]).dimension > 0
  {
    hide EmitDb, Complete, Counted, OutcomeOf;
    WrittenHasDimension(w, model, existing, e2);
  }
}
