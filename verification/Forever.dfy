/** The guarantees of one run, carried over every sequence of runs: of any instances,
    in any modes, with any settings and any pattern of failing calls. */
module Forever {
  import opened Store
  import opened Indexer
  import opened DocumentView
  import opened Consistency
  import opened SingleModel
  import U = UpdateIsRebuild

  datatype Job = Job(inst: string, input: RunInput)

  /** The store after a sequence of runs, one whole run after another.  Interleaved says
      why that loses nothing: runs of different instances do overlap, transaction by
      transaction, but each instance ends with what this gives it. */
  ghost function After(w: World, db: Db, jobs: seq<Job>): Db {
    if jobs == [] then db
    else
      var j := jobs[|jobs| - 1];
      Run(w, j.inst, After(w, db, jobs[..|jobs| - 1]), j.input).db
  }

  const EMPTY := Db([], map[], map[], 0)

  /** Over runs in which no crawl and no SetMeta fails, all vectors of an instance
      come from the one model its meta row names. */
  lemma {:induction false} OneModelForever(w: World, jobs: seq<Job>, inst: string)
    requires VectorsNonEmpty(w)
    requires forall i :: 0 <= i < |jobs| ==> !jobs[i].input.crawlFailed && jobs[i].input.setMetaOk
    ensures OneModel(w, After(w, EMPTY, jobs), inst)
    decreases |jobs|
  {
    hide OneModel, Run;
    if jobs == [] {
      EmptyHasOneModel(w, inst);
    } else {
      var j := jobs[|jobs| - 1];
      var before := After(w, EMPTY, jobs[..|jobs| - 1]);
      OneModelForever(w, jobs[..|jobs| - 1], inst);
      if j.inst == inst {
        RunKeepsOneModel(w, inst, before, j.input);
      } else {
        OtherRunKeepsOneModel(w, inst, j.inst, before, j.input);
      }
    }
  }

  lemma EmptyHasOneModel(w: World, inst: string)
    ensures OneModel(w, EMPTY, inst)
  {
    forall k: Key ensures View(EMPTY, inst, k).contents == [] {}
  }

  ghost predicate RowsAlwaysKept(es: seq<Emission>) {
    forall i :: 0 <= i < |es| ==> es[i].upsertOk
  }

  /** Over runs with any failing deletes, embeddings, inserts, crawls and SetMetas,
      as long as recording a row succeeds and no crawl repeats a key, every document
      always has no chunks or the complete chunk list of one text whose hash is its
      row's. */
  lemma {:induction false} ConsistentForever(w: World, dialects: string -> Dialects, jobs: seq<Job>, inst: string)
    requires forall i :: 0 <= i < |jobs| ==>
      && DialectsMatch(dialects(jobs[i].inst), jobs[i].input.emissions)
      && RowsAlwaysKept(jobs[i].input.emissions) && U.NoRepeats(jobs[i].input.emissions)
    ensures Consistent(w, dialects(inst), After(w, EMPTY, jobs), inst)
    decreases |jobs|
  {
    hide Consistent, Run, Refuses, Known, DialectsMatch, NewOnce, RowsAlwaysKept, RowKept;
    if jobs == [] {
      EmptyIsConsistent(w, dialects(inst), inst);
    } else {
      var j := jobs[|jobs| - 1];
      var before := After(w, EMPTY, jobs[..|jobs| - 1]);
      ConsistentForever(w, dialects, jobs[..|jobs| - 1], inst);
      if j.inst == inst {
        var existing := Known(before, inst, j.input);
        forall k: Key ensures Safe(w, j.input.Model(), existing, k, j.input.emissions) {
          if k in existing { RowsKept(w, j.input.Model(), existing, k, j.input.emissions); }
          StoredOnce(w, existing, k, j.input.emissions);
        }
        ConsistentIff(w, dialects(inst), inst, before, j.input);
      } else {
        OtherRunKeepsConsistent(w, dialects(inst), inst, j.inst, before, j.input);
      }
    }
  }

  lemma EmptyIsConsistent(w: World, dialects: Dialects, inst: string)
    ensures Consistent(w, dialects, EMPTY, inst)
  {
    forall k: Key ensures View(EMPTY, inst, k).contents == [] {}
  }

  lemma RowsKept(w: World, model: string, existing: map<Key, DocRow>, k: Key, es: seq<Emission>)
    requires RowsAlwaysKept(es) && k in existing
    ensures RowKept(w, model, existing, k, es)
  {
    hide RowFits, Lasting;
  }

  lemma {:induction false} StoredOnce(w: World, existing: map<Key, DocRow>, k: Key, es: seq<Emission>)
    requires RowsAlwaysKept(es) && U.NoRepeats(es)
    ensures NewOnce(w, existing, k, es)
    ensures (forall i :: 0 <= i < |es| ==> es[i].key != k) ==> Writes(w, existing, k, es) == 0
    decreases |es|
  {
    hide OutcomeOf;
    if es != [] {
      var init := es[..|es| - 1];
      assert forall i :: 0 <= i < |init| ==> init[i] == es[i];
      StoredOnce(w, existing, k, init);
      if es[|es| - 1].key == k {
        assert forall i :: 0 <= i < |init| ==> init[i].key != k;
      }
    }
  }

  lemma OtherRunKeepsConsistent(w: World, dialects: Dialects, inst: string, other: string, db: Db, r: RunInput)
    requires Consistent(w, dialects, db, inst) && other != inst
    ensures Consistent(w, dialects, Run(w, other, db, r).db, inst)
  {
    hide Run, Whole, View, AfterRun, Refuses;
    forall k: Key ensures Whole(w, dialects(k), View(Run(w, other, db, r).db, inst, k)) {
      RunView(w, other, db, r, inst, k);
      assert Whole(w, dialects(k), View(db, inst, k));
    }
  }

  // ---------------------------------------------------------------------
  // A healthy update after any history
  // ---------------------------------------------------------------------

  /** The complete list of a text under one model, all of whose vectors come from
      another, is the complete list under that other. */
  lemma SameVectors(w: World, m: string, m': string, dialect: string, t: string)
    requires FromModel(w, m', Complete(w, m, dialect, t))
    ensures Complete(w, m, dialect, t) == Complete(w, m', dialect, t)
  {
    hide Kept;
    var a, b := Complete(w, m, dialect, t), Complete(w, m', dialect, t);
    forall i | 0 <= i < |a| ensures a[i] == b[i] {
      assert a[i].embedding == w.embed(m', a[i].text);
    }
  }

  lemma WholeUnderItsModel(w: World, m: string, dialect: string, ks: KeyState)
    requires Whole(w, dialect, ks) && FromModel(w, m, ks.contents)
    ensures U.WholeUnder(w, m, dialect, ks)
  {
    hide Complete, FromModel;
    if ks.contents != [] {
      var n, t :| IsComplete(w, n, dialect, t, ks);
      SameVectors(w, n, m, dialect, t);
      assert IsComplete(w, m, dialect, t, ks);
    }
  }

  /** After any history that keeps the index consistent and of one model, failures and
      all: a healthy Update repairs everything, leaving what a Rebuild from scratch would,
      if and only if it meets none of three things: a known document whose text yields no
      chunks, one whose chunks an earlier failure lost and whose text is again the one
      its row records, or one that a truncated crawl did not reach. */
  lemma UpdateAfterHistoryIff(w: World, dialects: string -> Dialects, jobs: seq<Job>, inst: string, u: RunInput)
    requires VectorsNonEmpty(w) && U.CollisionFree(w)
    requires forall i :: 0 <= i < |jobs| ==>
      && DialectsMatch(dialects(jobs[i].inst), jobs[i].input.emissions)
      && RowsAlwaysKept(jobs[i].input.emissions) && U.NoRepeats(jobs[i].input.emissions)
      && !jobs[i].input.crawlFailed && jobs[i].input.setMetaOk
    requires U.NoFault(u) && u.mode.Update? && U.NoRepeats(u.emissions) && DialectsMatch(dialects(inst), u.emissions)
    requires !Refuses(After(w, EMPTY, jobs), inst, u)
    ensures var db := After(w, EMPTY, jobs);
            (forall k :: View(Run(w, inst, db, u).db, inst, k) == View(Run(w, inst, EMPTY, u.(mode := Rebuild)).db, inst, k))
            <==> forall k :: !U.StaleWhole(w, DocsOf(db, inst), View(db, inst, k), u, k)
  {
    hide After, Whole, FromModel, U.WholeUnder, View, Run, DocsOf, U.StaleWhole, U.CollisionFree, DialectsMatch,
         U.NoRepeats, RowsAlwaysKept;
    var db := After(w, EMPTY, jobs);
    ConsistentForever(w, dialects, jobs, inst);
    OneModelForever(w, jobs, inst);
    forall k: Key ensures U.WholeUnder(w, u.Model(), dialects(inst)(k), View(db, inst, k)) {
      assert Whole(w, dialects(inst)(k), View(db, inst, k));
      if View(db, inst, k).contents == [] {
        NoChunksIsWhole(w, u.Model(), dialects(inst)(k), View(db, inst, k));
      } else {
        assert HasChunks(db, inst);
        WholeUnderItsModel(w, u.Model(), dialects(inst)(k), View(db, inst, k));
      }
    }
    U.UpdateOfWholeIff(w, dialects(inst), inst, db, EMPTY, u, u.(mode := Rebuild));
  }

  lemma NoChunksIsWhole(w: World, m: string, dialect: string, ks: KeyState)
    requires ks.contents == []
    ensures U.WholeUnder(w, m, dialect, ks)
  {
  }
}
