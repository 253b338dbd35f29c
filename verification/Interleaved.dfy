/** Runs of different instances share one store and interleave transaction by
    transaction.  Each instance nevertheless ends with what running the finished runs
    whole, one after another, gives it. */
module Interleaved {
  import opened Wrappers
  import opened Store
  import opened Indexer
  import opened DocumentView
  import opened Consistency
  import opened SingleModel
  import opened Forever
  import U = UpdateIsRebuild

  // ---------------------------------------------------------------------
  // Transactions
  // ---------------------------------------------------------------------

  /** A transaction that is let through.  One that fails changes nothing. */
  datatype Tx =
    | Clear(inst: string)
    | DeleteChunks(inst: string, key: Key)
    | Insert(inst: string, key: Key, contents: seq<Content>)
    | Upsert(inst: string, key: Key, row: DocRow)
    | DeleteDoc(inst: string, key: Key)
    | RecordMeta(inst: string, m: Meta)

  function Apply(db: Db, tx: Tx): Db {
    match tx
    case Clear(inst) => Cleared(db, inst)
    case DeleteChunks(inst, key) => ChunksDeleted(db, inst, key)
    case Insert(inst, key, contents) => Inserted(db, inst, key, contents)
    case Upsert(inst, key, row) => DocUpserted(db, inst, key, row)
    case DeleteDoc(inst, key) => DocDeleted(db, inst, key)
    case RecordMeta(inst, m) => MetaSet(db, inst, m)
  }

  ghost function ApplyAll(db: Db, txs: seq<Tx>): Db {
    if txs == [] then db else Apply(ApplyAll(db, txs[..|txs| - 1]), txs[|txs| - 1])
  }

  lemma {:induction false} ApplyConcat(db: Db, a: seq<Tx>, b: seq<Tx>)
    ensures ApplyAll(db, a + b) == ApplyAll(ApplyAll(db, a), b)
    decreases |b|
  {
    hide Apply;
    if b == [] {
      assert a + b == a;
    } else {
      assert (a + b)[..|a + b| - 1] == a + b[..|b| - 1];
      ApplyConcat(db, a, b[..|b| - 1]);
    }
  }

  lemma ApplyOne(db: Db, tx: Tx)
    ensures ApplyAll(db, [tx]) == Apply(db, tx)
  {
    hide Apply;
    assert [tx][..0] == [];
  }

  // ---------------------------------------------------------------------
  // One instance's part of the store
  // ---------------------------------------------------------------------

  /** The two stores hold the same for inst, up to row ids. */
  ghost predicate SamePart(a: Db, b: Db, inst: string) {
    && (forall k: Key :: View(a, inst, k) == View(b, inst, k))
    && (inst in a.meta <==> inst in b.meta)
    && (inst in a.meta ==> a.meta[inst] == b.meta[inst])
  }

  lemma SamePartTrans(a: Db, b: Db, c: Db, inst: string)
    requires SamePart(a, b, inst) && SamePart(b, c, inst)
    ensures SamePart(a, c, inst)
  {
    hide View;
  }

  lemma SameDocs(a: Db, b: Db, inst: string)
    requires SamePart(a, b, inst)
    ensures DocsOf(a, inst) == DocsOf(b, inst)
  {
    hide View, DocsOf;
    forall k: Key
      ensures k in DocsOf(a, inst) <==> k in DocsOf(b, inst)
      ensures k in DocsOf(a, inst) ==> DocsOf(a, inst)[k] == DocsOf(b, inst)[k]
    {
      KnownRows(a, inst, k);
      KnownRows(b, inst, k);
      assert View(a, inst, k) == View(b, inst, k);
    }
    assert DocsOf(a, inst).Keys == DocsOf(b, inst).Keys;
  }

  /** What a transaction makes of one document. */
  function ViewAfter(v: KeyState, tx: Tx, inst: string, k: Key): KeyState {
    if tx.inst != inst then v
    else match tx
      case Clear(_) => ABSENT
      case DeleteChunks(_, key) => if key == k then v.(contents := []) else v
      case Insert(_, key, contents) => if key == k then v.(contents := v.contents + contents) else v
      case Upsert(_, key, row) => if key == k then v.(row := Some(row)) else v
      case DeleteDoc(_, key) => if key == k then v.(row := None) else v
      case RecordMeta(_, _) => v
  }

  lemma ApplyView(db: Db, tx: Tx, inst: string, k: Key)
    ensures View(Apply(db, tx), inst, k) == ViewAfter(View(db, inst, k), tx, inst, k)
  {
    hide View, Cleared, ChunksDeleted, Inserted, DocUpserted, MetaSet;
    match tx
    case Clear(i) => ViewCleared(db, i, inst, k);
    case DeleteChunks(i, key) => ViewChunksDeleted(db, i, key, inst, k);
    case Insert(i, key, contents) => ViewInserted(db, i, key, contents, inst, k);
    case Upsert(i, key, row) => ViewDocUpserted(db, i, key, row, inst, k);
    case DeleteDoc(i, key) => DeletedView(db, i, key, inst, k);
    case RecordMeta(i, m) => MetaIsNotViewed(db, i, m, inst, k);
  }

  lemma DeletedView(db: Db, inst: string, key: Key, inst': string, k: Key)
    ensures var v := View(db, inst', k);
            View(DocDeleted(db, inst, key), inst', k) == if inst' == inst && k == key then v.(row := None) else v
  {
  }

  lemma ApplyMeta(db: Db, tx: Tx)
    ensures Apply(db, tx).meta == match tx
                                  case Clear(inst) => db.meta - {inst}
                                  case RecordMeta(inst, m) => db.meta[inst := m]
                                  case _ => db.meta
  {
  }

  /** A transaction's effect on an instance's part depends on that part alone... */
  lemma OwnTransaction(a: Db, b: Db, tx: Tx, inst: string)
    requires SamePart(a, b, inst)
    ensures SamePart(Apply(a, tx), Apply(b, tx), inst)
  {
    hide Apply, View;
    forall k: Key ensures View(Apply(a, tx), inst, k) == View(Apply(b, tx), inst, k) {
      ApplyView(a, tx, inst, k);
      ApplyView(b, tx, inst, k);
      assert View(a, inst, k) == View(b, inst, k);
    }
    ApplyMeta(a, tx);
    ApplyMeta(b, tx);
  }

  /** ... and there is none on any other instance's. */
  lemma OtherTransaction(a: Db, b: Db, tx: Tx, inst: string)
    requires SamePart(a, b, inst) && tx.inst != inst
    ensures SamePart(Apply(a, tx), b, inst)
  {
    hide Apply, View;
    forall k: Key ensures View(Apply(a, tx), inst, k) == View(b, inst, k) {
      ApplyView(a, tx, inst, k);
      assert View(a, inst, k) == View(b, inst, k);
    }
    ApplyMeta(a, tx);
  }

  lemma {:induction false} OwnTransactions(a: Db, b: Db, txs: seq<Tx>, inst: string)
    requires SamePart(a, b, inst)
    ensures SamePart(ApplyAll(a, txs), ApplyAll(b, txs), inst)
    decreases |txs|
  {
    hide Apply, SamePart;
    if txs != [] {
      OwnTransactions(a, b, txs[..|txs| - 1], inst);
      OwnTransaction(ApplyAll(a, txs[..|txs| - 1]), ApplyAll(b, txs[..|txs| - 1]), txs[|txs| - 1], inst);
    }
  }

  // ---------------------------------------------------------------------
  // A run as transactions
  // ---------------------------------------------------------------------

  ghost function EmitTxs(w: World, inst: string, model: string, existing: map<Key, DocRow>, e: Emission): seq<Tx> {
    (if Clears(w, existing, e) then [DeleteChunks(inst, e.key)] else [])
    + if OutcomeOf(w, existing, e).Written? then
        var cs := Complete(w, model, e.dialect, e.text);
        [Insert(inst, e.key, cs)] + if e.upsertOk then [Upsert(inst, e.key, DocRow(w.hash(e.text), |cs|))] else []
      else []
  }

  ghost function CrawlTxs(w: World, inst: string, model: string, existing: map<Key, DocRow>, es: seq<Emission>): seq<Tx> {
    if es == [] then []
    else CrawlTxs(w, inst, model, existing, es[..|es| - 1]) + EmitTxs(w, inst, model, existing, es[|es| - 1])
  }

  /** order is the order in which the loop over the known documents comes to those that
      are pruned. */
  ghost function PruneTxs(inst: string, order: seq<Key>, chunksBad: set<Key>, rowBad: set<Key>): seq<Tx> {
    if order == [] then []
    else
      var k := order[|order| - 1];
      PruneTxs(inst, order[..|order| - 1], chunksBad, rowBad)
      + (if k in chunksBad then [] else [DeleteChunks(inst, k)] + if k in rowBad then [] else [DeleteDoc(inst, k)])
  }

  ghost function MetaTxs(inst: string, r: RunInput, dimension: nat): seq<Tx> {
    if dimension > 0 && r.setMetaOk then [RecordMeta(inst, Meta(r.Model(), dimension))] else []
  }

  ghost function RunTxs(w: World, inst: string, db: Db, r: RunInput, order: seq<Key>): seq<Tx> {
    if Refuses(db, inst, r) then []
    else
      var existing := Known(db, inst, r);
      var crawl := CrawlTxs(w, inst, r.Model(), existing, r.emissions);
      (if r.mode.Rebuild? then [Clear(inst)] else []) + crawl
      + if r.crawlFailed then []
        else PruneTxs(inst, order, r.chunksBad, r.rowBad)
             + MetaTxs(inst, r, EmitAll(w, inst, r.Model(), existing, Start(db, inst, r), r.emissions).dimension)
  }

  ghost function KeySet(order: seq<Key>): set<Key> {
    set k | k in order
  }

  ghost predicate IsOrderOf(order: seq<Key>, keys: set<Key>) {
    KeySet(order) == keys && forall i, j :: 0 <= i < j < |order| ==> order[i] != order[j]
  }

  lemma EmitTxsAre(w: World, inst: string, model: string, existing: map<Key, DocRow>, db: Db, e: Emission)
    ensures ApplyAll(db, EmitTxs(w, inst, model, existing, e)) == EmitDb(w, inst, model, existing, db, e)
  {
    hide Complete, OutcomeOf, Clears, ApplyAll, ChunksDeleted, Inserted, DocUpserted;
    var clear := if Clears(w, existing, e) then [DeleteChunks(inst, e.key)] else [];
    var cs := Complete(w, model, e.dialect, e.text);
    var insert := [Insert(inst, e.key, cs)];
    var upsert := if e.upsertOk then [Upsert(inst, e.key, DocRow(w.hash(e.text), |cs|))] else [];
    ApplyNone(db);
    ApplyOne(db, DeleteChunks(inst, e.key));
    var db1 := ApplyAll(db, clear);
    ApplyNone(db1);
    ApplyOne(db1, insert[0]);
    var db2 := ApplyAll(db1, insert);
    ApplyNone(db2);
    ApplyOne(db2, Upsert(inst, e.key, DocRow(w.hash(e.text), |cs|)));
    ApplyConcat(db1, insert, upsert);
    ApplyConcat(db, clear, insert + upsert);
    ApplyConcat(db, clear, []);
  }

  lemma ApplyNone(db: Db)
    ensures ApplyAll(db, []) == db
  {
  }

  lemma {:induction false} CrawlTxsAre(w: World, inst: string, model: string, existing: map<Key, DocRow>, db: Db, es: seq<Emission>)
    ensures ApplyAll(db, CrawlTxs(w, inst, model, existing, es)) == EmitAll(w, inst, model, existing, db, es).db
    decreases |es|
  {
    hide EmitDb, EmitTxs, OutcomeOf, Complete, Counted, ApplyAll;
    if es == [] {
      ApplyNone(db);
    } else {
      var init, e := es[..|es| - 1], es[|es| - 1];
      CrawlTxsAre(w, inst, model, existing, db, init);
      ApplyConcat(db, CrawlTxs(w, inst, model, existing, init), EmitTxs(w, inst, model, existing, e));
      EmitTxsAre(w, inst, model, existing, EmitAll(w, inst, model, existing, db, init).db, e);
    }
  }

  lemma {:induction false} PruneTxsAre(db: Db, inst: string, order: seq<Key>, chunksBad: set<Key>, rowBad: set<Key>)
    ensures ApplyAll(db, PruneTxs(inst, order, chunksBad, rowBad)) == Pruned(db, inst, KeySet(order), chunksBad, rowBad)
    decreases |order|
  {
    hide Pruned, ApplyAll, ChunksDeleted, DocDeleted;
    if order == [] {
      ApplyNone(db);
      PruneNone(db, inst, chunksBad, rowBad);
      assert KeySet(order) == {};
    } else {
      var init, k := order[..|order| - 1], order[|order| - 1];
      var before := PruneTxs(inst, init, chunksBad, rowBad);
      PruneTxsAre(db, inst, init, chunksBad, rowBad);
      assert KeySet(order) == KeySet(init) + {k};
      PruneOne(db, inst, KeySet(init), k, chunksBad, rowBad);
      var mid := ApplyAll(db, before);
      ApplyNone(mid);
      ApplyOne(mid, DeleteChunks(inst, k));
      ApplyOne(ChunksDeleted(mid, inst, k), DeleteDoc(inst, k));
      ApplyConcat(mid, [DeleteChunks(inst, k)], [DeleteDoc(inst, k)]);
      assert [DeleteChunks(inst, k)] + [] == [DeleteChunks(inst, k)];
      ApplyConcat(db, before, if k in chunksBad then [] else [DeleteChunks(inst, k)] + if k in rowBad then [] else [DeleteDoc(inst, k)]);
    }
  }

  /** A run's transactions, in order, do what the run does. */
  lemma RunTxsAre(w: World, inst: string, db: Db, r: RunInput, order: seq<Key>)
    requires IsOrderOf(order, Gone(r, Known(db, inst, r)))
    ensures ApplyAll(db, RunTxs(w, inst, db, r, order)) == Run(w, inst, db, r).db
  {
    hide ApplyAll, EmitAll, CrawlTxs, PruneTxs, Pruned, Gone, Refuses, Cleared, DocsOf;
    ApplyNone(db);
    if !Refuses(db, inst, r) {
      var existing, start := Known(db, inst, r), Start(db, inst, r);
      var clear := if r.mode.Rebuild? then [Clear(inst)] else [];
      var crawl := CrawlTxs(w, inst, r.Model(), existing, r.emissions);
      var p := EmitAll(w, inst, r.Model(), existing, start, r.emissions);
      ApplyOne(db, Clear(inst));
      assert ApplyAll(db, clear) == start;
      CrawlTxsAre(w, inst, r.Model(), existing, start, r.emissions);
      ApplyConcat(db, clear, crawl);
      if r.crawlFailed {
        assert clear + crawl + [] == clear + crawl;
      } else {
        var prune, meta := PruneTxs(inst, order, r.chunksBad, r.rowBad), MetaTxs(inst, r, p.dimension);
        PruneTxsAre(p.db, inst, order, r.chunksBad, r.rowBad);
        var db2 := ApplyAll(p.db, prune);
        ApplyNone(db2);
        ApplyOne(db2, RecordMeta(inst, Meta(r.Model(), p.dimension)));
        ApplyConcat(p.db, prune, meta);
        ApplyConcat(db, clear + crawl, prune + meta);
      }
    }
  }

  // ---------------------------------------------------------------------
  // A run reads and writes its own instance's part
  // ---------------------------------------------------------------------

  ghost predicate AllOf(txs: seq<Tx>, inst: string) {
    forall i :: 0 <= i < |txs| ==> txs[i].inst == inst
  }

  lemma {:induction false} CrawlTxsOwn(w: World, inst: string, model: string, existing: map<Key, DocRow>, es: seq<Emission>)
    ensures AllOf(CrawlTxs(w, inst, model, existing, es), inst)
    decreases |es|
  {
    hide OutcomeOf, Complete, Clears;
    if es != [] { CrawlTxsOwn(w, inst, model, existing, es[..|es| - 1]); }
  }

  lemma {:induction false} PruneTxsOwn(inst: string, order: seq<Key>, chunksBad: set<Key>, rowBad: set<Key>)
    ensures AllOf(PruneTxs(inst, order, chunksBad, rowBad), inst)
    decreases |order|
  {
    if order != [] { PruneTxsOwn(inst, order[..|order| - 1], chunksBad, rowBad); }
  }

  lemma RunTxsOwn(w: World, inst: string, db: Db, r: RunInput, order: seq<Key>)
    ensures AllOf(RunTxs(w, inst, db, r, order), inst)
  {
    hide CrawlTxs, PruneTxs, EmitAll, Refuses, DocsOf, Cleared;
    CrawlTxsOwn(w, inst, r.Model(), Known(db, inst, r), r.emissions);
    PruneTxsOwn(inst, order, r.chunksBad, r.rowBad);
  }

  lemma {:induction false} SameDimension(w: World, inst: string, model: string, existing: map<Key, DocRow>, a: Db, b: Db, es: seq<Emission>)
    ensures EmitAll(w, inst, model, existing, a, es).dimension == EmitAll(w, inst, model, existing, b, es).dimension
    decreases |es|
  {
    hide EmitDb, OutcomeOf, Complete, Counted;
    if es != [] { SameDimension(w, inst, model, existing, a, b, es[..|es| - 1]); }
  }

  /** What a run will do is settled by its own instance's part when it starts. */
  lemma SameRunTxs(w: World, inst: string, a: Db, b: Db, r: RunInput, order: seq<Key>)
    requires SamePart(a, b, inst)
    ensures Known(a, inst, r) == Known(b, inst, r) && RunTxs(w, inst, a, r, order) == RunTxs(w, inst, b, r, order)
  {
    hide CrawlTxs, PruneTxs, EmitAll, DocsOf, View, Cleared;
    SameDocs(a, b, inst);
    SameDimension(w, inst, r.Model(), Known(a, inst, r), Start(a, inst, r), Start(b, inst, r), r.emissions);
  }

  lemma {:induction false} OthersUntouched(db: Db, txs: seq<Tx>, inst: string, other: string)
    requires AllOf(txs, inst) && other != inst
    ensures SamePart(ApplyAll(db, txs), db, other)
    decreases |txs|
  {
    hide Apply, SamePart;
    if txs == [] {
      SamePartRefl(db, other);
    } else {
      OthersUntouched(db, txs[..|txs| - 1], inst, other);
      OtherTransaction(ApplyAll(db, txs[..|txs| - 1]), db, txs[|txs| - 1], other);
    }
  }

  lemma SamePartRefl(db: Db, inst: string)
    ensures SamePart(db, db, inst)
  {
  }

  // ---------------------------------------------------------------------
  // Interleavings
  // ---------------------------------------------------------------------

  /** A run under way: what it has done and what it has still to do. */
  datatype Active = Active(input: RunInput, order: seq<Key>, done: seq<Tx>, todo: seq<Tx>)

  /** The shared store, the runs under way and those finished, in that order. */
  datatype Sys = Sys(db: Db, active: map<string, Active>, finished: seq<Job>)

  const INIT := Sys(EMPTY, map[], [])

  datatype Step =
    | Begin(inst: string, input: RunInput, order: seq<Key>)
    | Advance(inst: string)
    | End(inst: string)

  ghost predicate Enabled(s: Sys, step: Step) {
    match step
    case Begin(inst, r, order) => inst !in s.active && IsOrderOf(order, Gone(r, Known(s.db, inst, r)))
    case Advance(inst) => inst in s.active && s.active[inst].todo != []
    case End(inst) => inst in s.active && s.active[inst].todo == []
  }

  ghost function Next(w: World, s: Sys, step: Step): Sys
    requires Enabled(s, step)
  {
    match step
    case Begin(inst, r, order) => s.(active := s.active[inst := Active(r, order, [], RunTxs(w, inst, s.db, r, order))])
    case Advance(inst) =>
      var a := s.active[inst];
      s.(db := Apply(s.db, a.todo[0]), active := s.active[inst := a.(done := a.done + [a.todo[0]], todo := a.todo[1..])])
    case End(inst) => s.(active := s.active - {inst}, finished := s.finished + [Job(inst, s.active[inst].input)])
  }

  /** Where inst stands, next to a store in which the finished runs were run whole. */
  ghost predicate InStep(w: World, s: Sys, solo: Db, inst: string) {
    if inst !in s.active then SamePart(s.db, solo, inst)
    else
      var a := s.active[inst];
      && SamePart(s.db, ApplyAll(solo, a.done), inst)
      && a.done + a.todo == RunTxs(w, inst, solo, a.input, a.order)
      && IsOrderOf(a.order, Gone(a.input, Known(solo, inst, a.input)))
  }

  ghost predicate Inv(w: World, s: Sys) {
    forall inst: string :: InStep(w, s, After(w, EMPTY, s.finished), inst)
  }

  lemma BeginInStep(w: World, s: Sys, solo: Db, inst: string, r: RunInput, order: seq<Key>)
    requires Enabled(s, Begin(inst, r, order)) && InStep(w, s, solo, inst)
    ensures InStep(w, Next(w, s, Begin(inst, r, order)), solo, inst)
  {
    hide SamePart, RunTxs, Known, Gone, ApplyAll, IsOrderOf;
    SameRunTxs(w, inst, s.db, solo, r, order);
    ApplyNone(solo);
    assert [] + RunTxs(w, inst, solo, r, order) == RunTxs(w, inst, solo, r, order);
  }

  lemma AdvanceInStep(w: World, s: Sys, solo: Db, inst: string)
    requires Enabled(s, Advance(inst)) && InStep(w, s, solo, inst)
    ensures InStep(w, Next(w, s, Advance(inst)), solo, inst)
  {
    hide SamePart, RunTxs, Known, Gone, IsOrderOf, Apply, ApplyAll;
    var a := s.active[inst];
    var tx := a.todo[0];
    OwnTransaction(s.db, ApplyAll(solo, a.done), tx, inst);
    ApplyConcat(solo, a.done, [tx]);
    ApplyOne(ApplyAll(solo, a.done), tx);
    assert a.done + [tx] + a.todo[1..] == a.done + a.todo;
  }

  /** Another instance's transaction. */
  lemma OtherAdvances(w: World, s: Sys, solo: Db, inst: string, other: string)
    requires Enabled(s, Advance(other)) && other != inst && InStep(w, s, solo, inst) && InStep(w, s, solo, other)
    ensures InStep(w, Next(w, s, Advance(other)), solo, inst)
  {
    hide SamePart, RunTxs, Known, Gone, IsOrderOf, Apply, ApplyAll;
    var a := s.active[other];
    RunTxsOwn(w, other, solo, a.input, a.order);
    assert (a.done + a.todo)[|a.done|] == a.todo[0];
    OtherTransaction(s.db, if inst in s.active then ApplyAll(solo, s.active[inst].done) else solo, a.todo[0], inst);
  }

  /** The end of a run: what it did is what the whole run does. */
  lemma EndInStep(w: World, s: Sys, solo: Db, inst: string)
    requires Enabled(s, End(inst)) && InStep(w, s, solo, inst)
    ensures InStep(w, Next(w, s, End(inst)), Run(w, inst, solo, s.active[inst].input).db, inst)
  {
    hide SamePart, RunTxs, Run, Known, Gone, IsOrderOf, ApplyAll;
    var a := s.active[inst];
    assert a.done + [] == a.done;
    RunTxsAre(w, inst, solo, a.input, a.order);
  }

  /** The end of another instance's run. */
  lemma OtherEnds(w: World, s: Sys, solo: Db, inst: string, other: string)
    requires Enabled(s, End(other)) && other != inst && InStep(w, s, solo, inst) && InStep(w, s, solo, other)
    ensures InStep(w, Next(w, s, End(other)), Run(w, other, solo, s.active[other].input).db, inst)
  {
    hide SamePart, RunTxs, Run, Known, Gone, IsOrderOf, ApplyAll;
    var a := s.active[other];
    var solo' := Run(w, other, solo, a.input).db;
    RunTxsAre(w, other, solo, a.input, a.order);
    RunTxsOwn(w, other, solo, a.input, a.order);
    OthersUntouched(solo, RunTxs(w, other, solo, a.input, a.order), other, inst);
    SamePartSym(solo', solo, inst);
    if inst in s.active {
      var mine := s.active[inst];
      OwnTransactions(solo, solo', mine.done, inst);
      SamePartTrans(s.db, ApplyAll(solo, mine.done), ApplyAll(solo', mine.done), inst);
      SameRunTxs(w, inst, solo, solo', mine.input, mine.order);
    } else {
      SamePartTrans(s.db, solo, solo', inst);
    }
  }

  lemma SamePartSym(a: Db, b: Db, inst: string)
    requires SamePart(a, b, inst)
    ensures SamePart(b, a, inst)
  {
    hide View;
  }

  lemma StepKeepsInv(w: World, s: Sys, step: Step)
    requires Inv(w, s) && Enabled(s, step)
    ensures Inv(w, Next(w, s, step))
  {
    hide Run, RunTxs, SamePart, ApplyAll, Apply, Known, Gone, IsOrderOf;
    var solo, s' := After(w, EMPTY, s.finished), Next(w, s, step);
    var solo' := After(w, EMPTY, s'.finished);
    assert InStep(w, s, solo, step.inst);
    if step.End? {
      assert s'.finished[..|s.finished|] == s.finished;
      assert solo' == Run(w, step.inst, solo, s.active[step.inst].input).db;
    }
    forall inst: string ensures InStep(w, s', solo', inst) {
      assert InStep(w, s, solo, inst);
      match step
      case Begin(i, r, order) => if i == inst { BeginInStep(w, s, solo, inst, r, order); }
      case Advance(i) => if i == inst { AdvanceInStep(w, s, solo, inst); } else { OtherAdvances(w, s, solo, inst, i); }
      case End(i) => if i == inst { EndInStep(w, s, solo, inst); } else { OtherEnds(w, s, solo, inst, i); }
    }
  }

  ghost predicate Behaviour(w: World, ss: seq<Sys>, steps: seq<Step>) {
    && |ss| == |steps| + 1 && ss[0] == INIT
    && forall n :: 0 <= n < |steps| ==> Enabled(ss[n], steps[n]) && ss[n + 1] == Next(w, ss[n], steps[n])
  }

  lemma {:induction false} InvForever(w: World, ss: seq<Sys>, steps: seq<Step>, n: nat)
    requires Behaviour(w, ss, steps) && n < |ss|
    ensures Inv(w, ss[n])
  {
    hide Next, Inv, Enabled;
    if n == 0 {
      InitOk(w);
    } else {
      InvForever(w, ss, steps, n - 1);
      StepKeepsInv(w, ss[n - 1], steps[n - 1]);
    }
  }

  lemma InitOk(w: World)
    ensures Inv(w, INIT)
  {
    forall inst: string ensures InStep(w, INIT, After(w, EMPTY, []), inst) {
      SamePartRefl(EMPTY, inst);
    }
  }

  // ---------------------------------------------------------------------
  // What holds in every interleaving
  // ---------------------------------------------------------------------

  /** In every interleaving, an instance that no run is working on holds exactly what
      running the finished runs whole, one after another, gives it. */
  lemma Serializable(w: World, ss: seq<Sys>, steps: seq<Step>, n: nat, inst: string)
    requires Behaviour(w, ss, steps) && n < |ss| && inst !in ss[n].active
    ensures SamePart(ss[n].db, After(w, EMPTY, ss[n].finished), inst)
  {
    hide Behaviour, SamePart, After;
    InvForever(w, ss, steps, n);
    assert InStep(w, ss[n], After(w, EMPTY, ss[n].finished), inst);
  }

  /** One model per instance, in every interleaving of runs in which no crawl and no
      SetMeta fails. */
  lemma OneModelInterleaved(w: World, ss: seq<Sys>, steps: seq<Step>, n: nat, inst: string)
    requires VectorsNonEmpty(w) && Behaviour(w, ss, steps) && n < |ss| && inst !in ss[n].active
    requires forall i :: 0 <= i < |ss[n].finished| ==>
      !ss[n].finished[i].input.crawlFailed && ss[n].finished[i].input.setMetaOk
    ensures OneModel(w, ss[n].db, inst)
  {
    hide Behaviour, After, View, FromModel;
    var solo := After(w, EMPTY, ss[n].finished);
    Serializable(w, ss, steps, n, inst);
    OneModelForever(w, ss[n].finished, inst);
    if HasChunks(ss[n].db, inst) {
      var k: Key :| View(ss[n].db, inst, k).contents != [];
      assert View(solo, inst, k).contents != [];
    }
  }

  /** Every document whole, in every interleaving of runs that record their rows and
      repeat no key. */
  lemma ConsistentInterleaved(w: World, dialects: string -> Dialects, ss: seq<Sys>, steps: seq<Step>, n: nat, inst: string)
    requires Behaviour(w, ss, steps) && n < |ss| && inst !in ss[n].active
    requires forall i :: 0 <= i < |ss[n].finished| ==>
      var j := ss[n].finished[i];
      && DialectsMatch(dialects(j.inst), j.input.emissions)
      && RowsAlwaysKept(j.input.emissions) && U.NoRepeats(j.input.emissions)
    ensures Consistent(w, dialects(inst), ss[n].db, inst)
  {
    hide Behaviour, After, View, Whole, DialectsMatch, RowsAlwaysKept, U.NoRepeats;
    var solo := After(w, EMPTY, ss[n].finished);
    Serializable(w, ss, steps, n, inst);
    ConsistentForever(w, dialects, ss[n].finished, inst);
    forall k: Key ensures Whole(w, dialects(inst)(k), View(ss[n].db, inst, k)) {
      assert View(ss[n].db, inst, k) == View(solo, inst, k);
      assert Whole(w, dialects(inst)(k), View(solo, inst, k));
    }
  }
}
