/** The index stays consistent under every pattern of failing calls. */
module Consistency {
  import opened Wrappers
  import opened Store
  import opened Indexer
  import opened DocumentView
  import opened HealthyRuns
  import SingleModel
  import opened Text

  /** ks holds the complete chunk list of text t under model m, and its row says so. */
  ghost predicate IsComplete(w: World, m: string, dialect: string, t: string, ks: KeyState) {
    && ks.contents == Complete(w, m, dialect, t)
    && ks.row == Some(DocRow(w.hash(t), |ks.contents|))
  }

  /** No chunks, or the complete list of one text whose hash is the row's. */
  ghost predicate Whole(w: World, dialect: string, ks: KeyState) {
    ks.contents == [] || exists m, t :: IsComplete(w, m, dialect, t, ks)
  }

  /** Which dialect a document is split by; every crawler derives it from the key. */
  type Dialects = Key -> string

  ghost predicate Consistent(w: World, dialects: Dialects, db: Db, inst: string) {
    forall k: Key :: Whole(w, dialects(k), View(db, inst, k))
  }

  ghost predicate DialectsMatch(dialects: Dialects, es: seq<Emission>) {
    forall i :: 0 <= i < |es| ==> es[i].dialect == dialects(es[i].key)
  }

  /** Bookkeeping of documents that already have a row does not fail. */
  ghost predicate KnownRowsKept(w: World, existing: map<Key, DocRow>, es: seq<Emission>) {
    forall i :: 0 <= i < |es| && es[i].key in existing && OutcomeOf(w, existing, es[i]).Written? ==> es[i].upsertOk
  }

  /** How often the run stores chunks for k. */
  ghost function Writes(w: World, existing: map<Key, DocRow>, k: Key, es: seq<Emission>): nat {
    if es == [] then 0
    else
      var e := es[|es| - 1];
      Writes(w, existing, k, es[..|es| - 1]) + if e.key == k && OutcomeOf(w, existing, e).Written? then 1 else 0
  }

  /** How often the run stores chunks for k and then fails to record its row. */
  ghost function Lost(w: World, existing: map<Key, DocRow>, k: Key, es: seq<Emission>): nat {
    if es == [] then 0
    else
      var e := es[|es| - 1];
      Lost(w, existing, k, es[..|es| - 1])
      + if e.key == k && OutcomeOf(w, existing, e).Written? && !e.upsertOk then 1 else 0
  }

  /** A new document is stored at most once, and then its row is recorded. */
  ghost predicate NewOnce(w: World, existing: map<Key, DocRow>, k: Key, es: seq<Emission>) {
    Writes(w, existing, k, es) <= 1 && Lost(w, existing, k, es) == 0
  }

  lemma {:induction false} KnownStaysWhole(w: World, model: string, existing: map<Key, DocRow>, ks: KeyState,
                                            k: Key, es: seq<Emission>, dialect: string)
    requires Whole(w, dialect, ks) && k in existing
    requires KnownRowsKept(w, existing, es)
    requires forall i :: 0 <= i < |es| && es[i].key == k ==> es[i].dialect == dialect
    ensures Whole(w, dialect, KeyFold(w, model, existing, ks, k, es))
    decreases |es|
  {
    hide Complete;
    if es != [] {
      KnownStaysWhole(w, model, existing, ks, k, es[..|es| - 1], dialect);
      var e := es[|es| - 1];
      if e.key == k && OutcomeOf(w, existing, e).Written? {
        var after := KeyFold(w, model, existing, ks, k, es);
        assert after.contents == Complete(w, model, dialect, e.text);
        assert IsComplete(w, model, dialect, e.text, after);
      }
    }
  }

  // ---------------------------------------------------------------------
  // Documents that already have a row, when recording it may fail
  // ---------------------------------------------------------------------

  /** The row of a known document after a crawl: that of the last text recorded for it,
      or the one it had. */
  ghost function RowNow(w: World, existing: map<Key, DocRow>, k: Key, es: seq<Emission>): DocRow
    requires k in existing
  {
    if es == [] then existing[k]
    else
      var e := es[|es| - 1];
      if e.key == k && OutcomeOf(w, existing, e).Written? && e.upsertOk
      then DocRow(w.hash(e.text), |Kept(e.dialect, e.text)|)
      else RowNow(w, existing, k, es[..|es| - 1])
  }

  /** Some text with the row's hash has, under some model, the chunk list of this one. */
  ghost predicate RowFits(w: World, model: string, dialect: string, row: DocRow, text: string) {
    var cs := Complete(w, model, dialect, text);
    row.chunkCount == |cs| && exists m, t :: w.hash(t) == row.hash && Complete(w, m, dialect, t) == cs
  }

  /** The text stored for good for a known document is recorded, or the row it keeps
      instead happens to fit it. */
  ghost predicate RowKept(w: World, model: string, existing: map<Key, DocRow>, k: Key, es: seq<Emission>)
    requires k in existing
  {
    forall i :: 0 <= i < |es| && es[i].key == k && Lasting(w, existing, es, i) ==>
      es[i].upsertOk || RowFits(w, model, es[i].dialect, RowNow(w, existing, k, es), es[i].text)
  }

  /** The chunks of a known document after a crawl: those of the text stored for good,
      if there is one; else none, unless nothing happened to it at all. */
  ghost predicate KnownAfter(w: World, model: string, existing: map<Key, DocRow>, ks: KeyState, k: Key, es: seq<Emission>, after: KeyState)
    requires k in existing
  {
    && after.row == Some(RowNow(w, existing, k, es))
    && (forall i :: 0 <= i < |es| && es[i].key == k && Lasting(w, existing, es, i) ==>
          after.contents == Complete(w, model, es[i].dialect, es[i].text)
          && (es[i].upsertOk ==> after.row == Some(DocRow(w.hash(es[i].text), |after.contents|))))
    && (!LastingFor(w, existing, es, k) ==> after.contents == [] || after == ks)
  }

  lemma {:induction false} KnownFold(w: World, model: string, existing: map<Key, DocRow>, ks: KeyState, k: Key, es: seq<Emission>)
    requires k in existing && ks.row == Some(existing[k])
    ensures KnownAfter(w, model, existing, ks, k, es, KeyFold(w, model, existing, ks, k, es))
    decreases |es|
  {
    hide OutcomeOf, Clears, Complete, KeyStep, KnownAfter;
    if es == [] {
      KnownNothing(w, model, existing, ks, k);
    } else {
      var init, e := es[..|es| - 1], es[|es| - 1];
      var before := KeyFold(w, model, existing, ks, k, init);
      KnownFold(w, model, existing, ks, k, init);
      if e.key != k {
        KnownElsewhere(w, model, existing, ks, k, es, before);
      } else {
        KnownStep(w, model, existing, ks, es, before);
      }
    }
  }

  lemma KnownNothing(w: World, model: string, existing: map<Key, DocRow>, ks: KeyState, k: Key)
    requires k in existing && ks.row == Some(existing[k])
    ensures KnownAfter(w, model, existing, ks, k, [], ks)
  {
  }

  lemma LastingBefore(w: World, existing: map<Key, DocRow>, es: seq<Emission>, i: nat)
    requires i + 1 < |es| && Lasting(w, existing, es, i)
    ensures Lasting(w, existing, es[..|es| - 1], i)
    ensures es[|es| - 1].key == es[i].key ==> !Clears(w, existing, es[|es| - 1])
  {
    hide OutcomeOf, Clears;
  }

  lemma KnownElsewhere(w: World, model: string, existing: map<Key, DocRow>, ks: KeyState, k: Key, es: seq<Emission>, before: KeyState)
    requires k in existing && es != [] && es[|es| - 1].key != k
    requires KnownAfter(w, model, existing, ks, k, es[..|es| - 1], before)
    ensures KnownAfter(w, model, existing, ks, k, es, before)
  {
    hide OutcomeOf, Clears, Complete, Lasting, LastingFor;
    var init := es[..|es| - 1];
    LastingStep(w, existing, es, k);
    forall i | 0 <= i < |es| && es[i].key == k && Lasting(w, existing, es, i)
      ensures i < |init| && init[i] == es[i] && Lasting(w, existing, init, i)
    {
      LastingBefore(w, existing, es, i);
    }
  }

  lemma KnownStep(w: World, model: string, existing: map<Key, DocRow>, ks: KeyState, es: seq<Emission>, before: KeyState)
    requires es != [] && es[|es| - 1].key in existing
    requires KnownAfter(w, model, existing, ks, es[|es| - 1].key, es[..|es| - 1], before)
    ensures var e := es[|es| - 1];
            KnownAfter(w, model, existing, ks, e.key, es, KeyStep(w, model, existing, before, e))
  {
    hide OutcomeOf, Clears, Complete, Lasting, LastingFor, KeyStep, KnownAfter;
    var e := es[|es| - 1];
    StepOfKnown(w, model, existing, before, e);
    if OutcomeOf(w, existing, e).Written? {
      KnownWritten(w, model, existing, ks, es, before, KeyStep(w, model, existing, before, e));
    } else {
      KnownUnwritten(w, model, existing, ks, es, before, KeyStep(w, model, existing, before, e));
    }
  }

  lemma KnownWritten(w: World, model: string, existing: map<Key, DocRow>, ks: KeyState, es: seq<Emission>,
                   before: KeyState, after: KeyState)
    requires es != [] && es[|es| - 1].key in existing
    requires KnownAfter(w, model, existing, ks, es[|es| - 1].key, es[..|es| - 1], before)
    requires var e := es[|es| - 1];
             var cs := Complete(w, model, e.dialect, e.text);
             && OutcomeOf(w, existing, e).Written? && Clears(w, existing, e) && |cs| == |Kept(e.dialect, e.text)|
             && after == KeyState(if e.upsertOk then Some(DocRow(w.hash(e.text), |cs|)) else before.row, cs)
    ensures KnownAfter(w, model, existing, ks, es[|es| - 1].key, es, after)
  {
    hide OutcomeOf, Clears, Complete, Kept, Lasting, LastingFor;
    var e := es[|es| - 1];
    LastingStep(w, existing, es, e.key);
    forall i | 0 <= i < |es| && es[i].key == e.key && Lasting(w, existing, es, i) ensures i == |es| - 1 {
      if i < |es| - 1 { LastingBefore(w, existing, es, i); }
    }
  }

  lemma KnownUnwritten(w: World, model: string, existing: map<Key, DocRow>, ks: KeyState, es: seq<Emission>,
                   before: KeyState, after: KeyState)
    requires es != [] && es[|es| - 1].key in existing
    requires KnownAfter(w, model, existing, ks, es[|es| - 1].key, es[..|es| - 1], before)
    requires !OutcomeOf(w, existing, es[|es| - 1]).Written?
    requires after == if Clears(w, existing, es[|es| - 1]) then before.(contents := []) else before
    ensures KnownAfter(w, model, existing, ks, es[|es| - 1].key, es, after)
  {
    hide OutcomeOf, Clears, Complete, Lasting, LastingFor;
    var init, e := es[..|es| - 1], es[|es| - 1];
    LastingStep(w, existing, es, e.key);
    LastIsWritten(w, existing, es);
    forall i | 0 <= i < |es| && es[i].key == e.key && Lasting(w, existing, es, i)
      ensures i < |init| && init[i] == es[i] && Lasting(w, existing, init, i) && !Clears(w, existing, e)
    {
      LastingBefore(w, existing, es, i);
    }
  }

  lemma LastIsWritten(w: World, existing: map<Key, DocRow>, es: seq<Emission>)
    requires es != []
    ensures Lasting(w, existing, es, |es| - 1) ==> OutcomeOf(w, existing, es[|es| - 1]).Written?
  {
  }

  /** One emission of a known document: it clears before it writes. */
  lemma StepOfKnown(w: World, model: string, existing: map<Key, DocRow>, ks: KeyState, e: Emission)
    requires e.key in existing
    ensures var cs, after := Complete(w, model, e.dialect, e.text), KeyStep(w, model, existing, ks, e);
            && |cs| == |Kept(e.dialect, e.text)|
            && if OutcomeOf(w, existing, e).Written?
               then Clears(w, existing, e) && after == KeyState(if e.upsertOk then Some(DocRow(w.hash(e.text), |cs|)) else ks.row, cs)
               else after == if Clears(w, existing, e) then ks.(contents := []) else ks
  {
    hide Kept, Complete;
    assert [] + Complete(w, model, e.dialect, e.text) == Complete(w, model, e.dialect, e.text);
  }

  /** A known document comes out of a crawl whole exactly when its row is kept. */
  lemma KnownWholeIff(w: World, model: string, existing: map<Key, DocRow>, ks: KeyState, k: Key, es: seq<Emission>, dialect: string)
    requires k in existing && ks.row == Some(existing[k]) && Whole(w, dialect, ks)
    requires forall i :: 0 <= i < |es| && es[i].key == k ==> es[i].dialect == dialect
    ensures Whole(w, dialect, KeyFold(w, model, existing, ks, k, es)) <==> RowKept(w, model, existing, k, es)
  {
    hide OutcomeOf, Clears, Complete, Lasting, KeyFold, RowNow;
    var after := KeyFold(w, model, existing, ks, k, es);
    KnownFold(w, model, existing, ks, k, es);
    if LastingFor(w, existing, es, k) {
      var i :| 0 <= i < |es| && es[i].key == k && Lasting(w, existing, es, i);
      LastingWritten(w, model, existing, es, i);
      WholeIffFits(w, model, dialect, after, es[i].text);
      if es[i].upsertOk { assert IsComplete(w, model, dialect, es[i].text, after); }
      forall j | 0 <= j < |es| && es[j].key == k && Lasting(w, existing, es, j) ensures j == i {
        LastingIsUnique(w, existing, es, i, j);
      }
    }
  }

  lemma LastingWritten(w: World, model: string, existing: map<Key, DocRow>, es: seq<Emission>, i: nat)
    requires i < |es| && Lasting(w, existing, es, i)
    ensures Complete(w, model, es[i].dialect, es[i].text) != []
  {
    hide OutcomeOf, Clears, Complete;
    WrittenIsNotEmpty(w, model, existing, es[i]);
  }

  lemma LastingIsUnique(w: World, existing: map<Key, DocRow>, es: seq<Emission>, i: nat, j: nat)
    requires i < |es| && j < |es| && es[i].key == es[j].key && es[i].key in existing
    requires Lasting(w, existing, es, i) && Lasting(w, existing, es, j)
    ensures i == j
  {
    hide Complete, Kept;
  }

  lemma WholeIffFits(w: World, model: string, dialect: string, ks: KeyState, text: string)
    requires ks.row.Some? && ks.contents == Complete(w, model, dialect, text) != []
    ensures Whole(w, dialect, ks) <==> RowFits(w, model, dialect, ks.row.value, text)
  {
    hide Complete;
    if RowFits(w, model, dialect, ks.row.value, text) {
      var m, t :| w.hash(t) == ks.row.value.hash && Complete(w, m, dialect, t) == ks.contents;
      assert IsComplete(w, m, dialect, t, ks);
    }
  }

  // ---------------------------------------------------------------------
  // Documents without a row
  // ---------------------------------------------------------------------

  /** A document without a row: untouched, stored once, or spoilt for good. */
  ghost predicate Grown(w: World, dialect: string, writes: nat, lost: nat, ks: KeyState) {
    && (writes == 0 ==> ks == ABSENT)
    && (writes == 1 && lost == 0 ==> ks.contents != [] && exists m, t :: IsComplete(w, m, dialect, t, ks))
    && (writes > 1 || lost > 0 ==> ks.contents != [] && (ks.row.None? || ks.row.value.chunkCount < |ks.contents|))
    && lost <= writes
  }

  lemma GrowsOnce(w: World, model: string, existing: map<Key, DocRow>, writes: nat, lost: nat, ks: KeyState, e: Emission)
    requires Grown(w, e.dialect, writes, lost, ks) && e.key !in existing && OutcomeOf(w, existing, e).Written?
    ensures Grown(w, e.dialect, writes + 1, if e.upsertOk then lost else lost + 1, KeyStep(w, model, existing, ks, e))
  {
    hide Complete, KeyStep;
    var cs, after := Complete(w, model, e.dialect, e.text), KeyStep(w, model, existing, ks, e);
    StoredStep(w, model, existing, ks, e);
    if writes == 0 && e.upsertOk {
      assert after.contents == cs;
      assert IsComplete(w, model, e.dialect, e.text, after);
    }
  }

  lemma StoredStep(w: World, model: string, existing: map<Key, DocRow>, ks: KeyState, e: Emission)
    requires e.key !in existing && OutcomeOf(w, existing, e).Written?
    ensures var cs := Complete(w, model, e.dialect, e.text);
            && cs != []
            && KeyStep(w, model, existing, ks, e)
            == KeyState(if e.upsertOk then Some(DocRow(w.hash(e.text), |cs|)) else ks.row, ks.contents + cs)
  {
  }

  lemma {:induction false} NewGrows(w: World, model: string, existing: map<Key, DocRow>, k: Key, es: seq<Emission>, dialect: string)
    requires k !in existing
    requires forall i :: 0 <= i < |es| && es[i].key == k ==> es[i].dialect == dialect
    ensures Grown(w, dialect, Writes(w, existing, k, es), Lost(w, existing, k, es), KeyFold(w, model, existing, ABSENT, k, es))
    decreases |es|
  {
    hide Grown, OutcomeOf, KeyStep;
    if es == [] {
      UntouchedIsGrown(w, dialect);
    } else {
      var init, e := es[..|es| - 1], es[|es| - 1];
      assert forall i :: 0 <= i < |init| ==> init[i] == es[i];
      NewGrows(w, model, existing, k, init, dialect);
      var ks := KeyFold(w, model, existing, ABSENT, k, init);
      if e.key == k {
        if OutcomeOf(w, existing, e).Written? {
          GrowsOnce(w, model, existing, Writes(w, existing, k, init), Lost(w, existing, k, init), ks, e);
        } else {
          NewUntouched(w, model, existing, ks, e);
        }
      }
    }
  }

  lemma NewUntouched(w: World, model: string, existing: map<Key, DocRow>, ks: KeyState, e: Emission)
    requires e.key !in existing && !OutcomeOf(w, existing, e).Written?
    ensures KeyStep(w, model, existing, ks, e) == ks
  {
  }

  lemma UntouchedIsGrown(w: World, dialect: string)
    ensures Grown(w, dialect, 0, 0, ABSENT)
  {
  }

  lemma GrownIsWhole(w: World, dialect: string, writes: nat, lost: nat, ks: KeyState)
    requires Grown(w, dialect, writes, lost, ks)
    ensures Whole(w, dialect, ks) <==> writes <= 1 && lost == 0
  {
  }

  /** What a run must do to document k to leave it whole. */
  ghost predicate Safe(w: World, model: string, existing: map<Key, DocRow>, k: Key, es: seq<Emission>) {
    if k in existing then RowKept(w, model, existing, k, es) else NewOnce(w, existing, k, es)
  }

  /** A document that is pruned was not emitted, and so is as it was before. */
  lemma SeenIsNotGone(w: World, r: RunInput, existing: map<Key, DocRow>, ks: KeyState, k: Key)
    ensures k in Gone(r, existing) ==> KeyFold(w, r.Model(), existing, ks, k, r.emissions) == ks
  {
    hide KeyStep;
    if k in Gone(r, existing) { FoldNone(w, r.Model(), existing, ks, k, r.emissions); }
  }

  /** Document k after one run, from whole documents. */
  lemma DocumentWholeIff(w: World, dialects: Dialects, inst: string, db: Db, r: RunInput, k: Key)
    requires Whole(w, dialects(k), View(db, inst, k)) && !Refuses(db, inst, r)
    requires DialectsMatch(dialects, r.emissions)
    ensures Whole(w, dialects(k), AfterRun(w, inst, db, r, k)) <==> Safe(w, r.Model(), Known(db, inst, r), k, r.emissions)
  {
    hide Complete, Whole, Grown, KeyFold, Keys, RowKept, DocsOf;
    var existing := Known(db, inst, r);
    var start := if r.mode.Rebuild? then ABSENT else View(db, inst, k);
    var crawled := KeyFold(w, r.Model(), existing, start, k, r.emissions);
    AbsentIsWhole(w, dialects(k));
    if k in existing {
      KnownRows(db, inst, k);
      KnownWholeIff(w, r.Model(), existing, start, k, r.emissions, dialects(k));
      SeenIsNotGone(w, r, existing, start, k);
      if k in Gone(r, existing) {
        PruneKeepsWhole(w, dialects(k), crawled, k, Gone(r, existing), r.chunksBad, r.rowBad);
      }
    } else {
      NoRowNoChunks(w, dialects, inst, db, r, k);
      NewGrows(w, r.Model(), existing, k, r.emissions, dialects(k));
      GrownIsWhole(w, dialects(k), Writes(w, existing, k, r.emissions), Lost(w, existing, k, r.emissions), crawled);
    }
  }

  lemma AbsentIsWhole(w: World, dialect: string)
    ensures Whole(w, dialect, ABSENT)
  {
  }

  lemma NoRowNoChunks(w: World, dialects: Dialects, inst: string, db: Db, r: RunInput, k: Key)
    requires Whole(w, dialects(k), View(db, inst, k)) && k !in Known(db, inst, r)
    ensures r.mode.Update? ==> View(db, inst, k) == ABSENT
  {
    hide ContentsOf;
    assert DocId(inst, k) in db.docs ==> k in DocsOf(db, inst);
  }

  lemma PruneKeepsWhole(w: World, dialect: string, ks: KeyState, k: Key, gone: set<Key>, chunksBad: set<Key>, rowBad: set<Key>)
    requires Whole(w, dialect, ks)
    ensures Whole(w, dialect, PruneStep(ks, k, gone, chunksBad, rowBad))
  {
  }

  /** Under every pattern of failing calls, recording a row included, from a consistent
      index: the run leaves a consistent index if and only if it was refused, or it is
      safe for every document: one without a row is stored at most once and then
      recorded; for one with a row, the text stored for good is recorded, or the row it
      keeps instead is that of a text with the same chunk list. */
  lemma ConsistentIff(w: World, dialects: Dialects, inst: string, db: Db, r: RunInput)
    requires Consistent(w, dialects, db, inst) && DialectsMatch(dialects, r.emissions)
    ensures Consistent(w, dialects, Run(w, inst, db, r).db, inst)
       <==> Refuses(db, inst, r) || forall k: Key :: Safe(w, r.Model(), Known(db, inst, r), k, r.emissions)
  {
    hide Whole, Run, Refuses, AfterRun, View, Known, Safe;
    forall k: Key
      ensures Refuses(db, inst, r) ==> View(Run(w, inst, db, r).db, inst, k) == View(db, inst, k)
      ensures !Refuses(db, inst, r) ==>
        (Whole(w, dialects(k), View(Run(w, inst, db, r).db, inst, k)) <==> Safe(w, r.Model(), Known(db, inst, r), k, r.emissions))
    {
      RunView(w, inst, db, r, inst, k);
      if !Refuses(db, inst, r) {
        assert Whole(w, dialects(k), View(db, inst, k));
        DocumentWholeIff(w, dialects, inst, db, r, k);
      }
    }
  }

  /** A row that is not recorded does break a known document: a healthy Rebuild stores
      one text, then an Update stores another with a different number of chunks and
      fails to record it.  The row is the old text's and the chunks are the new one's. */
  lemma UnrecordedTextIsNotWhole(w: World, inst: string, model: string, key: Key, old_: string, text: string)
    requires model != "" && Indexable("", old_) && Indexable("", text)
    requires w.hash(old_) != w.hash(text) && |Kept("", old_)| != |Kept("", text)|
    ensures var db1 := Run(w, inst, Db([], map[], map[], 0), Healthy(Rebuild, model, [Good(key, old_)], false)).db;
            var lost := Good(key, text).(upsertOk := false);
            var after := View(Run(w, inst, db1, Healthy(Update, model, [lost], false)).db, inst, key);
            && after.row == Some(DocRow(w.hash(old_), |Kept("", old_)|))
            && after.contents == Complete(w, model, "", text)
            && !Whole(w, "", after)
  {
    hide Run, KeyFold, Complete, Kept, View, Indexable, EmitAll, Cleared, Keys, DocsOf, TrimSpace;
    var e1, lost := Good(key, old_), Good(key, text).(upsertOk := false);
    var db0, r1, r2 := Db([], map[], map[], 0), Healthy(Rebuild, model, [e1], false), Healthy(Update, model, [lost], false);
    var db1 := Run(w, inst, db0, r1).db;
    RunView(w, inst, db0, r1, inst, key);
    FoldOne(w, model, map[], ABSENT, e1);
    StoresOne(w, model, map[], key, old_);
    KnownRows(db1, inst, key);
    SingleModel.RunAdmitsUpdate(w, inst, db0, r1, r2);
    var before := View(db1, inst, key);
    RunView(w, inst, db1, r2, inst, key);
    FoldOne(w, model, DocsOf(db1, inst), before, lost);
    ReplacesOne(w, model, DocsOf(db1, inst), before, lost);
  }
}
