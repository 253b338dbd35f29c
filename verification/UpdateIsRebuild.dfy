/** The incremental run against the simple one: when Update leaves what Rebuild
    from scratch would have built from the same crawl. */
module UpdateIsRebuild {
  import opened Wrappers
  import opened Store
  import opened Indexer
  import opened DocumentView
  import opened Consistency
  import opened HealthyRuns
  import opened Text
  import SingleModel

  ghost predicate CollisionFree(w: World) {
    forall s, t :: w.hash(s) == w.hash(t) ==> s == t
  }

  predicate AllOk(e: Emission) {
    e.deleteOk && e.badBatch.None? && e.insertOk && e.upsertOk
  }

  /** No call fails. */
  ghost predicate NoFault(r: RunInput) {
    && r.ready && r.clearOk && r.metaOk && r.listOk && !r.crawlFailed && r.setMetaOk
    && r.chunksBad == {} && r.rowBad == {}
    && forall i :: 0 <= i < |r.emissions| ==> AllOk(r.emissions[i])
  }

  ghost predicate NoRepeats(es: seq<Emission>) {
    forall i, j :: 0 <= i < j < |es| ==> es[i].key != es[j].key
  }

  /** With no repeats, a document sees its one emission or none. */
  lemma {:induction false} FoldOnce(w: World, model: string, existing: map<Key, DocRow>, ks: KeyState, k: Key, es: seq<Emission>, i: nat)
    requires NoRepeats(es) && i < |es| && es[i].key == k
    ensures KeyFold(w, model, existing, ks, k, es) == KeyStep(w, model, existing, ks, es[i])
    decreases |es|
  {
    hide KeyStep;
    var init := es[..|es| - 1];
    if i == |es| - 1 {
      FoldNone(w, model, existing, ks, k, init);
    } else {
      FoldOnce(w, model, existing, ks, k, init, i);
    }
  }

  /** What a text makes of an absent document, and what Rebuild therefore leaves. */
  ghost function Fresh(w: World, model: string, e: Emission): KeyState {
    if Indexable(e.dialect, e.text) then
      var cs := Complete(w, model, e.dialect, e.text);
      KeyState(Some(DocRow(w.hash(e.text), |cs|)), cs)
    else ABSENT
  }

  lemma RebuildStep(w: World, model: string, e: Emission)
    requires AllOk(e)
    ensures KeyStep(w, model, map[], ABSENT, e) == Fresh(w, model, e)
  {
    hide Complete, Kept;
  }

  /** One emission of an update leaves what a rebuild would exactly when a known
      document's text is indexable and, if it counts as unchanged, is already stored as
      a rebuild would store it; and a new document has no chunks left over. */
  lemma UpdateStep(w: World, model: string, existing: map<Key, DocRow>, ks: KeyState, e: Emission)
    requires AllOk(e) && ks.row == if e.key in existing then Some(existing[e.key]) else None
    ensures KeyStep(w, model, existing, ks, e) == Fresh(w, model, e) <==>
            if e.key in existing
            then Indexable(e.dialect, e.text) && (Unchanged(w, existing, e) ==> ks == Fresh(w, model, e))
            else ks.contents == []
  {
    hide Complete, Kept;
    var cs := Complete(w, model, e.dialect, e.text);
    assert [] + cs == cs && (ks.contents != [] ==> |ks.contents + cs| > |cs|);
  }

  /** A known document's emission that an update does not treat as a rebuild would: a
      text that yields no chunks, or one with the row's hash that is not what is stored. */
  ghost predicate Missed(w: World, model: string, existing: map<Key, DocRow>, ks: KeyState, e: Emission) {
    !Indexable(e.dialect, e.text) || (Unchanged(w, existing, e) && ks != Fresh(w, model, e))
  }

  /** The documents on which Update and Rebuild differ, where ks is what the index holds:
      known ones whose emission is missed, known ones that a truncated crawl did not
      reach, and chunks without a row. */
  ghost predicate Stale(w: World, existing: map<Key, DocRow>, ks: KeyState, r: RunInput, k: Key) {
    if k in existing then
      || (exists i :: 0 <= i < |r.emissions| && r.emissions[i].key == k
                      && Missed(w, r.Model(), existing, ks, r.emissions[i]))
      || (r.truncated && k !in Keys(r.emissions))
    else ks.contents != []
  }

  /** Document k after an update and after a rebuild. */
  lemma SameDocumentIff(w: World, inst: string, db: Db, db': Db, u: RunInput, b: RunInput, k: Key)
    requires NoFault(u) && u.mode.Update? && b == u.(mode := Rebuild) && NoRepeats(u.emissions)
    ensures AfterRun(w, inst, db, u, k) == AfterRun(w, inst, db', b, k)
       <==> !Stale(w, DocsOf(db, inst), View(db, inst, k), u, k)
  {
    hide Fresh, KeyStep, Indexable, View, DocsOf, Unchanged;
    var existing, ks, es := DocsOf(db, inst), View(db, inst, k), u.emissions;
    KnownRows(db, inst, k);
    if k in Keys(es) {
      var i :| 0 <= i < |es| && es[i].key == k;
      FoldOnce(w, u.Model(), existing, ks, k, es, i);
      FoldOnce(w, u.Model(), map[], ABSENT, k, es, i);
      RebuildStep(w, u.Model(), es[i]);
      UpdateStep(w, u.Model(), existing, ks, es[i]);
      OnlyEmission(w, existing, ks, u, k, i);
    } else {
      FoldNone(w, u.Model(), existing, ks, k, es);
      FoldNone(w, u.Model(), map[], ABSENT, k, es);
    }
  }

  lemma OnlyEmission(w: World, existing: map<Key, DocRow>, ks: KeyState, r: RunInput, k: Key, i: nat)
    requires NoRepeats(r.emissions) && i < |r.emissions| && r.emissions[i].key == k
    ensures k in Keys(r.emissions)
    ensures Stale(w, existing, ks, r, k) <==>
            if k in existing then Missed(w, r.Model(), existing, ks, r.emissions[i]) else ks.contents != []
  {
    hide Missed;
  }

  /** For every store, whatever earlier runs left in it: an Update in which no call fails
      and no key is repeated leaves, for every document, the row, hash, chunk texts and
      vectors that Rebuild leaves from the same crawl (whatever the rebuild started
      from), if and only if no document is stale. */
  lemma UpdateMatchesRebuildIff(w: World, inst: string, db: Db, db': Db, u: RunInput, b: RunInput)
    requires NoFault(u) && u.mode.Update? && b == u.(mode := Rebuild) && NoRepeats(u.emissions)
    requires inst in db.meta ==> db.meta[inst].model == u.Model()
    ensures (forall k :: View(Run(w, inst, db, u).db, inst, k) == View(Run(w, inst, db', b).db, inst, k))
       <==> forall k :: !Stale(w, DocsOf(db, inst), View(db, inst, k), u, k)
  {
    hide Run, View, AfterRun, Stale, DocsOf, NoRepeats;
    forall k
      ensures View(Run(w, inst, db, u).db, inst, k) == View(Run(w, inst, db', b).db, inst, k)
         <==> !Stale(w, DocsOf(db, inst), View(db, inst, k), u, k)
    {
      RunView(w, inst, db, u, inst, k);
      RunView(w, inst, db', b, inst, k);
      SameDocumentIff(w, inst, db, db', u, b, k);
    }
  }

  // ---------------------------------------------------------------------
  // Whole documents
  // ---------------------------------------------------------------------

  /** What a run from a consistent index of one model leaves of a document: no chunks,
      perhaps with a row that outlived them, or the complete list of the row's text. */
  ghost predicate WholeUnder(w: World, m: string, dialect: string, ks: KeyState) {
    ks.contents == [] || exists t :: IsComplete(w, m, dialect, t, ks)
  }

  /** Of whole documents the stale ones are those a caller can see: emitted with a text
      that yields no chunks, or with the text of a row whose chunks are gone, or known
      and missed by a truncated crawl. */
  ghost predicate StaleWhole(w: World, existing: map<Key, DocRow>, ks: KeyState, r: RunInput, k: Key) {
    && k in existing
    && ((exists i :: 0 <= i < |r.emissions| && r.emissions[i].key == k
                     && (!Indexable(r.emissions[i].dialect, r.emissions[i].text)
                         || (ks.contents == [] && Unchanged(w, existing, r.emissions[i]))))
        || (r.truncated && k !in Keys(r.emissions)))
  }

  lemma MissedWhole(w: World, model: string, existing: map<Key, DocRow>, ks: KeyState, e: Emission)
    requires CollisionFree(w) && WholeUnder(w, model, e.dialect, ks)
    requires e.key in existing && ks.row == Some(existing[e.key])
    ensures Missed(w, model, existing, ks, e)
       <==> !Indexable(e.dialect, e.text) || (ks.contents == [] && Unchanged(w, existing, e))
  {
    hide Complete, Kept;
    if Indexable(e.dialect, e.text) && Unchanged(w, existing, e) && ks.contents != [] {
      var t :| IsComplete(w, model, e.dialect, t, ks);
      assert t == e.text;
    }
  }

  lemma StaleIffStaleWhole(w: World, dialects: Dialects, existing: map<Key, DocRow>, ks: KeyState, r: RunInput, k: Key)
    requires CollisionFree(w) && DialectsMatch(dialects, r.emissions) && WholeUnder(w, r.Model(), dialects(k), ks)
    requires ks.row == if k in existing then Some(existing[k]) else None
    ensures Stale(w, existing, ks, r, k) <==> StaleWhole(w, existing, ks, r, k)
  {
    hide Missed, Unchanged, Indexable, Complete, CollisionFree;
    if k in existing {
      forall i | 0 <= i < |r.emissions| && r.emissions[i].key == k
        ensures Missed(w, r.Model(), existing, ks, r.emissions[i])
           <==> !Indexable(r.emissions[i].dialect, r.emissions[i].text) || (ks.contents == [] && Unchanged(w, existing, r.emissions[i]))
      {
        MissedWhole(w, r.Model(), existing, ks, r.emissions[i]);
      }
    }
  }

  /** From whole documents, damaged by earlier failures or not: exactly when a healthy
      Update leaves what a healthy Rebuild would. */
  lemma UpdateOfWholeIff(w: World, dialects: Dialects, inst: string, db: Db, db': Db, u: RunInput, b: RunInput)
    requires CollisionFree(w) && NoFault(u) && u.mode.Update? && b == u.(mode := Rebuild)
    requires NoRepeats(u.emissions) && DialectsMatch(dialects, u.emissions)
    requires inst in db.meta ==> db.meta[inst].model == u.Model()
    requires forall k :: WholeUnder(w, u.Model(), dialects(k), View(db, inst, k))
    ensures (forall k :: View(Run(w, inst, db, u).db, inst, k) == View(Run(w, inst, db', b).db, inst, k))
       <==> forall k :: !StaleWhole(w, DocsOf(db, inst), View(db, inst, k), u, k)
  {
    hide Run, View, WholeUnder, Stale, StaleWhole, DocsOf, DialectsMatch, CollisionFree, NoRepeats;
    UpdateMatchesRebuildIff(w, inst, db, db', u, b);
    forall k
      ensures Stale(w, DocsOf(db, inst), View(db, inst, k), u, k) <==> StaleWhole(w, DocsOf(db, inst), View(db, inst, k), u, k)
    {
      KnownRows(db, inst, k);
      assert WholeUnder(w, u.Model(), dialects(k), View(db, inst, k));
      StaleIffStaleWhole(w, dialects, DocsOf(db, inst), View(db, inst, k), u, k);
    }
  }

  // ---------------------------------------------------------------------
  // Stale documents do occur
  // ---------------------------------------------------------------------

  /** An emptied page: a healthy Rebuild stores its text, and then a crawl emits nothing
      but blanks for it.  A healthy Update keeps the old row and chunks; a healthy
      Rebuild of the same crawl leaves nothing. */
  lemma BlankedDocumentIsStale(w: World, inst: string, model: string, key: Key, text: string, blank: string)
    requires Indexable("", text) && TrimSpace(blank) == ""
    ensures var db := Run(w, inst, Db([], map[], map[], 0), Healthy(Rebuild, model, [Good(key, text)], false)).db;
            var u := Healthy(Update, model, [Good(key, blank)], false);
            var cs := Complete(w, u.Model(), "", text);
            && cs != [] && Stale(w, DocsOf(db, inst), View(db, inst, key), u, key)
            && View(Run(w, inst, db, u).db, inst, key) == KeyState(Some(DocRow(w.hash(text), |cs|)), cs)
            && View(Run(w, inst, db, u.(mode := Rebuild)).db, inst, key) == ABSENT
  {
    hide Run, KeyFold, Complete, Kept, View, Indexable, EmitAll, Cleared, Keys, DocsOf, TrimSpace;
    var db0, r := Db([], map[], map[], 0), Healthy(Rebuild, model, [Good(key, text)], false);
    var u, e := Healthy(Update, model, [Good(key, blank)], false), Good(key, blank);
    var m, db := u.Model(), Run(w, inst, db0, r).db;
    RunView(w, inst, db0, r, inst, key);
    FoldOne(w, m, map[], ABSENT, Good(key, text));
    StoresOne(w, m, map[], key, text);
    KnownRows(db, inst, key);
    SingleModel.RunAdmitsUpdate(w, inst, db0, r, u);
    RunView(w, inst, db, u, inst, key);
    RunView(w, inst, db, u.(mode := Rebuild), inst, key);
    FoldOne(w, m, DocsOf(db, inst), View(db, inst, key), e);
    FoldOne(w, m, map[], ABSENT, e);
    BlankChangesNothing(w, m, DocsOf(db, inst), View(db, inst, key), e);
    BlankChangesNothing(w, m, map[], ABSENT, e);
    assert u.emissions[0] == e && e.key == key;
  }

  /** A failed embedding: a healthy Rebuild stores a text, an Update to another text
      clears its chunks and fails its first batch, and then the crawl emits the first
      text again.  A healthy Update takes it for unchanged, so the document stays without
      chunks; a healthy Rebuild of the same crawl stores it. */
  lemma LostChunksAreNotRepaired(w: World, inst: string, model: string, key: Key, text: string, other: string)
    requires Indexable("", text) && Indexable("", other) && w.hash(text) != w.hash(other)
    ensures var db1 := Run(w, inst, Db([], map[], map[], 0), Healthy(Rebuild, model, [Good(key, text)], false)).db;
            var fails := Good(key, other).(badBatch := Some(0));
            var db := Run(w, inst, db1, Healthy(Update, model, [fails], false)).db;
            var u := Healthy(Update, model, [Good(key, text)], false);
            var cs := Complete(w, u.Model(), "", text);
            var row := Some(DocRow(w.hash(text), |cs|));
            && cs != [] && Stale(w, DocsOf(db, inst), View(db, inst, key), u, key)
            && View(Run(w, inst, db, u).db, inst, key) == KeyState(row, [])
            && View(Run(w, inst, db, u.(mode := Rebuild)).db, inst, key) == KeyState(row, cs)
  {
    hide Run, KeyFold, KeyStep, Complete, Kept, View, Indexable, EmitAll, Cleared, Keys, DocsOf, TrimSpace;
    var e, fails := Good(key, text), Good(key, other).(badBatch := Some(0));
    var db0, r := Db([], map[], map[], 0), Healthy(Rebuild, model, [e], false);
    var m, f, u := r.Model(), Healthy(Update, model, [fails], false), Healthy(Update, model, [e], false);
    var db1 := Run(w, inst, db0, r).db;
    RunView(w, inst, db0, r, inst, key);
    FoldOne(w, m, map[], ABSENT, e);
    StoresOne(w, m, map[], key, text);
    KnownRows(db1, inst, key);
    SingleModel.RunAdmitsUpdate(w, inst, db0, r, f);
    var db := Run(w, inst, db1, f).db;
    RunView(w, inst, db1, f, inst, key);
    FoldOne(w, m, DocsOf(db1, inst), View(db1, inst, key), fails);
    FailsOne(w, m, DocsOf(db1, inst), View(db1, inst, key), fails);
    KnownRows(db, inst, key);
    SingleModel.RunAdmitsUpdate(w, inst, db1, f, u);
    RunView(w, inst, db, u, inst, key);
    RunView(w, inst, db, u.(mode := Rebuild), inst, key);
    FoldOne(w, m, DocsOf(db, inst), View(db, inst, key), e);
    SkipsOne(w, m, DocsOf(db, inst), View(db, inst, key), key, text);
    assert u.emissions[0] == e && e.key == key;
    UnchangedLost(w, m, DocsOf(db, inst), View(db, inst, key), e);
  }

  /** A known document whose new text cannot be embedded is left with its row alone. */
  lemma FailsOne(w: World, model: string, existing: map<Key, DocRow>, ks: KeyState, e: Emission)
    requires e.key in existing && existing[e.key].hash != w.hash(e.text) && Indexable(e.dialect, e.text)
    requires e.deleteOk && e.badBatch == Some(0)
    ensures KeyStep(w, model, existing, ks, e) == ks.(contents := [])
  {
    hide Kept, TrimSpace;
  }

  lemma UnchangedLost(w: World, model: string, existing: map<Key, DocRow>, ks: KeyState, e: Emission)
    requires Unchanged(w, existing, e) && ks.contents == []
    ensures Missed(w, model, existing, ks, e)
  {
    hide Complete, TrimSpace;
  }

  lemma BlankChangesNothing(w: World, model: string, existing: map<Key, DocRow>, ks: KeyState, e: Emission)
    requires TrimSpace(e.text) == ""
    ensures KeyStep(w, model, existing, ks, e) == ks && !Indexable(e.dialect, e.text)
  {
    hide TrimSpace, Kept;
  }
}
