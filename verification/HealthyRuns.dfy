/** Emissions and runs in which nothing fails, for examples. */
module HealthyRuns {
  import opened Wrappers
  import opened Store
  import opened Indexer
  import opened DocumentView

  ghost function Good(key: Key, text: string): Emission {
    Emission(key, "", text, true, None, true, true)
  }

  ghost function Healthy(mode: Mode, model: string, es: seq<Emission>, crawlFailed: bool): RunInput {
    RunInput(mode, model, true, true, true, true, es, crawlFailed, false, {}, {}, true)
  }

  lemma StoresOne(w: World, model: string, existing: map<Key, DocRow>, key: Key, text: string)
    requires Indexable("", text) && key !in existing
    ensures OutcomeOf(w, existing, Good(key, text)).Written?
    ensures KeyStep(w, model, existing, ABSENT, Good(key, text))
         == KeyState(Some(DocRow(w.hash(text), |Complete(w, model, "", text)|)), Complete(w, model, "", text))
    ensures Complete(w, model, "", text) != []
  {
    hide Kept;
  }

  lemma SkipsOne(w: World, model: string, existing: map<Key, DocRow>, ks: KeyState, key: Key, text: string)
    requires key in existing && existing[key].hash == w.hash(text)
    ensures KeyStep(w, model, existing, ks, Good(key, text)) == ks
  {
    hide Kept;
  }

  lemma FoldTwo(w: World, model: string, existing: map<Key, DocRow>, ks: KeyState, k: Key, e1: Emission, e2: Emission)
    requires e1.key != e2.key
    ensures k == e1.key ==> KeyFold(w, model, existing, ks, k, [e1, e2]) == KeyStep(w, model, existing, ks, e1)
    ensures k == e2.key ==> KeyFold(w, model, existing, ks, k, [e1, e2]) == KeyStep(w, model, existing, ks, e2)
    ensures KeyFold(w, model, existing, ks, k, [e1]) == if k == e1.key then KeyStep(w, model, existing, ks, e1) else ks
  {
    hide KeyStep;
    FoldPush(w, model, existing, ks, k, [], e1);
    FoldPush(w, model, existing, ks, k, [e1], e2);
    assert [] + [e1] == [e1] && [e1] + [e2] == [e1, e2];
  }

  lemma FoldPush(w: World, model: string, existing: map<Key, DocRow>, ks: KeyState, k: Key, es: seq<Emission>, e: Emission)
    ensures var before := KeyFold(w, model, existing, ks, k, es);
            KeyFold(w, model, existing, ks, k, es + [e])
            == if e.key == k then KeyStep(w, model, existing, before, e) else before
  {
    assert (es + [e])[..|es|] == es;
  }

  lemma TwoKeys(e1: Emission, e2: Emission)
    ensures Keys([e1, e2]) == {e1.key, e2.key}
  {
    assert [e1, e2][0] == e1 && [e1, e2][1] == e2;
  }

  /** A run over a single emission. */
  lemma FoldOne(w: World, model: string, existing: map<Key, DocRow>, ks: KeyState, e: Emission)
    ensures KeyFold(w, model, existing, ks, e.key, [e]) == KeyStep(w, model, existing, ks, e)
    ensures Keys([e]) == {e.key}
  {
    hide KeyStep;
    FoldPush(w, model, existing, ks, e.key, [], e);
    assert [] + [e] == [e] && [e][0] == e;
  }

  /** A known document whose text has changed loses its chunks to the new ones. */
  lemma ReplacesOne(w: World, model: string, existing: map<Key, DocRow>, ks: KeyState, e: Emission)
    requires e.key in existing && existing[e.key].hash != w.hash(e.text) && Indexable(e.dialect, e.text)
    requires e.deleteOk && e.badBatch.None? && e.insertOk && !e.upsertOk
    ensures KeyStep(w, model, existing, ks, e) == KeyState(ks.row, Complete(w, model, e.dialect, e.text))
    ensures Complete(w, model, e.dialect, e.text) != []
  {
    hide Kept, Complete;
    assert [] + Complete(w, model, e.dialect, e.text) == Complete(w, model, e.dialect, e.text);
  }
}
