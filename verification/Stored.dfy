/** What the index holds of a text, said of the text itself: which of its runes are
    stored, under which breadcrumb, with which vector. */
module Stored {
  import opened Wrappers
  import opened Store
  import opened Indexer
  import opened Text
  import opened Heading
  import opened ChunkHeading
  import opened DocumentView
  import opened UpdateIsRebuild
  import C = Chunk
  import SingleModel

  /** The splitter a dialect asks for: by size for none, else by headings. */
  ghost function SplitOf(dialect: string, text: string): seq<C.Span> {
    if dialect == "" then C.Spans(text, 1000, 150) else HeadingSpans(text, dialect)
  }

  /** Chunk i is the splitter's i-th span with that span's own vector, and the first 200
      are kept, or all if there are no more. */
  lemma StoredIsSplit(w: World, model: string, dialect: string, text: string)
    ensures var cs, spans := Complete(w, model, dialect, text), SplitOf(dialect, text);
            && |cs| == (if |spans| <= 200 then |spans| else 200)
            && forall i :: 0 <= i < |cs| ==>
                 cs[i] == Content(spans[i].index, spans[i].start, spans[i].end, spans[i].text, w.embed(model, spans[i].text))
  {
    hide C.Spans, HeadingSpans;
  }

  // ---------------------------------------------------------------------
  // Without a dialect
  // ---------------------------------------------------------------------

  /** The chunk holds text[from..to], a stretch within its offsets, and its vector. */
  ghost predicate Quotes(w: World, model: string, text: string, c: Content, from: nat, to: nat) {
    && c.start <= from < to <= c.end <= |text| && to - from <= 1000
    && c.text == text[from..to] && c.embedding == w.embed(model, text[from..to])
  }

  /** Every stored chunk is a stretch of the document, numbered by position. */
  lemma PlainChunksQuote(w: World, model: string, text: string, i: nat)
    requires i < |Complete(w, model, "", text)|
    ensures Complete(w, model, "", text)[i].index == i
    ensures exists from: nat, to: nat :: Quotes(w, model, text, Complete(w, model, "", text)[i], from, to)
  {
    hide C.Spans, Complete;
    StoredIsSplit(w, model, "", text);
    var from, to := C.SpanIsStretch(text, 1000, 150, i);
    assert Quotes(w, model, text, Complete(w, model, "", text)[i], from, to);
  }

  /** Every visible rune is stored, at its own place, unless the text splits into more
      than 200 chunks, which takes more than 104,082 runes. */
  lemma PlainTextIsStored(w: World, model: string, text: string, p: nat)
    requires p < |text| && !IsSpace(text[p]) && (|text| <= 104082 || |C.Spans(text, 1000, 150)| <= 200)
    ensures exists i: nat, from: nat, to: nat :: i < |Complete(w, model, "", text)| && from <= p < to
              && Quotes(w, model, text, Complete(w, model, "", text)[i], from, to)
  {
    hide C.Spans, Complete, IsSpace;
    StoredIsSplit(w, model, "", text);
    if |text| <= 104082 { C.ShortTextIsNeverCut(text); }
    var i, from, to := C.SpansShow(text, 1000, 150, p);
    assert Quotes(w, model, text, Complete(w, model, "", text)[i], from, to);
  }

  // ---------------------------------------------------------------------
  // With headings
  // ---------------------------------------------------------------------

  function SpanOf(c: Content): C.Span {
    C.Span(c.index, c.start, c.end, c.text)
  }

  /** Of a text with sections, every stored chunk cites a section under the breadcrumb of
      a line it holds, and carries the vector of its own text. */
  lemma SectionChunksCite(w: World, model: string, dialect: string, text: string, i: nat)
    requires dialect != "" && Sections(text, dialect) != [] && i < |Complete(w, model, dialect, text)|
    ensures HeadingMarker(dialect).Some?
    ensures var c := Complete(w, model, dialect, text)[i];
            c.index == i && c.embedding == w.embed(model, c.text)
            && exists a: nat, line: nat, from: nat, to: nat :: a < |Sections(text, dialect)| && line < |Lines(text)|
                 && CitesSection(text, dialect, SpanOf(c), a, line, from, to)
  {
    hide Sections, HeadingSpans, Complete, Lines, CitesSection;
    StoredIsSplit(w, model, dialect, text);
    HeadingSpanIsSound(text, dialect, i);
    assert SpanOf(Complete(w, model, dialect, text)[i]) == HeadingSpans(text, dialect)[i];
  }

  /** Every visible rune outside heading lines is stored, at its own place, under the
      breadcrumb of its line, unless the text splits into more than 200 chunks. */
  lemma SectionTextIsStored(w: World, model: string, dialect: string, text: string, line: nat, p: nat)
    requires dialect != "" && |HeadingSpans(text, dialect)| <= 200 && line < |Lines(text)|
    requires Offset(Lines(text), line) <= p < Offset(Lines(text), line + 1) && p < |text| && !IsSpace(text[p])
    requires Sections(text, dialect) == [] || HeadingAt(Lines(text), HeadingMarker(dialect).value, line).None?
    ensures var crumb := if Sections(text, dialect) == [] then ""
                         else Join(Enclosing(Headings(Lines(text), HeadingMarker(dialect).value, line)));
            exists i: nat, from: nat, to: nat :: i < |Complete(w, model, dialect, text)| && from <= p < to
              && Cites(text, SpanOf(Complete(w, model, dialect, text)[i]), crumb, from, to)
  {
    hide Sections, HeadingSpans, Complete, Lines, HeadingAt, Headings, Enclosing, Join, Cites, IsSpace, HeadingMarker;
    StoredIsSplit(w, model, dialect, text);
    SectionsHaveMarker(text, dialect);
    HeadingSpansCover(text, dialect, line, p);
    var crumb := if Sections(text, dialect) == [] then ""
                 else Join(Enclosing(Headings(Lines(text), HeadingMarker(dialect).value, line)));
    var i: nat, from: nat, to: nat :| i < |HeadingSpans(text, dialect)| && from <= p < to
                                      && Cites(text, HeadingSpans(text, dialect)[i], crumb, from, to);
    assert SpanOf(Complete(w, model, dialect, text)[i]) == HeadingSpans(text, dialect)[i];
  }

  /** A heading, a deeper one and a short body are stored as one chunk: both titles, a
      blank line, the body. */
  lemma NestedHeadingsInIndex(w: World, model: string, dialect: string, a: string, b: string, body: string, la: nat, lb: nat)
    requires dialect in ["markdown", "typst"] && 0 < la < lb && Solid(a) && Solid(b)
    requires '\n' !in body && 0 < |TrimSpace(body)| <= 1000
    requires var marker := if dialect == "markdown" then '#' else '='; !IsFence(body) && HeadingOf(body, marker).None?
    ensures var marker := if dialect == "markdown" then '#' else '=';
            var head := MarkedLine(marker, la, a) + "\n" + (MarkedLine(marker, lb, b) + "\n");
            var stored := a + " > " + b + "\n\n" + TrimSpace(body);
            Complete(w, model, dialect, head + body)
            == [Content(0, |head|, |head| + |body|, stored, w.embed(model, stored))]
  {
    hide TrimSpace, IsFence, HeadingOf, MarkedLine, HeadingSpans, Complete, Solid;
    NestedHeadingsAreStored(dialect, a, b, body, la, lb);
    var marker := if dialect == "markdown" then '#' else '=';
    var head := MarkedLine(marker, la, a) + "\n" + (MarkedLine(marker, lb, b) + "\n");
    StoredIsSplit(w, model, dialect, head + body);
  }

  // ---------------------------------------------------------------------
  // After a rebuild
  // ---------------------------------------------------------------------

  /** A Rebuild in which no call fails and no key is repeated leaves, for each emitted
      document, the row and complete chunk list of its text, or nothing when the text is
      blank or splits into nothing; and nothing of any other document. */
  lemma RebuildLeaves(w: World, inst: string, db: Db, r: RunInput, k: Key)
    requires NoFault(r) && r.mode.Rebuild? && NoRepeats(r.emissions)
    ensures forall i :: 0 <= i < |r.emissions| && r.emissions[i].key == k ==>
              var e := r.emissions[i];
              var cs := Complete(w, r.Model(), e.dialect, e.text);
              View(Run(w, inst, db, r).db, inst, k)
              == if TrimSpace(e.text) == "" || cs == [] then ABSENT else KeyState(Some(DocRow(w.hash(e.text), |cs|)), cs)
    ensures (forall i :: 0 <= i < |r.emissions| ==> r.emissions[i].key != k) ==> View(Run(w, inst, db, r).db, inst, k) == ABSENT
  {
    hide Run, View, KeyFold, KeyStep, Complete, TrimSpace, Kept;
    RunView(w, inst, db, r, inst, k);
    forall i | 0 <= i < |r.emissions| && r.emissions[i].key == k
      ensures var e := r.emissions[i];
              var cs := Complete(w, r.Model(), e.dialect, e.text);
              View(Run(w, inst, db, r).db, inst, k)
              == if TrimSpace(e.text) == "" || cs == [] then ABSENT else KeyState(Some(DocRow(w.hash(e.text), |cs|)), cs)
    {
      FoldOnce(w, r.Model(), map[], ABSENT, k, r.emissions, i);
      RebuildStep(w, r.Model(), r.emissions[i]);
    }
    if forall i :: 0 <= i < |r.emissions| ==> r.emissions[i].key != k {
      FoldNone(w, r.Model(), map[], ABSENT, k, r.emissions);
    }
  }

  // ---------------------------------------------------------------------
  // Runs that stop early, and the model recorded
  // ---------------------------------------------------------------------

  /** A run stops with an error and changes nothing when its settings are not ready, a
      Rebuild cannot clear, or an Update cannot read the meta row or the rows or finds
      another model in it; any other run is let in. */
  lemma RefusedRun(w: World, inst: string, db: Db, r: RunInput)
    ensures var model := if r.modelSetting == "" then "nomic-embed-text" else r.modelSetting;
            var stops := || !r.ready
                         || (r.mode.Rebuild? && !r.clearOk)
                         || (r.mode.Update? && (!r.metaOk || !r.listOk || (inst in db.meta && db.meta[inst].model != model)));
            && (stops <==> Refuses(db, inst, r))
            && (stops ==> Run(w, inst, db, r) == RunResult(db, Counts(0, 0, 0, 0, 0, 0), true))
  {
    hide RunCrawl;
  }

  /** The model a run records is the one configured, or the default. */
  lemma RecordedModel(w: World, inst: string, db: Db, r: RunInput)
    ensures var before, after := db.meta, Run(w, inst, db, r).db.meta;
            (inst in after && (inst !in before || after[inst] != before[inst])) ==>
              after[inst].model == if r.modelSetting == "" then "nomic-embed-text" else r.modelSetting
  {
    hide Run, Refuses, Cleared, SingleModel.LastDimension;
    SingleModel.RunMeta(w, inst, db, r);
    SingleModel.ClearedMeta(db, inst);
  }

  /** What becomes of an emission.  Blank text is only counted; text with the hash of the
      document's row is skipped; any other fails exactly when its old chunks cannot be
      deleted, a batch of it cannot be embedded, or its chunks cannot be inserted, and is
      written exactly when nothing failed and there are chunks. */
  lemma OutcomeIff(w: World, existing: map<Key, DocRow>, e: Emission)
    ensures var o, n := OutcomeOf(w, existing, e), |SplitOf(e.dialect, e.text)|;
            var blank := TrimSpace(e.text) == "";
            var same := e.key in existing && existing[e.key].hash == w.hash(e.text);
            var fails := || (e.key in existing && !e.deleteOk)
                         || (e.badBatch.Some? && 16 * e.badBatch.value < (if n <= 200 then n else 200))
                         || (n > 0 && !e.insertOk);
            && (o.EmptyText? <==> blank)
            && (o.Skipped? <==> !blank && same)
            && (o.Failed? <==> !blank && !same && fails)
            && (o.Chunkless? <==> !blank && !same && !fails && n == 0)
            && (o.Written? <==> !blank && !same && !fails && n > 0)
  {
    hide C.Spans, HeadingSpans, TrimSpace, EmbedFails;
    EmbeddingFailsIff(e);
    assert Kept(e.dialect, e.text) == [] <==> SplitOf(e.dialect, e.text) == [];
  }

  /** A document is lost to its embedding exactly when the batch of sixteen that fails
      is one of its own. */
  lemma EmbeddingFailsIff(e: Emission)
    ensures EmbedFails(e) <==>
            e.badBatch.Some? && 16 * e.badBatch.value < (if |SplitOf(e.dialect, e.text)| <= 200 then |SplitOf(e.dialect, e.text)| else 200)
  {
    hide C.Spans, HeadingSpans;
  }
}
