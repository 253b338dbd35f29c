/** The incremental indexer (internal/service/index.go).

    Everything outside the program answers through parameters: an Emission carries
    what the crawler emitted and which of the calls made for it succeed, a RunInput
    carries the rest of one run.  The specification functions say what a run does
    under every such pattern of answers; the methods of Indexer do it step by step. */
module Indexer {
  import opened Wrappers
  import opened Store
  import opened Text
  import Chunk
  import ChunkHeading

  /** The content hash and the embedder (model, text -> vector). */
  datatype World = World(hash: string -> string, embed: (string, string) -> Vec)

  const DEFAULT_EMBEDDER := "nomic-embed-text"
  const EMBED_BATCH := 16

  /** One emit of a crawl.  badBatch is the first embedding batch that fails. */
  datatype Emission = Emission(
    key: Key, dialect: string, text: string,
    deleteOk: bool, badBatch: Option<nat>, insertOk: bool, upsertOk: bool)

  datatype Counts = Counts(items: nat, chunks: nat, skipped: nat, pruned: nat, emptyText: nat, failed: nat)

  const NOTHING := Counts(0, 0, 0, 0, 0, 0)

  datatype Mode = Update | Rebuild

  /** What one run meets: the settings checks, the answers of the store, the crawl
      (its emissions in order, and whether it failed or was truncated), the keys
      whose pruning fails at the chunks or at the row, and the answer to SetMeta. */
  datatype RunInput = RunInput(
    mode: Mode, modelSetting: string,
    ready: bool, clearOk: bool, metaOk: bool, listOk: bool,
    emissions: seq<Emission>, crawlFailed: bool, truncated: bool,
    chunksBad: set<Key>, rowBad: set<Key>, setMetaOk: bool)
  {
    function Model(): string {
      if modelSetting == "" then DEFAULT_EMBEDDER else modelSetting
    }
  }

  // ---------------------------------------------------------------------
  // One document
  // ---------------------------------------------------------------------

  /** chunkFor. */
  ghost function ChunkFor(dialect: string, text: string): seq<Chunk.Span> {
    if dialect != "" then ChunkHeading.HeadingSpans(text, dialect)
    else Chunk.Spans(text, Chunk.DEFAULT_SIZE, Chunk.DEFAULT_OVERLAP)
  }

  /** The spans that are kept: at most the first 200. */
  ghost function Kept(dialect: string, text: string): seq<Chunk.Span> {
    var spans := ChunkFor(dialect, text);
    if |spans| > Chunk.MAX_CHUNKS then spans[..Chunk.MAX_CHUNKS] else spans
  }

  /** The first 200 spans of the splitter the dialect asks for, or all if there are no more. */
  ghost predicate FirstSpans(dialect: string, text: string, spans: seq<Chunk.Span>) {
    var all := if dialect == "" then Chunk.Spans(text, 1000, 150) else ChunkHeading.HeadingSpans(text, dialect);
    spans == if |all| <= 200 then all else all[..200]
  }

  function ContentOf(w: World, model: string, sp: Chunk.Span): Content {
    Content(sp.index, sp.start, sp.end, sp.text, w.embed(model, sp.text))
  }

  function ContentsOfSpans(w: World, model: string, spans: seq<Chunk.Span>): (cs: seq<Content>)
    ensures |cs| == |spans|
    ensures forall i :: 0 <= i < |spans| ==> cs[i] == ContentOf(w, model, spans[i])
  {
    seq(|spans|, i requires 0 <= i < |spans| => ContentOf(w, model, spans[i]))
  }

  /** The complete chunk list of a text under a model. */
  ghost function Complete(w: World, model: string, dialect: string, text: string): (cs: seq<Content>)
    ensures |cs| == |Kept(dialect, text)|
  {
    ContentsOfSpans(w, model, Kept(dialect, text))
  }

  ghost predicate Indexable(dialect: string, text: string) {
    TrimSpace(text) != "" && Kept(dialect, text) != []
  }

  /** What became of one emission. */
  datatype Outcome = EmptyText | Skipped | Failed | Chunkless | Written

  predicate Unchanged(w: World, existing: map<Key, DocRow>, e: Emission) {
    e.key in existing && existing[e.key].hash == w.hash(e.text)
  }

  /** Some embedding batch of the document fails. */
  ghost predicate EmbedFails(e: Emission) {
    e.badBatch.Some? && e.badBatch.value * EMBED_BATCH < |Kept(e.dialect, e.text)|
  }

  ghost function OutcomeOf(w: World, existing: map<Key, DocRow>, e: Emission): Outcome {
    if TrimSpace(e.text) == "" then EmptyText
    else if Unchanged(w, existing, e) then Skipped
    else if e.key in existing && !e.deleteOk then Failed
    else if EmbedFails(e) then Failed
    else if Kept(e.dialect, e.text) == [] then Chunkless
    else if !e.insertOk then Failed
    else Written
  }

  /** The old chunks are deleted before the new ones exist. */
  predicate Clears(w: World, existing: map<Key, DocRow>, e: Emission) {
    TrimSpace(e.text) != "" && !Unchanged(w, existing, e) && e.key in existing && e.deleteOk
  }

  ghost function EmitDb(w: World, inst: string, model: string, existing: map<Key, DocRow>, db: Db, e: Emission): Db {
    var db1 := if Clears(w, existing, e) then ChunksDeleted(db, inst, e.key) else db;
    if OutcomeOf(w, existing, e).Written? then
      var chunks := Complete(w, model, e.dialect, e.text);
      var db2 := Inserted(db1, inst, e.key, chunks);
      if e.upsertOk then DocUpserted(db2, inst, e.key, DocRow(w.hash(e.text), |chunks|)) else db2
    else db1
  }

  /** The local variables of a run, the store and the status counters. */
  datatype Progress = Progress(db: Db, seen: set<Key>, dimension: nat, counts: Counts, hasError: bool)

  /** What an outcome adds to the counters, besides the item itself. */
  ghost function Tally(c: Counts, o: Outcome, n: nat): Counts {
    match o
    case EmptyText => c.(emptyText := c.emptyText + 1)
    case Skipped => c.(skipped := c.skipped + 1)
    case Failed => c.(failed := c.failed + 1)
    case Chunkless => c
    case Written => c.(chunks := c.chunks + n)
  }

  ghost function Counted(c: Counts, o: Outcome, n: nat): Counts {
    Tally(c.(items := c.items + 1), o, n)
  }

  ghost function EmitStep(w: World, inst: string, model: string, existing: map<Key, DocRow>, p: Progress, e: Emission): Progress {
    var o := OutcomeOf(w, existing, e);
    var chunks := Complete(w, model, e.dialect, e.text);
    Progress(
      EmitDb(w, inst, model, existing, p.db, e),
      p.seen + {e.key},
      if o.Written? then |chunks[0].embedding| else p.dimension,
      Counted(p.counts, o, |chunks|),
      p.hasError || o.Failed?)
  }

  ghost function EmitAll(w: World, inst: string, model: string, existing: map<Key, DocRow>, db: Db, es: seq<Emission>): Progress {
    if es == [] then Progress(db, {}, 0, NOTHING, false)
    else EmitStep(w, inst, model, existing, EmitAll(w, inst, model, existing, db, es[..|es| - 1]), es[|es| - 1])
  }

  // ---------------------------------------------------------------------
  // Pruning
  // ---------------------------------------------------------------------

  ghost function WithoutDocs(rows: seq<ChunkRow>, inst: string, keys: set<Key>): seq<ChunkRow> {
    if rows == [] then []
    else
      var before := WithoutDocs(rows[..|rows| - 1], inst, keys);
      var c := rows[|rows| - 1];
      if c.inst == inst && c.key in keys then before else before + [c]
  }

  ghost function RowsWithout(docs: map<DocId, DocRow>, inst: string, keys: set<Key>): map<DocId, DocRow> {
    map id | id in docs && !(id.inst == inst && id.key in keys) :: docs[id]
  }

  /** Prune the keys in gone: their chunks unless that fails, then their row unless
      that fails. */
  ghost function Pruned(db: Db, inst: string, gone: set<Key>, chunksBad: set<Key>, rowBad: set<Key>): Db {
    db.(chunks := WithoutDocs(db.chunks, inst, gone - chunksBad),
        docs := RowsWithout(db.docs, inst, gone - chunksBad - rowBad))
  }

  /** How many documents that counts as pruned. */
  ghost function PrunedCount(gone: set<Key>, chunksBad: set<Key>, rowBad: set<Key>): nat {
    |gone - chunksBad - rowBad|
  }

  // ---------------------------------------------------------------------
  // One run
  // ---------------------------------------------------------------------

  datatype RunResult = RunResult(db: Db, counts: Counts, hasError: bool)

  /** The keys a run prunes: those it knew and did not see, if it may prune at all. */
  ghost function Gone(r: RunInput, existing: map<Key, DocRow>): set<Key> {
    if r.mode.Update? && !r.truncated && !r.crawlFailed then existing.Keys - Keys(r.emissions) else {}
  }

  ghost function Keys(es: seq<Emission>): set<Key> {
    set i | 0 <= i < |es| :: es[i].key
  }

  /** What follows a crawl that did not fail: prune, then record the model. */
  ghost function Settled(inst: string, existing: map<Key, DocRow>, r: RunInput, p: Progress): RunResult {
    var gone := Gone(r, existing);
    var db2 := Pruned(p.db, inst, gone, r.chunksBad, r.rowBad);
    var db3 := if p.dimension > 0 && r.setMetaOk then MetaSet(db2, inst, Meta(r.Model(), p.dimension)) else db2;
    RunResult(db3, p.counts.(pruned := p.counts.pruned + PrunedCount(gone, r.chunksBad, r.rowBad)), p.hasError)
  }

  ghost function RunCrawl(w: World, inst: string, db: Db, existing: map<Key, DocRow>, r: RunInput): RunResult {
    var p := EmitAll(w, inst, r.Model(), existing, db, r.emissions);
    if r.crawlFailed then RunResult(p.db, p.counts, true) else Settled(inst, existing, r, p)
  }

  /** The run stops before it has changed anything. */
  predicate Refuses(db: Db, inst: string, r: RunInput) {
    || !r.ready
    || (r.mode.Rebuild? && !r.clearOk)
    || (r.mode.Update? && (!r.metaOk || (inst in db.meta && db.meta[inst].model != r.Model()) || !r.listOk))
  }

  ghost function Start(db: Db, inst: string, r: RunInput): Db {
    if r.mode.Rebuild? then Cleared(db, inst) else db
  }

  ghost function Known(db: Db, inst: string, r: RunInput): map<Key, DocRow> {
    if r.mode.Rebuild? then map[] else DocsOf(db, inst)
  }

  ghost function Run(w: World, inst: string, db: Db, r: RunInput): RunResult {
    if Refuses(db, inst, r) then RunResult(db, NOTHING, true)
    else RunCrawl(w, inst, Start(db, inst, r), Known(db, inst, r), r)
  }

  // ---------------------------------------------------------------------
  // The steps
  // ---------------------------------------------------------------------

  lemma {:induction false} SeenKeys(w: World, inst: string, model: string, existing: map<Key, DocRow>, db: Db, es: seq<Emission>)
    ensures EmitAll(w, inst, model, existing, db, es).seen == Keys(es)
  {
    hide EmitDb, OutcomeOf, Complete, Counted, Keys;
    if es == [] {
      NoKeys(es);
    } else {
      SeenKeys(w, inst, model, existing, db, es[..|es| - 1]);
      KeysStep(es);
    }
  }

  lemma NoKeys(es: seq<Emission>)
    ensures es == [] ==> Keys(es) == {}
  {
  }

  lemma KeysStep(es: seq<Emission>)
    requires es != []
    ensures Keys(es) == Keys(es[..|es| - 1]) + {es[|es| - 1].key}
  {
  }

  lemma {:induction false} WithoutNoDocs(rows: seq<ChunkRow>, inst: string)
    ensures WithoutDocs(rows, inst, {}) == rows
    decreases |rows|
  {
    if rows != [] { WithoutNoDocs(rows[..|rows| - 1], inst); }
  }

  lemma {:induction false} WithoutOneMore(rows: seq<ChunkRow>, inst: string, keys: set<Key>, key: Key)
    ensures WithoutDoc(WithoutDocs(rows, inst, keys), inst, key) == WithoutDocs(rows, inst, keys + {key})
    decreases |rows|
  {
    if rows != [] {
      var init, c := rows[..|rows| - 1], rows[|rows| - 1];
      WithoutOneMore(init, inst, keys, key);
      if !(c.inst == inst && c.key in keys) {
        assert WithoutDocs(rows, inst, keys)[..|WithoutDocs(rows, inst, keys)| - 1] == WithoutDocs(init, inst, keys);
      }
    }
  }

  /** One turn of the pruning loop. */
  lemma PruneOne(db: Db, inst: string, done: set<Key>, key: Key, chunksBad: set<Key>, rowBad: set<Key>)
    ensures var before, after := Pruned(db, inst, done, chunksBad, rowBad), Pruned(db, inst, done + {key}, chunksBad, rowBad);
            && (key in chunksBad ==> after == before)
            && (key !in chunksBad && key in rowBad ==> after == ChunksDeleted(before, inst, key))
            && (key !in chunksBad && key !in rowBad ==> after == DocDeleted(ChunksDeleted(before, inst, key), inst, key))
  {
    hide WithoutDocs, WithoutDoc;
    WithoutOneMore(db.chunks, inst, done - chunksBad, key);
    if key in chunksBad {
      assert done + {key} - chunksBad == done - chunksBad;
    } else {
      assert done + {key} - chunksBad == done - chunksBad + {key};
      if key in rowBad {
        assert done + {key} - chunksBad - rowBad == done - chunksBad - rowBad;
      } else {
        assert done + {key} - chunksBad - rowBad == done - chunksBad - rowBad + {key};
      }
    }
  }

  // ---------------------------------------------------------------------
  // The service
  // ---------------------------------------------------------------------

  /** The status record of one instance, updated in place while a run is active. */
  class IndexStatus {
    var running: bool
    var counts: Counts
    var hasError: bool

    constructor ()
      ensures running && counts == NOTHING && !hasError
    {
      running, counts, hasError := true, NOTHING, false;
    }

    /** addItem, addChunks, addSkipped, addPruned, addEmptyText, addFailed. */
    method Add(c: Counts, failure: bool)
      modifies this
      ensures counts == c && hasError == (old(hasError) || failure) && running == old(running)
    {
      counts := c;
      if failure { hasError := true; }
    }
  }

  class Indexer {
    const world: World
    const repo: SearchIndexRepo
    var status: map<string, IndexStatus>

    constructor (world: World, repo: SearchIndexRepo)
      ensures this.world == world && this.repo == repo && status == map[]
    {
      this.world, this.repo, status := world, repo, map[];
    }

    /** The guarded part of Reindex: refuse while a run is active, else start one
        with a status record of its own. */
    method Reindex(inst: string) returns (started: bool)
      modifies this
      ensures started == !(inst in old(status) && old(status[inst].running))
      ensures !started ==> status == old(status)
      ensures started ==> inst in status && fresh(status[inst]) && status == old(status)[inst := status[inst]]
      ensures started ==> status[inst].running && status[inst].counts == NOTHING && !status[inst].hasError
    {
      if inst in status && status[inst].running { return false; }
      var st := new IndexStatus();
      status := status[inst := st];
      return true;
    }

    /** Embed one batch: one vector per text, in order. */
    method Embed(model: string, texts: seq<string>, accepted: bool) returns (vectors: Option<seq<Vec>>)
      ensures accepted ==> vectors.Some? && |vectors.value| == |texts|
                           && forall i :: 0 <= i < |texts| ==> vectors.value[i] == world.embed(model, texts[i])
      ensures !accepted ==> vectors.None?
    {
      if !accepted { return None; }
      return Some(seq(|texts|, i requires 0 <= i < |texts| => world.embed(model, texts[i])));
    }

    method ChunkDocument(dialect: string, text: string) returns (spans: seq<Chunk.Span>)
      ensures spans == Kept(dialect, text)
      ensures FirstSpans(dialect, text, spans)
    {
      if dialect != "" {
        spans := ChunkHeading.ChunkByHeading(text, dialect);
      } else {
        spans := Chunk.ChunkSize(text, Chunk.DEFAULT_SIZE, Chunk.DEFAULT_OVERLAP);
      }
      if |spans| > Chunk.MAX_CHUNKS {
        spans := spans[..Chunk.MAX_CHUNKS];
      }
    }

    /** The first half of indexDocument: chunk, then embed batch by batch. */
    method EmbedDocument(model: string, e: Emission) returns (chunks: Option<seq<Content>>)
      ensures chunks == if EmbedFails(e) then None else Some(Complete(world, model, e.dialect, e.text))
    {
      hide Kept, FirstSpans;
      var spans := ChunkDocument(e.dialect, e.text);
      var out: seq<Content> := [];
      var i := 0;
      while i * EMBED_BATCH < |spans|
        invariant |out| == if i * EMBED_BATCH < |spans| then i * EMBED_BATCH else |spans|
        invariant forall k :: 0 <= k < |out| ==> out[k] == ContentOf(world, model, spans[k])
        invariant e.badBatch.Some? && e.badBatch.value * EMBED_BATCH < |spans| ==> i <= e.badBatch.value
        decreases |spans| - i * EMBED_BATCH
      {
        var from := i * EMBED_BATCH;
        var end := if from + EMBED_BATCH < |spans| then from + EMBED_BATCH else |spans|;
        var texts := seq(end - from, j requires 0 <= j < end - from => spans[from + j].text);
        var vectors := Embed(model, texts, e.badBatch != Some(i));
        if vectors.None? { return None; }
        for j := 0 to |vectors.value|
          invariant |out| == from + j
          invariant forall k :: 0 <= k < |out| ==> out[k] == ContentOf(world, model, spans[k])
        {
          var sp := spans[from + j];
          out := out + [Content(sp.index, sp.start, sp.end, sp.text, vectors.value[j])];
        }
        i := i + 1;
      }
      assert out == Complete(world, model, e.dialect, e.text);
      return Some(out);
    }

    /** indexDocument: chunk, embed and store one text. */
    method IndexDocument(st: IndexStatus, inst: string, model: string, e: Emission)
      returns (chunkCount: nat, dimension: nat, failed: bool)
      requires repo.Valid()
      modifies st, repo
      ensures repo.Valid() && st.running == old(st.running) && st.hasError == old(st.hasError)
      ensures var cs := Complete(world, model, e.dialect, e.text);
              && failed == (EmbedFails(e) || (cs != [] && !e.insertOk))
              && chunkCount == (if failed then 0 else |cs|)
              && (chunkCount > 0 ==> dimension == |cs[0].embedding|)
              && repo.State() == (if chunkCount > 0 then Inserted(old(repo.State()), inst, e.key, cs) else old(repo.State()))
      ensures st.counts == old(st.counts).(chunks := old(st.counts).chunks + chunkCount)
    {
      hide Kept, Complete, Inserted, EmbedFails;
      var chunks := EmbedDocument(model, e);
      if chunks.None? { return 0, 0, true; }
      if |chunks.value| == 0 { return 0, 0, false; }
      var stored := repo.InsertChunks(inst, e.key, chunks.value, e.insertOk);
      if !stored { return 0, 0, true; }
      st.Add(st.counts.(chunks := st.counts.chunks + |chunks.value|), false);
      return |chunks.value|, |chunks.value[0].embedding|, false;
    }

    ghost function ProgressOf(st: IndexStatus, seen: set<Key>, dimension: nat): Progress
      reads repo, st
    {
      Progress(repo.State(), seen, dimension, st.counts, st.hasError)
    }

    /** The part of the emit callback for a text that is new or has changed. */
    method Replace(st: IndexStatus, inst: string, model: string, existing: map<Key, DocRow>, dimension: nat, e: Emission)
      returns (dimension': nat)
      requires repo.Valid() && TrimSpace(e.text) != "" && !Unchanged(world, existing, e)
      modifies st, repo
      ensures repo.Valid() && st.running == old(st.running)
      ensures var o := OutcomeOf(world, existing, e);
              && repo.State() == EmitDb(world, inst, model, existing, old(repo.State()), e)
              && st.counts == Tally(old(st.counts), o, |Kept(e.dialect, e.text)|)
              && st.hasError == (old(st.hasError) || o.Failed?)
              && dimension' == if o.Written? then |Complete(world, model, e.dialect, e.text)[0].embedding| else dimension
    {
      hide Kept, TrimSpace, Complete, ChunksDeleted, Inserted, DocUpserted, EmbedFails;
      dimension' := dimension;
      if e.key in existing {
        var cleared := repo.DeleteDocumentChunks(inst, e.key, e.deleteOk);
        if !cleared {
          st.Add(st.counts.(failed := st.counts.failed + 1), true);
          return;
        }
      }
      var chunkCount, chunkDim, failed := IndexDocument(st, inst, model, e);
      if failed {
        st.Add(st.counts.(failed := st.counts.failed + 1), true);
        return;
      }
      if chunkCount == 0 { return; }
      dimension' := chunkDim;
      var _ := repo.UpsertDocument(inst, e.key, DocRow(world.hash(e.text), chunkCount), e.upsertOk);
    }

    /** The emit callback. */
    method Emit(st: IndexStatus, inst: string, model: string, existing: map<Key, DocRow>, seen: set<Key>, dimension: nat, e: Emission)
      returns (seen': set<Key>, dimension': nat)
      requires repo.Valid()
      modifies st, repo
      ensures repo.Valid() && st.running == old(st.running)
      ensures ProgressOf(st, seen', dimension')
           == EmitStep(world, inst, model, existing, old(ProgressOf(st, seen, dimension)), e)
    {
      hide Kept, TrimSpace, Complete, ChunksDeleted, Inserted, DocUpserted, EmbedFails;
      seen', dimension' := seen + {e.key}, dimension;
      st.Add(st.counts.(items := st.counts.items + 1), false);
      if TrimSpace(e.text) == "" {
        st.Add(st.counts.(emptyText := st.counts.emptyText + 1), false);
        return;
      }
      if e.key in existing && existing[e.key].hash == world.hash(e.text) {
        st.Add(st.counts.(skipped := st.counts.skipped + 1), false);
        return;
      }
      dimension' := Replace(st, inst, model, existing, dimension, e);
    }

    /** The body of the pruning loop. */
    method PruneDoc(st: IndexStatus, inst: string, key: Key, chunksOk: bool, rowOk: bool)
      requires repo.Valid()
      modifies st, repo
      ensures repo.Valid() && st.running == old(st.running) && st.hasError == old(st.hasError)
      ensures repo.State() == if !chunksOk then old(repo.State())
                              else if !rowOk then ChunksDeleted(old(repo.State()), inst, key)
                              else DocDeleted(ChunksDeleted(old(repo.State()), inst, key), inst, key)
      ensures st.counts == if chunksOk && rowOk then old(st.counts).(pruned := old(st.counts).pruned + 1) else old(st.counts)
    {
      var ok := repo.DeleteDocumentChunks(inst, key, chunksOk);
      if !ok { return; }
      ok := repo.DeleteDocument(inst, key, rowOk);
      if !ok { return; }
      st.Add(st.counts.(pruned := st.counts.pruned + 1), false);
    }

    /** Prune what the crawl did not see. */
    method Prune(st: IndexStatus, inst: string, gone: set<Key>, chunksBad: set<Key>, rowBad: set<Key>)
      requires repo.Valid()
      modifies st, repo
      ensures repo.Valid() && st.running == old(st.running) && st.hasError == old(st.hasError)
      ensures repo.State() == Pruned(old(repo.State()), inst, gone, chunksBad, rowBad)
      ensures st.counts == old(st.counts).(pruned := old(st.counts).pruned + PrunedCount(gone, chunksBad, rowBad))
    {
      hide Pruned, ChunksDeleted, DocDeleted, PrunedCount;
      var todo := gone;
      ghost var done: set<Key> := {};
      PruneNone(repo.State(), inst, chunksBad, rowBad);
      while todo != {}
        invariant repo.Valid() && st.running == old(st.running) && st.hasError == old(st.hasError)
        invariant done + todo == gone && done !! todo
        invariant repo.State() == Pruned(old(repo.State()), inst, done, chunksBad, rowBad)
        invariant st.counts == old(st.counts).(pruned := old(st.counts).pruned + PrunedCount(done, chunksBad, rowBad))
        decreases |todo|
      {
        var key :| key in todo;
        PruneOne(old(repo.State()), inst, done, key, chunksBad, rowBad);
        PruneCount(done, key, chunksBad, rowBad);
        todo, done := todo - {key}, done + {key};
        PruneDoc(st, inst, key, key !in chunksBad, key !in rowBad);
      }
      assert done == gone;
    }

    /** The deferred finish, and fail before it when the run stopped early. */
    method Finish(st: IndexStatus, failed: bool)
      modifies st
      ensures !st.running && st.counts == old(st.counts) && st.hasError == (old(st.hasError) || failed)
    {
      if failed { st.hasError := true; }
      st.running := false;
    }

    /** runReindex, for an instance whose status Reindex has just set up. */
    method RunReindex(inst: string, r: RunInput)
      requires repo.Valid() && inst in status
      requires status[inst].running && status[inst].counts == NOTHING && !status[inst].hasError
      modifies status[inst], repo
      ensures repo.Valid() && !status[inst].running
      ensures RunResult(repo.State(), status[inst].counts, status[inst].hasError) == Run(world, inst, old(repo.State()), r)
    {
      hide RunCrawl, Cleared, DocsOf;
      var st := status[inst];
      if !r.ready { Finish(st, true); return; }
      var model := r.Model();
      var existing: map<Key, DocRow> := map[];
      if r.mode.Rebuild? {
        var ok := repo.ClearInstance(inst, r.clearOk);
        if !ok { Finish(st, true); return; }
      } else {
        if !r.metaOk { Finish(st, true); return; }
        var meta := repo.GetMeta(inst);
        if meta.Some? && meta.value.model != model { Finish(st, true); return; }
        if !r.listOk { Finish(st, true); return; }
        existing := repo.ListDocuments(inst);
      }
      CrawlAndPrune(st, inst, existing, r);
    }

    /** The crawl: the crawler calls Emit for each document in turn. */
    method Crawl(st: IndexStatus, inst: string, model: string, existing: map<Key, DocRow>, es: seq<Emission>)
      returns (seen: set<Key>, dimension: nat)
      requires repo.Valid() && st.counts == NOTHING && !st.hasError
      modifies st, repo
      ensures repo.Valid() && st.running == old(st.running)
      ensures ProgressOf(st, seen, dimension) == EmitAll(world, inst, model, existing, old(repo.State()), es)
      ensures seen == Keys(es)
    {
      hide EmitStep;
      seen, dimension := {}, 0;
      for i := 0 to |es|
        invariant repo.Valid() && st.running == old(st.running)
        invariant ProgressOf(st, seen, dimension) == EmitAll(world, inst, model, existing, old(repo.State()), es[..i])
      {
        assert es[..i + 1][..i] == es[..i];
        seen, dimension := Emit(st, inst, model, existing, seen, dimension, es[i]);
      }
      assert es[..|es|] == es;
      SeenKeys(world, inst, model, existing, old(repo.State()), es);
    }

    /** What follows a crawl that did not fail. */
    method Settle(st: IndexStatus, inst: string, existing: map<Key, DocRow>, seen: set<Key>, dimension: nat, r: RunInput)
      requires repo.Valid() && seen == Keys(r.emissions) && !r.crawlFailed
      modifies st, repo
      ensures repo.Valid() && !st.running
      ensures RunResult(repo.State(), st.counts, st.hasError)
           == Settled(inst, existing, r, old(ProgressOf(st, seen, dimension)))
    {
      hide Pruned, MetaSet, Keys, PrunedCount;
      if r.mode.Update? && !r.truncated {
        Prune(st, inst, existing.Keys - seen, r.chunksBad, r.rowBad);
      } else {
        PruneNone(repo.State(), inst, r.chunksBad, r.rowBad);
      }
      if dimension > 0 {
        var _ := repo.SetMeta(inst, Meta(r.Model(), dimension), r.setMetaOk);
      }
      Finish(st, false);
    }

    /** The rest of runReindex, from the crawl on. */
    method CrawlAndPrune(st: IndexStatus, inst: string, existing: map<Key, DocRow>, r: RunInput)
      requires repo.Valid() && st.running && st.counts == NOTHING && !st.hasError
      modifies st, repo
      ensures repo.Valid() && !st.running
      ensures RunResult(repo.State(), st.counts, st.hasError) == RunCrawl(world, inst, old(repo.State()), existing, r)
    {
      hide EmitAll, Settled;
      var seen, dimension := Crawl(st, inst, r.Model(), existing, r.emissions);
      if r.crawlFailed { Finish(st, true); return; }
      Settle(st, inst, existing, seen, dimension, r);
    }
  }

  lemma PruneNone(db: Db, inst: string, chunksBad: set<Key>, rowBad: set<Key>)
    ensures Pruned(db, inst, {}, chunksBad, rowBad) == db
    ensures PrunedCount({}, chunksBad, rowBad) == 0
  {
    assert {} - chunksBad == {} && {} - chunksBad - rowBad == {};
    WithoutNoDocs(db.chunks, inst);
    assert RowsWithout(db.docs, inst, {}) == db.docs;
  }

  lemma PruneCount(done: set<Key>, key: Key, chunksBad: set<Key>, rowBad: set<Key>)
    requires key !in done
    ensures PrunedCount(done + {key}, chunksBad, rowBad)
         == PrunedCount(done, chunksBad, rowBad) + if key in chunksBad || key in rowBad then 0 else 1
  {
    if key in chunksBad || key in rowBad {
      assert done + {key} - chunksBad - rowBad == done - chunksBad - rowBad;
    } else {
      assert done + {key} - chunksBad - rowBad == done - chunksBad - rowBad + {key};
    }
  }
}
