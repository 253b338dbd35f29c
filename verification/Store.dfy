/** The search-index tables (internal/store/sqlitestore/searchindex.go and its
    migrations) and the transactions over them. */
module Store {
  import opened Wrappers

  type Vec = seq<real>

  datatype Key = Key(item: string, attachment: string)

  /** One chunk of a document, without the row id it happens to be stored under. */
  datatype Content = Content(index: nat, start: nat, end: nat, text: string, embedding: Vec)

  datatype ChunkRow = ChunkRow(id: nat, inst: string, key: Key, content: Content)
  datatype FtsRow = FtsRow(text: string, inst: string, chunkId: nat)
  datatype DocId = DocId(inst: string, key: Key)
  datatype DocRow = DocRow(hash: string, chunkCount: nat)
  datatype Meta = Meta(model: string, dimension: nat)

  /** The tables as a value; the keyword table is determined by the chunk table. */
  datatype Db = Db(chunks: seq<ChunkRow>, docs: map<DocId, DocRow>, meta: map<string, Meta>, nextId: nat)

  /** What the index holds for one document: its row and its chunks in order. */
  datatype KeyState = KeyState(row: Option<DocRow>, contents: seq<Content>)

  const ABSENT := KeyState(None, [])

  predicate Matches(c: ChunkRow, inst: string, key: Key) {
    c.inst == inst && c.key == key
  }

  function ContentsOf(rows: seq<ChunkRow>, inst: string, key: Key): seq<Content> {
    if rows == [] then []
    else
      var before := ContentsOf(rows[..|rows| - 1], inst, key);
      var c := rows[|rows| - 1];
      if Matches(c, inst, key) then before + [c.content] else before
  }

  function View(db: Db, inst: string, key: Key): KeyState {
    KeyState(if DocId(inst, key) in db.docs then Some(db.docs[DocId(inst, key)]) else None,
             ContentsOf(db.chunks, inst, key))
  }

  // ---------------------------------------------------------------------
  // The statements
  // ---------------------------------------------------------------------

  function WithoutInstance(rows: seq<ChunkRow>, inst: string): seq<ChunkRow> {
    if rows == [] then []
    else
      var before := WithoutInstance(rows[..|rows| - 1], inst);
      var c := rows[|rows| - 1];
      if c.inst == inst then before else before + [c]
  }

  function WithoutDoc(rows: seq<ChunkRow>, inst: string, key: Key): seq<ChunkRow> {
    if rows == [] then []
    else
      var before := WithoutDoc(rows[..|rows| - 1], inst, key);
      var c := rows[|rows| - 1];
      if Matches(c, inst, key) then before else before + [c]
  }

  /** New rows for one document, with consecutive fresh ids. */
  function NewRows(inst: string, key: Key, contents: seq<Content>, id: nat): (rows: seq<ChunkRow>)
    ensures |rows| == |contents|
    ensures forall i :: 0 <= i < |contents| ==> rows[i] == ChunkRow(id + i, inst, key, contents[i])
  {
    seq(|contents|, i requires 0 <= i < |contents| => ChunkRow(id + i, inst, key, contents[i]))
  }

  lemma NewRowsStep(rows: seq<ChunkRow>, inst: string, key: Key, contents: seq<Content>, id: nat, i: nat)
    requires i < |contents|
    ensures rows + NewRows(inst, key, contents[..i + 1], id)
         == rows + NewRows(inst, key, contents[..i], id) + [ChunkRow(id + i, inst, key, contents[i])]
  {
  }

  function Cleared(db: Db, inst: string): Db {
    Db(WithoutInstance(db.chunks, inst),
       map id | id in db.docs && id.inst != inst :: db.docs[id],
       db.meta - {inst}, db.nextId)
  }

  function Inserted(db: Db, inst: string, key: Key, contents: seq<Content>): Db {
    db.(chunks := db.chunks + NewRows(inst, key, contents, db.nextId), nextId := db.nextId + |contents|)
  }

  function ChunksDeleted(db: Db, inst: string, key: Key): Db {
    db.(chunks := WithoutDoc(db.chunks, inst, key))
  }

  function DocUpserted(db: Db, inst: string, key: Key, row: DocRow): Db {
    db.(docs := db.docs[DocId(inst, key) := row])
  }

  function DocDeleted(db: Db, inst: string, key: Key): Db {
    db.(docs := db.docs - {DocId(inst, key)})
  }

  function MetaSet(db: Db, inst: string, meta: Meta): Db {
    db.(meta := db.meta[inst := meta])
  }

  function DocsOf(db: Db, inst: string): map<Key, DocRow> {
    map id | id in db.docs && id.inst == inst :: id.key := db.docs[id]
  }

  // ---------------------------------------------------------------------
  // What each statement does to each document
  // ---------------------------------------------------------------------

  lemma {:induction false} ContentsConcat(a: seq<ChunkRow>, b: seq<ChunkRow>, inst: string, key: Key)
    ensures ContentsOf(a + b, inst, key) == ContentsOf(a, inst, key) + ContentsOf(b, inst, key)
    decreases |b|
  {
    if b == [] {
      assert a + b == a;
    } else {
      var init := b[..|b| - 1];
      assert (a + b)[..|a + b| - 1] == a + init;
      ContentsConcat(a, init, inst, key);
    }
  }

  lemma {:induction false} ContentsNew(inst: string, key: Key, contents: seq<Content>, id: nat, inst': string, key': Key)
    ensures ContentsOf(NewRows(inst, key, contents, id), inst', key')
         == if inst' == inst && key' == key then contents else []
    decreases |contents|
  {
    if contents != [] {
      var n := |contents| - 1;
      var rows := NewRows(inst, key, contents, id);
      assert rows[..n] == NewRows(inst, key, contents[..n], id);
      ContentsNew(inst, key, contents[..n], id, inst', key');
      assert contents[..n] + [contents[n]] == contents;
    }
  }

  lemma {:induction false} ContentsWithoutDoc(rows: seq<ChunkRow>, inst: string, key: Key, inst': string, key': Key)
    ensures ContentsOf(WithoutDoc(rows, inst, key), inst', key')
         == if inst' == inst && key' == key then [] else ContentsOf(rows, inst', key')
    decreases |rows|
  {
    if rows != [] {
      var init, c := rows[..|rows| - 1], rows[|rows| - 1];
      ContentsWithoutDoc(init, inst, key, inst', key');
      if !Matches(c, inst, key) {
        assert WithoutDoc(rows, inst, key)[..|WithoutDoc(rows, inst, key)| - 1] == WithoutDoc(init, inst, key);
      }
    }
  }

  lemma {:induction false} ContentsWithoutInstance(rows: seq<ChunkRow>, inst: string, inst': string, key: Key)
    ensures ContentsOf(WithoutInstance(rows, inst), inst', key)
         == if inst' == inst then [] else ContentsOf(rows, inst', key)
    decreases |rows|
  {
    if rows != [] {
      var init, c := rows[..|rows| - 1], rows[|rows| - 1];
      ContentsWithoutInstance(init, inst, inst', key);
      if c.inst != inst {
        assert WithoutInstance(rows, inst)[..|WithoutInstance(rows, inst)| - 1] == WithoutInstance(init, inst);
      }
    }
  }

  /** Rebuild's clear empties exactly one instance. */
  lemma ViewCleared(db: Db, inst: string, inst': string, key: Key)
    ensures View(Cleared(db, inst), inst', key) == if inst' == inst then ABSENT else View(db, inst', key)
  {
    ContentsWithoutInstance(db.chunks, inst, inst', key);
  }

  /** Inserting appends to exactly one document. */
  lemma ViewInserted(db: Db, inst: string, key: Key, contents: seq<Content>, inst': string, key': Key)
    ensures var v := View(db, inst', key');
            View(Inserted(db, inst, key, contents), inst', key')
            == if inst' == inst && key' == key then v.(contents := v.contents + contents) else v
  {
    ContentsConcat(db.chunks, NewRows(inst, key, contents, db.nextId), inst', key');
    ContentsNew(inst, key, contents, db.nextId, inst', key');
  }

  /** Deleting chunks empties exactly one document and leaves its row. */
  lemma ViewChunksDeleted(db: Db, inst: string, key: Key, inst': string, key': Key)
    ensures var v := View(db, inst', key');
            View(ChunksDeleted(db, inst, key), inst', key')
            == if inst' == inst && key' == key then v.(contents := []) else v
  {
    ContentsWithoutDoc(db.chunks, inst, key, inst', key');
  }

  lemma ViewDocUpserted(db: Db, inst: string, key: Key, row: DocRow, inst': string, key': Key)
    ensures var v := View(db, inst', key');
            View(DocUpserted(db, inst, key, row), inst', key')
            == if inst' == inst && key' == key then v.(row := Some(row)) else v
  {
  }

  // ---------------------------------------------------------------------
  // The keyword table
  // ---------------------------------------------------------------------

  /** The keyword rows that mirror the chunk rows one for one. */
  function MirrorOf(rows: seq<ChunkRow>): (fts: seq<FtsRow>) {
    if rows == [] then []
    else
      var c := rows[|rows| - 1];
      MirrorOf(rows[..|rows| - 1]) + [FtsRow(c.content.text, c.inst, c.id)]
  }

  function FtsWithoutInstance(fts: seq<FtsRow>, inst: string): seq<FtsRow> {
    if fts == [] then []
    else
      var before := FtsWithoutInstance(fts[..|fts| - 1], inst);
      if fts[|fts| - 1].inst == inst then before else before + [fts[|fts| - 1]]
  }

  function FtsWithout(fts: seq<FtsRow>, ids: set<nat>): seq<FtsRow> {
    if fts == [] then []
    else
      var before := FtsWithout(fts[..|fts| - 1], ids);
      if fts[|fts| - 1].chunkId in ids then before else before + [fts[|fts| - 1]]
  }

  /** Ids are handed out in increasing order and never reused (AUTOINCREMENT). */
  ghost predicate IdsFresh(rows: seq<ChunkRow>, nextId: nat) {
    && (forall i :: 0 <= i < |rows| ==> rows[i].id < nextId)
    && (forall i, j :: 0 <= i < j < |rows| ==> rows[i].id < rows[j].id)
  }

  /** The ids SELECTed for one document. */
  function IdsOf(rows: seq<ChunkRow>, inst: string, key: Key): seq<nat> {
    if rows == [] then []
    else
      var before := IdsOf(rows[..|rows| - 1], inst, key);
      var c := rows[|rows| - 1];
      if Matches(c, inst, key) then before + [c.id] else before
  }

  function ToSet(ids: seq<nat>): set<nat> {
    set i | 0 <= i < |ids| :: ids[i]
  }

  lemma NoIds(ids: seq<nat>)
    ensures ids == [] ==> ToSet(ids) == {}
  {
  }

  lemma ToSetStep(ids: seq<nat>, i: nat)
    requires i < |ids|
    ensures ToSet(ids[..i + 1]) == ToSet(ids[..i]) + {ids[i]}
  {
  }

  lemma ToSetHolds(ids: seq<nat>)
    ensures forall x :: x in ToSet(ids) <==> x in ids
  {
  }

  lemma {:induction false} MirrorWithoutInstance(rows: seq<ChunkRow>, inst: string)
    ensures FtsWithoutInstance(MirrorOf(rows), inst) == MirrorOf(WithoutInstance(rows, inst))
    decreases |rows|
  {
    if rows != [] {
      var init := rows[..|rows| - 1];
      MirrorWithoutInstance(init, inst);
      assert MirrorOf(rows)[..|MirrorOf(rows)| - 1] == MirrorOf(init);
      if rows[|rows| - 1].inst != inst {
        assert WithoutInstance(rows, inst)[..|WithoutInstance(rows, inst)| - 1] == WithoutInstance(init, inst);
      }
    }
  }

  lemma {:induction false} MirrorPush(rows: seq<ChunkRow>, c: ChunkRow)
    ensures MirrorOf(rows + [c]) == MirrorOf(rows) + [FtsRow(c.content.text, c.inst, c.id)]
  {
    assert (rows + [c])[..|rows|] == rows;
  }

  lemma {:induction false} WithoutDocKeepsFresh(rows: seq<ChunkRow>, inst: string, key: Key, nextId: nat)
    requires IdsFresh(rows, nextId)
    ensures IdsFresh(WithoutDoc(rows, inst, key), nextId)
    decreases |rows|
  {
    if rows != [] {
      WithoutDocKeepsFresh(rows[..|rows| - 1], inst, key, rows[|rows| - 1].id);
    }
  }

  lemma {:induction false} WithoutInstanceKeepsFresh(rows: seq<ChunkRow>, inst: string, nextId: nat)
    requires IdsFresh(rows, nextId)
    ensures IdsFresh(WithoutInstance(rows, inst), nextId)
    decreases |rows|
  {
    if rows != [] {
      WithoutInstanceKeepsFresh(rows[..|rows| - 1], inst, rows[|rows| - 1].id);
    }
  }

  lemma {:induction false} IdsOfMatching(rows: seq<ChunkRow>, inst: string, key: Key, nextId: nat)
    requires IdsFresh(rows, nextId)
    ensures forall x :: x in IdsOf(rows, inst, key) ==> x < nextId
    ensures forall i :: 0 <= i < |rows| ==> (rows[i].id in IdsOf(rows, inst, key) <==> Matches(rows[i], inst, key))
    decreases |rows|
  {
    if rows != [] {
      IdsOfMatching(rows[..|rows| - 1], inst, key, rows[|rows| - 1].id);
    }
  }

  /** Deleting keyword rows by the selected chunk ids mirrors deleting the chunks. */
  lemma {:induction false} MirrorWithoutDoc(rows: seq<ChunkRow>, inst: string, key: Key, ids: set<nat>)
    requires forall i :: 0 <= i < |rows| ==> (rows[i].id in ids <==> Matches(rows[i], inst, key))
    ensures FtsWithout(MirrorOf(rows), ids) == MirrorOf(WithoutDoc(rows, inst, key))
    decreases |rows|
  {
    if rows != [] {
      var init, c := rows[..|rows| - 1], rows[|rows| - 1];
      MirrorWithoutDoc(init, inst, key, ids);
      assert MirrorOf(rows)[..|MirrorOf(rows)| - 1] == MirrorOf(init);
      if !Matches(c, inst, key) {
        MirrorPush(WithoutDoc(init, inst, key), c);
      }
    }
  }

  lemma {:induction false} FtsWithoutTwice(fts: seq<FtsRow>, a: set<nat>, b: set<nat>)
    ensures FtsWithout(FtsWithout(fts, a), b) == FtsWithout(fts, a + b)
    decreases |fts|
  {
    if fts != [] {
      var init := fts[..|fts| - 1];
      FtsWithoutTwice(init, a, b);
      if fts[|fts| - 1].chunkId !in a {
        assert FtsWithout(fts, a)[..|FtsWithout(fts, a)| - 1] == FtsWithout(init, a);
      }
    }
  }

  lemma {:induction false} FtsWithoutNone(fts: seq<FtsRow>)
    ensures FtsWithout(fts, {}) == fts
    decreases |fts|
  {
    if fts != [] { FtsWithoutNone(fts[..|fts| - 1]); }
  }

  // ---------------------------------------------------------------------
  // The repository
  // ---------------------------------------------------------------------

  /** searchIndexRepo.  Every writing method is one transaction: `accepted` says
      whether the database lets it through, and when it does not, some statement
      or the commit fails and nothing it did is kept. */
  class SearchIndexRepo {
    var chunks: seq<ChunkRow>
    var fts: seq<FtsRow>
    var docs: map<DocId, DocRow>
    var meta: map<string, Meta>
    var nextId: nat

    /** Keyword rows mirror chunk rows one for one, and ids are unique. */
    ghost predicate Valid()
      reads this
    {
      fts == MirrorOf(chunks) && IdsFresh(chunks, nextId)
    }

    ghost function State(): Db
      reads this
    {
      Db(chunks, docs, meta, nextId)
    }

    constructor ()
      ensures Valid() && State() == Db([], map[], map[], 0)
    {
      chunks, fts, docs, meta, nextId := [], [], map[], map[], 0;
    }

    method ClearInstance(inst: string, accepted: bool) returns (ok: bool)
      requires Valid()
      modifies this
      ensures Valid() && ok == accepted
      ensures State() == if accepted then Cleared(old(State()), inst) else old(State())
    {
      hide MirrorOf, FtsWithoutInstance, WithoutInstance;
      var failing: nat :| accepted ==> failing >= 5;
      if failing == 0 { return false; }
      var txFts := FtsWithoutInstance(fts, inst);
      if failing == 1 { return false; }
      var txChunks := WithoutInstance(chunks, inst);
      if failing == 2 { return false; }
      var txDocs := map id | id in docs && id.inst != inst :: docs[id];
      if failing == 3 { return false; }
      var txMeta := meta - {inst};
      if failing == 4 || !accepted { return false; }
      MirrorWithoutInstance(chunks, inst);
      WithoutInstanceKeepsFresh(chunks, inst, nextId);
      chunks, fts, docs, meta := txChunks, txFts, txDocs, txMeta;
      return true;
    }

    method InsertChunks(inst: string, key: Key, contents: seq<Content>, accepted: bool) returns (ok: bool)
      requires Valid()
      modifies this
      ensures Valid() && ok == (accepted || contents == [])
      ensures State() == if ok then Inserted(old(State()), inst, key, contents) else old(State())
    {
      hide MirrorOf;
      if |contents| == 0 {
        assert chunks + NewRows(inst, key, [], nextId) == chunks;
        return true;
      }
      var failing: nat :| true;
      var txChunks, txFts, txNext := chunks, fts, nextId;
      for i := 0 to |contents|
        modifies {}
        invariant txChunks == chunks + NewRows(inst, key, contents[..i], nextId)
        invariant txNext == nextId + i
        invariant txFts == MirrorOf(txChunks) && IdsFresh(txChunks, txNext)
      {
        var c := contents[i];
        if !accepted && failing == 2 * i { return false; }
        var row := ChunkRow(txNext, inst, key, c);
        MirrorPush(txChunks, row);
        txChunks, txNext := txChunks + [row], txNext + 1;
        if !accepted && failing == 2 * i + 1 { return false; }
        txFts := txFts + [FtsRow(c.text, inst, row.id)];
        NewRowsStep(chunks, inst, key, contents, nextId, i);
      }
      if !accepted { return false; }
      assert contents[..|contents|] == contents;
      chunks, fts, nextId := txChunks, txFts, txNext;
      return true;
    }

    method DeleteDocumentChunks(inst: string, key: Key, accepted: bool) returns (ok: bool)
      requires Valid()
      modifies this
      ensures Valid() && ok == accepted
      ensures State() == if accepted then ChunksDeleted(old(State()), inst, key) else old(State())
    {
      hide MirrorOf, WithoutDoc, FtsWithout, IdsOf, ToSet;
      var failing: nat :| true;
      var ids := IdsOf(chunks, inst, key);
      var txFts := fts;
      FtsWithoutNone(fts);
      NoIds(ids[..0]);
      for i := 0 to |ids|
        modifies {}
        invariant txFts == FtsWithout(fts, ToSet(ids[..i]))
      {
        if !accepted && failing == i { return false; }
        FtsWithoutTwice(fts, ToSet(ids[..i]), {ids[i]});
        ToSetStep(ids, i);
        txFts := FtsWithout(txFts, {ids[i]});
      }
      var txChunks := WithoutDoc(chunks, inst, key);
      if !accepted { return false; }
      assert ids[..|ids|] == ids;
      IdsOfMatching(chunks, inst, key, nextId);
      ToSetHolds(ids);
      MirrorWithoutDoc(chunks, inst, key, ToSet(ids));
      WithoutDocKeepsFresh(chunks, inst, key, nextId);
      chunks, fts := txChunks, txFts;
      return true;
    }

    method ListDocuments(inst: string) returns (rows: map<Key, DocRow>)
      ensures rows == DocsOf(State(), inst)
    {
      rows := map id | id in docs && id.inst == inst :: id.key := docs[id];
    }

    method UpsertDocument(inst: string, key: Key, row: DocRow, accepted: bool) returns (ok: bool)
      requires Valid()
      modifies this
      ensures Valid() && ok == accepted
      ensures State() == if accepted then DocUpserted(old(State()), inst, key, row) else old(State())
    {
      if !accepted { return false; }
      docs := docs[DocId(inst, key) := row];
      return true;
    }

    method DeleteDocument(inst: string, key: Key, accepted: bool) returns (ok: bool)
      requires Valid()
      modifies this
      ensures Valid() && ok == accepted
      ensures State() == if accepted then DocDeleted(old(State()), inst, key) else old(State())
    {
      if !accepted { return false; }
      docs := docs - {DocId(inst, key)};
      return true;
    }

    method GetMeta(inst: string) returns (m: Option<Meta>)
      ensures m == if inst in meta then Some(meta[inst]) else None
    {
      if inst in meta { return Some(meta[inst]); }
      return None;
    }

    method SetMeta(inst: string, m: Meta, accepted: bool) returns (ok: bool)
      requires Valid()
      modifies this
      ensures Valid() && ok == accepted
      ensures State() == if accepted then MetaSet(old(State()), inst, m) else old(State())
    {
      if !accepted { return false; }
      meta := meta[inst := m];
      return true;
    }
  }

  /** The keyword table holds, for each chunk, its text, its instance and its id. */
  lemma {:induction false} MirrorIs(rows: seq<ChunkRow>)
    ensures |MirrorOf(rows)| == |rows|
    ensures forall i :: 0 <= i < |rows| ==>
              var f := MirrorOf(rows)[i];
              f.text == rows[i].content.text && f.inst == rows[i].inst && f.chunkId == rows[i].id
    decreases |rows|
  {
    if rows != [] { MirrorIs(rows[..|rows| - 1]); }
  }
}
