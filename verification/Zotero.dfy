/** The Zotero crawler (internal/index/source/zotero/zotero.go). */
module Zotero {
  import opened Wrappers
  import opened Store
  import opened Source
  import opened Library
  import Indexer

  const CHILDREN_LIMIT: nat := 50

  /** A child of an item; fetched says whether its text can be read. */
  datatype Child = Child(key: string, hasData: bool, itemType: string, contentType: string, fetched: bool, content: string)

  /** A top-level item; listed says whether its children can be listed. */
  datatype TopItem = TopItem(key: string, listed: bool, children: seq<Child>)

  predicate IsDocument(c: Child) {
    c.hasData && c.itemType == "attachment" && c.contentType in ["application/pdf", "text/html"] && c.key != ""
  }

  function Documents(children: seq<Child>): seq<Doc> {
    if children == [] then []
    else
      var c := children[|children| - 1];
      Documents(children[..|children| - 1]) + if IsDocument(c) then [Doc(c.key, c.fetched, c.content)] else []
  }

  /** The children a listing returns. */
  function Listed(children: seq<Child>): seq<Child> {
    if |children| > CHILDREN_LIMIT then children[..CHILDREN_LIMIT] else children
  }

  function AsItem(t: TopItem): Item {
    Item(if t.key == "" then None else Some(t.key), Documents(t.children),
         if t.listed then Some(Documents(Listed(t.children))) else None)
  }

  function AsItems(top: seq<TopItem>): (items: seq<Item>)
    ensures |items| == |top| && forall i :: 0 <= i < |top| ==> items[i] == AsItem(top[i])
  {
    seq(|top|, i requires 0 <= i < |top| => AsItem(top[i]))
  }

  method CrawlAttachment(item: string, c: Child, sink: Sink)
    modifies sink
    ensures sink.emitted == old(sink.emitted) + [DocEmit(item, Doc(c.key, c.fetched, c.content))]
  {
    if !c.fetched {
      sink.Emit(Emitted(Key(item, c.key), "", ""));
    } else {
      sink.Emit(Emitted(Key(item, c.key), "", c.content));
    }
  }

  lemma NoDocuments()
    ensures Documents([]) == []
  {
  }

  lemma NextDocument(children: seq<Child>, i: nat)
    requires i < |children|
    ensures Documents(children[..i + 1]) ==
            var c := children[i];
            Documents(children[..i]) + if IsDocument(c) then [Doc(c.key, c.fetched, c.content)] else []
  {
    assert children[..i + 1][..i] == children[..i];
  }

  /** The children that are documents, one emit each. */
  method CrawlChildren(item: string, children: seq<Child>, sink: Sink) returns (visited: bool)
    modifies sink
    ensures sink.emitted == old(sink.emitted) + DocEmits(item, Documents(children))
    ensures visited <==> Documents(children) != []
  {
    hide DocEmit, DocEmits, Documents, IsDocument;
    visited := false;
    ghost var docs: seq<Doc> := [];
    NoDocuments();
    for i := 0 to |children|
      invariant docs == Documents(children[..i]) && (visited <==> docs != [])
      invariant sink.emitted == old(sink.emitted) + DocEmits(item, docs)
    {
      var child := children[i];
      NextDocument(children, i);
      if IsDocument(child) {
        visited := true;
        OneMoreDoc(item, docs, Doc(child.key, child.fetched, child.content));
        docs := docs + [Doc(child.key, child.fetched, child.content)];
        CrawlAttachment(item, child, sink);
      }
    }
    assert children[..|children|] == children;
  }

  method CrawlItem(t: TopItem, sink: Sink)
    requires t.key != ""
    modifies sink
    ensures sink.emitted == old(sink.emitted) + ItemEmits(AsItem(t))
  {
    hide DocEmits, Documents;
    if !t.listed {
      sink.Emit(Placeholder(t.key));
      return;
    }
    var visited := CrawlChildren(t.key, Listed(t.children), sink);
    if !visited {
      NoDocEmits(t.key);
      sink.Emit(Placeholder(t.key));
    }
  }

  /** One page's items. */
  method CrawlPage(page: seq<TopItem>, sink: Sink) returns (processed: nat)
    modifies sink
    ensures sink.emitted == old(sink.emitted) + AllEmits(AsItems(page)) && processed == Identified(AsItems(page))
  {
    hide ItemEmits;
    processed := 0;
    for i := 0 to |page|
      invariant sink.emitted == old(sink.emitted) + AllEmits(AsItems(page)[..i])
      invariant processed == Identified(AsItems(page)[..i])
    {
      assert AsItems(page)[..i + 1][..i] == AsItems(page)[..i];
      if page[i].key == "" {
        NoIdNoEmits(AsItem(page[i]));
        continue;
      }
      CrawlItem(page[i], sink);
      processed := processed + 1;
    }
    assert AsItems(page)[..|page|] == AsItems(page);
  }

  /** The crawl emits, and returns, what Crawled says. */
  method Crawl(top: seq<TopItem>, pageOk: nat -> bool, sink: Sink) returns (truncated: bool, failed: bool)
    modifies sink
    ensures Report(sink.emitted, truncated, failed) == After(old(sink.emitted), Crawled(AsItems(top), pageOk))
  {
    hide AllEmits, Identified;
    var start: nat, processed: nat := 0, 0;
    while processed < MAX_ITEMS
      invariant After(sink.emitted, CrawlFrom(AsItems(top), pageOk, start, processed))
             == After(old(sink.emitted), Crawled(AsItems(top), pageOk))
      decreases |top| - start
    {
      if !pageOk(start) { return false, true; }
      var page := Page(top, start);
      assert AsItems(page) == Page(AsItems(top), start);
      if |page| == 0 {
        NothingEmitted();
        return false, false;
      }
      AfterTwice(sink.emitted, AllEmits(AsItems(page)),
                 CrawlFrom(AsItems(top), pageOk, start + PAGE_SIZE, processed + Identified(AsItems(page))));
      var n := CrawlPage(page, sink);
      processed := processed + n;
      if |page| < PAGE_SIZE { return false, false; }
      start := start + PAGE_SIZE;
    }
    return true, false;
  }

  /** One of the children is a document of this key. */
  predicate HasDocument(children: seq<Child>, key: string) {
    exists j :: 0 <= j < |children| && IsDocument(children[j]) && children[j].key == key
  }

  lemma {:induction false} DocumentIds(children: seq<Child>, key: string)
    ensures HasDocument(children, key) <==> exists i :: 0 <= i < |Documents(children)| && Documents(children)[i].id == key
    decreases |children|
  {
    hide IsDocument;
    if children != [] {
      var n := |children| - 1;
      var init := children[..n];
      DocumentIds(init, key);
      assert HasDocument(init, key) ==> HasDocument(children, key) by {
        if HasDocument(init, key) {
          var j :| 0 <= j < |init| && IsDocument(init[j]) && init[j].key == key;
          assert init[j] == children[j];
        }
      }
      assert Documents(init) <= Documents(children);
      if IsDocument(children[n]) { assert Documents(children)[|Documents(init)|].id == children[n].key; }
    }
  }

  lemma {:induction false} DocumentIn(children: seq<Child>, d: nat)
    requires d < |Documents(children)|
    ensures HasDocument(children, Documents(children)[d].id)
    decreases |children|
  {
    hide IsDocument;
    var n := |children| - 1;
    if d < |Documents(children[..n])| {
      DocumentIn(children[..n], d);
      var j :| 0 <= j < n && IsDocument(children[..n][j]) && children[..n][j].key == Documents(children)[d].id;
      assert children[..n][j] == children[j];
    }
  }

  /** The children that listing the item returns. */
  function Visible(t: TopItem): seq<Child> {
    if t.listed then Listed(t.children) else []
  }

  /** A document is represented when it is among the first fifty children of an item
      whose listing succeeds, or when no document is and it bears the item's own key. */
  lemma RepresentedIff(t: TopItem, key: string)
    requires t.key != ""
    ensures Represented(AsItem(t), key)
       <==> HasDocument(Visible(t), key) || (Documents(Visible(t)) == [] && key == t.key)
  {
    hide IsDocument, Documents;
    NoDocuments();
    assert AsItem(t).Shown() == Documents(Visible(t));
    DocumentIds(Visible(t), key);
  }

  /** Exactly when an item is fully listed: each of its documents is among the first
      fifty children of a listing that succeeds (or, where none is, bears its own key). */
  lemma FullyListedIff(t: TopItem)
    requires t.key != ""
    ensures FullyListed(AsItem(t)) <==>
            forall i :: 0 <= i < |t.children| && IsDocument(t.children[i]) ==>
              || HasDocument(Visible(t), t.children[i].key)
              || (Documents(Visible(t)) == [] && t.children[i].key == t.key)
  {
    hide IsDocument, Documents, Represented, Visible;
    var docs := Documents(t.children);
    forall i | 0 <= i < |t.children| && IsDocument(t.children[i])
      ensures exists d :: 0 <= d < |docs| && docs[d].id == t.children[i].key
      ensures Represented(AsItem(t), t.children[i].key) <==>
              HasDocument(Visible(t), t.children[i].key) || (Documents(Visible(t)) == [] && t.children[i].key == t.key)
    {
      DocumentIds(t.children, t.children[i].key);
      RepresentedIff(t, t.children[i].key);
    }
    forall d | 0 <= d < |docs|
      ensures exists i :: 0 <= i < |t.children| && IsDocument(t.children[i]) && t.children[i].key == docs[d].id
    {
      DocumentIn(t.children, d);
    }
  }

  /** A listed item with at most fifty children is fully listed. */
  lemma ListedInFull(t: TopItem)
    requires t.listed && |t.children| <= CHILDREN_LIMIT
    ensures FullyListed(AsItem(t))
  {
    forall i | 0 <= i < |Documents(t.children)| ensures Represented(AsItem(t), Documents(t.children)[i].id) {
      assert AsItem(t).Shown()[i] == Documents(t.children)[i];
    }
  }

  /** An update fed by an untruncated, successful crawl of a library that lists each item
      once. */
  ghost predicate Feeds(top: seq<TopItem>, pageOk: nat -> bool, r: Indexer.RunInput) {
    && ListedOnce(AsItems(top)) && FedBy(r, Crawled(AsItems(top), pageOk)) && r.mode.Update?
    && !r.truncated && !r.crawlFailed
  }

  /** Child i of an item is a document the index has a row for, of a key that is not the
      item's own, and deleting it does not fail. */
  ghost predicate Prunable(t: TopItem, i: nat, inst: string, db: Db, r: Indexer.RunInput) {
    && t.key != "" && i < |t.children| && IsDocument(t.children[i]) && t.children[i].key != t.key
    && View(db, inst, Key(t.key, t.children[i].key)).row.Some?
    && Key(t.key, t.children[i].key) !in r.chunksBad + r.rowBad
  }

  lemma UnrepresentedIsPruned(top: seq<TopItem>, pageOk: nat -> bool, n: nat, i: nat,
                              w: Indexer.World, inst: string, db: Db, r: Indexer.RunInput)
    requires Feeds(top, pageOk, r) && n < |top| && Prunable(top[n], i, inst, db, r) && !Indexer.Refuses(db, inst, r)
    requires !HasDocument(Visible(top[n]), top[n].children[i].key)
    ensures View(Indexer.Run(w, inst, db, r).db, inst, Key(top[n].key, top[n].children[i].key)) == ABSENT
  {
    hide AsItem, IsDocument, Represented, View, Indexer.Run, Indexer.Refuses, Crawled, ListedOnce, HasDocument;
    var key := top[n].children[i].key;
    RepresentedIff(top[n], key);
    ItemId(top[n]);
    LostDocumentIsPruned(AsItems(top), pageOk, w, inst, db, r, n, key);
  }

  lemma ItemId(t: TopItem)
    requires t.key != ""
    ensures AsItem(t).id == Some(t.key)
  {
  }

  /** Any document past the fiftieth child, of a key that is not among the first fifty
      documents nor the item's own, is pruned though it is there: an untruncated,
      successful crawl does not emit it. */
  lemma ChildPastFiftiethIsPruned(top: seq<TopItem>, pageOk: nat -> bool, n: nat, i: nat,
                                  w: Indexer.World, inst: string, db: Db, r: Indexer.RunInput)
    requires Feeds(top, pageOk, r) && n < |top| && Prunable(top[n], i, inst, db, r)
    requires top[n].listed && i >= CHILDREN_LIMIT
    requires !HasDocument(top[n].children[..CHILDREN_LIMIT], top[n].children[i].key)
    requires !Indexer.Refuses(db, inst, r)
    ensures !FullyListed(AsItem(top[n]))
    ensures View(Indexer.Run(w, inst, db, r).db, inst, Key(top[n].key, top[n].children[i].key)) == ABSENT
  {
    hide IsDocument, Documents, Represented, View, Indexer.Run, Indexer.Refuses, FullyListed, Crawled, ListedOnce, FedBy;
    FullyListedIff(top[n]);
    UnrepresentedIsPruned(top, pageOk, n, i, w, inst, db, r);
  }

  /** An item whose children cannot be listed this once loses every document it has: the
      crawl still succeeds untruncated, and the update prunes what is there. */
  lemma FailedListingPrunesLiveDocument(top: seq<TopItem>, pageOk: nat -> bool, n: nat, i: nat,
                                        w: Indexer.World, inst: string, db: Db, r: Indexer.RunInput)
    requires Feeds(top, pageOk, r) && n < |top| && Prunable(top[n], i, inst, db, r)
    requires !top[n].listed && !Indexer.Refuses(db, inst, r)
    ensures View(Indexer.Run(w, inst, db, r).db, inst, Key(top[n].key, top[n].children[i].key)) == ABSENT
  {
    hide IsDocument, Documents, Represented, View, Indexer.Run, Indexer.Refuses, Crawled, ListedOnce, FedBy;
    UnrepresentedIsPruned(top, pageOk, n, i, w, inst, db, r);
  }

  // ---------------------------------------------------------------------
  // What is emitted, said of the children
  // ---------------------------------------------------------------------

  /** The child is a PDF or HTML attachment with a key. */
  predicate IsAttachment(c: Child) {
    && c.hasData && c.itemType == "attachment" && c.key != ""
    && (c.contentType == "application/pdf" || c.contentType == "text/html")
  }

  lemma {:induction false} DocumentsAre(children: seq<Child>, d: Doc)
    ensures d in Documents(children) <==>
            exists j :: 0 <= j < |children| && IsAttachment(children[j])
                        && d == Doc(children[j].key, children[j].fetched, children[j].content)
    decreases |children|
  {
    if children != [] {
      var n := |children| - 1;
      DocumentsAre(children[..n], d);
      if j :| 0 <= j < n && IsAttachment(children[..n][j])
              && d == Doc(children[..n][j].key, children[..n][j].fetched, children[..n][j].content) {
        assert IsAttachment(children[j]);
      }
      if j :| 0 <= j < |children| && IsAttachment(children[j])
              && d == Doc(children[j].key, children[j].fetched, children[j].content) {
        if j < n { assert IsAttachment(children[..n][j]); }
      }
    }
  }

  /** Child j of a listed item reports d: an attachment among the first fifty children,
      with its text, or none when it cannot be read. */
  ghost predicate ReportsChild(d: Emitted, t: TopItem, j: nat) {
    && t.listed && j < |t.children| && j < 50 && IsAttachment(t.children[j])
    && d == Emitted(Key(t.key, t.children[j].key), "", if t.children[j].fetched then t.children[j].content else "")
  }

  /** What a crawl emits for one item: its visible attachments, or a placeholder. */
  lemma ReportsItem(d: Emitted, t: TopItem)
    requires t.key != ""
    ensures Reports(d, AsItem(t)) <==>
            || (exists j: nat :: ReportsChild(d, t, j))
            || (d == Emitted(Key(t.key, t.key), "", "")
                && forall j :: 0 <= j < |t.children| && j < 50 && t.listed ==> !IsAttachment(t.children[j]))
  {
    hide Documents;
    var visible := Visible(t);
    var shown := Documents(visible);
    NoDocuments();
    assert AsItem(t).Shown() == shown;
    assert forall j :: 0 <= j < |visible| ==> visible[j] == t.children[j];
    forall x: Doc ensures x in shown <==>
        exists j :: 0 <= j < |visible| && IsAttachment(visible[j]) && x == Doc(visible[j].key, visible[j].fetched, visible[j].content)
    {
      DocumentsAre(visible, x);
    }
    forall j | 0 <= j < |visible| && IsAttachment(visible[j])
      ensures Doc(visible[j].key, visible[j].fetched, visible[j].content) in shown
    {
      assert visible[j] == visible[j];
    }
    if Reports(d, AsItem(t)) && shown != [] {
      var m :| 0 <= m < |shown| && d.key.attachment == shown[m].id && d.text == if shown[m].fetched then shown[m].text else "";
      assert shown[m] in shown;
      var j :| 0 <= j < |visible| && IsAttachment(visible[j])
               && shown[m] == Doc(visible[j].key, visible[j].fetched, visible[j].content);
      assert ReportsChild(d, t, j);
    }
    if j: nat :| ReportsChild(d, t, j) {
      assert visible[j] == t.children[j];
      var x := Doc(visible[j].key, visible[j].fetched, visible[j].content);
      assert x in shown;
      var m :| 0 <= m < |shown| && shown[m] == x;
    }
    if shown != [] {
      assert shown[0] in shown;
    }
  }

  /** An untruncated, successful crawl emits, for every item with a key, what ReportsItem
      says, and nothing else. */
  lemma CrawlReports(top: seq<TopItem>, pageOk: nat -> bool, d: Emitted)
    requires !Crawled(AsItems(top), pageOk).truncated && !Crawled(AsItems(top), pageOk).failed
    ensures d in Crawled(AsItems(top), pageOk).emits
       <==> exists n :: 0 <= n < |top| && top[n].key != "" && Reports(d, AsItem(top[n]))
  {
    hide Crawled, Documents, Reports;
    CrawlReportsDocuments(AsItems(top), pageOk, d);
    forall n | 0 <= n < |top| ensures Reports(d, AsItems(top)[n]) ==> top[n].key != "" {
      NamelessReportNothing(d, top[n]);
    }
    if n :| 0 <= n < |top| && top[n].key != "" && Reports(d, AsItem(top[n])) { assert AsItems(top)[n] == AsItem(top[n]); }
  }

  lemma NamelessReportNothing(d: Emitted, t: TopItem)
    ensures Reports(d, AsItem(t)) ==> t.key != ""
  {
    hide Documents;
  }
}
