/** What the Zotero and Linkding crawlers have in common: a stable listing served in
    pages, each of whose items has documents of its own, and what such a crawl emits. */
module Library {
  import opened Wrappers
  import opened Store
  import opened Source
  import Consistency
  import Indexer
  import Stored
  import Text
  import UpdateIsRebuild

  const PAGE_SIZE: nat := 100
  const MAX_ITEMS: nat := 2000

  /** One document of an item, and whether its text can be fetched. */
  datatype Doc = Doc(id: string, fetched: bool, text: string)

  /** One listed item: its id if it has one, the indexable documents it has, and those
      of them that listing it returns, unless that listing fails. */
  datatype Item = Item(id: Option<string>, docs: seq<Doc>, shown: Option<seq<Doc>>)
  {
    function Shown(): seq<Doc> {
      if shown.Some? then shown.value else []
    }
  }

  function DocEmit(item: string, d: Doc): Emitted {
    Emitted(Key(item, d.id), "", if d.fetched then d.text else "")
  }

  function DocEmits(item: string, docs: seq<Doc>): (r: seq<Emitted>)
    ensures |r| == |docs| && forall i :: 0 <= i < |docs| ==> r[i] == DocEmit(item, docs[i])
  {
    seq(|docs|, i requires 0 <= i < |docs| => DocEmit(item, docs[i]))
  }

  lemma OneMoreDoc(item: string, docs: seq<Doc>, d: Doc)
    ensures DocEmits(item, docs + [d]) == DocEmits(item, docs) + [DocEmit(item, d)]
  {
  }

  lemma NoDocEmits(item: string)
    ensures DocEmits(item, []) == []
  {
  }

  function Placeholder(item: string): Emitted {
    Emitted(Key(item, item), "", "")
  }

  /** An item without visible documents still gets one emit, with empty text. */
  function ItemEmits(it: Item): seq<Emitted> {
    if it.id.None? then []
    else if it.Shown() == [] then [Placeholder(it.id.value)]
    else DocEmits(it.id.value, it.Shown())
  }

  function AllEmits(items: seq<Item>): seq<Emitted> {
    if items == [] then [] else AllEmits(items[..|items| - 1]) + ItemEmits(items[|items| - 1])
  }

  /** How many items have an id. */
  function Identified(items: seq<Item>): (n: nat)
    ensures n <= |items|
  {
    if items == [] then 0
    else Identified(items[..|items| - 1]) + if items[|items| - 1].id.Some? then 1 else 0
  }

  /** The page of a listing at an offset. */
  function Page<T>(items: seq<T>, start: nat): (p: seq<T>)
    ensures |p| <= PAGE_SIZE && (p == [] <==> start >= |items|)
    ensures start <= |items| ==> p <= items[start..]
    ensures |p| < PAGE_SIZE && start <= |items| ==> p == items[start..]
  {
    if start >= |items| then []
    else if start + PAGE_SIZE <= |items| then items[start..start + PAGE_SIZE]
    else items[start..]
  }

  /** The crawl from an offset on, with so many items processed before it. */
  function CrawlFrom(items: seq<Item>, pageOk: nat -> bool, start: nat, processed: nat): Report
    decreases |items| - start
  {
    if processed >= MAX_ITEMS then Report([], true, false)
    else if !pageOk(start) then Report([], false, true)
    else
      var page := Page(items, start);
      if |page| < PAGE_SIZE then Report(AllEmits(page), false, false)
      else After(AllEmits(page), CrawlFrom(items, pageOk, start + PAGE_SIZE, processed + Identified(page)))
  }

  function Crawled(items: seq<Item>, pageOk: nat -> bool): Report {
    CrawlFrom(items, pageOk, 0, 0)
  }

  lemma NoIdNoEmits(it: Item)
    requires it.id.None?
    ensures ItemEmits(it) == []
  {
  }

  // ---------------------------------------------------------------------
  // What was emitted
  // ---------------------------------------------------------------------

  lemma {:induction false} AllEmitsSplit(a: seq<Item>, b: seq<Item>)
    ensures AllEmits(a + b) == AllEmits(a) + AllEmits(b)
    ensures Identified(a + b) == Identified(a) + Identified(b)
    decreases |b|
  {
    hide ItemEmits;
    if b == [] {
      assert a + b == a;
    } else {
      assert (a + b)[..|a + b| - 1] == a + b[..|b| - 1];
      AllEmitsSplit(a, b[..|b| - 1]);
    }
  }

  /** How far a crawl came: it emitted a prefix of the listing, and only an answer that
      neither failed nor was truncated stands for the whole of it. */
  lemma {:induction false} EmitsPrefix(items: seq<Item>, pageOk: nat -> bool, start: nat, processed: nat) returns (stop: nat)
    requires start <= |items| && start % PAGE_SIZE == 0
    ensures start <= stop <= |items|
    ensures CrawlFrom(items, pageOk, start, processed).emits == AllEmits(items[start..stop])
    ensures var rep := CrawlFrom(items, pageOk, start, processed);
            && !(rep.truncated && rep.failed)
            && (!rep.truncated && !rep.failed ==> stop == |items|)
            && (rep.truncated ==> stop % PAGE_SIZE == 0 && processed + Identified(items[start..stop]) >= MAX_ITEMS)
    decreases |items| - start
  {
    hide AllEmits, Identified;
    if processed >= MAX_ITEMS || !pageOk(start) {
      NothingEmitted();
      assert items[start..start] == [];
      return start;
    }
    var page := Page(items, start);
    if |page| < PAGE_SIZE {
      assert page == items[start..|items|];
      return |items|;
    }
    stop := EmitsPrefix(items, pageOk, start + PAGE_SIZE, processed + Identified(page));
    assert page + items[start + PAGE_SIZE..stop] == items[start..stop];
    AllEmitsSplit(page, items[start + PAGE_SIZE..stop]);
  }

  lemma NothingEmitted()
    ensures AllEmits([]) == [] && Identified([]) == 0
  {
  }

  /** A crawl that neither failed nor was truncated emitted the whole listing, in order. */
  lemma WholeListing(items: seq<Item>, pageOk: nat -> bool)
    requires !Crawled(items, pageOk).truncated && !Crawled(items, pageOk).failed
    ensures Crawled(items, pageOk).emits == AllEmits(items)
  {
    hide CrawlFrom;
    var stop := EmitsPrefix(items, pageOk, 0, 0);
    assert items[0..stop] == items;
  }

  /** With every page served, the crawl reports truncation exactly when the full pages
      of the listing hold the cap. */
  lemma TruncatedIff(items: seq<Item>, pageOk: nat -> bool)
    requires forall start :: pageOk(start)
    ensures !Crawled(items, pageOk).failed
    ensures Crawled(items, pageOk).truncated <==> Identified(items[..|items| - |items| % 100]) >= 2000
  {
    hide Identified, CrawlFrom;
    assert items[..0] == [];
    NothingEmitted();
    TruncatedFromIff(items, pageOk, 0, |items| / PAGE_SIZE);
  }

  /** From the page with index page on, of pages full ones. */
  lemma {:induction false} TruncatedFromIff(items: seq<Item>, pageOk: nat -> bool, page: nat, pages: nat)
    requires forall s :: pageOk(s)
    requires page <= pages && PAGE_SIZE * pages <= |items| < PAGE_SIZE * (pages + 1)
    ensures var rep := CrawlFrom(items, pageOk, PAGE_SIZE * page, Identified(items[..PAGE_SIZE * page]));
            && !rep.failed
            && (rep.truncated <==> Identified(items[..PAGE_SIZE * pages]) >= MAX_ITEMS)
    decreases pages - page
  {
    hide AllEmits, Identified;
    var start, full := PAGE_SIZE * page, PAGE_SIZE * pages;
    if Identified(items[..start]) >= MAX_ITEMS {
      assert items[..full] == items[..start] + items[start..full];
      AllEmitsSplit(items[..start], items[start..full]);
    } else if page < pages {
      assert items[..start + PAGE_SIZE] == items[..start] + Page(items, start);
      AllEmitsSplit(items[..start], Page(items, start));
      TruncatedFromIff(items, pageOk, page + 1, pages);
    }
  }

  // ---------------------------------------------------------------------
  // What is safe to prune
  // ---------------------------------------------------------------------

  /** The keys of the documents an item really has. */
  ghost function LiveOf(it: Item): set<Key> {
    if it.id.None? then {} else set i | 0 <= i < |it.docs| :: Key(it.id.value, it.docs[i].id)
  }

  ghost function Live(items: seq<Item>): set<Key> {
    set i, k | 0 <= i < |items| && k in LiveOf(items[i]) :: k
  }

  /** Listing the item returned a document of this id, or nothing at all and the
      placeholder happens to bear it. */
  ghost predicate Represented(it: Item, id: string) {
    || (exists j :: 0 <= j < |it.Shown()| && it.Shown()[j].id == id)
    || (it.Shown() == [] && it.id == Some(id))
  }

  /** Listing the item succeeded and returned all its documents (or what is missing
      hides behind the placeholder). */
  ghost predicate FullyListed(it: Item) {
    it.id.Some? ==> forall i :: 0 <= i < |it.docs| ==> Represented(it, it.docs[i].id)
  }

  /** The listing names each item once. */
  predicate ListedOnce(items: seq<Item>) {
    forall i, j :: 0 <= i < j < |items| && items[i].id.Some? ==> items[i].id != items[j].id
  }

  lemma ItemKeys(it: Item, k: Key)
    ensures k in KeysOf(ItemEmits(it)) <==> it.id == Some(k.item) && Represented(it, k.attachment)
  {
    var emits := ItemEmits(it);
    if it.id == Some(k.item) && Represented(it, k.attachment) {
      if it.Shown() == [] {
        assert emits[0].key == k;
      } else {
        var j :| 0 <= j < |it.Shown()| && it.Shown()[j].id == k.attachment;
        assert emits[j] == DocEmit(k.item, it.Shown()[j]);
      }
    }
    if k in KeysOf(emits) {
      var j :| 0 <= j < |emits| && emits[j].key == k;
      if it.Shown() != [] { assert it.Shown()[j].id == k.attachment; }
    }
  }

  lemma KeysOfBoth(a: seq<Emitted>, b: seq<Emitted>)
    ensures KeysOf(a + b) == KeysOf(a) + KeysOf(b)
  {
    forall k | k in KeysOf(a) + KeysOf(b) ensures k in KeysOf(a + b) {
      if k in KeysOf(a) {
        var i :| 0 <= i < |a| && a[i].key == k;
        assert (a + b)[i].key == k;
      } else {
        var i :| 0 <= i < |b| && b[i].key == k;
        assert (a + b)[|a| + i].key == k;
      }
    }
  }

  lemma NoKeys()
    ensures KeysOf([]) == {}
  {
  }

  lemma {:induction false} EmittedKeys(items: seq<Item>, k: Key)
    ensures k in KeysOf(AllEmits(items)) <==> exists i :: 0 <= i < |items| && k in KeysOf(ItemEmits(items[i]))
    decreases |items|
  {
    hide ItemEmits, KeysOf;
    if items == [] {
      NoKeys();
    } else {
      var init, it := items[..|items| - 1], items[|items| - 1];
      EmittedKeys(init, k);
      KeysOfBoth(AllEmits(init), ItemEmits(it));
      forall i | 0 <= i < |init| ensures init[i] == items[i] {}
    }
  }

  /** An untruncated crawl of a library emitted every live document if and only if every
      item was fully listed. */
  lemma AllLiveEmittedIff(items: seq<Item>)
    requires ListedOnce(items)
    ensures Live(items) <= KeysOf(AllEmits(items)) <==> forall i :: 0 <= i < |items| ==> FullyListed(items[i])
  {
    hide AllEmits, ItemEmits, KeysOf, Represented;
    if forall i :: 0 <= i < |items| ==> FullyListed(items[i]) {
      forall k | k in Live(items) ensures k in KeysOf(AllEmits(items)) {
        var i :| 0 <= i < |items| && k in LiveOf(items[i]);
        assert FullyListed(items[i]);
        ItemKeys(items[i], k);
        EmittedKeys(items, k);
      }
    }
    if Live(items) <= KeysOf(AllEmits(items)) {
      forall i | 0 <= i < |items| ensures FullyListed(items[i]) {
        LiveItemIsListed(items, i);
      }
    }
  }

  lemma LiveItemIsListed(items: seq<Item>, i: nat)
    requires ListedOnce(items) && i < |items| && Live(items) <= KeysOf(AllEmits(items))
    ensures FullyListed(items[i])
  {
    hide AllEmits, ItemEmits, KeysOf, Represented;
    var it := items[i];
    if it.id.Some? {
      forall d | 0 <= d < |it.docs| ensures Represented(it, it.docs[d].id) {
        var k := Key(it.id.value, it.docs[d].id);
        assert k in LiveOf(items[i]);
        EmittedKeys(items, k);
        var j :| 0 <= j < |items| && k in KeysOf(ItemEmits(items[j]));
        ItemKeys(items[j], k);
        assert j == i;
      }
    }
  }

  /** An update run fed by an untruncated, successful crawl of the library, whatever
      else happens in the run, prunes only documents that are gone if and only if
      every item was fully listed. */
  lemma PruningSafeIff(items: seq<Item>, pageOk: nat -> bool, r: Indexer.RunInput)
    requires ListedOnce(items) && FedBy(r, Crawled(items, pageOk)) && r.mode.Update?
    requires !Crawled(items, pageOk).truncated && !Crawled(items, pageOk).failed
    ensures PrunesOnlyGone(r, Live(items)) <==> forall i :: 0 <= i < |items| ==> FullyListed(items[i])
  {
    hide Crawled, AllEmits, PrunesOnlyGone, FedBy, Live, KeysOf, FullyListed;
    WholeListing(items, pageOk);
    PrunesOnlyGoneIff(r, Crawled(items, pageOk), Live(items));
    AllLiveEmittedIff(items);
  }

  /** A live document its item does not represent is pruned: an update fed by an
      untruncated, successful crawl leaves nothing of it. */
  lemma LostDocumentIsPruned(items: seq<Item>, pageOk: nat -> bool, w: Indexer.World, inst: string, db: Db, r: Indexer.RunInput,
                             i: nat, id: string)
    requires ListedOnce(items) && i < |items| && items[i].id.Some? && !Represented(items[i], id)
    requires FedBy(r, Crawled(items, pageOk)) && r.mode.Update? && !Indexer.Refuses(db, inst, r)
    requires !Crawled(items, pageOk).truncated && !Crawled(items, pageOk).failed
    requires var k := Key(items[i].id.value, id); View(db, inst, k).row.Some? && k !in r.chunksBad + r.rowBad
    ensures View(Indexer.Run(w, inst, db, r).db, inst, Key(items[i].id.value, id)) == ABSENT
  {
    hide Crawled, AllEmits, ItemEmits, FedBy, KeysOf, Represented, View, Indexer.Run, Indexer.Refuses;
    var k := Key(items[i].id.value, id);
    WholeListing(items, pageOk);
    EmittedKeys(items, k);
    forall j | 0 <= j < |items| ensures k !in KeysOf(ItemEmits(items[j])) {
      ItemKeys(items[j], k);
    }
    UnseenIsPruned(w, inst, db, r, Crawled(items, pageOk), k);
  }

  // ---------------------------------------------------------------------
  // No key twice
  // ---------------------------------------------------------------------

  predicate DocsOnce(docs: seq<Doc>) {
    forall i, j :: 0 <= i < j < |docs| ==> docs[i].id != docs[j].id
  }

  /** Where items and their documents are listed once, no key is emitted twice, and
      every emit asks for the default splitter. */
  lemma {:induction false} EmitsDistinct(items: seq<Item>)
    requires ListedOnce(items) && forall i :: 0 <= i < |items| ==> DocsOnce(items[i].Shown())
    ensures Distinct(AllEmits(items)) && forall i :: 0 <= i < |AllEmits(items)| ==> AllEmits(items)[i].dialect == ""
    decreases |items|
  {
    hide ItemEmits, DocsOnce;
    if items != [] {
      var init, it := items[..|items| - 1], items[|items| - 1];
      forall i | 0 <= i < |init| ensures init[i] == items[i] && DocsOnce(init[i].Shown()) {}
      EmitsDistinct(init);
      var a, b := AllEmits(init), ItemEmits(it);
      ItemEmitsDistinct(it);
      forall i, j | 0 <= i < |a| && 0 <= j < |b| ensures a[i].key != b[j].key {
        assert a[i].key in KeysOf(a) && b[j].key in KeysOf(b);
        EmittedKeys(init, a[i].key);
        var m :| 0 <= m < |init| && a[i].key in KeysOf(ItemEmits(init[m]));
        ItemKeys(init[m], a[i].key);
        ItemKeys(it, b[j].key);
      }
    }
  }

  lemma ItemEmitsDistinct(it: Item)
    requires DocsOnce(it.Shown())
    ensures Distinct(ItemEmits(it)) && forall i :: 0 <= i < |ItemEmits(it)| ==> ItemEmits(it)[i].dialect == ""
  {
  }

  /** What the index may rely on in any run fed by a crawl of this library. */
  lemma RunsAreWellFed(items: seq<Item>, pageOk: nat -> bool, r: Indexer.RunInput)
    requires FedBy(r, Crawled(items, pageOk))
    requires ListedOnce(items) && forall i :: 0 <= i < |items| ==> DocsOnce(items[i].Shown())
    ensures UpdateIsRebuild.NoRepeats(r.emissions) && Consistency.DialectsMatch((_: Key) => "", r.emissions)
  {
    hide CrawlFrom, AllEmits, DocsOnce, ListedOnce;
    var stop := EmitsPrefix(items, pageOk, 0, 0);
    var seen, emits := items[0..stop], Crawled(items, pageOk).emits;
    StillListedOnce(items, stop);
    EmitsDistinct(seen);
    forall i | 0 <= i < |emits| ensures r.emissions[i].dialect == "" {
      assert SameDocument(r.emissions[i], emits[i]);
    }
    forall i, j | 0 <= i < j < |r.emissions| ensures r.emissions[i].key != r.emissions[j].key {
      assert SameDocument(r.emissions[i], emits[i]) && SameDocument(r.emissions[j], emits[j]);
    }
  }

  lemma StillListedOnce(items: seq<Item>, stop: nat)
    requires stop <= |items| && ListedOnce(items) && forall i :: 0 <= i < |items| ==> DocsOnce(items[i].Shown())
    ensures ListedOnce(items[0..stop]) && forall i :: 0 <= i < stop ==> DocsOnce(items[0..stop][i].Shown())
  {
    hide DocsOnce;
  }

  // ---------------------------------------------------------------------
  // What is emitted, said of the documents
  // ---------------------------------------------------------------------

  /** The emit is of a document the item shows, with its text or nothing when it cannot
      be fetched; or it is the item's own, empty, when it shows none. */
  ghost predicate Reports(d: Emitted, it: Item) {
    it.id.Some? && d.key.item == it.id.value && d.dialect == ""
    && if it.Shown() == [] then d.key.attachment == it.id.value && d.text == ""
       else exists j :: 0 <= j < |it.Shown()| && d.key.attachment == it.Shown()[j].id
                        && d.text == if it.Shown()[j].fetched then it.Shown()[j].text else ""
  }

  lemma ItemEmitsAre(it: Item, d: Emitted)
    ensures d in ItemEmits(it) <==> Reports(d, it)
  {
    if Reports(d, it) {
      if it.Shown() == [] {
        assert ItemEmits(it)[0] == d;
      } else {
        var j :| 0 <= j < |it.Shown()| && d.key.attachment == it.Shown()[j].id
                 && d.text == if it.Shown()[j].fetched then it.Shown()[j].text else "";
        assert ItemEmits(it)[j] == d;
      }
    }
  }

  lemma {:induction false} AllEmitsAre(items: seq<Item>, d: Emitted)
    ensures d in AllEmits(items) <==> exists i :: 0 <= i < |items| && Reports(d, items[i])
    decreases |items|
  {
    hide ItemEmits, Reports;
    if items != [] {
      var n := |items| - 1;
      AllEmitsAre(items[..n], d);
      ItemEmitsAre(items[n], d);
      if i :| 0 <= i < n && Reports(d, items[..n][i]) { assert Reports(d, items[i]); }
      if i :| 0 <= i < |items| && Reports(d, items[i]) {
        if i < n { assert Reports(d, items[..n][i]); }
      }
    }
  }

  /** An untruncated, successful crawl emits every document its items show, with its own
      text, one empty placeholder for each item that shows none, and nothing else. */
  lemma CrawlReportsDocuments(items: seq<Item>, pageOk: nat -> bool, d: Emitted)
    requires !Crawled(items, pageOk).truncated && !Crawled(items, pageOk).failed
    ensures d in Crawled(items, pageOk).emits <==> exists i :: 0 <= i < |items| && Reports(d, items[i])
  {
    hide CrawlFrom, AllEmits, Reports;
    WholeListing(items, pageOk);
    AllEmitsAre(items, d);
  }

  /** A healthy Rebuild fed by such a crawl leaves, for each document shown, the row and
      complete chunk list of its text, and nothing when it is blank or chunkless. */
  lemma RebuildStoresDocument(items: seq<Item>, pageOk: nat -> bool, w: Indexer.World, inst: string, db: Db, r: Indexer.RunInput,
                              i: nat, j: nat)
    requires FedBy(r, Crawled(items, pageOk)) && !r.truncated && !r.crawlFailed
    requires ListedOnce(items) && forall n :: 0 <= n < |items| ==> DocsOnce(items[n].Shown())
    requires UpdateIsRebuild.NoFault(r) && r.mode.Rebuild?
    requires i < |items| && items[i].id.Some? && j < |items[i].Shown()|
    ensures var doc := items[i].Shown()[j];
            var text := if doc.fetched then doc.text else "";
            var cs := Indexer.Complete(w, r.Model(), "", text);
            View(Indexer.Run(w, inst, db, r).db, inst, Key(items[i].id.value, doc.id))
            == if Text.TrimSpace(text) == "" || cs == [] then ABSENT else KeyState(Some(DocRow(w.hash(text), |cs|)), cs)
  {
    hide Crawled, Indexer.Run, View, Indexer.Complete, Text.TrimSpace, UpdateIsRebuild.NoFault, DocsOnce, ListedOnce;
    var doc := items[i].Shown()[j];
    var k := Key(items[i].id.value, doc.id);
    var d := Emitted(k, "", if doc.fetched then doc.text else "");
    assert Reports(d, items[i]);
    CrawlReportsDocuments(items, pageOk, d);
    RunsAreWellFed(items, pageOk, r);
    var n :| 0 <= n < |Crawled(items, pageOk).emits| && Crawled(items, pageOk).emits[n] == d;
    assert SameDocument(r.emissions[n], Crawled(items, pageOk).emits[n]);
    Stored.RebuildLeaves(w, inst, db, r, k);
    assert r.emissions[n].key == k;
  }
}
