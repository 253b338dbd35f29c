/** The Linkding crawler (internal/index/source/linkding/linkding.go). */
module Linkding {
  import opened Wrappers
  import opened Store
  import opened Source
  import opened Library
  import Indexer

  /** An asset of a bookmark; id is its numeric id if it has one. */
  datatype Asset = Asset(id: Option<int>, assetType: string, status: string, fetched: bool, html: string)

  /** A bookmark; listing its assets fails, or returns the first so many of them. */
  datatype Bookmark = Bookmark(id: Option<int>, listed: bool, assets: seq<Asset>, returned: nat)

  /** index.StripHTML. */
  type Stripper = string -> string

  function Digit(n: nat): char
    requires n < 10
  {
    "0123456789"[n]
  }

  function Decimal(n: nat): (s: string)
    ensures s != "" && forall i :: 0 <= i < |s| ==> s[i] != '-'
  {
    if n < 10 then [Digit(n)] else Decimal(n / 10) + [Digit(n % 10)]
  }

  /** strconv.Itoa. */
  function Itoa(n: int): string {
    if n < 0 then "-" + Decimal(-n) else Decimal(n)
  }

  lemma {:induction false} DecimalInjective(a: nat, b: nat)
    requires Decimal(a) == Decimal(b)
    ensures a == b
    decreases a
  {
    assert Decimal(a)[|Decimal(a)| - 1] == Digit(a % 10) && Decimal(b)[|Decimal(b)| - 1] == Digit(b % 10);
    if a >= 10 && b >= 10 {
      assert Decimal(a)[..|Decimal(a)| - 1] == Decimal(a / 10) && Decimal(b)[..|Decimal(b)| - 1] == Decimal(b / 10);
      DecimalInjective(a / 10, b / 10);
    }
  }

  /** Different numbers make different keys. */
  lemma ItoaInjective(a: int, b: int)
    requires Itoa(a) == Itoa(b)
    ensures a == b
  {
    assert (a < 0 <==> Itoa(a)[0] == '-') && (b < 0 <==> Itoa(b)[0] == '-');
    if a < 0 {
      assert Itoa(a)[1..] == Decimal(-a) && Itoa(b)[1..] == Decimal(-b);
      DecimalInjective(-a, -b);
    } else {
      DecimalInjective(a, b);
    }
  }

  /** The number a decimal text spells. */
  function Reading(s: string): int {
    if s == "" then 0 else 10 * Reading(s[..|s| - 1]) + (s[|s| - 1] as int - '0' as int)
  }

  /** A key is its number in decimal digits, without leading zeros. */
  lemma {:induction false} DecimalReads(n: nat)
    ensures Reading(Decimal(n)) == n && (forall i :: 0 <= i < |Decimal(n)| ==> '0' <= Decimal(n)[i] <= '9')
    ensures n > 0 ==> Decimal(n)[0] != '0'
    decreases n
  {
    var s, d := Decimal(n), Digit(n % 10);
    assert d as int == '0' as int + n % 10;
    if n >= 10 {
      DecimalReads(n / 10);
      assert s[..|s| - 1] == Decimal(n / 10) && s[|s| - 1] == d;
    } else {
      assert s[..0] == "" && s[0] == d;
    }
  }

  predicate IsSnapshot(a: Asset) {
    a.assetType == "snapshot" && a.status == "complete" && a.id.Some?
  }

  function Snapshots(strip: Stripper, assets: seq<Asset>): seq<Doc> {
    if assets == [] then []
    else
      var a := assets[|assets| - 1];
      Snapshots(strip, assets[..|assets| - 1])
      + if IsSnapshot(a) then [Doc(Itoa(a.id.value), a.fetched, strip(a.html))] else []
  }

  function Returned(b: Bookmark): seq<Asset> {
    if b.returned < |b.assets| then b.assets[..b.returned] else b.assets
  }

  function AsItem(strip: Stripper, b: Bookmark): Item {
    Item(if b.id.None? then None else Some(Itoa(b.id.value)), Snapshots(strip, b.assets),
         if b.listed then Some(Snapshots(strip, Returned(b))) else None)
  }

  function AsItems(strip: Stripper, bookmarks: seq<Bookmark>): (items: seq<Item>)
    ensures |items| == |bookmarks| && forall i :: 0 <= i < |bookmarks| ==> items[i] == AsItem(strip, bookmarks[i])
  {
    seq(|bookmarks|, i requires 0 <= i < |bookmarks| => AsItem(strip, bookmarks[i]))
  }

  method CrawlAsset(strip: Stripper, itemKey: string, assetId: int, a: Asset, sink: Sink)
    modifies sink
    ensures sink.emitted == old(sink.emitted) + [DocEmit(itemKey, Doc(Itoa(assetId), a.fetched, strip(a.html)))]
  {
    if !a.fetched {
      sink.Emit(Emitted(Key(itemKey, Itoa(assetId)), "", ""));
    } else {
      sink.Emit(Emitted(Key(itemKey, Itoa(assetId)), "", strip(a.html)));
    }
  }

  method CrawlBookmark(strip: Stripper, b: Bookmark, sink: Sink)
    requires b.id.Some?
    modifies sink
    ensures sink.emitted == old(sink.emitted) + ItemEmits(AsItem(strip, b))
  {
    hide Itoa;
    var itemKey := Itoa(b.id.value);
    if !b.listed {
      sink.Emit(Placeholder(itemKey));
      return;
    }
    var results := Returned(b);
    var visited := false;
    for i := 0 to |results|
      invariant sink.emitted == old(sink.emitted) + DocEmits(itemKey, Snapshots(strip, results[..i]))
      invariant visited <==> Snapshots(strip, results[..i]) != []
    {
      var asset := results[i];
      assert results[..i + 1][..i] == results[..i];
      if asset.assetType == "snapshot" && asset.status == "complete" && asset.id.Some? {
        visited := true;
        CrawlAsset(strip, itemKey, asset.id.value, asset, sink);
      }
    }
    assert results[..|results|] == results;
    if !visited {
      sink.Emit(Placeholder(itemKey));
    }
  }

  /** One page's bookmarks. */
  method CrawlPage(strip: Stripper, page: seq<Bookmark>, sink: Sink) returns (processed: nat)
    modifies sink
    ensures sink.emitted == old(sink.emitted) + AllEmits(AsItems(strip, page))
    ensures processed == Identified(AsItems(strip, page))
  {
    hide ItemEmits, Itoa, Snapshots;
    ghost var items := AsItems(strip, page);
    processed := 0;
    for i := 0 to |page|
      invariant sink.emitted == old(sink.emitted) + AllEmits(items[..i])
      invariant processed == Identified(items[..i])
    {
      assert items[..i + 1][..i] == items[..i];
      if page[i].id.None? {
        NoIdNoEmits(AsItem(strip, page[i]));
        continue;
      }
      CrawlBookmark(strip, page[i], sink);
      processed := processed + 1;
    }
    assert items[..|page|] == items;
  }

  /** The crawl emits, and returns, what Crawled says. */
  method Crawl(strip: Stripper, bookmarks: seq<Bookmark>, pageOk: nat -> bool, sink: Sink)
    returns (truncated: bool, failed: bool)
    modifies sink
    ensures Report(sink.emitted, truncated, failed)
         == After(old(sink.emitted), Crawled(AsItems(strip, bookmarks), pageOk))
  {
    hide AllEmits, Identified;
    ghost var items := AsItems(strip, bookmarks);
    var offset: nat, processed: nat := 0, 0;
    while processed < MAX_ITEMS
      invariant After(sink.emitted, CrawlFrom(items, pageOk, offset, processed))
             == After(old(sink.emitted), Crawled(items, pageOk))
      decreases |bookmarks| - offset
    {
      if !pageOk(offset) { return false, true; }
      var page := Page(bookmarks, offset);
      assert AsItems(strip, page) == Page(items, offset);
      if |page| == 0 {
        NothingEmitted();
        return false, false;
      }
      AfterTwice(sink.emitted, AllEmits(AsItems(strip, page)),
                 CrawlFrom(items, pageOk, offset + PAGE_SIZE, processed + Identified(AsItems(strip, page))));
      var n := CrawlPage(strip, page, sink);
      processed := processed + n;
      if |page| < PAGE_SIZE { return false, false; }
      offset := offset + PAGE_SIZE;
    }
    return true, false;
  }

  /** A bookmark whose asset listing succeeds and returns every asset is fully listed. */
  lemma ListedInFull(strip: Stripper, b: Bookmark)
    requires b.listed && |b.assets| <= b.returned
    ensures FullyListed(AsItem(strip, b))
  {
    var docs := Snapshots(strip, b.assets);
    forall i | 0 <= i < |docs| ensures Represented(AsItem(strip, b), docs[i].id) {
      assert AsItem(strip, b).Shown()[i] == docs[i];
    }
  }

  /** Bookmarks with distinct numbers are listed once. */
  lemma DistinctIdsListedOnce(strip: Stripper, bookmarks: seq<Bookmark>)
    requires forall i, j :: 0 <= i < j < |bookmarks| && bookmarks[i].id.Some? ==> bookmarks[i].id != bookmarks[j].id
    ensures ListedOnce(AsItems(strip, bookmarks))
  {
    hide Itoa;
    var items := AsItems(strip, bookmarks);
    forall i, j | 0 <= i < j < |items| && items[i].id.Some? ensures items[i].id != items[j].id {
      if items[i].id == items[j].id { ItoaInjective(bookmarks[i].id.value, bookmarks[j].id.value); }
    }
  }

  /** A bookmark whose assets cannot be listed this once loses every document it has but
      one that bears its own number: the crawl still succeeds untruncated, and the update
      prunes what is there. */
  lemma FailedListingPrunesLiveDocument(strip: Stripper, bookmarks: seq<Bookmark>, pageOk: nat -> bool, n: nat, id: string,
                                        w: Indexer.World, inst: string, db: Db, r: Indexer.RunInput)
    requires ListedOnce(AsItems(strip, bookmarks)) && n < |bookmarks|
    requires bookmarks[n].id.Some? && !bookmarks[n].listed && id != Itoa(bookmarks[n].id.value)
    requires FedBy(r, Crawled(AsItems(strip, bookmarks), pageOk)) && r.mode.Update? && !r.truncated && !r.crawlFailed
    requires !Indexer.Refuses(db, inst, r)
    requires var k := Key(Itoa(bookmarks[n].id.value), id); View(db, inst, k).row.Some? && k !in r.chunksBad + r.rowBad
    ensures View(Indexer.Run(w, inst, db, r).db, inst, Key(Itoa(bookmarks[n].id.value), id)) == ABSENT
  {
    hide Itoa, View, Indexer.Run, Indexer.Refuses, Crawled, ListedOnce;
    LostDocumentIsPruned(AsItems(strip, bookmarks), pageOk, w, inst, db, r, n, id);
  }

  // ---------------------------------------------------------------------
  // What is emitted, said of the assets
  // ---------------------------------------------------------------------

  lemma {:induction false} SnapshotsAre(strip: Stripper, assets: seq<Asset>, d: Doc)
    ensures d in Snapshots(strip, assets) <==> exists j :: 0 <= j < |assets| && IsDoc(strip, assets[j], d)
    decreases |assets|
  {
    hide Itoa;
    if assets != [] {
      var n := |assets| - 1;
      SnapshotsAre(strip, assets[..n], d);
      if j :| 0 <= j < n && IsDoc(strip, assets[..n][j], d) { assert IsDoc(strip, assets[j], d); }
      if j :| 0 <= j < |assets| && IsDoc(strip, assets[j], d) {
        if j < n { assert IsDoc(strip, assets[..n][j], d); }
      }
    }
  }

  /** The asset is a complete snapshot with a number, and d is it, stripped of markup. */
  ghost predicate IsDoc(strip: Stripper, a: Asset, d: Doc) {
    && a.assetType == "snapshot" && a.status == "complete" && a.id.Some?
    && d.id == Itoa(a.id.value) && d.fetched == a.fetched && d.text == strip(a.html)
  }

  /** Asset j of a listed bookmark reports d: a complete snapshot among those returned,
      with its text, or none when it cannot be fetched. */
  ghost predicate ReportsAsset(strip: Stripper, d: Emitted, b: Bookmark, j: nat)
    requires b.id.Some?
  {
    && b.listed && j < |b.assets| && j < b.returned
    && b.assets[j].assetType == "snapshot" && b.assets[j].status == "complete" && b.assets[j].id.Some?
    && d == Emitted(Key(Itoa(b.id.value), Itoa(b.assets[j].id.value)), "", if b.assets[j].fetched then strip(b.assets[j].html) else "")
  }

  /** What a crawl emits for a bookmark that shows an asset: exactly its snapshots. */
  lemma ReportsBookmark(strip: Stripper, d: Emitted, b: Bookmark)
    requires b.id.Some?
    ensures Reports(d, AsItem(strip, b)) <==>
            || (exists j: nat :: ReportsAsset(strip, d, b, j))
            || (d == Emitted(Key(Itoa(b.id.value), Itoa(b.id.value)), "", "") && AsItem(strip, b).Shown() == [])
    ensures AsItem(strip, b).Shown() == [] <==>
            !b.listed || forall j :: 0 <= j < |b.assets| && j < b.returned ==>
              !(b.assets[j].assetType == "snapshot" && b.assets[j].status == "complete" && b.assets[j].id.Some?)
  {
    hide Itoa, Snapshots;
    var visible := if b.listed then Returned(b) else [];
    var shown := AsItem(strip, b).Shown();
    NoSnapshots(strip);
    assert shown == Snapshots(strip, visible);
    assert forall j :: 0 <= j < |visible| ==> visible[j] == b.assets[j];
    forall x: Doc ensures x in shown <==> exists j :: 0 <= j < |visible| && IsDoc(strip, visible[j], x) {
      SnapshotsAre(strip, visible, x);
    }
    forall j | 0 <= j < |visible| && IsSnapshot(visible[j])
      ensures Doc(Itoa(visible[j].id.value), visible[j].fetched, strip(visible[j].html)) in shown
    {
      assert IsDoc(strip, visible[j], Doc(Itoa(visible[j].id.value), visible[j].fetched, strip(visible[j].html)));
    }
    if shown != [] { assert shown[0] in shown; }
    if Reports(d, AsItem(strip, b)) && shown != [] {
      var m :| 0 <= m < |shown| && d.key.attachment == shown[m].id && d.text == if shown[m].fetched then shown[m].text else "";
      assert shown[m] in shown;
      var j :| 0 <= j < |visible| && IsDoc(strip, visible[j], shown[m]);
      assert ReportsAsset(strip, d, b, j);
    }
    if j: nat :| ReportsAsset(strip, d, b, j) {
      assert visible[j] == b.assets[j];
      var x := Doc(Itoa(visible[j].id.value), visible[j].fetched, strip(visible[j].html));
      assert x in shown;
      var m :| 0 <= m < |shown| && shown[m] == x;
    }
  }

  lemma NoSnapshots(strip: Stripper)
    ensures Snapshots(strip, []) == []
  {
  }

  /** An untruncated, successful crawl emits, for every bookmark with a number, what
      ReportsBookmark says, and nothing else. */
  lemma CrawlReports(strip: Stripper, bookmarks: seq<Bookmark>, pageOk: nat -> bool, d: Emitted)
    requires !Crawled(AsItems(strip, bookmarks), pageOk).truncated && !Crawled(AsItems(strip, bookmarks), pageOk).failed
    ensures d in Crawled(AsItems(strip, bookmarks), pageOk).emits
       <==> exists n :: 0 <= n < |bookmarks| && bookmarks[n].id.Some? && Reports(d, AsItem(strip, bookmarks[n]))
  {
    hide Crawled, Snapshots, Reports, Itoa;
    var items := AsItems(strip, bookmarks);
    CrawlReportsDocuments(items, pageOk, d);
    forall n | 0 <= n < |bookmarks| ensures Reports(d, items[n]) ==> bookmarks[n].id.Some? {
      NamelessReportNothing(strip, d, bookmarks[n]);
    }
    if n :| 0 <= n < |bookmarks| && bookmarks[n].id.Some? && Reports(d, AsItem(strip, bookmarks[n])) {
      assert items[n] == AsItem(strip, bookmarks[n]);
    }
  }

  lemma NamelessReportNothing(strip: Stripper, d: Emitted, b: Bookmark)
    ensures Reports(d, AsItem(strip, b)) ==> b.id.Some?
  {
    hide Itoa, Snapshots;
  }
}
