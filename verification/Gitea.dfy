/** The Gitea crawler (internal/index/source/gitea/gitea.go). */
module Gitea {
  import opened Wrappers
  import opened Store
  import opened Source
  import Consistency
  import Indexer
  import Stored
  import Text
  import UpdateIsRebuild

  const MAX_FILES: nat := 2000
  const MAX_REPOS: nat := 500
  const REPO_PAGE_SIZE: nat := 50

  /** One entry of a repository's tree; fetched says whether its blob can be read and
      decoded. */
  datatype Entry = Entry(kind: string, path: string, sha: string, fetched: bool, text: string)

  /** What listing a tree answers: nothing, or the entries and the server's own flag. */
  datatype Tree = NoTree | Tree(entries: seq<Entry>, truncated: bool)

  /** A repository as the server lists it.  files is what it really holds. */
  datatype Repo = Repo(owner: string, name: string, branch: string, empty: bool, tree: Tree, files: seq<Entry>)

  /** The repositories an instance covers: the one it pins (whose lookup may fail), or
      all the token can see, served in pages. */
  datatype Upstream = Pinned(repo: Option<Repo>) | Visible(repos: seq<Repo>, pageOk: nat -> bool)

  const DIALECTS: map<string, string> := map[".md" := "markdown", ".markdown" := "markdown", ".typ" := "typst"]

  /** The Kelvin sign is the one other character whose lower case is in an extension. */
  function LowerChar(c: char): char {
    if 'A' <= c <= 'Z' then c + 32 as char else if c == '\U{212A}' then 'k' else c
  }

  /** The text from the last dot on, in lower case. */
  function ExtensionOf(path: string): string {
    if path == "" then ""
    else if path[|path| - 1] == '.' then "."
    else
      var ext := ExtensionOf(path[..|path| - 1]);
      if ext == "" then "" else ext + [LowerChar(path[|path| - 1])]
  }

  predicate Candidate(e: Entry) {
    e.kind == "blob" && e.path != "" && e.sha != "" && ExtensionOf(e.path) in DIALECTS
  }

  function FileKey(r: Repo, path: string): Key {
    var key := r.owner + "/" + r.name + ":" + path;
    Key(key, key)
  }

  function FileEmit(r: Repo, e: Entry): Emitted
    requires Candidate(e)
  {
    Emitted(FileKey(r, e.path), DIALECTS[ExtensionOf(e.path)], if e.fetched then e.text else "")
  }

  /** One emit per candidate. */
  function FileEmits(r: Repo, entries: seq<Entry>): seq<Emitted> {
    if entries == [] then []
    else
      var e := entries[|entries| - 1];
      FileEmits(r, entries[..|entries| - 1]) + if Candidate(e) then [FileEmit(r, e)] else []
  }

  // ---------------------------------------------------------------------
  // Discovering repositories
  // ---------------------------------------------------------------------

  predicate Usable(r: Repo) {
    !r.empty && r.owner != "" && r.name != "" && r.branch != ""
  }

  function UsableRepos(repos: seq<Repo>): seq<Repo> {
    if repos == [] then []
    else
      var r := repos[|repos| - 1];
      UsableRepos(repos[..|repos| - 1]) + if Usable(r) then [r] else []
  }

  datatype Discovery = Discovery(repos: seq<Repo>, truncated: bool, failed: bool)

  function PageAt(repos: seq<Repo>, start: nat): (p: seq<Repo>)
    ensures |p| <= REPO_PAGE_SIZE
    ensures start <= |repos| ==> start + |p| <= |repos| && p == repos[start..start + |p|]
    ensures |p| < REPO_PAGE_SIZE && start <= |repos| ==> start + |p| == |repos|
  {
    if start >= |repos| then []
    else if start + REPO_PAGE_SIZE <= |repos| then repos[start..start + REPO_PAGE_SIZE]
    else repos[start..]
  }

  /** Add a page's usable repositories, up to the cap. */
  method AddPage(found: seq<Repo>, page: seq<Repo>) returns (repos: seq<Repo>, full: bool)
    requires |found| < MAX_REPOS
    ensures var all := found + UsableRepos(page);
            full == (|all| >= MAX_REPOS) && repos == if full then all[..MAX_REPOS] else all
  {
    repos := found;
    assert found + UsableRepos(page[..0]) == found;
    for i := 0 to |page|
      invariant repos == found + UsableRepos(page[..i]) && |repos| < MAX_REPOS
    {
      assert page[..i + 1][..i] == page[..i];
      if page[i].empty { continue; }
      if page[i].owner == "" || page[i].name == "" || page[i].branch == "" { continue; }
      repos := repos + [page[i]];
      if |repos| >= MAX_REPOS {
        UsablePrefix(page, i + 1);
        assert repos == found + UsableRepos(page[..i + 1]);
        assert (found + UsableRepos(page))[..MAX_REPOS] == repos;
        return repos, true;
      }
    }
    assert page[..|page|] == page;
    return repos, false;
  }

  lemma {:induction false} UsableSplit(a: seq<Repo>, b: seq<Repo>)
    ensures UsableRepos(a + b) == UsableRepos(a) + UsableRepos(b)
    decreases |b|
  {
    hide Usable;
    if b == [] {
      assert a + b == a;
    } else {
      assert (a + b)[..|a + b| - 1] == a + b[..|b| - 1];
      UsableSplit(a, b[..|b| - 1]);
    }
  }

  lemma UsablePrefix(repos: seq<Repo>, n: nat)
    requires n <= |repos|
    ensures UsableRepos(repos[..n]) <= UsableRepos(repos)
  {
    assert repos == repos[..n] + repos[n..];
    UsableSplit(repos[..n], repos[n..]);
  }

  /** After another page the repositories found are still a prefix of all usable ones. */
  lemma NextPage(repos: seq<Repo>, start: nat)
    requires start <= |repos|
    ensures var page := PageAt(repos, start);
            var found := UsableRepos(repos[..start]) + UsableRepos(page);
            && found == UsableRepos(repos[..start + |page|]) && |found| <= |UsableRepos(repos)|
            && forall n :: 0 <= n <= |found| ==> found[..n] == UsableRepos(repos)[..n]
  {
    hide UsableRepos, PageAt;
    var page := PageAt(repos, start);
    UsableSplit(repos[..start], page);
    assert repos[..start] + page == repos[..start + |page|];
    UsablePrefix(repos, start + |page|);
  }

  /** Page n of fifty repositories is asked for, the ones before it holding fewer than
      500 usable ones, and fails. */
  ghost predicate BadPage(repos: seq<Repo>, pageOk: nat -> bool, n: nat) {
    50 * n <= |repos| && |UsableRepos(repos[..50 * n])| < 500 && !pageOk(50 * n)
  }

  ghost predicate NoBadPage(repos: seq<Repo>, pageOk: nat -> bool, n: nat) {
    forall m: nat :: m < n ==> !BadPage(repos, pageOk, m)
  }

  /** All usable repositories, or the first 500 and the admission that there may be
      more; nothing exactly when a page before that fails. */
  ghost predicate Finds(repos: seq<Repo>, pageOk: nat -> bool, d: Discovery) {
    var all := UsableRepos(repos);
    if exists n: nat :: BadPage(repos, pageOk, n) then d == Discovery([], false, true)
    else d == Discovery(if |all| >= MAX_REPOS then all[..MAX_REPOS] else all, |all| >= MAX_REPOS, false)
  }

  ghost predicate Discovers(up: Upstream, d: Discovery) {
    match up
    case Pinned(repo) => d == if repo.None? then Discovery([], false, true) else Discovery([repo.value], false, false)
    case Visible(repos, pageOk) => Finds(repos, pageOk, d)
  }

  method DiscoverRepos(up: Upstream) returns (d: Discovery)
    ensures Discovers(up, d)
  {
    if up.Pinned? {
      if up.repo.None? { return Discovery([], false, true); }
      return Discovery([up.repo.value], false, false);
    }
    d := ListRepos(up.repos, up.pageOk);
  }

  /** The paging loop. */
  method ListRepos(listed: seq<Repo>, pageOk: nat -> bool) returns (d: Discovery)
    ensures Finds(listed, pageOk, d)
  {
    hide UsableRepos, PageAt, Usable, BadPage, Finds, NoBadPage;
    var repos: seq<Repo> := [];
    var start := 0;
    ghost var n := 0;
    NoRepos(listed);
    NoneYet(listed, pageOk);
    while true
      invariant 0 <= start == 50 * n <= |listed| && |repos| < MAX_REPOS && repos == UsableRepos(listed[..start])
      invariant NoBadPage(listed, pageOk, n)
      decreases |listed| - start
    {
      PageAsked(listed, pageOk, n);
      if !pageOk(start) { return Discovery([], false, true); }
      var page := PageAt(listed, start);
      var full: bool;
      NextPage(listed, start);
      repos, full := AddPage(repos, page);
      if full {
        NoPageAfter(listed, pageOk, n, start + |page|);
        return Discovery(repos, true, false);
      }
      if |page| < REPO_PAGE_SIZE {
        assert listed[..|listed|] == listed;
        NoPageAfter(listed, pageOk, n, |listed|);
        return Discovery(repos, false, false);
      }
      start, n := start + REPO_PAGE_SIZE, n + 1;
    }
  }

  lemma NoneYet(repos: seq<Repo>, pageOk: nat -> bool)
    ensures NoBadPage(repos, pageOk, 0)
  {
  }

  /** Asking for page n. */
  lemma PageAsked(repos: seq<Repo>, pageOk: nat -> bool, n: nat)
    requires 50 * n <= |repos| && |UsableRepos(repos[..50 * n])| < 500 && NoBadPage(repos, pageOk, n)
    ensures !pageOk(50 * n) ==> Finds(repos, pageOk, Discovery([], false, true))
    ensures pageOk(50 * n) ==> NoBadPage(repos, pageOk, n + 1)
  {
    hide UsableRepos;
    if !pageOk(50 * n) { assert BadPage(repos, pageOk, n); }
  }

  /** No page is asked for past the end, or once 500 are found. */
  lemma NoPageAfter(repos: seq<Repo>, pageOk: nat -> bool, n: nat, end: nat)
    requires end <= |repos| && end <= 50 * n + 50 && NoBadPage(repos, pageOk, n + 1)
    requires (end == |repos| && end < 50 * n + 50) || |UsableRepos(repos[..end])| >= 500
    ensures var all := UsableRepos(repos);
            Finds(repos, pageOk, Discovery(if |all| >= MAX_REPOS then all[..MAX_REPOS] else all, |all| >= MAX_REPOS, false))
  {
    hide UsableRepos;
    forall m: nat ensures !BadPage(repos, pageOk, m) {
      if m > n && 50 * m <= |repos| {
        assert repos[..50 * m][..end] == repos[..end];
        UsablePrefix(repos[..50 * m], end);
      }
    }
  }

  lemma NoRepos(repos: seq<Repo>)
    ensures UsableRepos(repos[..0]) == []
  {
  }

  // ---------------------------------------------------------------------
  // Walking repositories
  // ---------------------------------------------------------------------

  function Entries(r: Repo): seq<Entry> {
    if r.tree.NoTree? then [] else r.tree.entries
  }

  /** What a repository still adds when so many files have been fetched. */
  function Taken(r: Repo, fetched: nat): seq<Emitted> {
    var all := FileEmits(r, Entries(r));
    if fetched + |all| <= MAX_FILES then all else if fetched <= MAX_FILES then all[..MAX_FILES - fetched] else []
  }

  /** The crawl of the remaining repositories. */
  function CrawlRest(repos: seq<Repo>, truncated: bool, fetched: nat): Report
    decreases |repos|
  {
    if repos == [] then Report([], truncated, false)
    else if repos[0].tree.NoTree? then Report([], false, true)
    else
      var taken := Taken(repos[0], fetched);
      if fetched + |taken| >= MAX_FILES then Report(taken, true, false)
      else After(taken, CrawlRest(repos[1..], truncated || repos[0].tree.truncated, fetched + |taken|))
  }

  function Crawled(d: Discovery): Report {
    if d.failed then Report([], false, true) else CrawlRest(d.repos, d.truncated, 0)
  }

  /** A file that cannot be read or decoded is emitted with empty text. */
  method FetchFile(r: Repo, e: Entry, dialect: string, sink: Sink)
    requires Candidate(e) && dialect == DIALECTS[ExtensionOf(e.path)]
    modifies sink
    ensures sink.emitted == old(sink.emitted) + [FileEmit(r, e)]
  {
    hide ExtensionOf, DIALECTS;
    if !e.fetched {
      sink.Emit(Emitted(FileKey(r, e.path), dialect, ""));
    } else {
      sink.Emit(Emitted(FileKey(r, e.path), dialect, e.text));
    }
  }

  lemma NextEntry(r: Repo, entries: seq<Entry>, i: nat)
    requires i < |entries|
    ensures FileEmits(r, entries[..i + 1])
         == FileEmits(r, entries[..i]) + if Candidate(entries[i]) then [FileEmit(r, entries[i])] else []
  {
    hide Candidate, FileEmit;
    assert entries[..i + 1][..i] == entries[..i];
  }

  lemma NoEntries(r: Repo)
    ensures FileEmits(r, []) == []
  {
  }

  lemma {:induction false} EmitsGrow(r: Repo, entries: seq<Entry>, i: nat)
    requires i <= |entries|
    ensures FileEmits(r, entries[..i]) <= FileEmits(r, entries)
    decreases |entries| - i
  {
    hide Candidate, FileEmit, FileEmits;
    if i < |entries| {
      NextEntry(r, entries, i);
      EmitsGrow(r, entries, i + 1);
    } else {
      assert entries[..i] == entries;
    }
  }

  lemma GrowsBetween(r: Repo, entries: seq<Entry>, i: nat, j: nat)
    requires i <= j <= |entries|
    ensures |FileEmits(r, entries[..i])| <= |FileEmits(r, entries[..j])| <= |FileEmits(r, entries)|
  {
    hide FileEmits;
    assert entries[..j][..i] == entries[..i];
    EmitsGrow(r, entries[..j], i);
    EmitsGrow(r, entries, j);
  }

  /** The cap of the whole crawl is reached with entries of this tree still to come. */
  predicate CutShort(r: Repo, fetched: nat) {
    var entries := Entries(r);
    entries != [] && fetched + |FileEmits(r, entries[..|entries| - 1])| >= MAX_FILES
  }

  /** One repository: its candidates are fetched until the cap of the whole crawl. */
  method CrawlRepo(r: Repo, fetched: nat, sink: Sink) returns (fetched': nat, truncated: bool, failed: bool)
    requires fetched < MAX_FILES
    modifies sink
    ensures failed == r.tree.NoTree?
    ensures sink.emitted == old(sink.emitted) + Taken(r, fetched) && fetched' == fetched + |Taken(r, fetched)|
    ensures !failed ==> truncated == (r.tree.truncated || CutShort(r, fetched))
    ensures CutShort(r, fetched) ==> fetched' >= MAX_FILES
    ensures failed ==> fetched' == fetched
  {
    hide Candidate, FileEmit, FileEmits, ExtensionOf, DIALECTS;
    NoEntries(r);
    if r.tree.NoTree? { return fetched, false, true; }
    var entries := r.tree.entries;
    fetched' := fetched;
    ghost var emits: seq<Emitted> := [];
    for i := 0 to |entries|
      invariant emits == FileEmits(r, entries[..i]) && fetched' == fetched + |emits| <= MAX_FILES
      invariant sink.emitted == old(sink.emitted) + emits
      invariant i > 0 ==> fetched + |FileEmits(r, entries[..i - 1])| < MAX_FILES
    {
      EmitsGrow(r, entries, i);
      if fetched' >= MAX_FILES {
        GrowsBetween(r, entries, i, |entries| - 1);
        return fetched', true, false;
      }
      NextEntry(r, entries, i);
      var e := entries[i];
      if !Candidate(e) { continue; }
      CandidateHasDialect(e);
      fetched' := fetched' + 1;
      emits := emits + [FileEmit(r, e)];
      FetchFile(r, e, DIALECTS[ExtensionOf(e.path)], sink);
    }
    assert entries[..|entries|] == entries;
    if entries != [] { EmitsGrow(r, entries, |entries| - 1); }
    return fetched', r.tree.truncated, false;
  }

  lemma CandidateHasDialect(e: Entry)
    requires Candidate(e)
    ensures ExtensionOf(e.path) in DIALECTS
  {
  }

  /** The crawl emits, and returns, what Crawled says of the repositories discovered. */
  method Crawl(up: Upstream, sink: Sink) returns (ghost d: Discovery, truncated: bool, failed: bool)
    modifies sink
    ensures Discovers(up, d)
    ensures Report(sink.emitted, truncated, failed) == After(old(sink.emitted), Crawled(d))
  {
    hide Taken, CrawlRest, Discovers;
    var found := DiscoverRepos(up);
    d := found;
    if found.failed { return d, false, true; }
    truncated := found.truncated;
    var fetched: nat := 0;
    for i := 0 to |found.repos|
      invariant fetched < MAX_FILES
      invariant After(sink.emitted, CrawlRest(found.repos[i..], truncated, fetched)) == After(old(sink.emitted), Crawled(d))
    {
      NextRepo(sink.emitted, found.repos[i..], truncated, fetched);
      assert found.repos[i..][1..] == found.repos[i + 1..];
      var repoTruncated: bool, bad: bool;
      fetched, repoTruncated, bad := CrawlRepo(found.repos[i], fetched, sink);
      if bad { return d, false, true; }
      if repoTruncated { truncated := true; }
      if fetched >= MAX_FILES { return d, true, false; }
    }
    NoReposLeft(truncated, fetched);
    assert sink.emitted + [] == sink.emitted;
    return d, truncated, false;
  }

  lemma NoReposLeft(truncated: bool, fetched: nat)
    ensures CrawlRest([], truncated, fetched) == Report([], truncated, false)
  {
  }

  lemma NextRepo(done: seq<Emitted>, repos: seq<Repo>, truncated: bool, fetched: nat)
    requires repos != []
    ensures var r := repos[0];
            var taken := Taken(r, fetched);
            After(done, CrawlRest(repos, truncated, fetched)) ==
            if r.tree.NoTree? then Report(done, false, true)
            else if fetched + |taken| >= MAX_FILES then Report(done + taken, true, false)
            else After(done + taken, CrawlRest(repos[1..], truncated || r.tree.truncated, fetched + |taken|))
  {
    hide Taken;
    var r, taken := repos[0], Taken(repos[0], fetched);
    assert done + [] == done;
    if r.tree.Tree? {
      AfterTwice(done, taken, CrawlRest(repos[1..], truncated || r.tree.truncated, fetched + |taken|));
    }
  }

  // ---------------------------------------------------------------------
  // What an untruncated crawl saw
  // ---------------------------------------------------------------------

  /** All candidates the trees of the repositories list, in order. */
  function ListedEmits(repos: seq<Repo>): seq<Emitted> {
    if repos == [] then [] else FileEmits(repos[0], Entries(repos[0])) + ListedEmits(repos[1..])
  }

  /** A crawl emits a prefix of what the trees list; untruncated and without error, all
      of it, and then no tree was truncated by the server. */
  lemma {:induction false} EmitsListed(repos: seq<Repo>, truncated: bool, fetched: nat)
    ensures var rep := CrawlRest(repos, truncated, fetched);
            && rep.emits <= ListedEmits(repos)
            && (!rep.truncated && !rep.failed ==>
                  && !truncated && rep.emits == ListedEmits(repos)
                  && forall i :: 0 <= i < |repos| ==> repos[i].tree.Tree? && !repos[i].tree.truncated)
    decreases |repos|
  {
    hide FileEmits;
    if repos != [] && repos[0].tree.Tree? {
      var taken := Taken(repos[0], fetched);
      EmitsListed(repos[1..], truncated || repos[0].tree.truncated, fetched + |taken|);
    }
  }

  /** The server is honest: a tree it does not call truncated is complete. */
  ghost predicate Honest(r: Repo) {
    r.tree.Tree? && !r.tree.truncated ==> r.tree.entries == r.files
  }

  function Covered(up: Upstream): seq<Repo> {
    match up
    case Pinned(repo) => if repo.None? then [] else [repo.value]
    case Visible(repos, _) => UsableRepos(repos)
  }

  /** The keys of the candidate files the covered repositories really hold. */
  ghost function Live(up: Upstream): set<Key> {
    set i, j | 0 <= i < |Covered(up)| && 0 <= j < |Covered(up)[i].files| && Candidate(Covered(up)[i].files[j])
      :: FileKey(Covered(up)[i], Covered(up)[i].files[j].path)
  }

  lemma {:induction false} FileIsEmitted(r: Repo, entries: seq<Entry>, j: nat)
    requires j < |entries| && Candidate(entries[j])
    ensures exists n :: 0 <= n < |FileEmits(r, entries)| && FileEmits(r, entries)[n] == FileEmit(r, entries[j])
    decreases |entries|
  {
    hide Candidate, FileEmit;
    var last := |entries| - 1;
    if j < last {
      FileIsEmitted(r, entries[..last], j);
      var n :| 0 <= n < |FileEmits(r, entries[..last])| && FileEmits(r, entries[..last])[n] == FileEmit(r, entries[j]);
      assert FileEmits(r, entries)[n] == FileEmit(r, entries[j]);
    } else {
      var n := |FileEmits(r, entries[..last])|;
      assert FileEmits(r, entries)[n] == FileEmit(r, entries[j]);
    }
  }

  lemma {:induction false} RepoIsEmitted(repos: seq<Repo>, i: nat, n: nat)
    requires i < |repos| && n < |FileEmits(repos[i], Entries(repos[i]))|
    ensures FileEmits(repos[i], Entries(repos[i]))[n].key in KeysOf(ListedEmits(repos))
    decreases |repos|
  {
    hide FileEmits;
    var head, rest := FileEmits(repos[0], Entries(repos[0])), ListedEmits(repos[1..]);
    var key := FileEmits(repos[i], Entries(repos[i]))[n].key;
    if i == 0 {
      assert ListedEmits(repos)[n].key == key;
    } else {
      RepoIsEmitted(repos[1..], i - 1, n);
      var m :| 0 <= m < |rest| && rest[m].key == key;
      assert ListedEmits(repos)[|head| + m].key == key;
    }
  }

  /** Under every pattern of files that cannot be read: an update fed by an untruncated,
      successful crawl of an honest server prunes only files that are gone. */
  lemma PruningIsSafe(up: Upstream, d: Discovery, r: Indexer.RunInput)
    requires Discovers(up, d) && FedBy(r, Crawled(d)) && r.mode.Update?
    requires !Crawled(d).truncated && !Crawled(d).failed
    requires forall i :: 0 <= i < |Covered(up)| ==> Honest(Covered(up)[i])
    ensures PrunesOnlyGone(r, Live(up))
  {
    hide CrawlRest, FedBy, PrunesOnlyGone, KeysOf, ListedEmits, FileEmits, Candidate, UsableRepos, FileKey;
    EmitsListed(d.repos, d.truncated, 0);
    assert d.repos == Covered(up);
    PrunesOnlyGoneIff(r, Crawled(d), Live(up));
    forall k | k in Live(up) ensures k in KeysOf(Crawled(d).emits) {
      var i, j :| 0 <= i < |d.repos| && 0 <= j < |d.repos[i].files| && Candidate(d.repos[i].files[j])
                  && k == FileKey(d.repos[i], d.repos[i].files[j].path);
      LiveFileIsEmitted(d.repos, i, j);
    }
  }

  lemma LiveFileIsEmitted(repos: seq<Repo>, i: nat, j: nat)
    requires i < |repos| && repos[i].tree.Tree? && !repos[i].tree.truncated && Honest(repos[i])
    requires j < |repos[i].files| && Candidate(repos[i].files[j])
    ensures FileKey(repos[i], repos[i].files[j].path) in KeysOf(ListedEmits(repos))
  {
    hide ListedEmits, FileEmits, Candidate, KeysOf;
    var entries := repos[i].tree.entries;
    FileIsEmitted(repos[i], entries, j);
    var n :| 0 <= n < |FileEmits(repos[i], entries)| && FileEmits(repos[i], entries)[n] == FileEmit(repos[i], entries[j]);
    RepoIsEmitted(repos, i, n);
  }

  // ---------------------------------------------------------------------
  // Keys
  // ---------------------------------------------------------------------

  /** The splitter a document's key asks for. */
  function DialectOf(k: Key): string {
    if ExtensionOf(k.item) in DIALECTS then DIALECTS[ExtensionOf(k.item)] else ""
  }

  lemma {:induction false} ExtensionOfSuffix(prefix: string, path: string)
    requires ExtensionOf(path) != ""
    ensures ExtensionOf(prefix + path) == ExtensionOf(path)
    decreases |path|
  {
    var all := prefix + path;
    assert all[|all| - 1] == path[|path| - 1];
    if path[|path| - 1] != '.' {
      assert all[..|all| - 1] == prefix + path[..|path| - 1];
      ExtensionOfSuffix(prefix, path[..|path| - 1]);
    }
  }

  /** A document's dialect is a function of its key. */
  lemma DialectIsOfKey(r: Repo, e: Entry)
    requires Candidate(e)
    ensures FileEmit(r, e).dialect == DialectOf(FileEmit(r, e).key)
  {
    hide ExtensionOf;
    var prefix := r.owner + "/" + r.name + ":";
    assert ExtensionOf(e.path) != "" by { EmptyIsNoExtension(); }
    assert FileKey(r, e.path).item == prefix + e.path;
    ExtensionOfSuffix(prefix, e.path);
  }

  lemma EmptyIsNoExtension()
    ensures "" !in DIALECTS
  {
  }

  lemma CutAt(a: string, x: string, b: string, y: string, c: char)
    requires a + [c] + x == b + [c] + y && c !in a && c !in b
    ensures a == b && x == y
  {
    var s := a + [c] + x;
    assert forall i :: 0 <= i < |a| ==> s[i] == a[i];
    assert forall i :: 0 <= i < |b| ==> s[i] == b[i];
    assert s[|a|] == c && s[|b|] == c;
    assert a == s[..|a|] && b == s[..|b|] && x == s[|a| + 1..] && y == s[|b| + 1..];
  }

  predicate PlainNames(r: Repo) {
    '/' !in r.owner && ':' !in r.name
  }

  /** A key says which repository and which path it is for. */
  lemma FileKeyInjective(r: Repo, q: Repo, path: string, other: string)
    requires PlainNames(r) && PlainNames(q) && FileKey(r, path) == FileKey(q, other)
    ensures r.owner == q.owner && r.name == q.name && path == other
  {
    var x, y := r.name + [':'] + path, q.name + [':'] + other;
    assert FileKey(r, path).item == r.owner + ['/'] + x;
    assert FileKey(q, other).item == q.owner + ['/'] + y;
    CutAt(r.owner, x, q.owner, y, '/');
    CutAt(r.name, path, q.name, other, ':');
  }

  /** A tree names each path once. */
  predicate PathsOnce(entries: seq<Entry>) {
    forall i, j :: 0 <= i < j < |entries| ==> entries[i].path != entries[j].path
  }

  predicate ReposOnce(repos: seq<Repo>) {
    forall i, j :: 0 <= i < j < |repos| ==> repos[i].owner != repos[j].owner || repos[i].name != repos[j].name
  }

  /** Where an emit comes from. */
  ghost predicate EmitOf(r: Repo, entries: seq<Entry>, d: Emitted) {
    exists j :: 0 <= j < |entries| && Candidate(entries[j]) && d == FileEmit(r, entries[j])
  }

  lemma {:induction false} EmitsComeFromFiles(r: Repo, entries: seq<Entry>)
    ensures forall n :: 0 <= n < |FileEmits(r, entries)| ==> EmitOf(r, entries, FileEmits(r, entries)[n])
    decreases |entries|
  {
    hide Candidate, FileEmit;
    if entries != [] {
      var init := entries[..|entries| - 1];
      EmitsComeFromFiles(r, init);
      forall n | 0 <= n < |FileEmits(r, init)| ensures EmitOf(r, entries, FileEmits(r, init)[n]) {
        assert EmitOf(r, init, FileEmits(r, init)[n]);
        var j :| 0 <= j < |init| && Candidate(init[j]) && FileEmits(r, init)[n] == FileEmit(r, init[j]);
        assert init[j] == entries[j];
      }
    }
  }

  lemma {:induction false} RepoEmitsDistinct(r: Repo, entries: seq<Entry>)
    requires PlainNames(r) && PathsOnce(entries)
    ensures Distinct(FileEmits(r, entries))
    decreases |entries|
  {
    hide Candidate, FileKey, PlainNames;
    if entries != [] {
      var init, e := entries[..|entries| - 1], entries[|entries| - 1];
      RepoEmitsDistinct(r, init);
      EmitsComeFromFiles(r, init);
      if Candidate(e) {
        forall n | 0 <= n < |FileEmits(r, init)| ensures FileEmits(r, init)[n].key != FileEmit(r, e).key {
          assert EmitOf(r, init, FileEmits(r, init)[n]);
          var j :| 0 <= j < |init| && Candidate(init[j]) && FileEmits(r, init)[n] == FileEmit(r, init[j]);
          if FileKey(r, init[j].path) == FileKey(r, e.path) { FileKeyInjective(r, r, init[j].path, e.path); }
        }
      }
    }
  }

  ghost predicate EmitOfSome(repos: seq<Repo>, d: Emitted) {
    exists i :: 0 <= i < |repos| && EmitOf(repos[i], Entries(repos[i]), d)
  }

  lemma {:induction false} ListedComeFromFiles(repos: seq<Repo>)
    ensures forall n :: 0 <= n < |ListedEmits(repos)| ==> EmitOfSome(repos, ListedEmits(repos)[n])
    decreases |repos|
  {
    hide FileEmits, EmitOf;
    if repos != [] {
      var r, rest := repos[0], repos[1..];
      var a, b := FileEmits(r, Entries(r)), ListedEmits(rest);
      EmitsComeFromFiles(r, Entries(r));
      ListedComeFromFiles(rest);
      forall m | 0 <= m < |b| ensures EmitOfSome(repos, b[m]) {
        var i :| 0 <= i < |rest| && EmitOf(rest[i], Entries(rest[i]), b[m]);
        assert rest[i] == repos[i + 1];
      }
      forall n | 0 <= n < |a| ensures EmitOfSome(repos, a[n]) {
        assert EmitOf(repos[0], Entries(repos[0]), a[n]);
      }
    }
  }

  /** Whatever the crawl emits, it emits no key twice. */
  lemma {:induction false} ListedEmitsDistinct(repos: seq<Repo>)
    requires ReposOnce(repos)
    requires forall i :: 0 <= i < |repos| ==> PlainNames(repos[i]) && PathsOnce(Entries(repos[i]))
    ensures Distinct(ListedEmits(repos))
    decreases |repos|
  {
    hide FileEmits, EmitOf, PathsOnce, PlainNames;
    if repos != [] {
      var r, rest := repos[0], repos[1..];
      forall i | 0 <= i < |rest| ensures PlainNames(rest[i]) && PathsOnce(Entries(rest[i])) && rest[i] == repos[i + 1] {}
      ListedEmitsDistinct(rest);
      RepoEmitsDistinct(r, Entries(r));
      EmitsComeFromFiles(r, Entries(r));
      ListedComeFromFiles(rest);
      var a, b := FileEmits(r, Entries(r)), ListedEmits(rest);
      forall n, m | 0 <= n < |a| && 0 <= m < |b| ensures a[n].key != b[m].key {
        assert EmitOfSome(rest, b[m]);
        var i :| 0 <= i < |rest| && EmitOf(rest[i], Entries(rest[i]), b[m]);
        EmitsApart(r, rest[i], a[n], b[m]);
      }
    }
  }

  lemma EmitHasItsDialect(r: Repo, entries: seq<Entry>, d: Emitted)
    requires EmitOf(r, entries, d)
    ensures d.dialect == DialectOf(d.key)
  {
    hide Candidate, DialectOf, FileEmit;
    var j :| 0 <= j < |entries| && Candidate(entries[j]) && d == FileEmit(r, entries[j]);
    DialectIsOfKey(r, entries[j]);
  }

  lemma EmitsApart(r: Repo, q: Repo, d: Emitted, e: Emitted)
    requires EmitOf(r, Entries(r), d) && EmitOf(q, Entries(q), e)
    requires PlainNames(r) && PlainNames(q) && (r.owner != q.owner || r.name != q.name)
    ensures d.key != e.key
  {
    hide Candidate, FileKey, PlainNames;
    var i :| 0 <= i < |Entries(r)| && Candidate(Entries(r)[i]) && d == FileEmit(r, Entries(r)[i]);
    var j :| 0 <= j < |Entries(q)| && Candidate(Entries(q)[j]) && e == FileEmit(q, Entries(q)[j]);
    if d.key == e.key { FileKeyInjective(r, q, Entries(r)[i].path, Entries(q)[j].path); }
  }

  /** What the index may rely on in any run fed by a crawl of this upstream: no key is
      emitted twice, and every document is split as its key says. */
  lemma RunsAreWellFed(d: Discovery, r: Indexer.RunInput)
    requires FedBy(r, Crawled(d)) && ReposOnce(d.repos)
    requires forall i :: 0 <= i < |d.repos| ==> PlainNames(d.repos[i]) && PathsOnce(Entries(d.repos[i]))
    ensures UpdateIsRebuild.NoRepeats(r.emissions) && Consistency.DialectsMatch(DialectOf, r.emissions)
  {
    hide ListedEmits, PathsOnce, PlainNames, CrawlRest, DialectOf, EmitOf;
    var all, emits := ListedEmits(d.repos), Crawled(d).emits;
    ListedEmitsDistinct(d.repos);
    ListedComeFromFiles(d.repos);
    EmitsListed(d.repos, d.truncated, 0);
    forall n | 0 <= n < |emits| ensures SameDocument(r.emissions[n], all[n]) && all[n].dialect == DialectOf(all[n].key) {
      assert SameDocument(r.emissions[n], emits[n]) && EmitOfSome(d.repos, all[n]);
      var i :| 0 <= i < |d.repos| && EmitOf(d.repos[i], Entries(d.repos[i]), all[n]);
      EmitHasItsDialect(d.repos[i], Entries(d.repos[i]), all[n]);
    }
    forall i, j | 0 <= i < j < |r.emissions| ensures r.emissions[i].key != r.emissions[j].key {
      assert SameDocument(r.emissions[i], all[i]) && SameDocument(r.emissions[j], all[j]);
    }
  }

  // ---------------------------------------------------------------------
  // What is emitted, said of the files
  // ---------------------------------------------------------------------

  /** c is the letter e in either case; the Kelvin sign is a k too. */
  predicate IsLetter(c: char, e: char) {
    c == e || ('a' <= e <= 'z' && c as int + 32 == e as int) || (e == 'k' && c == '\U{212A}')
  }

  /** The path ends in ext, in whatever case. */
  ghost predicate EndsIn(path: string, ext: string) {
    |path| >= |ext| && forall k :: 0 <= k < |ext| ==> IsLetter(path[|path| - |ext| + k], ext[k])
  }

  lemma LowerIff(c: char, e: char)
    requires 'a' <= e <= 'z'
    ensures LowerChar(c) == e <==> IsLetter(c, e)
  {
  }

  lemma ExtensionStep(path: string)
    requires path != ""
    ensures var before, c := ExtensionOf(path[..|path| - 1]), path[|path| - 1];
            ExtensionOf(path) == if c == '.' then "." else if before == "" then "" else before + [LowerChar(c)]
  {
  }

  /** Whether an extension is a given one, which has a dot in front and nowhere else. */
  lemma {:induction false} ExtensionIff(path: string, ext: string)
    requires ext != "" && ext[0] == '.' && forall k :: 1 <= k < |ext| ==> 'a' <= ext[k] <= 'z'
    ensures ExtensionOf(path) == ext <==> EndsIn(path, ext)
    decreases |path|
  {
    hide ExtensionOf, LowerChar, EndsIn, IsLetter;
    if path == "" {
      NothingEndsIn(ext);
    } else {
      var n, m := |path| - 1, |ext| - 1;
      ExtensionStep(path);
      ShorterEnds(path, ext);
      assert ext == ext[..m] + [ext[m]];
      if m == 0 {
        DotEnds(path[..n], path[n]);
        assert |ExtensionOf(path[..n]) + [LowerChar(path[n])]| == |ExtensionOf(path[..n])| + 1;
      } else {
        ExtensionIff(path[..n], ext[..m]);
        LowerIff(path[n], ext[m]);
        DotIsNoLetter(ext[m]);
        assert ExtensionOf(path[..n]) + [LowerChar(path[n])] == ext <==>
          ExtensionOf(path[..n]) == ext[..m] && LowerChar(path[n]) == ext[m] by {
          var a := ExtensionOf(path[..n]);
          assert (a + [LowerChar(path[n])])[..|a|] == a;
        }
      }
    }
  }

  lemma NothingEndsIn(ext: string)
    requires ext != ""
    ensures ExtensionOf("") == "" && !EndsIn("", ext)
  {
  }

  lemma DotEnds(p: string, c: char)
    ensures EndsIn(p, "") && (IsLetter(c, '.') <==> c == '.')
  {
  }

  lemma DotIsNoLetter(e: char)
    requires 'a' <= e <= 'z'
    ensures !IsLetter('.', e)
  {
  }

  lemma ShorterEnds(path: string, ext: string)
    requires path != "" && ext != ""
    ensures EndsIn(path, ext) <==>
            EndsIn(path[..|path| - 1], ext[..|ext| - 1]) && IsLetter(path[|path| - 1], ext[|ext| - 1])
  {
    var n, m := |path| - 1, |ext| - 1;
    var p, e := path[..n], ext[..m];
    if EndsIn(path, ext) {
      assert IsLetter(path[|path| - |ext| + m], ext[m]);
      forall k | 0 <= k < m ensures IsLetter(p[n - m + k], e[k]) {
        assert IsLetter(path[|path| - |ext| + k], ext[k]);
      }
    }
    if EndsIn(p, e) && IsLetter(path[n], ext[m]) {
      forall k | 0 <= k < |ext| ensures IsLetter(path[|path| - |ext| + k], ext[k]) {
        if k < m { assert IsLetter(p[n - m + k], e[k]); }
      }
    }
  }

  /** The entry is a blob with a path, a sha and an extension of this dialect. */
  ghost predicate IsFile(e: Entry, dialect: string) {
    && e.kind == "blob" && e.path != "" && e.sha != ""
    && ((dialect == "markdown" && (EndsIn(e.path, ".md") || EndsIn(e.path, ".markdown")))
        || (dialect == "typst" && EndsIn(e.path, ".typ")))
  }

  /** The emit is that of this file: its key, its dialect, and its text or nothing when
      the blob cannot be read. */
  ghost predicate Reports(d: Emitted, r: Repo, e: Entry) {
    && IsFile(e, d.dialect)
    && d.key.item == d.key.attachment == r.owner + "/" + r.name + ":" + e.path
    && d.text == if e.fetched then e.text else ""
  }

  lemma ReportsIff(d: Emitted, r: Repo, e: Entry)
    ensures Reports(d, r, e) <==> Candidate(e) && d == FileEmit(r, e)
  {
    hide ExtensionOf, EndsIn;
    ExtensionIff(e.path, ".md");
    ExtensionIff(e.path, ".markdown");
    ExtensionIff(e.path, ".typ");
  }

  lemma {:induction false} FileEmitsAre(r: Repo, entries: seq<Entry>, d: Emitted)
    ensures d in FileEmits(r, entries) <==> exists j :: 0 <= j < |entries| && Reports(d, r, entries[j])
    decreases |entries|
  {
    hide Reports, Candidate, FileEmit;
    if entries != [] {
      var n := |entries| - 1;
      FileEmitsAre(r, entries[..n], d);
      ReportsIff(d, r, entries[n]);
      if j :| 0 <= j < n && Reports(d, r, entries[..n][j]) { assert Reports(d, r, entries[j]); }
      if j :| 0 <= j < |entries| && Reports(d, r, entries[j]) {
        if j < n { assert Reports(d, r, entries[..n][j]); }
      }
    }
  }

  ghost predicate ReportedBy(repos: seq<Repo>, d: Emitted) {
    exists i :: 0 <= i < |repos| && ReportedIn(repos[i], d)
  }

  ghost predicate ReportedIn(r: Repo, d: Emitted) {
    exists j :: 0 <= j < |Entries(r)| && Reports(d, r, Entries(r)[j])
  }

  lemma {:induction false} ListedEmitsAre(repos: seq<Repo>, d: Emitted)
    ensures d in ListedEmits(repos) <==> ReportedBy(repos, d)
    decreases |repos|
  {
    hide FileEmits, Reports;
    if repos != [] {
      var rest := repos[1..];
      FileEmitsAre(repos[0], Entries(repos[0]), d);
      ListedEmitsAre(rest, d);
      if i :| 0 <= i < |rest| && ReportedIn(rest[i], d) { assert ReportedIn(repos[i + 1], d); }
      if i :| 0 <= i < |repos| && ReportedIn(repos[i], d) {
        if i > 0 { assert ReportedIn(rest[i - 1], d); }
      }
    }
  }

  /** An untruncated, successful crawl emits every file of a known kind in the listed
      trees of the covered repositories, with its own text, and nothing else. */
  lemma CrawlReportsFiles(up: Upstream, d: Discovery, e: Emitted)
    requires Discovers(up, d) && !Crawled(d).truncated && !Crawled(d).failed
    ensures e in Crawled(d).emits <==> ReportedBy(Covered(up), e)
  {
    hide CrawlRest, ListedEmits, UsableRepos, ReportedBy;
    EmitsListed(d.repos, d.truncated, 0);
    assert d.repos == Covered(up);
    ListedEmitsAre(d.repos, e);
  }

  /** What a crawl covers: the pinned repository, or every one that is not empty and has
      an owner, a name and a branch. */
  lemma {:induction false} CoveredAre(repos: seq<Repo>, r: Repo)
    ensures r in UsableRepos(repos) <==> r in repos && !r.empty && r.owner != "" && r.name != "" && r.branch != ""
    decreases |repos|
  {
    if repos != [] { CoveredAre(repos[..|repos| - 1], r); }
  }

  /** A healthy Rebuild fed by such a crawl leaves, for each file that was read, the row
      and complete chunk list of its text, and nothing when it is blank or chunkless. */
  lemma RebuildStoresFile(up: Upstream, d: Discovery, w: Indexer.World, inst: string, db: Db, r: Indexer.RunInput,
                          i: nat, j: nat, dialect: string)
    requires Discovers(up, d) && FedBy(r, Crawled(d)) && !r.truncated && !r.crawlFailed
    requires ReposOnce(d.repos) && forall i :: 0 <= i < |d.repos| ==> PlainNames(d.repos[i]) && PathsOnce(Entries(d.repos[i]))
    requires UpdateIsRebuild.NoFault(r) && r.mode.Rebuild?
    requires i < |Covered(up)| && j < |Entries(Covered(up)[i])| && IsFile(Entries(Covered(up)[i])[j], dialect)
    ensures var repo, file := Covered(up)[i], Entries(Covered(up)[i])[j];
            var name := repo.owner + "/" + repo.name + ":" + file.path;
            var text := if file.fetched then file.text else "";
            var cs := Indexer.Complete(w, r.Model(), dialect, text);
            View(Indexer.Run(w, inst, db, r).db, inst, Key(name, name))
            == if Text.TrimSpace(text) == "" || cs == [] then ABSENT else KeyState(Some(DocRow(w.hash(text), |cs|)), cs)
  {
    hide Crawled, Indexer.Run, View, Indexer.Complete, Text.TrimSpace, UpdateIsRebuild.NoFault, UsableRepos, EndsIn, Discovers;
    var repo, file := Covered(up)[i], Entries(Covered(up)[i])[j];
    var name := repo.owner + "/" + repo.name + ":" + file.path;
    var e := Emitted(Key(name, name), dialect, if file.fetched then file.text else "");
    assert Reports(e, repo, file) && ReportedIn(Covered(up)[i], e);
    CrawlReportsFiles(up, d, e);
    RunsAreWellFed(d, r);
    var n :| 0 <= n < |Crawled(d).emits| && Crawled(d).emits[n] == e;
    assert SameDocument(r.emissions[n], Crawled(d).emits[n]);
    Stored.RebuildLeaves(w, inst, db, r, Key(name, name));
    assert r.emissions[n].key == Key(name, name);
  }

  /** When every tree can be listed, a crawl is truncated exactly when discovery was, or
      a tree was, or the trees list 2000 files or more. */
  lemma {:induction false} CrawlTruncatedIff(repos: seq<Repo>, truncated: bool, fetched: nat)
    requires fetched < 2000 && forall i :: 0 <= i < |repos| ==> repos[i].tree.Tree?
    ensures var rep := CrawlRest(repos, truncated, fetched);
            && !rep.failed
            && (rep.truncated <==> truncated || (exists i :: 0 <= i < |repos| && repos[i].tree.truncated)
                                   || fetched + |ListedEmits(repos)| >= 2000)
            && (fetched + |ListedEmits(repos)| >= 2000 ==> fetched + |rep.emits| == 2000)
    decreases |repos|
  {
    hide FileEmits;
    if repos != [] {
      var taken := Taken(repos[0], fetched);
      if fetched + |taken| < 2000 {
        CrawlTruncatedIff(repos[1..], truncated || repos[0].tree.truncated, fetched + |taken|);
        forall i | 0 <= i < |repos[1..]| ensures repos[1..][i] == repos[i + 1] {}
      }
    }
  }

  /** Discovery that does not fail takes the first 500 usable repositories, and calls
      itself truncated exactly when there are as many. */
  lemma ReposCap(repos: seq<Repo>, pageOk: nat -> bool, d: Discovery)
    requires Discovers(Visible(repos, pageOk), d) && !d.failed
    ensures d.truncated <==> |UsableRepos(repos)| >= 500
    ensures d.repos == if |UsableRepos(repos)| > 500 then UsableRepos(repos)[..500] else UsableRepos(repos)
  {
    hide UsableRepos;
  }
}
