/** The size-based splitter (internal/index/chunk.go). */
module Chunk {
  import opened Text
  import opened Utf8

  datatype Span = Span(index: nat, start: nat, end: nat, text: string)

  /** A stretch of the text, from rune start up to rune end. */
  datatype Window = Window(start: nat, end: nat)

  const DEFAULT_SIZE := 1000
  const DEFAULT_OVERLAP := 150

  /** The separators a cut prefers, best first. */
  const SEPARATORS: seq<string> := ["\n\n", ". ", "? ", "! ", "\n", " "]

  /** Where, in runes, the last sep of runes[from..to] ends, or -1:
      found by searching bytes and counting the runes before the match. */
  function LastIndexAfter(runes: string, from: nat, to: nat, sep: string): int
    requires from <= to <= |runes|
  {
    var s := EncodeAll(runes[from..to]);
    var i := LastIndexFrom(s, EncodeAll(sep), |s|);
    if i < 0 then -1 else from + RuneCount(s[..i]) + |sep|
  }

  /** sep ends at rune offset j, lying wholly within runes[from..to]. */
  predicate EndsAt(runes: string, from: nat, to: nat, sep: string, j: int) {
    && from + |sep| <= j <= to <= |runes|
    && runes[j - |sep|..j] == sep
  }

  /** r is the end of the last occurrence of sep inside runes[from..to]. */
  ghost predicate IsLastCut(runes: string, from: nat, to: nat, sep: string, r: int) {
    && EndsAt(runes, from, to, sep, r)
    && forall j :: r < j ==> !EndsAt(runes, from, to, sep, j)
  }

  ghost predicate NoCut(runes: string, from: nat, to: nat, sep: string) {
    forall j :: !EndsAt(runes, from, to, sep, j)
  }

  /** The byte search finds the last occurrence over runes, for every text. */
  lemma LastIndexAfterIsLastCut(runes: string, from: nat, to: nat, sep: string)
    requires from <= to <= |runes| && Ascii(sep) && sep != []
    ensures var r := LastIndexAfter(runes, from, to, sep);
            (r > 0 && IsLastCut(runes, from, to, sep, r)) || (r == -1 && NoCut(runes, from, to, sep))
  {
    hide EncodeAll, RuneCount;
    var window := runes[from..to];
    LastIndexInRunes(window, sep);
    forall k
      ensures OccursAt(window, sep, k - |sep| - from) <==> EndsAt(runes, from, to, sep, k)
    {
      if from + |sep| <= k <= to {
        SliceOfSlice(runes, from, to, k - |sep| - from, k - from);
      }
    }
  }

  /** Look back from a raw cut for the best separator in the last third. */
  function BreakPoint(runes: string, start: nat, rawEnd: nat): (r: nat)
    requires start < rawEnd <= |runes|
    ensures rawEnd - (rawEnd - start) / 3 <= r <= rawEnd
  {
    var minCut := rawEnd - (rawEnd - start) / 3;
    FirstCut(runes, minCut, rawEnd, SEPARATORS)
  }

  /** The first separator that occurs decides; with none, the raw cut stands. */
  function FirstCut(runes: string, minCut: nat, rawEnd: nat, seps: seq<string>): (r: nat)
    requires minCut <= rawEnd <= |runes|
    requires forall sep :: sep in seps ==> Ascii(sep) && sep != []
    ensures minCut <= r <= rawEnd
  {
    if seps == [] then rawEnd
    else
      LastIndexAfterIsLastCut(runes, minCut, rawEnd, seps[0]);
      var i := LastIndexAfter(runes, minCut, rawEnd, seps[0]);
      if i > 0 then i else FirstCut(runes, minCut, rawEnd, seps[1..])
  }

  /** r is the end of the last occurrence of the best separator present in the
      window, or the raw end exactly when no separator is present. */
  ghost predicate BestCut(runes: string, lo: nat, hi: nat, seps: seq<string>, r: int) {
    || (exists n :: 0 <= n < |seps| && IsLastCut(runes, lo, hi, seps[n], r)
                    && forall m :: 0 <= m < n ==> NoCut(runes, lo, hi, seps[m]))
    || (r == hi && forall m :: 0 <= m < |seps| ==> NoCut(runes, lo, hi, seps[m]))
  }

  lemma {:induction false} FirstCutIsBest(runes: string, minCut: nat, rawEnd: nat, seps: seq<string>)
    requires minCut <= rawEnd <= |runes|
    requires forall sep :: sep in seps ==> Ascii(sep) && sep != []
    ensures BestCut(runes, minCut, rawEnd, seps, FirstCut(runes, minCut, rawEnd, seps))
  {
    if seps != [] {
      LastIndexAfterIsLastCut(runes, minCut, rawEnd, seps[0]);
      if LastIndexAfter(runes, minCut, rawEnd, seps[0]) > 0 {
        assert IsLastCut(runes, minCut, rawEnd, seps[0], FirstCut(runes, minCut, rawEnd, seps));
      } else {
        var rest := seps[1..];
        FirstCutIsBest(runes, minCut, rawEnd, rest);
        var r := FirstCut(runes, minCut, rawEnd, rest);
        forall m | 0 < m < |seps| ensures seps[m] == rest[m - 1] {}
        if n :| 0 <= n < |rest| && IsLastCut(runes, minCut, rawEnd, rest[n], r)
                && forall m :: 0 <= m < n ==> NoCut(runes, minCut, rawEnd, rest[m]) {
          assert IsLastCut(runes, minCut, rawEnd, seps[n + 1], r);
        }
      }
    }
  }

  /** The window that starts at start: up to size runes, cut at a break point
      unless it reaches the end of the text. */
  function WindowEnd(runes: string, size: nat, start: nat): (end: nat)
    requires 0 < size && start < |runes|
    ensures start < end <= |runes|
  {
    if start + size >= |runes| then |runes| else BreakPoint(runes, start, start + size)
  }

  /** Every window [start, end) the splitter visits, from a given start on. */
  function Windows(runes: string, size: nat, overlap: nat, start: nat): (ws: seq<Window>)
    requires 0 < size && start < |runes|
    ensures ws != [] && ws[0] == Window(start, WindowEnd(runes, size, start))
    decreases |runes| - start
  {
    var end := WindowEnd(runes, size, start);
    if end >= |runes| then [Window(start, end)]
    else [Window(start, end)] + Windows(runes, size, overlap, NextStart(start, end, overlap))
  }

  function NextStart(start: nat, end: nat, overlap: nat): (next: nat)
    requires start < end
    ensures start < next <= end
  {
    if end - overlap <= start then end else end - overlap
  }

  ghost predicate WithinText(ws: seq<Window>, runes: string) {
    forall i :: 0 <= i < |ws| ==> ws[i].start <= ws[i].end <= |runes|
  }

  /** A blank window adds no span; any other is numbered after its predecessors. */
  function AddSpan(runes: string, w: Window, acc: seq<Span>): seq<Span>
    requires w.start <= w.end <= |runes|
  {
    var chunk := TrimSpace(runes[w.start..w.end]);
    if chunk == "" then acc else acc + [Span(|acc|, w.start, w.end, chunk)]
  }

  function SpansOf(runes: string, ws: seq<Window>, acc: seq<Span>): seq<Span>
    requires WithinText(ws, runes)
  {
    if ws == [] then acc else SpansOf(runes, ws[1..], AddSpan(runes, ws[0], acc))
  }

  /** The arguments after ChunkSize has replaced unusable ones. */
  function EffectiveSize(size: int): (s: nat)
    ensures s > 0
  {
    if size <= 0 then DEFAULT_SIZE else size
  }

  function EffectiveOverlap(size: int, overlap: int): (o: nat)
    ensures o < EffectiveSize(size)
  {
    if overlap < 0 || overlap >= EffectiveSize(size) then 0 else overlap
  }

  function AllWindows(text: string, size: int, overlap: int): (ws: seq<Window>) {
    if text == "" then [] else Windows(text, EffectiveSize(size), EffectiveOverlap(size, overlap), 0)
  }

  lemma {:induction false} WindowsInBounds(runes: string, size: nat, overlap: nat, start: nat)
    requires 0 < size && start < |runes|
    ensures WithinText(Windows(runes, size, overlap, start), runes)
    decreases |runes| - start
  {
    var end := WindowEnd(runes, size, start);
    if end < |runes| {
      WindowsInBounds(runes, size, overlap, NextStart(start, end, overlap));
    }
  }

  function Spans(text: string, size: int, overlap: int): seq<Span> {
    if text == "" then []
    else
      WindowsInBounds(text, EffectiveSize(size), EffectiveOverlap(size, overlap), 0);
      SpansOf(text, AllWindows(text, size, overlap), [])
  }

  /** One turn of the splitter's loop. */
  lemma LoopStep(text: string, size: nat, overlap: nat, start: nat, acc: seq<Span>)
    requires 0 < size && start < |text|
    requires WithinText(Windows(text, size, overlap, start), text)
    ensures var ws := Windows(text, size, overlap, start);
            var end := WindowEnd(text, size, start);
            var rest := if end >= |text| then [] else Windows(text, size, overlap, NextStart(start, end, overlap));
            && WithinText(rest, text)
            && SpansOf(text, ws, acc) == SpansOf(text, rest, AddSpan(text, Window(start, end), acc))
  {
    hide BreakPoint, AddSpan;
    var ws := Windows(text, size, overlap, start);
    var end := WindowEnd(text, size, start);
    if end < |text| {
      assert ws[1..] == Windows(text, size, overlap, NextStart(start, end, overlap));
    }
  }

  method ChunkSize(text: string, size: int, overlap: int) returns (spans: seq<Span>)
    ensures spans == Spans(text, size, overlap)
  {
    hide BreakPoint, TrimSpace, Windows, SpansOf;
    if |text| == 0 { return []; }
    var sz, ov := size, overlap;
    if sz <= 0 { sz := DEFAULT_SIZE; }
    if ov < 0 || ov >= sz { ov := 0; }
    spans := [];
    var start := 0;
    WindowsInBounds(text, sz, ov, 0);
    ghost var rest := Windows(text, sz, ov, 0);
    while start < |text|
      invariant 0 <= start <= |text|
      invariant rest == if start < |text| then Windows(text, sz, ov, start) else []
      invariant WithinText(rest, text)
      invariant SpansOf(text, rest, spans) == Spans(text, size, overlap)
    {
      LoopStep(text, sz, ov, start, spans);
      var end := start + sz;
      if end >= |text| {
        end := |text|;
      } else {
        end := BreakPoint(text, start, end);
      }
      var chunk := TrimSpace(text[start..end]);
      if chunk != "" {
        spans := spans + [Span(|spans|, start, end, chunk)];
      }
      if end >= |text| {
        rest := [];
        break;
      }
      var next := end - ov;
      if next <= start {
        next := end;
      }
      start := next;
      rest := Windows(text, sz, ov, start);
    }
    assert SpansOf(text, [], spans) == spans by { NoWindows(text, spans); }
  }

  lemma NoWindows(text: string, acc: seq<Span>)
    ensures SpansOf(text, [], acc) == acc
  {
  }

  // ---------------------------------------------------------------------
  // What the windows cover
  // ---------------------------------------------------------------------

  /** The least length of a window that does not reach the end of the text: a cut
      at a separator lies strictly after the first two thirds. */
  function LeastWindow(size: nat): nat {
    if size / 3 == 0 then size else size - size / 3 + 1
  }

  /** A window that does not reach the end of the text is cut at the last
      occurrence, in its last third, of the best separator there; it is cut raw
      exactly when there is none. */
  lemma CutIsBest(runes: string, size: nat, start: nat)
    requires 0 < size && start + size < |runes|
    ensures BestCut(runes, start + size - size / 3, start + size, ["\n\n", ". ", "? ", "! ", "\n", " "],
                    WindowEnd(runes, size, start))
  {
    hide FirstCut, BestCut;
    FirstCutIsBest(runes, start + size - size / 3, start + size, SEPARATORS);
  }

  lemma CutLength(runes: string, size: nat, start: nat)
    requires 0 < size && start + size < |runes|
    ensures LeastWindow(size) <= WindowEnd(runes, size, start) - start <= size
  {
    CutIsBest(runes, size, start);
  }

  /** w does not reach the end of the text, so it is between LeastWindow and size
      runes long; next starts inside it or right at its end, exactly overlap runes
      back whenever overlap is less than the shortest window. */
  ghost predicate Follows(runes: string, size: nat, overlap: nat, w: Window, next: Window) {
    && w.start + size < |runes|
    && LeastWindow(size) <= w.end - w.start <= size
    && w.start < next.start <= w.end
    && (overlap < LeastWindow(size) ==> next.start == w.end - overlap)
  }

  /** Windows tile the text from start on: they leave no gap up to its end, each
      follows the one before, and none is empty or longer than size. */
  ghost predicate Tiles(runes: string, size: nat, overlap: nat, ws: seq<Window>, start: nat) {
    && ws != [] && ws[0].start == start && ws[|ws| - 1].end == |runes|
    && (forall i :: 0 <= i < |ws| ==> ws[i].start < ws[i].end <= |runes| && ws[i].end - ws[i].start <= size)
    && (forall i :: 0 <= i < |ws| - 1 ==> Follows(runes, size, overlap, ws[i], ws[i + 1]))
  }

  lemma {:induction false} WindowsTile(runes: string, size: nat, overlap: nat, start: nat)
    requires overlap < size && start < |runes|
    ensures Tiles(runes, size, overlap, Windows(runes, size, overlap, start), start)
    decreases |runes| - start
  {
    hide BreakPoint;
    var ws := Windows(runes, size, overlap, start);
    var end := WindowEnd(runes, size, start);
    if end < |runes| {
      CutLength(runes, size, start);
      var next := NextStart(start, end, overlap);
      WindowsTile(runes, size, overlap, next);
      var rest := Windows(runes, size, overlap, next);
      assert ws == [Window(start, end)] + rest;
      assert Follows(runes, size, overlap, ws[0], ws[1]);
      forall i | 1 <= i < |ws| - 1 ensures Follows(runes, size, overlap, ws[i], ws[i + 1]) {
        assert ws[i] == rest[i - 1] && ws[i + 1] == rest[i];
      }
    }
  }

  lemma WindowFits(runes: string, size: nat, overlap: nat, j: nat)
    requires overlap < size && runes != "" && j < |Windows(runes, size, overlap, 0)|
    ensures var w := Windows(runes, size, overlap, 0)[j];
            w.start < w.end <= |runes| && w.end - w.start <= size
  {
    hide Windows;
    WindowsTile(runes, size, overlap, 0);
  }

  lemma {:induction false} WindowHolding(runes: string, size: nat, overlap: nat, start: nat, p: nat) returns (i: nat)
    requires overlap < size && start <= p < |runes|
    ensures var ws := Windows(runes, size, overlap, start);
            i < |ws| && ws[i].start <= p < ws[i].end
    decreases |runes| - start
  {
    hide BreakPoint;
    var end := WindowEnd(runes, size, start);
    if p < end {
      i := 0;
    } else {
      i := WindowHolding(runes, size, overlap, NextStart(start, end, overlap), p);
      i := i + 1;
    }
  }

  /** A size that is not positive is 1000, and an overlap that is negative or not less
      than the size is none. */
  lemma UnusableArguments(text: string, size: int, overlap: int)
    ensures size <= 0 ==> Spans(text, size, overlap) == Spans(text, 1000, overlap)
    ensures overlap < 0 || overlap >= (if size <= 0 then 1000 else size) ==> Spans(text, size, overlap) == Spans(text, size, 0)
  {
    hide Windows, SpansOf;
  }

  // ---------------------------------------------------------------------
  // What the spans hold
  // ---------------------------------------------------------------------

  /** sp is what the splitter makes of window w. */
  ghost predicate IsSpanOf(runes: string, sp: Span, w: Window) {
    && w.start <= w.end <= |runes|
    && sp.start == w.start && sp.end == w.end
    && sp.text == TrimSpace(runes[w.start..w.end]) && sp.text != ""
  }

  ghost predicate FromSomeWindow(runes: string, sp: Span, ws: seq<Window>) {
    exists j :: 0 <= j < |ws| && IsSpanOf(runes, sp, ws[j])
  }

  ghost predicate InSomeSpan(runes: string, w: Window, spans: seq<Span>) {
    exists i :: 0 <= i < |spans| && IsSpanOf(runes, spans[i], w)
  }

  predicate Blank(runes: string, w: Window)
    requires w.start <= w.end <= |runes|
  {
    TrimSpace(runes[w.start..w.end]) == ""
  }

  /** Spans are numbered by position and come from windows. */
  lemma {:induction false} SpansComeFromWindows(runes: string, ws: seq<Window>, acc: seq<Span>)
    requires WithinText(ws, runes)
    ensures var r := SpansOf(runes, ws, acc);
            && acc <= r && |r| <= |acc| + |ws|
            && forall i :: |acc| <= i < |r| ==> r[i].index == i && FromSomeWindow(runes, r[i], ws)
    decreases |ws|
  {
    hide TrimSpace;
    if ws != [] {
      var acc' := AddSpan(runes, ws[0], acc);
      var rest := ws[1..];
      SpansComeFromWindows(runes, rest, acc');
      var r := SpansOf(runes, ws, acc);
      forall i | |acc| <= i < |r| ensures r[i].index == i && FromSomeWindow(runes, r[i], ws) {
        if i < |acc'| {
          assert r[i] == acc'[i] && IsSpanOf(runes, r[i], ws[0]);
        } else {
          var j :| 0 <= j < |rest| && IsSpanOf(runes, r[i], rest[j]);
          assert IsSpanOf(runes, r[i], ws[j + 1]);
        }
      }
    }
  }

  /** Every window that is not blank has a span. */
  lemma {:induction false} WindowsBecomeSpans(runes: string, ws: seq<Window>, acc: seq<Span>, j: nat)
    requires WithinText(ws, runes) && j < |ws| && !Blank(runes, ws[j])
    ensures InSomeSpan(runes, ws[j], SpansOf(runes, ws, acc))
    decreases |ws|
  {
    hide TrimSpace;
    var acc' := AddSpan(runes, ws[0], acc);
    var r := SpansOf(runes, ws, acc);
    SpansComeFromWindows(runes, ws[1..], acc');
    if j == 0 {
      assert r[|acc|] == acc'[|acc|] && IsSpanOf(runes, r[|acc|], ws[0]);
    } else {
      WindowsBecomeSpans(runes, ws[1..], acc', j - 1);
    }
  }

  /** The span's text is text[from..to], inside the span's window. */
  ghost predicate IsStretch(text: string, sp: Span, from: nat, to: nat) {
    && sp.start <= from < to <= sp.end <= |text|
    && sp.text == text[from..to]
  }

  /** Every span is a stretch of the text, numbered by its position. */
  lemma SpanIsStretch(text: string, size: int, overlap: int, i: nat) returns (from: nat, to: nat)
    requires i < |Spans(text, size, overlap)|
    ensures var sp := Spans(text, size, overlap)[i];
            && sp.index == i && IsStretch(text, sp, from, to) && to - from <= EffectiveSize(size)
            && sp.text == TrimSpace(text[sp.start..sp.end])
  {
    hide TrimSpace, BreakPoint, Windows, SpansOf, IsSpace;
    var sz, ov := EffectiveSize(size), EffectiveOverlap(size, overlap);
    WindowsInBounds(text, sz, ov, 0);
    var ws := Windows(text, sz, ov, 0);
    SpansComeFromWindows(text, ws, []);
    var j :| 0 <= j < |ws| && IsSpanOf(text, Spans(text, size, overlap)[i], ws[j]);
    WindowFits(text, sz, ov, j);
    from, to := TrimStretch(text, ws[j].start, ws[j].end);
  }

  /** Every visible rune is in some span, at its own place. */
  lemma SpansShow(text: string, size: int, overlap: int, p: nat) returns (i: nat, from: nat, to: nat)
    requires p < |text| && !IsSpace(text[p])
    ensures i < |Spans(text, size, overlap)| && from <= p < to && to - from <= EffectiveSize(size)
    ensures IsStretch(text, Spans(text, size, overlap)[i], from, to)
  {
    hide TrimSpace, BreakPoint, Windows, SpansOf, IsSpace;
    var sz, ov := EffectiveSize(size), EffectiveOverlap(size, overlap);
    WindowsInBounds(text, sz, ov, 0);
    var ws := Windows(text, sz, ov, 0);
    var j := WindowHolding(text, sz, ov, 0, p);
    WindowFits(text, sz, ov, j);
    from, to := TrimStretch(text, ws[j].start, ws[j].end);
    WindowsBecomeSpans(text, ws, [], j);
    var spans := SpansOf(text, ws, []);
    i :| 0 <= i < |spans| && IsSpanOf(text, spans[i], ws[j]);
  }

  // ---------------------------------------------------------------------
  // The 200-chunk cut
  // ---------------------------------------------------------------------

  /** The indexer keeps the first 200 spans of a document. */
  const MAX_CHUNKS := 200

  /** The longest text that is sure to fit under the default splitter: 199 steps
      of 668 - 150 runes and one last window of 1000. */
  const LONGEST_UNCUT := 104082

  lemma {:induction false} WindowsAdvance(runes: string, ws: seq<Window>, i: nat)
    requires Tiles(runes, DEFAULT_SIZE, DEFAULT_OVERLAP, ws, 0) && i < |ws|
    ensures ws[i].start >= 518 * i
  {
    if i > 0 { WindowsAdvance(runes, ws, i - 1); }
  }

  lemma ManyWindowsNeedLength(text: string, ws: seq<Window>)
    requires Tiles(text, DEFAULT_SIZE, DEFAULT_OVERLAP, ws, 0) && |ws| > MAX_CHUNKS
    ensures |text| > LONGEST_UNCUT
  {
    WindowsAdvance(text, ws, MAX_CHUNKS - 1);
    assert Follows(text, DEFAULT_SIZE, DEFAULT_OVERLAP, ws[MAX_CHUNKS - 1], ws[MAX_CHUNKS]);
  }

  lemma FewWindows(text: string)
    requires 0 < |text| <= LONGEST_UNCUT
    ensures |Windows(text, DEFAULT_SIZE, DEFAULT_OVERLAP, 0)| <= MAX_CHUNKS
  {
    hide Windows, Tiles;
    var ws := Windows(text, DEFAULT_SIZE, DEFAULT_OVERLAP, 0);
    WindowsTile(text, DEFAULT_SIZE, DEFAULT_OVERLAP, 0);
    if |ws| > MAX_CHUNKS { ManyWindowsNeedLength(text, ws); }
  }

  /** A text of at most 104,082 runes is indexed whole. */
  lemma ShortTextIsNeverCut(text: string)
    requires |text| <= LONGEST_UNCUT
    ensures |Spans(text, DEFAULT_SIZE, DEFAULT_OVERLAP)| <= MAX_CHUNKS
  {
    hide Windows, SpansOf;
    if text != "" {
      WindowsInBounds(text, DEFAULT_SIZE, DEFAULT_OVERLAP, 0);
      FewWindows(text);
      SpansComeFromWindows(text, Windows(text, DEFAULT_SIZE, DEFAULT_OVERLAP, 0), []);
    }
  }

  /** A text of words placed so that every cut falls as early as it can. */
  function Adversary(n: nat): (s: string)
    ensures |s| == n
    ensures forall p :: 0 <= p < n ==> s[p] == if p % 518 == 149 then ' ' else 'a'
  {
    seq(n, p requires 0 <= p => if p % 518 == 149 then ' ' else 'a')
  }

  lemma AdversarySpaces(n: nat, k: nat, p: nat)
    requires 518 * k + 667 <= p < 518 * k + 1000 && p < n
    ensures Adversary(n)[p] == if p == 518 * k + 667 then ' ' else 'a'
  {
    assert p % 518 == (p - 518 * (k + 1)) % 518;
  }

  lemma NotHere(s: string, lo: nat, hi: nat, sep: string, j: int)
    requires sep != [] && hi <= |s|
    requires lo + |sep| <= j <= hi ==>
               s[j - |sep|] != sep[0] || (|sep| > 1 && s[j - |sep| + 1] != sep[1])
    ensures !EndsAt(s, lo, hi, sep, j)
  {
    if lo + |sep| <= j <= hi {
      assert s[j - |sep|..j][0] == s[j - |sep|];
      assert |sep| > 1 ==> s[j - |sep|..j][1] == s[j - |sep| + 1];
    }
  }

  lemma AdversaryCut(n: nat, k: nat)
    requires 518 * k + 1000 < n
    ensures WindowEnd(Adversary(n), 1000, 518 * k) == 518 * k + 668
  {
    hide BreakPoint;
    var s := Adversary(n);
    var lo, hi := 518 * k + 667, 518 * k + 1000;
    forall p | lo <= p < hi ensures s[p] == if p == lo then ' ' else 'a' { AdversarySpaces(n, k, p); }
    forall m, j | 0 <= m < 5 ensures !EndsAt(s, lo, hi, SEPARATORS[m], j) {
      NotHere(s, lo, hi, SEPARATORS[m], j);
    }
    assert EndsAt(s, lo, hi, " ", lo + 1) by { assert s[lo..lo + 1] == [s[lo]]; }
    forall j | lo + 1 < j ensures !EndsAt(s, lo, hi, " ", j) {
      NotHere(s, lo, hi, " ", j);
    }
    CutIsBest(s, 1000, 518 * k);
    OnlyCut(s, lo, hi, lo + 1, WindowEnd(s, 1000, 518 * k));
  }

  /** When only the last separator occurs, the best cut is its last occurrence. */
  lemma OnlyCut(s: string, lo: nat, hi: nat, c: int, r: int)
    requires BestCut(s, lo, hi, SEPARATORS, r) && IsLastCut(s, lo, hi, SEPARATORS[5], c)
    requires forall m, j :: 0 <= m < 5 ==> !EndsAt(s, lo, hi, SEPARATORS[m], j)
    ensures r == c
  {
    assert !NoCut(s, lo, hi, SEPARATORS[5]);
    var n :| 0 <= n < |SEPARATORS| && IsLastCut(s, lo, hi, SEPARATORS[n], r);
    assert n == 5;
  }

  lemma {:induction false} AdversaryWindows(n: nat, k: nat, more: nat)
    requires 518 * (k + more) < n <= 518 * (k + more) + 1000
    requires more > 0 ==> 518 * (k + more - 1) + 1000 < n
    ensures var ws := Windows(Adversary(n), 1000, 150, 518 * k);
            |ws| == more + 1 && forall i :: 0 <= i <= more ==> ws[i].start == 518 * (k + i)
    decreases more
  {
    hide BreakPoint;
    if more > 0 {
      AdversaryCut(n, k);
      AdversaryWindows(n, k + 1, more - 1);
      var ws := Windows(Adversary(n), 1000, 150, 518 * k);
      var rest := Windows(Adversary(n), 1000, 150, 518 * (k + 1));
      assert ws[1..] == rest;
      forall i | 1 <= i <= more ensures ws[i].start == 518 * (k + i) { assert ws[i] == rest[i - 1]; }
    }
  }

  lemma {:induction false} NoBlankWindows(runes: string, ws: seq<Window>, acc: seq<Span>)
    requires WithinText(ws, runes) && forall i :: 0 <= i < |ws| ==> !Blank(runes, ws[i])
    ensures |SpansOf(runes, ws, acc)| == |acc| + |ws|
    decreases |ws|
  {
    hide TrimSpace;
    if ws != [] {
      NoBlankWindows(runes, ws[1..], AddSpan(runes, ws[0], acc));
    }
  }

  lemma WindowStartsVisible(text: string, w: Window)
    requires w.start < w.end <= |text| && !IsSpace(text[w.start])
    ensures !Blank(text, w)
  {
    TrimKeeps(text[w.start..w.end]);
    assert text[w.start..w.end][0] == text[w.start];
  }

  /** The bound is exact: some text one rune longer is cut. */
  lemma LongerTextMayBeCut()
    ensures exists text: string :: |text| == LONGEST_UNCUT + 1
              && |Spans(text, DEFAULT_SIZE, DEFAULT_OVERLAP)| > MAX_CHUNKS
  {
    hide BreakPoint, TrimSpace;
    var text := Adversary(LONGEST_UNCUT + 1);
    var ws := Windows(text, 1000, 150, 0);
    AdversaryWindows(LONGEST_UNCUT + 1, 0, MAX_CHUNKS);
    WindowsInBounds(text, 1000, 150, 0);
    WindowsTile(text, 1000, 150, 0);
    forall i | 0 <= i < |ws| ensures !Blank(text, ws[i]) {
      WindowStartsVisible(text, ws[i]);
    }
    NoBlankWindows(text, ws, []);
    assert |Spans(text, DEFAULT_SIZE, DEFAULT_OVERLAP)| > MAX_CHUNKS;
  }
}
