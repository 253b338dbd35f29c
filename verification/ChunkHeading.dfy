/** ChunkHeading (internal/index/heading.go): every span carries the breadcrumb of
    its section, and a section too long for one span is split by size. */
module ChunkHeading {
  import opened Wrappers
  import opened Text
  import opened Chunk
  import opened Heading

  function WithBreadcrumb(breadcrumb: string, body: string): string {
    if breadcrumb == "" then body else breadcrumb + "\n\n" + body
  }

  /** The pieces one section's body is stored as. */
  function Pieces(body: string): seq<string> {
    if body == "" then []
    else if |body| <= DEFAULT_SIZE then [body]
    else TextsOf(Spans(body, DEFAULT_SIZE, DEFAULT_OVERLAP))
  }

  function BodyOf(text: string, sec: Section): string
    requires sec.bodyStart <= sec.bodyEnd <= |text|
  {
    TrimSpace(text[sec.bodyStart..sec.bodyEnd])
  }

  /** One span per piece, numbered on from acc, each with the section's offsets. */
  function AddPieces(acc: seq<Span>, sec: Section, pieces: seq<string>): (r: seq<Span>)
    ensures |r| == |acc| + |pieces| && acc <= r
    ensures forall k :: 0 <= k < |pieces| ==>
              r[|acc| + k] == Span(|acc| + k, sec.bodyStart, sec.bodyEnd, WithBreadcrumb(sec.breadcrumb, pieces[k]))
  {
    acc + seq(|pieces|, k requires 0 <= k < |pieces| =>
      Span(|acc| + k, sec.bodyStart, sec.bodyEnd, WithBreadcrumb(sec.breadcrumb, pieces[k])))
  }

  ghost predicate InText(secs: seq<Section>, text: string) {
    forall a :: 0 <= a < |secs| ==> secs[a].bodyStart <= secs[a].bodyEnd <= |text|
  }

  ghost function SectionSpans(text: string, secs: seq<Section>, n: nat): seq<Span>
    requires n <= |secs| && InText(secs, text)
  {
    if n == 0 then []
    else AddPieces(SectionSpans(text, secs, n - 1), secs[n - 1], Pieces(BodyOf(text, secs[n - 1])))
  }

  lemma SectionsInText(text: string, dialect: string)
    ensures InText(Sections(text, dialect), text)
  {
    hide HeadingAt, Breadcrumb;
    if Sections(text, dialect) != [] {
      var lines, marker := Lines(text), HeadingMarker(dialect).value;
      LinesAddUp(text, 0);
      ClosedOrdered(lines, marker, |lines|);
    }
  }

  ghost function HeadingSpans(text: string, dialect: string): seq<Span> {
    var secs := Sections(text, dialect);
    SectionsInText(text, dialect);
    if secs == [] then Spans(text, DEFAULT_SIZE, DEFAULT_OVERLAP)
    else SectionSpans(text, secs, |secs|)
  }

  function TextsOf(subs: seq<Span>): (ts: seq<string>)
    ensures |ts| == |subs| && forall k :: 0 <= k < |subs| ==> ts[k] == subs[k].text
  {
    seq(|subs|, k requires 0 <= k < |subs| => subs[k].text)
  }

  /** The inner loop: one span, with the section's breadcrumb, per sub-chunk. */
  method AppendSubs(acc: seq<Span>, sec: Section, subs: seq<Span>) returns (spans: seq<Span>)
    ensures spans == AddPieces(acc, sec, TextsOf(subs))
  {
    spans := acc;
    for j := 0 to |subs|
      invariant |spans| == |acc| + j && acc <= spans
      invariant forall k :: 0 <= k < j ==>
        spans[|acc| + k] == Span(|acc| + k, sec.bodyStart, sec.bodyEnd, WithBreadcrumb(sec.breadcrumb, subs[k].text))
    {
      spans := spans + [Span(|spans|, sec.bodyStart, sec.bodyEnd, WithBreadcrumb(sec.breadcrumb, subs[j].text))];
    }
  }

  /** The outer loop's body: one span for a short section, several for a long one,
      none for a blank one. */
  method AppendSection(acc: seq<Span>, text: string, sec: Section) returns (spans: seq<Span>)
    requires sec.bodyStart <= sec.bodyEnd <= |text|
    ensures spans == AddPieces(acc, sec, Pieces(BodyOf(text, sec)))
  {
    hide TrimSpace, Spans, WithBreadcrumb;
    spans := acc;
    var body := TrimSpace(text[sec.bodyStart..sec.bodyEnd]);
    if body == "" { return; }
    if |body| <= DEFAULT_SIZE {
      spans := spans + [Span(|spans|, sec.bodyStart, sec.bodyEnd, WithBreadcrumb(sec.breadcrumb, body))];
      return;
    }
    var subs := ChunkSize(body, DEFAULT_SIZE, DEFAULT_OVERLAP);
    spans := AppendSubs(spans, sec, subs);
  }

  method ChunkByHeading(text: string, dialect: string) returns (spans: seq<Span>)
    ensures spans == HeadingSpans(text, dialect)
  {
    hide Sections, Spans, Pieces, BodyOf;
    var sections := SplitSections(text, dialect);
    SectionsInText(text, dialect);
    if |sections| == 0 {
      spans := ChunkSize(text, DEFAULT_SIZE, DEFAULT_OVERLAP);
      return;
    }
    spans := [];
    for i := 0 to |sections|
      invariant spans == SectionSpans(text, sections, i)
    {
      spans := AppendSection(spans, text, sections[i]);
    }
  }

  // ---------------------------------------------------------------------
  // Coverage
  // ---------------------------------------------------------------------

  /** The span is text[from..to], a stretch of its section, after the breadcrumb and a
      blank line if there is a breadcrumb. */
  ghost predicate Cites(text: string, sp: Span, breadcrumb: string, from: nat, to: nat) {
    && sp.start <= from < to <= sp.end <= |text|
    && to - from <= 1000
    && sp.text == if breadcrumb == "" then text[from..to] else breadcrumb + "\n\n" + text[from..to]
  }

  /** A piece of a section's body is a stretch of the section, at most 1000 runes long. */
  lemma PieceIsStretch(text: string, sec: Section, k: nat) returns (from: nat, to: nat)
    requires sec.bodyStart <= sec.bodyEnd <= |text| && k < |Pieces(BodyOf(text, sec))|
    ensures sec.bodyStart <= from < to <= sec.bodyEnd && to - from <= DEFAULT_SIZE
    ensures Pieces(BodyOf(text, sec))[k] == text[from..to]
  {
    hide TrimSpace, Spans, IsSpace;
    var lo, hi := TrimStretch(text, sec.bodyStart, sec.bodyEnd);
    var body := BodyOf(text, sec);
    if |body| <= DEFAULT_SIZE {
      from, to := lo, hi;
    } else {
      var a, b := SpanIsStretch(body, DEFAULT_SIZE, DEFAULT_OVERLAP, k);
      from, to := lo + a, lo + b;
      SliceOfSlice(text, lo, hi, a, b);
    }
  }

  /** A visible rune of a section is in one of its pieces, at its own place. */
  lemma PieceHolds(text: string, sec: Section, p: nat) returns (k: nat, from: nat, to: nat)
    requires sec.bodyStart <= p < sec.bodyEnd <= |text| && !IsSpace(text[p])
    ensures sec.bodyStart <= from <= p < to <= sec.bodyEnd && to - from <= DEFAULT_SIZE
    ensures k < |Pieces(BodyOf(text, sec))| && Pieces(BodyOf(text, sec))[k] == text[from..to]
  {
    hide TrimSpace, Spans, IsSpace;
    var lo, hi := TrimStretch(text, sec.bodyStart, sec.bodyEnd);
    var body := BodyOf(text, sec);
    if |body| <= DEFAULT_SIZE {
      k, from, to := 0, lo, hi;
    } else {
      assert body[p - lo] == text[p];
      var a, b;
      k, a, b := SpansShow(body, DEFAULT_SIZE, DEFAULT_OVERLAP, p - lo);
      from, to := lo + a, lo + b;
      SliceOfSlice(text, lo, hi, a, b);
    }
  }

  lemma {:induction false} SpansComeFromSections(text: string, secs: seq<Section>, n: nat, i: nat)
    returns (a: nat, k: nat)
    requires n <= |secs| && InText(secs, text) && i < |SectionSpans(text, secs, n)|
    ensures a < n && k < |Pieces(BodyOf(text, secs[a]))|
    ensures SectionSpans(text, secs, n)[i]
         == Span(i, secs[a].bodyStart, secs[a].bodyEnd, WithBreadcrumb(secs[a].breadcrumb, Pieces(BodyOf(text, secs[a]))[k]))
  {
    hide BodyOf, Pieces, WithBreadcrumb;
    var before := SectionSpans(text, secs, n - 1);
    if i < |before| {
      a, k := SpansComeFromSections(text, secs, n - 1, i);
    } else {
      a, k := n - 1, i - |before|;
    }
  }

  lemma {:induction false} PiecesBecomeSpans(text: string, secs: seq<Section>, n: nat, a: nat, k: nat)
    returns (i: nat)
    requires a < n <= |secs| && InText(secs, text) && k < |Pieces(BodyOf(text, secs[a]))|
    ensures i < |SectionSpans(text, secs, n)|
    ensures SectionSpans(text, secs, n)[i]
         == Span(i, secs[a].bodyStart, secs[a].bodyEnd, WithBreadcrumb(secs[a].breadcrumb, Pieces(BodyOf(text, secs[a]))[k]))
  {
    hide BodyOf, Pieces, WithBreadcrumb;
    if a < n - 1 {
      i := PiecesBecomeSpans(text, secs, n - 1, a, k);
    } else {
      i := |SectionSpans(text, secs, n - 1)| + k;
    }
  }

  /** The span has the offsets of a section and cites it under that section's own
      breadcrumb, which is that of a line the section holds. */
  ghost predicate CitesSection(text: string, dialect: string, sp: Span, a: nat, line: nat, from: nat, to: nat)
    requires HeadingMarker(dialect).Some? && a < |Sections(text, dialect)| && line < |Lines(text)|
  {
    var sec, lines := Sections(text, dialect)[a], Lines(text);
    && sp.start == sec.bodyStart && sp.end == sec.bodyEnd && HoldsLine(lines, sec, line) && lines[line] != ""
    && sec.breadcrumb == Join(Enclosing(Headings(lines, HeadingMarker(dialect).value, line)))
    && Cites(text, sp, sec.breadcrumb, from, to)
  }

  /** Spans are numbered 0, 1, 2, ..., lie in the text, and hold between 1 and 1000
      consecutive runes of it, after the breadcrumb of the section they lie in, or after
      none when there are no sections. */
  lemma HeadingSpanIsSound(text: string, dialect: string, i: nat)
    requires i < |HeadingSpans(text, dialect)|
    ensures HeadingSpans(text, dialect)[i].index == i
    ensures Sections(text, dialect) == [] ==> exists from: nat, to: nat :: Cites(text, HeadingSpans(text, dialect)[i], "", from, to)
    ensures Sections(text, dialect) != [] ==>
              && HeadingMarker(dialect).Some?
              && exists a: nat, line: nat, from: nat, to: nat :: a < |Sections(text, dialect)| && line < |Lines(text)|
                   && CitesSection(text, dialect, HeadingSpans(text, dialect)[i], a, line, from, to)
  {
    hide Sections, TrimSpace, Spans, Pieces, BodyOf, Lines, Enclosing, Join, HoldsLine;
    var secs := Sections(text, dialect);
    SectionsInText(text, dialect);
    if secs == [] {
      var from, to := SpanIsStretch(text, DEFAULT_SIZE, DEFAULT_OVERLAP, i);
      assert Cites(text, HeadingSpans(text, dialect)[i], "", from, to);
    } else {
      SectionsHaveMarker(text, dialect);
      var a, k := SpansComeFromSections(text, secs, |secs|, i);
      var from, to := PieceIsStretch(text, secs[a], k);
      var line := SectionHoldsLine(text, dialect, a);
      SectionCrumb(text, dialect, a, line);
      assert CitesSection(text, dialect, HeadingSpans(text, dialect)[i], a, line, from, to);
    }
  }

  /** A text of heading lines alone is split by size. */
  lemma HeadingLinesAlone(text: string, dialect: string)
    requires HeadingMarker(dialect).Some?
    requires forall i :: 0 <= i < |Lines(text)| && Lines(text)[i] != "" ==> HeadingAt(Lines(text), HeadingMarker(dialect).value, i).Some?
    ensures HeadingSpans(text, dialect) == Spans(text, DEFAULT_SIZE, DEFAULT_OVERLAP)
  {
    hide Sections, Lines, HeadingAt;
    NoSectionsIff(text, dialect);
  }

  /** Every visible rune on a line that is not a recognised heading is in some
      span, under the breadcrumb of the headings enclosing its line; and when no
      section exists at all, every visible rune is in some span. */
  lemma HeadingSpansCover(text: string, dialect: string, line: nat, p: nat)
    requires line < |Lines(text)|
    requires Offset(Lines(text), line) <= p < Offset(Lines(text), line + 1) && p < |text| && !IsSpace(text[p])
    requires Sections(text, dialect) == [] || HeadingAt(Lines(text), HeadingMarker(dialect).value, line).None?
    ensures var crumb := if Sections(text, dialect) == [] then ""
                         else Join(Enclosing(Headings(Lines(text), HeadingMarker(dialect).value, line)));
            exists i: nat, from: nat, to: nat :: i < |HeadingSpans(text, dialect)| && from <= p < to
              && Cites(text, HeadingSpans(text, dialect)[i], crumb, from, to)
  {
    hide Sections, TrimSpace, Spans, Pieces, BodyOf, IsSpace, Lines, HeadingAt, Enclosing, Join;
    var secs := Sections(text, dialect);
    SectionsInText(text, dialect);
    if secs == [] {
      var i, from, to := SpansShow(text, DEFAULT_SIZE, DEFAULT_OVERLAP, p);
      assert Cites(text, HeadingSpans(text, dialect)[i], "", from, to);
    } else {
      SectionsHaveMarker(text, dialect);
      SectionsTile(text, dialect, line);
      var lines, marker := Lines(text), HeadingMarker(dialect).value;
      var sec :| sec in secs && HoldsLine(lines, sec, line)
                 && sec.breadcrumb == Join(Enclosing(Headings(lines, marker, line)));
      var a :| 0 <= a < |secs| && secs[a] == sec;
      var k, from, to := PieceHolds(text, sec, p);
      var i := PiecesBecomeSpans(text, secs, |secs|, a, k);
      assert Cites(text, HeadingSpans(text, dialect)[i], sec.breadcrumb, from, to);
    }
  }

  lemma SectionsHaveMarker(text: string, dialect: string)
    ensures Sections(text, dialect) != [] ==> HeadingMarker(dialect).Some?
  {
  }

  /** What is stored of such a text: the body under both titles, or its own. */
  lemma NestedHeadingsAreStored(dialect: string, a: string, b: string, body: string, la: nat, lb: nat)
    requires dialect in ["markdown", "typst"] && 0 < la && 0 < lb && Solid(a) && Solid(b)
    requires '\n' !in body && 0 < |TrimSpace(body)| <= 1000
    requires var marker := if dialect == "markdown" then '#' else '='; !IsFence(body) && HeadingOf(body, marker).None?
    ensures var marker := if dialect == "markdown" then '#' else '=';
            var head := MarkedLine(marker, la, a) + "\n" + (MarkedLine(marker, lb, b) + "\n");
            var crumb := if la < lb then a + " > " + b else b;
            HeadingSpans(head + body, dialect)
            == [Span(0, |head|, |head| + |body|, crumb + "\n\n" + TrimSpace(body))]
  {
    hide TrimSpace, IsFence, HeadingOf, MarkedLine, Sections, Spans, HeadingSpans, Solid;
    EmptyTrims(body);
    NestedHeadings(dialect, a, b, body, la, lb);
    var marker := if dialect == "markdown" then '#' else '=';
    var head := MarkedLine(marker, la, a) + "\n" + (MarkedLine(marker, lb, b) + "\n");
    assert (head + body)[|head|..|head| + |body|] == body;
    SolidIsNotEmpty(a);
    SolidIsNotEmpty(b);
    OneSectionIsStored(head + body, dialect, Section(if la < lb then a + " > " + b else b, |head|, |head| + |body|));
  }

  lemma EmptyTrims(s: string)
    requires TrimSpace(s) != ""
    ensures s != ""
  {
  }

  /** A text of one section short enough is one span: the breadcrumb, a blank line and
      the trimmed body. */
  lemma OneSectionIsStored(text: string, dialect: string, sec: Section)
    requires Sections(text, dialect) == [sec] && sec.bodyStart <= sec.bodyEnd <= |text| && sec.breadcrumb != ""
    requires 0 < |TrimSpace(text[sec.bodyStart..sec.bodyEnd])| <= 1000
    ensures HeadingSpans(text, dialect)
         == [Span(0, sec.bodyStart, sec.bodyEnd, sec.breadcrumb + "\n\n" + TrimSpace(text[sec.bodyStart..sec.bodyEnd]))]
  {
    hide TrimSpace, Sections, Spans;
    SectionsInText(text, dialect);
    assert SectionSpans(text, [sec], 0) == [];
  }

  lemma SolidIsNotEmpty(s: string)
    requires Solid(s)
    ensures s != ""
  {
  }
}
