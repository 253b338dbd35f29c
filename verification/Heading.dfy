/** The heading-based splitter (internal/index/heading.go). */
module Heading {
  import opened Wrappers
  import opened Text
  import opened Chunk

  const TYPST := "typst"
  const MARKDOWN := "markdown"

  function HeadingMarker(dialect: string): Option<char> {
    if dialect == TYPST then Some('=')
    else if dialect == MARKDOWN then Some('#')
    else None
  }

  datatype HeadingLine = HeadingLine(level: nat, title: string)

  /** One section: the breadcrumb it carries and its body, by rune offsets. */
  datatype Section = Section(breadcrumb: string, bodyStart: nat, bodyEnd: nat)

  // ---------------------------------------------------------------------
  // Lines
  // ---------------------------------------------------------------------

  /** strings.SplitAfter(text, "\n"). */
  function Lines(text: string): (ls: seq<string>)
    ensures ls != []
  {
    LinesFrom(text, 0)
  }

  /** The lines of text, knowing that its first n runes hold no newline. */
  function LinesFrom(text: string, n: nat): (ls: seq<string>)
    requires n <= |text|
    ensures ls != []
    decreases |text|, |text| - n
  {
    if n == |text| then [text]
    else if text[n] == '\n' then [text[..n + 1]] + LinesFrom(text[n + 1..], 0)
    else LinesFrom(text, n + 1)
  }

  /** strings.TrimRight(line, "\n"). */
  function Bare(line: string): string {
    if line != "" && line[|line| - 1] == '\n' then Bare(line[..|line| - 1]) else line
  }

  /** The rune offset at which line i starts. */
  function Offset(lines: seq<string>, i: nat): nat
    requires i <= |lines|
  {
    if i == 0 then 0 else Offset(lines, i - 1) + |lines[i - 1]|
  }

  predicate IsFence(line: string) {
    var t := TrimSpace(line);
    "```" <= t || "~~~" <= t
  }

  /** How many of the first marker runes of line there are, from i on. */
  function MarkerRun(line: string, marker: char, i: nat): (n: nat)
    requires i <= |line|
    ensures i <= n <= |line|
    ensures n < |line| ==> line[n] != marker
    ensures forall k :: i <= k < n ==> line[k] == marker
    decreases |line| - i
  {
    if i < |line| && line[i] == marker then MarkerRun(line, marker, i + 1) else i
  }

  /** What a heading line is: markers in column zero, a space, a title. */
  function HeadingOf(line: string, marker: char): Option<HeadingLine> {
    var i := MarkerRun(line, marker, 0);
    if i == 0 || i >= |line| || line[i] != ' ' then None
    else
      var title := TrimSpace(line[i + 1..]);
      if title == "" then None else Some(HeadingLine(i, title))
  }

  /** The line is level markers and no more, a space, and a rest that trims to title,
      which is not empty. */
  ghost predicate Reads(line: string, marker: char, level: nat, title: string) {
    && 0 < level < |line| && (forall k :: 0 <= k < level ==> line[k] == marker) && line[level] != marker
    && line[level] == ' ' && TrimSpace(line[level + 1..]) == title != ""
  }

  lemma {:induction false} RunLength(line: string, marker: char, i: nat, level: nat)
    requires i <= level < |line| && line[level] != marker && forall k :: i <= k < level ==> line[k] == marker
    ensures MarkerRun(line, marker, i) == level
    decreases level - i
  {
    if i < level { RunLength(line, marker, i + 1, level); }
  }

  /** Which lines are headings, of which level and title. */
  lemma HeadingOfIff(line: string, marker: char, level: nat, title: string)
    ensures HeadingOf(line, marker) == Some(HeadingLine(level, title)) <==> Reads(line, marker, level, title)
  {
    if Reads(line, marker, level, title) { RunLength(line, marker, 0, level); }
  }

  /** The result is a heading exactly when the line reads as one, and then of its level
      and title. */
  method ParseHeading(line: string, marker: char) returns (h: Option<HeadingLine>)
    ensures h == HeadingOf(line, marker)
    ensures forall level: nat, title :: h == Some(HeadingLine(level, title)) <==> Reads(line, marker, level, title)
  {
    forall level: nat, title
      ensures HeadingOf(line, marker) == Some(HeadingLine(level, title)) <==> Reads(line, marker, level, title)
    {
      HeadingOfIff(line, marker, level, title);
    }
    var i := 0;
    while i < |line| && line[i] == marker
      invariant i <= |line| && MarkerRun(line, marker, i) == MarkerRun(line, marker, 0)
    {
      i := i + 1;
    }
    if i == 0 || i >= |line| || line[i] != ' ' {
      return None;
    }
    var title := TrimSpace(line[i + 1..]);
    if title == "" {
      return None;
    }
    return Some(HeadingLine(i, title));
  }

  // ---------------------------------------------------------------------
  // Which lines are headings, and which headings enclose a place
  // ---------------------------------------------------------------------

  /** How many fence lines there are among the first n. */
  function Fences(lines: seq<string>, n: nat): nat
    requires n <= |lines|
  {
    if n == 0 then 0 else Fences(lines, n - 1) + if IsFence(Bare(lines[n - 1])) then 1 else 0
  }

  /** Line i's heading: the line parses as one and no fence is open above it. */
  function HeadingAt(lines: seq<string>, marker: char, i: nat): Option<HeadingLine>
    requires i < |lines|
  {
    if IsFence(Bare(lines[i])) || Fences(lines, i) % 2 == 1 then None
    else HeadingOf(Bare(lines[i]), marker)
  }

  /** The headings among the first n lines, in order. */
  function Headings(lines: seq<string>, marker: char, n: nat): seq<HeadingLine>
    requires n <= |lines|
  {
    if n == 0 then []
    else
      var hs := Headings(lines, marker, n - 1);
      var h := HeadingAt(lines, marker, n - 1);
      if h.Some? then hs + [h.value] else hs
  }

  /** No later heading has the same or a lower level. */
  ghost predicate StaysOpen(hs: seq<HeadingLine>, k: nat)
    requires k < |hs|
  {
    forall m :: k < m < |hs| ==> hs[k].level < hs[m].level
  }

  /** The headings still open after all of hs, outermost first. */
  ghost function Enclosing(hs: seq<HeadingLine>): seq<HeadingLine> {
    if hs == [] then []
    else Keep(StaysOpen(hs, 0), hs[0]) + Enclosing(hs[1..])
  }

  ghost predicate LevelsIncrease(stack: seq<HeadingLine>) {
    forall a, b :: 0 <= a < b < |stack| ==> stack[a].level < stack[b].level
  }

  /** Levels strictly increase along the enclosing headings. */
  lemma {:induction false} EnclosingLevels(hs: seq<HeadingLine>)
    ensures LevelsIncrease(Enclosing(hs))
    ensures forall e :: e in Enclosing(hs) ==> e in hs
  {
    if hs != [] {
      EnclosingLevels(hs[1..]);
      var rest := Enclosing(hs[1..]);
      if StaysOpen(hs, 0) {
        forall b | 0 <= b < |rest| ensures hs[0].level < rest[b].level {
          assert rest[b] in hs[1..];
        }
      }
    }
  }

  /** The part of a stack below a level. */
  ghost function Below(stack: seq<HeadingLine>, level: nat): seq<HeadingLine> {
    if stack == [] then []
    else Keep(stack[0].level < level, stack[0]) + Below(stack[1..], level)
  }

  ghost function Keep(c: bool, h: HeadingLine): seq<HeadingLine> {
    if c then [h] else []
  }

  lemma BelowKeep(c: bool, h: HeadingLine, rest: seq<HeadingLine>, level: nat)
    ensures Below(Keep(c, h) + rest, level) == Keep(c && h.level < level, h) + Below(rest, level)
  {
    if c { assert ([h] + rest)[1..] == rest; } else { assert [] + rest == rest; }
  }

  /** A new heading closes those of its own or a deeper level, and only those. */
  lemma {:induction false} EnclosingStep(hs: seq<HeadingLine>, h: HeadingLine)
    ensures Enclosing(hs + [h]) == Below(Enclosing(hs), h.level) + [h]
  {
    hide Below;
    if hs == [] {
      assert Enclosing([h]) == [h];
      NothingBelow(h.level);
    } else {
      var all, rest := hs + [h], Enclosing(hs[1..]);
      EnclosingStep(hs[1..], h);
      assert all[1..] == hs[1..] + [h] && all[0] == hs[0];
      assert StaysOpen(all, 0) <==> StaysOpen(hs, 0) && hs[0].level < h.level by {
        assert all[|hs|] == h;
        assert forall m :: 0 <= m < |hs| ==> all[m] == hs[m];
      }
      BelowKeep(StaysOpen(hs, 0), hs[0], rest, h.level);
    }
  }

  lemma NothingBelow(level: nat)
    ensures Below([], level) == []
  {
  }

  lemma {:induction false} BelowIsPrefix(stack: seq<HeadingLine>, n: nat, level: nat)
    requires n <= |stack|
    requires forall a :: 0 <= a < n ==> stack[a].level < level
    requires forall a :: n <= a < |stack| ==> stack[a].level >= level
    ensures Below(stack, level) == stack[..n]
    decreases |stack|
  {
    if stack != [] {
      BelowIsPrefix(stack[1..], if n > 0 then n - 1 else 0, level);
      if n > 0 { assert stack[..n] == [stack[0]] + stack[1..][..n - 1]; }
    }
  }

  /** Popping from the top while the level is not lower leaves exactly the open part. */
  method PopTo(stack: seq<HeadingLine>, level: nat) returns (rest: seq<HeadingLine>)
    requires LevelsIncrease(stack)
    ensures rest == Below(stack, level)
  {
    rest := stack;
    while |rest| > 0 && rest[|rest| - 1].level >= level
      invariant rest <= stack
      invariant forall a :: |rest| <= a < |stack| ==> stack[a].level >= level
    {
      rest := rest[..|rest| - 1];
    }
    BelowIsPrefix(stack, |rest|, level);
  }

  // ---------------------------------------------------------------------
  // Sections
  // ---------------------------------------------------------------------

  function Join(titles: seq<HeadingLine>): string {
    if titles == [] then ""
    else if |titles| == 1 then titles[0].title
    else Join(titles[..|titles| - 1]) + " > " + titles[|titles| - 1].title
  }

  /** Where the body that holds the place just before line n begins: after the
      nearest heading line above, or at the start of the text. */
  function BodyStart(lines: seq<string>, marker: char, n: nat): nat
    requires n <= |lines|
  {
    if n == 0 then 0
    else if HeadingAt(lines, marker, n - 1).Some? then Offset(lines, n)
    else BodyStart(lines, marker, n - 1)
  }

  ghost function Breadcrumb(lines: seq<string>, marker: char, n: nat): string
    requires n <= |lines|
  {
    Join(Enclosing(Headings(lines, marker, n)))
  }

  /** The section that ends where line n starts, if it has any text. */
  ghost function SectionEndingAt(lines: seq<string>, marker: char, n: nat): seq<Section>
    requires n <= |lines|
  {
    var from, to := BodyStart(lines, marker, n), Offset(lines, n);
    if to <= from then [] else [Section(Breadcrumb(lines, marker, n), from, to)]
  }

  /** The sections closed by a heading line among the first n. */
  ghost function Closed(lines: seq<string>, marker: char, n: nat): seq<Section>
    requires n <= |lines|
  {
    if n == 0 then []
    else Closed(lines, marker, n - 1)
         + if HeadingAt(lines, marker, n - 1).Some? then SectionEndingAt(lines, marker, n - 1) else []
  }

  /** What splitSections returns: nothing (nil) without a recognised heading. */
  ghost function Sections(text: string, dialect: string): seq<Section> {
    var m := HeadingMarker(dialect);
    if m.None? then []
    else
      var lines := Lines(text);
      if Headings(lines, m.value, |lines|) == [] then []
      else Closed(lines, m.value, |lines|) + SectionEndingAt(lines, m.value, |lines|)
  }

  method JoinTitles(stack: seq<HeadingLine>) returns (s: string)
    ensures s == Join(stack)
  {
    s := "";
    for i := 0 to |stack|
      invariant s == Join(stack[..i])
    {
      assert stack[..i + 1][..i] == stack[..i];
      s := if i == 0 then stack[0].title else s + " > " + stack[i].title;
    }
    assert stack[..|stack|] == stack;
  }

  /** The closure flush: record the text since bodyStart under the open headings. */
  method Flush(sections: seq<Section>, stack: seq<HeadingLine>, bodyStart: nat, end: nat)
    returns (r: seq<Section>)
    ensures r == sections + if end <= bodyStart then [] else [Section(Join(stack), bodyStart, end)]
  {
    if end <= bodyStart { return sections; }
    var crumb := JoinTitles(stack);
    return sections + [Section(crumb, bodyStart, end)];
  }

  lemma NothingOpen()
    ensures Enclosing([]) == []
  {
  }

  method SplitSections(text: string, dialect: string) returns (sections: seq<Section>)
    ensures sections == Sections(text, dialect)
  {
    hide IsFence, Bare, HeadingOf, Enclosing, Below, Join, Lines;
    NothingOpen();
    var m := HeadingMarker(dialect);
    if m.None? { return []; }
    var lines := Lines(text);
    var stack: seq<HeadingLine> := [];
    sections := [];
    var pos, bodyStart, inFence, haveHeading := 0, 0, false, false;
    for i := 0 to |lines|
      invariant pos == Offset(lines, i)
      invariant bodyStart == BodyStart(lines, m.value, i)
      invariant inFence == (Fences(lines, i) % 2 == 1)
      invariant haveHeading == (Headings(lines, m.value, i) != [])
      invariant stack == Enclosing(Headings(lines, m.value, i))
      invariant sections == Closed(lines, m.value, i)
    {
      var trimmed := Bare(lines[i]);
      if IsFence(trimmed) {
        inFence := !inFence;
      } else if !inFence {
        var h := ParseHeading(trimmed, m.value);
        if h.Some? {
          haveHeading := true;
          sections := Flush(sections, stack, bodyStart, pos);
          EnclosingLevels(Headings(lines, m.value, i));
          EnclosingStep(Headings(lines, m.value, i), h.value);
          stack := PopTo(stack, h.value.level);
          stack := stack + [h.value];
          bodyStart := pos + |lines[i]|;
        }
      }
      pos := pos + |lines[i]|;
    }
    sections := Flush(sections, stack, bodyStart, pos);
    if !haveHeading {
      sections := [];
    }
  }

  // ---------------------------------------------------------------------
  // Lines and sections tile the text
  // ---------------------------------------------------------------------

  lemma {:induction false} OffsetTail(l: string, ls: seq<string>, i: nat)
    requires i <= |ls|
    ensures Offset([l] + ls, i + 1) == |l| + Offset(ls, i)
  {
    if i > 0 { OffsetTail(l, ls, i - 1); }
  }

  /** The lines add up to the text. */
  lemma {:induction false} LinesAddUp(text: string, n: nat)
    requires n <= |text|
    ensures var ls := LinesFrom(text, n); Offset(ls, |ls|) == |text|
    decreases |text|, |text| - n
  {
    var ls := LinesFrom(text, n);
    if n == |text| {
      assert Offset(ls, 1) == Offset(ls, 0) + |text|;
    } else if text[n] == '\n' {
      var tail := LinesFrom(text[n + 1..], 0);
      LinesAddUp(text[n + 1..], 0);
      OffsetTail(text[..n + 1], tail, |tail|);
    } else {
      LinesAddUp(text, n + 1);
    }
  }

  /** Line i is exactly the text between its offset and the next. */
  lemma {:induction false} LinesTile(text: string, n: nat, i: nat)
    requires n <= |text| && i < |LinesFrom(text, n)|
    ensures var ls := LinesFrom(text, n);
            Offset(ls, i + 1) <= |text| && text[Offset(ls, i)..Offset(ls, i + 1)] == ls[i]
    decreases |text|, |text| - n
  {
    var ls := LinesFrom(text, n);
    assert Offset(ls, 1) == Offset(ls, 0) + |ls[0]|;
    if n < |text| && text[n] == '\n' {
      if i > 0 {
        var tail := LinesFrom(text[n + 1..], 0);
        LinesTile(text[n + 1..], 0, i - 1);
        OffsetTail(text[..n + 1], tail, i);
        OffsetTail(text[..n + 1], tail, i - 1);
        SliceOfSlice(text, n + 1, |text|, Offset(tail, i - 1), Offset(tail, i));
      }
    } else if n < |text| {
      LinesTile(text, n + 1, i);
    }
  }

  lemma {:induction false} OffsetMonotone(lines: seq<string>, i: nat, j: nat)
    requires i <= j <= |lines|
    ensures Offset(lines, i) <= Offset(lines, j)
    decreases j
  {
    if i < j { OffsetMonotone(lines, i, j - 1); }
  }

  ghost predicate Ordered(secs: seq<Section>, limit: nat) {
    && (forall a :: 0 <= a < |secs| ==> secs[a].bodyStart < secs[a].bodyEnd <= limit)
    && (forall a, b :: 0 <= a < b < |secs| ==> secs[a].bodyEnd <= secs[b].bodyStart)
  }

  lemma {:induction false} ClosedOrdered(lines: seq<string>, marker: char, n: nat)
    requires n <= |lines|
    ensures Ordered(Closed(lines, marker, n), BodyStart(lines, marker, n))
    ensures BodyStart(lines, marker, n) <= Offset(lines, n)
  {
    hide HeadingAt, Breadcrumb;
    if n > 0 { ClosedOrdered(lines, marker, n - 1); }
  }

  /** sec holds all of line i. */
  ghost predicate HoldsLine(lines: seq<string>, sec: Section, i: nat)
    requires i < |lines|
  {
    sec.bodyStart <= Offset(lines, i) && Offset(lines, i + 1) <= sec.bodyEnd
  }

  ghost predicate MissesLine(lines: seq<string>, sec: Section, i: nat)
    requires i < |lines|
  {
    sec.bodyEnd <= Offset(lines, i) || Offset(lines, i + 1) <= sec.bodyStart
  }

  /** A line that is not a heading is in a closed section that carries that line's
      breadcrumb, or still in the open one. */
  lemma {:induction false} LineHasSection(lines: seq<string>, marker: char, n: nat, i: nat)
    requires i < n <= |lines| && HeadingAt(lines, marker, i).None? && lines[i] != ""
    ensures || (exists sec :: sec in Closed(lines, marker, n) && HoldsLine(lines, sec, i)
                              && sec.breadcrumb == Breadcrumb(lines, marker, i))
            || (BodyStart(lines, marker, n) <= Offset(lines, i)
                && Headings(lines, marker, n) == Headings(lines, marker, i))
  {
    hide HeadingAt, Enclosing, Join;
    OffsetMonotone(lines, i + 1, n);
    if i == n - 1 {
      ClosedOrdered(lines, marker, i);
    } else {
      LineHasSection(lines, marker, n - 1, i);
      OffsetMonotone(lines, i + 1, n - 1);
      var before := Closed(lines, marker, n - 1);
      if sec :| sec in before && HoldsLine(lines, sec, i) && sec.breadcrumb == Breadcrumb(lines, marker, i) {
        assert sec in Closed(lines, marker, n);
      } else if HeadingAt(lines, marker, n - 1).Some? {
        var last := SectionEndingAt(lines, marker, n - 1);
        assert last[0] in Closed(lines, marker, n) && HoldsLine(lines, last[0], i);
      }
    }
  }

  /** A heading line is in no section. */
  lemma {:induction false} HeadingLineOutside(lines: seq<string>, marker: char, n: nat, i: nat)
    requires i < n <= |lines| && HeadingAt(lines, marker, i).Some?
    ensures forall sec :: sec in Closed(lines, marker, n) ==> MissesLine(lines, sec, i)
    ensures BodyStart(lines, marker, n) >= Offset(lines, i + 1)
  {
    hide HeadingAt, Breadcrumb;
    ClosedOrdered(lines, marker, n - 1);
    if i < n - 1 { HeadingLineOutside(lines, marker, n - 1, i); }
  }

  /** Breadcrumbs and tiling, for every text: line i is exactly the text between its
      offset and the next line's, up to the end of the text; the sections are in order
      and do not overlap; a line that is not a heading lies in a section whose
      breadcrumb is the headings enclosing that line; a heading line lies in none. */
  lemma SectionsTile(text: string, dialect: string, i: nat)
    requires HeadingMarker(dialect).Some? && Sections(text, dialect) != []
    requires i < |Lines(text)| && Lines(text)[i] != ""
    ensures var lines, marker, secs := Lines(text), HeadingMarker(dialect).value, Sections(text, dialect);
            && Offset(lines, |lines|) == |text| && Offset(lines, i + 1) <= |text|
            && text[Offset(lines, i)..Offset(lines, i + 1)] == lines[i]
            && Ordered(secs, |text|)
            && (HeadingAt(lines, marker, i).None? ==>
                  exists sec :: sec in secs && HoldsLine(lines, sec, i)
                                && sec.breadcrumb == Join(Enclosing(Headings(lines, marker, i))))
            && (HeadingAt(lines, marker, i).Some? ==>
                  forall sec :: sec in secs ==> MissesLine(lines, sec, i))
  {
    hide Enclosing, Join, HeadingAt;
    var lines, marker, secs := Lines(text), HeadingMarker(dialect).value, Sections(text, dialect);
    var n := |lines|;
    LinesAddUp(text, 0);
    LinesTile(text, 0, i);
    ClosedOrdered(lines, marker, n);
    OffsetMonotone(lines, i + 1, n);
    if HeadingAt(lines, marker, i).None? {
      LineHasSection(lines, marker, n, i);
      if sec :| sec in Closed(lines, marker, n) && HoldsLine(lines, sec, i)
                && sec.breadcrumb == Breadcrumb(lines, marker, i) {
        assert sec in secs;
      } else {
        var last := SectionEndingAt(lines, marker, n);
        assert last[0] in secs && HoldsLine(lines, last[0], i);
      }
    } else {
      HeadingLineOutside(lines, marker, n, i);
    }
  }

  lemma SameSection(secs: seq<Section>, limit: nat, a: nat, b: nat, p: nat)
    requires Ordered(secs, limit) && a < |secs| && b < |secs|
    requires secs[a].bodyStart <= p < secs[a].bodyEnd && secs[b].bodyStart <= p < secs[b].bodyEnd
    ensures a == b
  {
  }

  /** A section holds no heading line, and its breadcrumb is that of every line it holds. */
  lemma SectionCrumb(text: string, dialect: string, a: nat, i: nat)
    requires HeadingMarker(dialect).Some? && a < |Sections(text, dialect)|
    requires i < |Lines(text)| && Lines(text)[i] != "" && HoldsLine(Lines(text), Sections(text, dialect)[a], i)
    ensures var lines, marker := Lines(text), HeadingMarker(dialect).value;
            && HeadingAt(lines, marker, i).None?
            && Sections(text, dialect)[a].breadcrumb == Join(Enclosing(Headings(lines, marker, i)))
  {
    hide Enclosing, Join, HeadingAt, Sections, Lines;
    var lines, marker, secs := Lines(text), HeadingMarker(dialect).value, Sections(text, dialect);
    SectionsTile(text, dialect, i);
    assert secs[a] in secs;
    if HeadingAt(lines, marker, i).None? {
      var sec :| sec in secs && HoldsLine(lines, sec, i) && sec.breadcrumb == Join(Enclosing(Headings(lines, marker, i)));
      var b :| 0 <= b < |secs| && secs[b] == sec;
      SameSection(secs, |text|, a, b, Offset(lines, i));
    }
  }

  /** There is a line between the last heading line and line n, if there is any text. */
  lemma {:induction false} OpenHoldsLine(lines: seq<string>, marker: char, n: nat) returns (i: nat)
    requires n <= |lines| && BodyStart(lines, marker, n) < Offset(lines, n)
    ensures i < n && lines[i] != "" && BodyStart(lines, marker, n) <= Offset(lines, i) && Offset(lines, i + 1) <= Offset(lines, n)
  {
    hide HeadingAt;
    if lines[n - 1] != "" {
      ClosedOrdered(lines, marker, n - 1);
      i := n - 1;
    } else {
      i := OpenHoldsLine(lines, marker, n - 1);
    }
  }

  lemma {:induction false} ClosedHoldsLine(lines: seq<string>, marker: char, n: nat, a: nat) returns (i: nat)
    requires n <= |lines| && a < |Closed(lines, marker, n)|
    ensures i < |lines| && lines[i] != "" && HoldsLine(lines, Closed(lines, marker, n)[a], i)
  {
    hide HeadingAt, Breadcrumb;
    if a < |Closed(lines, marker, n - 1)| {
      i := ClosedHoldsLine(lines, marker, n - 1, a);
    } else {
      i := OpenHoldsLine(lines, marker, n - 1);
    }
  }

  /** Every section holds a line. */
  lemma SectionHoldsLine(text: string, dialect: string, a: nat) returns (i: nat)
    requires a < |Sections(text, dialect)|
    ensures i < |Lines(text)| && Lines(text)[i] != "" && HoldsLine(Lines(text), Sections(text, dialect)[a], i)
  {
    hide HeadingAt, Breadcrumb, Closed, Lines;
    var lines, marker := Lines(text), HeadingMarker(dialect).value;
    if a < |Closed(lines, marker, |lines|)| {
      i := ClosedHoldsLine(lines, marker, |lines|, a);
    } else {
      i := OpenHoldsLine(lines, marker, |lines|);
    }
  }

  /** There are no sections exactly when the dialect has no headings, the text has none,
      or it has nothing else: a text of heading lines alone is taken for one without. */
  lemma NoSectionsIff(text: string, dialect: string)
    ensures Sections(text, dialect) == [] <==>
            var lines := Lines(text);
            || HeadingMarker(dialect).None?
            || (forall i :: 0 <= i < |lines| ==> HeadingAt(lines, HeadingMarker(dialect).value, i).None?)
            || (forall i :: 0 <= i < |lines| && lines[i] != "" ==> HeadingAt(lines, HeadingMarker(dialect).value, i).Some?)
  {
    hide Lines, HeadingAt, Enclosing, Join;
    if HeadingMarker(dialect).Some? {
      var lines, marker := Lines(text), HeadingMarker(dialect).value;
      NoHeadingsIff(lines, marker, |lines|);
      if Sections(text, dialect) == [] && Headings(lines, marker, |lines|) != [] {
        forall i | 0 <= i < |lines| && lines[i] != "" ensures HeadingAt(lines, marker, i).Some? {
          if HeadingAt(lines, marker, i).None? {
            LineHasSection(lines, marker, |lines|, i);
            OffsetMonotone(lines, i + 1, |lines|);
          }
        }
      }
      if Sections(text, dialect) != [] {
        var i := SectionHoldsLine(text, dialect, 0);
        SectionCrumb(text, dialect, 0, i);
      }
    }
  }

  lemma {:induction false} NoHeadingsIff(lines: seq<string>, marker: char, n: nat)
    requires n <= |lines|
    ensures Headings(lines, marker, n) == [] <==> forall i :: 0 <= i < n ==> HeadingAt(lines, marker, i).None?
  {
    hide HeadingAt;
    if n > 0 { NoHeadingsIff(lines, marker, n - 1); }
  }

  // ---------------------------------------------------------------------
  // Lines, fences and nesting
  // ---------------------------------------------------------------------

  /** A line ends at its first newline; only the last may have none. */
  lemma {:induction false} LineShape(text: string, n: nat, i: nat)
    requires n <= |text| && (forall k :: 0 <= k < n ==> text[k] != '\n') && i < |LinesFrom(text, n)|
    ensures var ls := LinesFrom(text, n);
            && (forall k :: 0 <= k < |ls[i]| - 1 ==> ls[i][k] != '\n')
            && (i < |ls| - 1 ==> ls[i] != "" && ls[i][|ls[i]| - 1] == '\n')
            && (i == |ls| - 1 && ls[i] != "" ==> ls[i][|ls[i]| - 1] != '\n')
    decreases |text|, |text| - n
  {
    if n < |text| {
      if text[n] == '\n' {
        if i > 0 { LineShape(text[n + 1..], 0, i - 1); }
      } else {
        LineShape(text, n + 1, i);
      }
    }
  }

  /** A fence is white space and then three backticks or three tildes. */
  lemma FenceIff(line: string)
    ensures IsFence(line) <==>
            exists n: nat :: n + 3 <= |line| && AllSpace(line[..n])
                             && (line[n..n + 3] == ['`', '`', '`'] || line[n..n + 3] == ['~', '~', '~'])
  {
    hide IsSpace;
    TrimKeeps(line);
    var t, lead := TrimSpace(line), Lead(line);
    if IsFence(line) {
      assert line[lead..Trail(line)] == t && t[..3] == line[lead..lead + 3];
      assert AllSpace(line[..lead]);
    }
    if n: nat :| n + 3 <= |line| && AllSpace(line[..n])
                 && (line[n..n + 3] == ['`', '`', '`'] || line[n..n + 3] == ['~', '~', '~']) {
      FenceStarts(line, n);
    }
  }

  lemma FenceStarts(line: string, n: nat)
    requires n + 3 <= |line| && AllSpace(line[..n])
    requires line[n..n + 3] == ['`', '`', '`'] || line[n..n + 3] == ['~', '~', '~']
    ensures IsFence(line)
  {
    assert line[n..n + 3][0] == line[n] && line[n..n + 3][1] == line[n + 1] && line[n..n + 3][2] == line[n + 2];
    forall k | 0 <= k < n ensures IsSpace(line[k]) { assert line[..n][k] == line[k]; }
    assert !IsSpace(line[n]) && !IsSpace(line[n + 2]);
    TrimKeeps(line);
    assert Lead(line) == n && Trail(line) >= n + 3;
    assert TrimSpace(line)[..3] == line[n..n + 3];
  }

  lemma {:induction false} LinesCons(l: string, rest: string, n: nat)
    requires n <= |l| && forall k :: n <= k < |l| ==> l[k] != '\n'
    ensures LinesFrom(l + "\n" + rest, n) == [l + "\n"] + LinesFrom(rest, 0)
    decreases |l| - n
  {
    var text := l + "\n" + rest;
    if n < |l| {
      assert text[n] == l[n];
      LinesCons(l, rest, n + 1);
    } else {
      assert text[n] == '\n' && text[..n + 1] == l + "\n" && text[n + 1..] == rest;
    }
  }

  lemma {:induction false} OneLine(l: string, n: nat)
    requires n <= |l| && forall k :: n <= k < |l| ==> l[k] != '\n'
    ensures LinesFrom(l, n) == [l]
    decreases |l| - n
  {
    if n < |l| { OneLine(l, n + 1); }
  }

  predicate Solid(s: string) {
    s != "" && TrimSpace(s) == s && '\n' !in s
  }

  /** A line of level markers, a space and a title. */
  function MarkedLine(marker: char, level: nat, title: string): string {
    seq(level, _ => marker) + " " + title
  }

  lemma MarkedLineReads(marker: char, level: nat, title: string)
    requires marker in ['#', '='] && level > 0 && Solid(title)
    ensures HeadingOf(MarkedLine(marker, level, title), marker) == Some(HeadingLine(level, title))
    ensures !IsFence(MarkedLine(marker, level, title)) && '\n' !in MarkedLine(marker, level, title)
    ensures Bare(MarkedLine(marker, level, title) + "\n") == MarkedLine(marker, level, title)
  {
    hide TrimSpace;
    var line := MarkedLine(marker, level, title);
    assert line[level + 1..] == title;
    HeadingOfIff(line, marker, level, title);
    MarkedIsNoFence(line, marker);
    BareLine(line);
  }

  lemma MarkedIsNoFence(line: string, marker: char)
    requires line != "" && line[0] == marker && marker in ['#', '=']
    ensures !IsFence(line)
  {
    TrimKeeps(line);
    if TrimSpace(line) != "" { assert TrimSpace(line)[0] == marker; }
  }

  lemma BareLine(line: string)
    requires '\n' !in line
    ensures Bare(line + "\n") == line && Bare(line) == line
  {
    assert (line + "\n")[..|line|] == line;
  }

  /** A deeper heading's section carries the open heading's title before its own: for a
      text of a heading, a deeper one and a body line, the body is one section whose
      breadcrumb is the two titles in order; for one that is not deeper, its title alone. */
  lemma NestedHeadings(dialect: string, a: string, b: string, body: string, la: nat, lb: nat)
    requires dialect in ["markdown", "typst"] && 0 < la && 0 < lb
    requires Solid(a) && Solid(b) && body != "" && '\n' !in body
    requires var marker := if dialect == "markdown" then '#' else '='; !IsFence(body) && HeadingOf(body, marker).None?
    ensures var marker := if dialect == "markdown" then '#' else '=';
            var head := MarkedLine(marker, la, a) + "\n" + (MarkedLine(marker, lb, b) + "\n");
            Sections(head + body, dialect)
            == [Section(if la < lb then a + " > " + b else b, |head|, |head| + |body|)]
  {
    hide TrimSpace, IsFence, HeadingOf, MarkedLine, Lines, Enclosing, Headings, Closed, SectionEndingAt, Offset, Solid, Join;
    var marker := if dialect == "markdown" then '#' else '=';
    var x, y := MarkedLine(marker, la, a), MarkedLine(marker, lb, b);
    var head := x + "\n" + (y + "\n");
    MarkedLineReads(marker, la, a);
    MarkedLineReads(marker, lb, b);
    BareLine(body);
    ThreeLines(x, y, body);
    var lines := [x + "\n", y + "\n", body];
    TwoThenBody(lines, marker, HeadingLine(la, a), HeadingLine(lb, b));
    EnclosingTwo(HeadingLine(la, a), HeadingLine(lb, b));
  }

  lemma ThreeLines(x: string, y: string, z: string)
    requires '\n' !in x && '\n' !in y && '\n' !in z
    ensures Lines(x + "\n" + (y + "\n") + z) == [x + "\n", y + "\n", z]
  {
    hide LinesFrom;
    assert x + "\n" + (y + "\n") + z == x + "\n" + (y + "\n" + z);
    LinesCons(x, y + "\n" + z, 0);
    LinesCons(y, z, 0);
    OneLine(z, 0);
  }

  lemma EnclosingTwo(g: HeadingLine, h: HeadingLine)
    ensures Enclosing([g, h]) == if g.level < h.level then [g, h] else [h]
    ensures Join([g, h]) == g.title + " > " + h.title && Join([h]) == h.title
  {
    NothingOpen();
    EnclosingStep([], g);
    NothingBelow(g.level);
    assert [] + [g] == [g] && [g] + [h] == [g, h];
    EnclosingStep([g], h);
    assert Below([g], h.level) == if g.level < h.level then [g] else [] by {
      assert [g][1..] == [];
      NothingBelow(h.level);
    }
    assert [g, h][..1] == [g] && [h][..0] == [];
  }

  lemma TwoThenBody(lines: seq<string>, marker: char, g: HeadingLine, h: HeadingLine)
    requires |lines| == 3 && lines[0] != "" && lines[1] != "" && lines[2] != ""
    requires !IsFence(Bare(lines[0])) && !IsFence(Bare(lines[1])) && !IsFence(Bare(lines[2]))
    requires HeadingOf(Bare(lines[0]), marker) == Some(g) && HeadingOf(Bare(lines[1]), marker) == Some(h)
    requires HeadingOf(Bare(lines[2]), marker).None?
    ensures Headings(lines, marker, 3) == [g, h]
    ensures Closed(lines, marker, 3) + SectionEndingAt(lines, marker, 3)
         == [Section(Join(Enclosing([g, h])), Offset(lines, 2), Offset(lines, 3))]
    ensures Offset(lines, 2) == |lines[0]| + |lines[1]| && Offset(lines, 3) == Offset(lines, 2) + |lines[2]|
  {
    hide IsFence, HeadingOf, Bare, Enclosing, Join;
    assert Fences(lines, 0) == 0 && Fences(lines, 1) == 0 && Fences(lines, 2) == 0;
    assert HeadingAt(lines, marker, 0) == Some(g) && HeadingAt(lines, marker, 1) == Some(h) && HeadingAt(lines, marker, 2) == None;
    assert Headings(lines, marker, 0) == [] && Headings(lines, marker, 1) == [g] && Headings(lines, marker, 2) == [g, h];
    assert BodyStart(lines, marker, 1) == Offset(lines, 1) && BodyStart(lines, marker, 2) == Offset(lines, 2);
    assert SectionEndingAt(lines, marker, 0) == [] && SectionEndingAt(lines, marker, 1) == [];
    assert Closed(lines, marker, 0) == [] && Closed(lines, marker, 1) == [];
    assert Closed(lines, marker, 2) == [];
  }

  /** The fence lines before line i. */
  ghost function FencesBefore(lines: seq<string>, i: nat): set<nat>
    requires i <= |lines|
  {
    set k: nat | k < i && IsFence(Bare(lines[k]))
  }

  lemma {:induction false} FencesAreCounted(lines: seq<string>, i: nat)
    requires i <= |lines|
    ensures Fences(lines, i) == |FencesBefore(lines, i)|
  {
    hide IsFence, Bare;
    if i > 0 {
      FencesAreCounted(lines, i - 1);
      assert FencesBefore(lines, i) == FencesBefore(lines, i - 1) + if IsFence(Bare(lines[i - 1])) then {i - 1} else {};
    }
  }

  /** A line is a heading exactly when it reads as one, is no fence itself, and an even
      number of fence lines come before it. */
  lemma HeadingAtIff(lines: seq<string>, marker: char, i: nat, level: nat, title: string)
    requires i < |lines|
    ensures HeadingAt(lines, marker, i) == Some(HeadingLine(level, title)) <==>
            && !IsFence(Bare(lines[i])) && |FencesBefore(lines, i)| % 2 == 0
            && Reads(Bare(lines[i]), marker, level, title)
  {
    hide IsFence, Bare, HeadingOf, Reads;
    FencesAreCounted(lines, i);
    HeadingOfIff(Bare(lines[i]), marker, level, title);
  }
}
