/** Templates and their source text determine each other. */
module TemplateRoundTrip {
  import opened Text
  import opened Template

  // ---------------------------------------------------------------------
  // From source to parts and back to the source
  // ---------------------------------------------------------------------

  /** A stretch of source: literal text, or a placeholder's body. */
  datatype Piece = Plain(text: string) | Braced(body: string)

  function Source(pieces: seq<Piece>): string {
    if pieces == [] then ""
    else (match pieces[0] case Plain(t) => t case Braced(b) => "{{" + b + "}}") + Source(pieces[1..])
  }

  /** The part a piece stands for. */
  ghost predicate StandsFor(unq: Unquoter, piece: Piece, part: Part) {
    match piece
    case Plain(t) => part == Literal(t) && t != ""
    case Braced(b) => Placeholder(unq, b) == Ok(part)
  }

  ghost predicate AllStandFor(unq: Unquoter, pieces: seq<Piece>, parts: seq<Part>) {
    |pieces| == |parts| && forall i :: 0 <= i < |parts| ==> StandsFor(unq, pieces[i], parts[i])
  }

  /** Literals hold no opening braces, bodies no closing ones: there is no other way
      to cut the source. */
  ghost predicate CutLeftmost(pieces: seq<Piece>) {
    forall i :: 0 <= i < |pieces| ==>
      match pieces[i]
      case Plain(t) => forall j :: !OccursAt(t, "{{", j)
      case Braced(b) => forall j :: !OccursAt(b, "}}", j)
  }

  // One step of the parser at a time.

  lemma ParsedPlain(unq: Unquoter, src: string)
    requires Find(src, "{{", 0) < 0
    ensures Parsed(unq, src) == Ok(if src == "" then [] else [Literal(src)])
  {
    hide Find, Placeholder;
  }

  lemma ParsedLiteral(unq: Unquoter, src: string, open: nat)
    requires Find(src, "{{", 0) == open > 0
    ensures Parsed(unq, src) == Prepend([Literal(src[..open])], Parsed(unq, src[open..]))
  {
    hide Find, Placeholder;
  }

  lemma ParsedHole(unq: Unquoter, src: string, close: int)
    requires Find(src, "{{", 0) == 0 && Find(src[2..], "}}", 0) == close
    ensures Parsed(unq, src) ==
            if close < 0 then Err(Unterminated)
            else match Placeholder(unq, src[2..][..close])
              case Err(e) => Err(e)
              case Ok(p) => Prepend([p], Parsed(unq, src[2..][close + 2..]))
  {
    hide Find, Placeholder;
  }

  lemma NothingStandsForNothing(unq: Unquoter)
    ensures AllStandFor(unq, [], [])
  {
  }

  lemma AlsoStandsFor(unq: Unquoter, piece: Piece, part: Part, pieces: seq<Piece>, parts: seq<Part>)
    requires StandsFor(unq, piece, part) && AllStandFor(unq, pieces, parts)
    ensures AllStandFor(unq, [piece] + pieces, [part] + parts)
  {
    hide StandsFor;
  }

  /** For any accepted source, the literals and the bracketed bodies in order
      concatenate back to exactly that source. */
  lemma {:induction false} AcceptedSourceIsItsPieces(unq: Unquoter, src: string) returns (pieces: seq<Piece>)
    requires Parsed(unq, src).Ok?
    ensures Source(pieces) == src && AllStandFor(unq, pieces, Parsed(unq, src).value) && CutLeftmost(pieces)
    decreases |src|
  {
    hide Placeholder, Find, Parsed, AllStandFor;
    var open := Find(src, "{{", 0);
    if open < 0 {
      ParsedPlain(unq, src);
      NothingStandsForNothing(unq);
      if src != "" {
        AlsoStandsFor(unq, Plain(src), Literal(src), [], []);
        assert [Plain(src)] + [] == [Plain(src)] && [Literal(src)] + [] == [Literal(src)];
      }
      pieces := if src == "" then [] else [Plain(src)];
      assert src != "" ==> Source(pieces) == src + Source(pieces[1..]);
    } else if open > 0 {
      OpensHere(src, open);
      ParsedLiteral(unq, src, open);
      var rest := AcceptedSourceIsItsPieces(unq, src[open..]);
      pieces := [Plain(src[..open])] + rest;
      assert pieces[1..] == rest && src == src[..open] + src[open..];
      NoneBefore(src, "{{", open);
      AlsoStandsFor(unq, pieces[0], Literal(src[..open]), rest, Parsed(unq, src[open..]).value);
    } else {
      OpensHere(src, open);
      var after := src[2..];
      var close := Find(after, "}}", 0);
      ParsedHole(unq, src, close);
      var rest := AcceptedSourceIsItsPieces(unq, after[close + 2..]);
      pieces := [Braced(after[..close])] + rest;
      assert pieces[1..] == rest;
      NoneBefore(after, "}}", close);
      Bracketed(src, close);
      var part := Placeholder(unq, after[..close]).value;
      AlsoStandsFor(unq, pieces[0], part, rest, Parsed(unq, after[close + 2..]).value);
    }
  }

  lemma NoneBefore(s: string, sub: string, i: nat)
    requires i <= |s| && sub != "" && forall j :: 0 <= j < i ==> !OccursAt(s, sub, j)
    ensures forall j :: !OccursAt(s[..i], sub, j)
  {
    forall j ensures !OccursAt(s[..i], sub, j) {
      if 0 <= j && j + |sub| <= i {
        assert s[..i][j..j + |sub|] == s[j..j + |sub|];
        assert !OccursAt(s, sub, j);
      }
    }
  }

  lemma Bracketed(src: string, close: nat)
    requires |src| >= 2 && src[0..2] == "{{" && OccursAt(src[2..], "}}", close)
    ensures src == "{{" + src[2..][..close] + "}}" + src[2..][close + 2..]
  {
    var after := src[2..];
    assert after == after[..close] + after[close..close + 2] + after[close + 2..];
    assert src == src[0..2] + after;
  }

  // ---------------------------------------------------------------------
  // From parts to source and back to the parts
  // ---------------------------------------------------------------------

  function Body(hole: Part): string
    requires hole.Hole?
  {
    hole.ref.namespace + "." + JoinWith(hole.ref.path, '.')
    + if hole.hasDefault then "|default:" + hole.defaultVal else ""
  }

  function Print(parts: seq<Part>): string {
    if parts == [] then ""
    else (match parts[0] case Literal(t) => t case Hole(_, _, _) => "{{" + Body(parts[0]) + "}}") + Print(parts[1..])
  }

  predicate EndsWith(s: string, c: char) {
    s != "" && s[|s| - 1] == c
  }

  /** A default that survives being written into a placeholder. */
  ghost predicate PlainDefault(unq: Unquoter, d: string) {
    && FreeOf(d, '|') && (forall j :: !OccursAt(d, "}}", j)) && !EndsWith(d, '}')
    && TrimSpace(d) == d && Unquote(unq, d) == d
  }

  ghost predicate CanonicalHole(unq: Unquoter, p: Part) {
    && p.Hole? && p.ref.namespace in NAMESPACES
    && p.ref.path != [] && (forall i :: 0 <= i < |p.ref.path| ==> ValidIdent(p.ref.path[i]))
    && (if p.hasDefault then PlainDefault(unq, p.defaultVal) else p.defaultVal == "")
  }

  /** Literals are non-empty, not adjacent, hold no opening braces and do not end in
      a brace just before a placeholder. */
  ghost predicate Canonical(unq: Unquoter, parts: seq<Part>) {
    forall i :: 0 <= i < |parts| ==> CanonicalAt(unq, parts, i)
  }

  ghost predicate CanonicalAt(unq: Unquoter, parts: seq<Part>, i: nat)
    requires i < |parts|
  {
    match parts[i]
    case Hole(_, _, _) => CanonicalHole(unq, parts[i])
    case Literal(t) =>
      && t != "" && (forall j :: !OccursAt(t, "{{", j))
      && (i + 1 < |parts| ==> parts[i + 1].Hole? && !EndsWith(t, '{'))
  }

  lemma {:induction false} SplitFree(s: string, c: char, n: nat)
    requires n <= |s| && forall i :: n <= i < |s| ==> s[i] != c
    ensures SplitFrom(s, c, n) == [s]
    decreases |s| - n
  {
    if n < |s| { SplitFree(s, c, n + 1); }
  }

  lemma {:induction false} SplitAtFirst(s: string, t: string, c: char, n: nat)
    requires n <= |s| && forall i :: n <= i < |s| ==> s[i] != c
    ensures SplitFrom(s + [c] + t, c, n) == [s] + SplitFrom(t, c, 0)
    decreases |s| - n
  {
    var all := s + [c] + t;
    if n < |s| {
      assert all[n] == s[n];
      SplitAtFirst(s, t, c, n + 1);
    } else {
      assert all[n] == c && all[..n] == s && all[n + 1..] == t;
    }
  }

  /** Splitting undoes joining. */
  lemma {:induction false} SplitJoin(parts: seq<string>, c: char)
    requires parts != [] && forall i :: 0 <= i < |parts| ==> FreeOf(parts[i], c)
    ensures Split(JoinWith(parts, c), c) == parts
    decreases |parts|
  {
    if |parts| == 1 {
      SplitFree(parts[0], c, 0);
    } else {
      assert FreeOf(parts[0], c);
      SplitJoin(parts[1..], c);
      SplitAtFirst(parts[0], JoinWith(parts[1..], c), c, 0);
      assert parts == [parts[0]] + parts[1..];
    }
  }

  predicate IdentsAndDots(s: string) {
    forall i :: 0 <= i < |s| ==> IdentChar(s[i], false) || s[i] == '.'
  }

  lemma IdentIsPlain(c: char, first: bool)
    requires IdentChar(c, first) || c == '.'
    ensures c != '|' && c != '{' && c != '}' && !IsSpace(c)
  {
  }

  lemma {:induction false} JoinedPath(path: seq<string>)
    requires path != [] && forall i :: 0 <= i < |path| ==> ValidIdent(path[i])
    ensures JoinWith(path, '.') != "" && IdentsAndDots(JoinWith(path, '.'))
    ensures forall i :: 0 <= i < |path| ==> FreeOf(path[i], '.')
    decreases |path|
  {
    forall i | 0 <= i < |path| ensures FreeOf(path[i], '.') {
      assert ValidIdent(path[i]);
    }
    if |path| > 1 {
      assert ValidIdent(path[0]);
      JoinedPath(path[1..]);
    } else {
      assert ValidIdent(path[0]);
    }
  }

  lemma TrimKeepsSolid(s: string)
    requires s != "" && !IsSpace(s[0]) && !IsSpace(s[|s| - 1])
    ensures TrimSpace(s) == s
  {
  }

  lemma {:induction false} FirstDot(ns: string, rest: string, n: nat)
    requires n <= |ns| && forall i :: n <= i < |ns| ==> ns[i] != '.'
    ensures Find(ns + "." + rest, ".", n) == |ns|
    decreases |ns| - n
  {
    var s := ns + "." + rest;
    assert s[n..n + 1] == [s[n]];
    if n < |ns| {
      assert s[n] == ns[n];
      FirstDot(ns, rest, n + 1);
    }
  }

  lemma NamespacesArePlain(ns: string)
    requires ns in NAMESPACES
    ensures ns != "" && FreeOf(ns, '.') && forall i :: 0 <= i < |ns| ==> IdentChar(ns[i], false)
  {
  }

  /** The lookup of a canonical hole parses to its reference. */
  lemma LookupRoundTrip(ref: Ref)
    requires ref.namespace in NAMESPACES && ref.path != []
    requires forall i :: 0 <= i < |ref.path| ==> ValidIdent(ref.path[i])
    ensures var s := ref.namespace + "." + JoinWith(ref.path, '.');
            && Lookup(s) == Ok(ref) && TrimSpace(s) == s && s != "" && IdentsAndDots(s)
  {
    hide JoinWith, ValidIdent, TrimSpace, Find, NAMESPACES, IdentChar, IsSpace;
    var path := JoinWith(ref.path, '.');
    var s := ref.namespace + "." + path;
    NamespacesArePlain(ref.namespace);
    JoinedPath(ref.path);
    FirstDot(ref.namespace, path, 0);
    SplitJoin(ref.path, '.');
    assert s[..|ref.namespace|] == ref.namespace && s[|ref.namespace| + 1..] == path;
    IdentIsPlain(s[0], false);
    assert s[|s| - 1] == path[|path| - 1];
    IdentIsPlain(s[|s| - 1], false);
    TrimKeepsSolid(s);
  }

  lemma DefaultFilter(unq: Unquoter, d: string)
    requires PlainDefault(unq, d)
    ensures var f := "default:" + d;
            TrimSpace(f) == f && f[8..] == d && "default:" <= f && FreeOf(f, '|')
  {
    hide TrimSpace;
    var f := "default:" + d;
    if d != "" {
      TrimmedEnds(d);
      assert f[|f| - 1] == d[|d| - 1];
    }
    TrimKeepsSolid(f);
  }

  lemma TrimmedEnds(d: string)
    requires d != "" && TrimSpace(d) == d
    ensures !IsSpace(d[|d| - 1])
  {
    assert Trail(d) == |d|;
  }

  /** The body of a canonical hole parses to the hole. */
  lemma PlaceholderRoundTrip(unq: Unquoter, p: Part)
    requires CanonicalHole(unq, p)
    ensures Placeholder(unq, Body(p)) == Ok(p)
  {
    hide Lookup, TrimSpace, Unquote, JoinWith, NAMESPACES, IdentChar, IsSpace;
    var s := p.ref.namespace + "." + JoinWith(p.ref.path, '.');
    LookupRoundTrip(p.ref);
    forall i | 0 <= i < |s| ensures s[i] != '|' { IdentIsPlain(s[i], false); }
    if p.hasDefault {
      var f := "default:" + p.defaultVal;
      DefaultFilter(unq, p.defaultVal);
      assert Body(p) == s + "|" + f;
      SplitAtFirst(s, f, '|', 0);
      SplitFree(f, '|', 0);
      var segments := Split(Body(p), '|');
      assert segments == [s, f] && segments[1..] == [f] && [f][1..] == [];
      OneFilter(unq, Hole(p.ref, "", false), f);
    } else {
      assert Body(p) == s;
      SplitFree(s, '|', 0);
      assert [s][1..] == [];
    }
  }

  lemma OneFilter(unq: Unquoter, hole: Part, f: string)
    requires hole.Hole? && TrimSpace(f) == f && "default:" <= f
    ensures Filters(unq, hole, [f]) == Ok(Hole(hole.ref, Unquote(unq, TrimSpace(f[8..])), true))
  {
    hide TrimSpace, Unquote;
    assert [f][1..] == [];
  }

  /** A canonical body holds no closing braces and does not end in half of one. */
  lemma BodyIsClosed(unq: Unquoter, p: Part)
    requires CanonicalHole(unq, p)
    ensures !EndsWith(Body(p), '}') && forall j :: !OccursAt(Body(p), "}}", j)
  {
    hide Lookup, TrimSpace, Unquote, JoinWith, NAMESPACES, IdentChar, IsSpace;
    var s, b := p.ref.namespace + "." + JoinWith(p.ref.path, '.'), Body(p);
    LookupRoundTrip(p.ref);
    forall i | 0 <= i < |s| ensures s[i] != '}' { IdentIsPlain(s[i], false); }
    var n := |b| - |p.defaultVal|;
    assert p.hasDefault ==> b == s + "|default:" + p.defaultVal;
    forall i | 0 <= i < n ensures b[i] != '}' {
      if i < |s| { assert b[i] == s[i]; } else { assert b[i] == "|default:"[i - |s|]; }
    }
    forall j ensures !OccursAt(b, "}}", j) {
      if 0 <= j && j + 2 <= |b| {
        assert b[j..j + 2][0] == b[j];
        if j >= n { assert b[j..j + 2] == p.defaultVal[j - n..j - n + 2]; assert !OccursAt(p.defaultVal, "}}", j - n); }
      }
    }
    assert p.defaultVal != "" ==> b[|b| - 1] == p.defaultVal[|p.defaultVal| - 1];
  }

  lemma {:induction false} FindAt(s: string, sub: string, i: nat, at: nat)
    requires i <= at && OccursAt(s, sub, at) && forall j :: i <= j < at ==> !OccursAt(s, sub, j)
    ensures Find(s, sub, i) == at
    decreases at - i
  {
    if i < at { FindAt(s, sub, i + 1, at); }
  }

  lemma NoneFound(s: string, sub: string)
    requires forall j :: !OccursAt(s, sub, j)
    ensures Find(s, sub, 0) == -1
  {
    hide Find;
  }

  /** A two-character delimiter after text free of it is found right there, unless
      the text ends in half of it. */
  lemma FindDelimiter(a: string, b: string, c: char)
    requires !EndsWith(a, c) && forall j :: !OccursAt(a, [c, c], j)
    ensures Find(a + [c, c] + b, [c, c], 0) == |a|
  {
    hide Find;
    var s, d := a + [c, c] + b, [c, c];
    assert s[|a|..|a| + 2] == d;
    forall j | 0 <= j < |a| ensures !OccursAt(s, d, j) {
      if j + 2 <= |a| {
        assert s[j..j + 2] == a[j..j + 2];
        assert !OccursAt(a, d, j);
      } else {
        assert s[j..j + 2][0] == s[j] == a[|a| - 1];
      }
    }
    FindAt(s, d, 0, |a|);
  }

  /** A printer for canonical parts is inverted by Parse. */
  lemma {:induction false} PrintParses(unq: Unquoter, parts: seq<Part>)
    requires Canonical(unq, parts)
    ensures Parsed(unq, Print(parts)) == Ok(parts)
    decreases |parts|
  {
    hide Find, Placeholder, Parsed, CanonicalHole, Body, Canonical;
    if parts == [] {
      NothingToParse(unq);
    } else {
      var rest := parts[1..];
      CanonicalTail(unq, parts);
      PrintParses(unq, rest);
      assert parts == [parts[0]] + rest;
      match parts[0]
      case Hole(_, _, _) => HoleParses(unq, parts[0], Print(rest), rest);
      case Literal(t) =>
        if rest != [] { PrintedHoleOpens(rest); }
        LiteralParses(unq, t, Print(rest), rest);
    }
  }

  lemma CanonicalTail(unq: Unquoter, parts: seq<Part>)
    requires Canonical(unq, parts) && parts != []
    ensures Canonical(unq, parts[1..]) && CanonicalAt(unq, parts, 0)
  {
    hide CanonicalHole;
    forall i | 0 <= i < |parts[1..]| ensures CanonicalAt(unq, parts[1..], i) {
      assert CanonicalAt(unq, parts, i + 1);
    }
  }

  lemma NothingToParse(unq: Unquoter)
    ensures Parsed(unq, "") == Ok([])
  {
  }

  lemma PrintedHoleOpens(parts: seq<Part>)
    requires parts != [] && parts[0].Hole?
    ensures |Print(parts)| >= 2 && Print(parts)[..2] == "{{"
  {
  }

  lemma HoleParses(unq: Unquoter, p: Part, rest: string, parsed: seq<Part>)
    requires p.Hole? && CanonicalHole(unq, p) && Parsed(unq, rest) == Ok(parsed)
    ensures Parsed(unq, "{{" + Body(p) + "}}" + rest) == Ok([p] + parsed)
  {
    hide Find, Placeholder, Parsed, CanonicalHole, Body;
    var body := Body(p);
    var src := "{{" + body + "}}" + rest;
    var after := body + "}}" + rest;
    PlaceholderRoundTrip(unq, p);
    BodyIsClosed(unq, p);
    assert src == "" + ['{', '{'] + after;
    FindDelimiter("", after, '{');
    assert after == body + ['}', '}'] + rest;
    FindDelimiter(body, rest, '}');
    assert src[2..] == after && after[..|body|] == body && after[|body| + 2..] == rest;
    ParsedHole(unq, src, |body|);
  }

  lemma LiteralParses(unq: Unquoter, t: string, rest: string, parsed: seq<Part>)
    requires t != "" && Parsed(unq, rest) == Ok(parsed) && forall j :: !OccursAt(t, "{{", j)
    requires rest == "" || (|rest| >= 2 && rest[..2] == "{{" && !EndsWith(t, '{'))
    ensures Parsed(unq, t + rest) == Ok([Literal(t)] + parsed)
  {
    hide Find, Parsed;
    if rest == "" {
      assert t + rest == t;
      NothingToParse(unq);
      NoneFound(t, "{{");
      ParsedPlain(unq, t);
      assert parsed == [] && [Literal(t)] + [] == [Literal(t)];
    } else {
      var after := rest[2..];
      assert rest == ['{', '{'] + after;
      assert t + rest == t + ['{', '{'] + after;
      FindDelimiter(t, after, '{');
      assert (t + rest)[..|t|] == t && (t + rest)[|t|..] == rest;
      ParsedLiteral(unq, t + rest, |t|);
    }
  }
}
