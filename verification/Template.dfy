/** The manifest template language (internal/tmpl/tmpl.go): parsing. */
module Template {
  import opened Wrappers
  import opened Text

  datatype Ref = Ref(namespace: string, path: seq<string>)

  datatype Part =
    | Literal(text: string)
    | Hole(ref: Ref, defaultVal: string, hasDefault: bool)

  datatype Error =
    | Unterminated | EmptyPlaceholder | NotNamespacePath | UnknownNamespace | InvalidElement | UnsupportedFilter

  datatype Result<T> = Ok(value: T) | Err(error: Error)

  /** strconv.Unquote on a double-quoted string: the text, or nothing when an escape
      is malformed. */
  type Unquoter = string -> Option<string>

  const NAMESPACES: seq<string> := ["input", "vars", "secrets"]

  // ---------------------------------------------------------------------
  // Strings
  // ---------------------------------------------------------------------

  /** strings.Index from position i on, or -1. */
  function Find(s: string, sub: string, i: nat): (r: int)
    ensures r == -1 || (i <= r && OccursAt(s, sub, r))
    ensures forall j :: i <= j && (r == -1 || j < r) ==> !OccursAt(s, sub, j)
    decreases |s| - i
  {
    if i + |sub| > |s| then -1
    else if OccursAt(s, sub, i) then i
    else if i == |s| then -1
    else Find(s, sub, i + 1)
  }

  /** strings.Split on one character. */
  function Split(s: string, c: char): (parts: seq<string>)
    ensures parts != []
  {
    SplitFrom(s, c, 0)
  }

  /** The same, knowing that the first n characters are not c. */
  function SplitFrom(s: string, c: char, n: nat): (parts: seq<string>)
    requires n <= |s|
    ensures parts != []
    decreases |s|, |s| - n
  {
    if n == |s| then [s]
    else if s[n] == c then [s[..n]] + SplitFrom(s[n + 1..], c, 0)
    else SplitFrom(s, c, n + 1)
  }

  function JoinWith(parts: seq<string>, c: char): string {
    if parts == [] then ""
    else if |parts| == 1 then parts[0]
    else parts[0] + [c] + JoinWith(parts[1..], c)
  }

  predicate FreeOf(s: string, c: char) {
    forall i :: 0 <= i < |s| ==> s[i] != c
  }

  // ---------------------------------------------------------------------
  // Placeholders
  // ---------------------------------------------------------------------

  predicate IdentChar(c: char, first: bool) {
    'a' <= c <= 'z' || 'A' <= c <= 'Z' || c == '_' || (!first && ('0' <= c <= '9' || c == '-'))
  }

  predicate ValidIdent(s: string) {
    s != "" && forall i :: 0 <= i < |s| ==> IdentChar(s[i], i == 0)
  }

  function Unquote(unq: Unquoter, s: string): string {
    if |s| >= 2 && (s[0] == '"' || s[0] == '\'') && s[|s| - 1] == s[0] then
      if s[0] == '"' && unq(s).Some? then unq(s).value else s[1..|s| - 1]
    else s
  }

  /** The filters of a placeholder, in order: each default replaces the one before. */
  function Filters(unq: Unquoter, hole: Part, segments: seq<string>): Result<Part>
    requires hole.Hole?
    decreases |segments|
  {
    if segments == [] then Ok(hole)
    else
      var filter := TrimSpace(segments[0]);
      if !("default:" <= filter) then Err(UnsupportedFilter)
      else Filters(unq, Hole(hole.ref, Unquote(unq, TrimSpace(filter[8..])), true), segments[1..])
  }

  /** A namespaced lookup, or why it is not one. */
  function Lookup(lookup: string): Result<Ref> {
    if lookup == "" then Err(EmptyPlaceholder)
    else
      var dot := Find(lookup, ".", 0);
      if dot < 0 || dot + 1 == |lookup| then Err(NotNamespacePath)
      else
        var namespace, path := lookup[..dot], Split(lookup[dot + 1..], '.');
        if namespace !in NAMESPACES then Err(UnknownNamespace)
        else if exists i :: 0 <= i < |path| && !ValidIdent(path[i]) then Err(InvalidElement)
        else Ok(Ref(namespace, path))
  }

  /** What a placeholder's body means. */
  function Placeholder(unq: Unquoter, body: string): Result<Part> {
    var segments := Split(body, '|');
    match Lookup(TrimSpace(segments[0]))
    case Err(e) => Err(e)
    case Ok(ref) => Filters(unq, Hole(ref, "", false), segments[1..])
  }

  method ParsePlaceholder(unq: Unquoter, body: string) returns (r: Result<Part>)
    ensures r == Placeholder(unq, body)
  {
    hide Split, TrimSpace, Lookup, Unquote;
    var segments := Split(body, '|');
    var ref := Lookup(TrimSpace(segments[0]));
    if ref.Err? { return Err(ref.error); }
    var hole := Hole(ref.value, "", false);
    var i := 1;
    while i < |segments|
      invariant 1 <= i <= |segments| && hole.Hole?
      invariant Filters(unq, hole, segments[i..]) == Placeholder(unq, body)
    {
      var filter := TrimSpace(segments[i]);
      if !("default:" <= filter) { return Err(UnsupportedFilter); }
      assert segments[i..][1..] == segments[i + 1..];
      hole := Hole(hole.ref, Unquote(unq, TrimSpace(filter[8..])), true);
      i := i + 1;
    }
    return Ok(hole);
  }

  // ---------------------------------------------------------------------
  // Templates
  // ---------------------------------------------------------------------

  function Prepend(parts: seq<Part>, r: Result<seq<Part>>): Result<seq<Part>> {
    if r.Ok? then Ok(parts + r.value) else r
  }

  /** What a source text parses to. */
  function Parsed(unq: Unquoter, src: string): Result<seq<Part>>
    decreases |src|
  {
    var open := Find(src, "{{", 0);
    if open < 0 then Ok(if src == "" then [] else [Literal(src)])
    else if open > 0 then Prepend([Literal(src[..open])], Parsed(unq, src[open..]))
    else
      var rest := src[2..];
      var close := Find(rest, "}}", 0);
      if close < 0 then Err(Unterminated)
      else match Placeholder(unq, rest[..close])
        case Err(e) => Err(e)
        case Ok(p) => Prepend([p], Parsed(unq, rest[close + 2..]))
  }

  lemma PrependTwice(a: seq<Part>, b: seq<Part>, r: Result<seq<Part>>)
    ensures Prepend(a, Prepend(b, r)) == Prepend(a + b, r)
  {
    if r.Ok? { assert a + (b + r.value) == a + b + r.value; }
  }

  lemma PrependNothing(r: Result<seq<Part>>)
    ensures Prepend([], r) == r
  {
    if r.Ok? { assert [] + r.value == r.value; }
  }

  /** At the first opening braces the rest starts with them. */
  lemma OpensHere(src: string, open: nat)
    requires Find(src, "{{", 0) == open
    ensures open + 2 <= |src| && Find(src[open..], "{{", 0) == 0 && src[open..][2..] == src[open + 2..]
  {
    assert src[open..open + 2] == src[open..][0..2];
  }

  method Parse(unq: Unquoter, src: string) returns (r: Result<seq<Part>>)
    ensures r == Parsed(unq, src)
  {
    hide Placeholder, Find, Prepend;
    var parts: seq<Part> := [];
    var rest := src;
    PrependNothing(Parsed(unq, src));
    while true
      invariant Prepend(parts, Parsed(unq, rest)) == Parsed(unq, src)
      decreases |rest|
    {
      var open := Find(rest, "{{", 0);
      if open < 0 {
        ParsedTail(unq, parts, rest);
        if rest != "" {
          parts := parts + [Literal(rest)];
        }
        return Ok(parts);
      }
      OpensHere(rest, open);
      ghost var at := rest[open..];
      if open > 0 {
        PrependTwice(parts, [Literal(rest[..open])], Parsed(unq, at));
        parts := parts + [Literal(rest[..open])];
      } else {
        assert at == rest;
      }
      rest := rest[open + 2..];
      var close := Find(rest, "}}", 0);
      if close < 0 {
        PrependError(parts, Unterminated);
        return Err(Unterminated);
      }
      var p := ParsePlaceholder(unq, rest[..close]);
      if p.Err? {
        PrependError(parts, p.error);
        return Err(p.error);
      }
      PrependTwice(parts, [p.value], Parsed(unq, rest[close + 2..]));
      parts := parts + [p.value];
      rest := rest[close + 2..];
    }
  }

  lemma ParsedTail(unq: Unquoter, parts: seq<Part>, rest: string)
    requires Find(rest, "{{", 0) < 0
    ensures Prepend(parts, Parsed(unq, rest)) == Ok(if rest == "" then parts else parts + [Literal(rest)])
  {
    assert parts + [] == parts;
  }

  lemma PrependError(parts: seq<Part>, e: Error)
    ensures Prepend(parts, Err(e)) == Err(e)
  {
  }
}
