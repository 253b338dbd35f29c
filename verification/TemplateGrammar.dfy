/** The placeholder grammar (internal/tmpl/tmpl.go), without the parser: which bodies
    are placeholders, and of what. */
module TemplateGrammar {
  import opened Wrappers
  import opened Text
  import opened Template
  import opened TemplateRoundTrip

  // ---------------------------------------------------------------------
  // The grammar
  // ---------------------------------------------------------------------

  predicate Letter(c: char) {
    'a' <= c <= 'z' || 'A' <= c <= 'Z' || c == '_'
  }

  /** A letter or an underscore, then letters, underscores, digits and hyphens. */
  predicate Identifier(s: string) {
    s != "" && Letter(s[0]) && forall i :: 0 <= i < |s| ==> Letter(s[i]) || '0' <= s[i] <= '9' || s[i] == '-'
  }

  /** The lookup is the reference, written out. */
  ghost predicate Names(lookup: string, ref: Ref) {
    && (ref.namespace == "input" || ref.namespace == "vars" || ref.namespace == "secrets")
    && ref.path != [] && (forall i :: 0 <= i < |ref.path| ==> Identifier(ref.path[i]))
    && lookup == ref.namespace + "." + JoinWith(ref.path, '.')
  }

  /** d is what the literal t stands for: a pair of single quotes is taken off; a pair
      of double quotes is taken off with its escapes resolved, or left as they are when
      one of them is malformed. */
  ghost predicate Denotes(unq: Unquoter, t: string, d: string) {
    if |t| >= 2 && t[0] == t[|t| - 1] == '\'' then t == "'" + d + "'"
    else if |t| >= 2 && t[0] == t[|t| - 1] == '"' then
      match unq(t) case Some(x) => d == x case None => t == "\"" + d + "\""
    else d == t
  }

  /** The filter sets the default to d. */
  ghost predicate SetsDefault(unq: Unquoter, segment: string, d: string) {
    exists v :: TrimSpace(segment) == "default:" + v && Denotes(unq, TrimSpace(v), d)
  }

  /** The segments between the bars say: a reference, then filters that each set the
      default, the last of them to the hole's. */
  ghost predicate Says(unq: Unquoter, segments: seq<string>, hole: Part)
    requires hole.Hole?
  {
    && segments != [] && Names(TrimSpace(segments[0]), hole.ref)
    && (forall i :: 1 <= i < |segments| ==> "default:" <= TrimSpace(segments[i]))
    && (hole.hasDefault <==> |segments| > 1)
    && (if |segments| > 1 then SetsDefault(unq, segments[|segments| - 1], hole.defaultVal) else hole.defaultVal == "")
  }

  // ---------------------------------------------------------------------
  // The parser accepts exactly the grammar
  // ---------------------------------------------------------------------

  lemma IdentifierIff(s: string)
    ensures ValidIdent(s) <==> Identifier(s)
  {
    if s != "" && Identifier(s) {
      forall i | 0 <= i < |s| ensures IdentChar(s[i], i == 0) {}
    }
    if ValidIdent(s) {
      assert IdentChar(s[0], true);
      forall i | 0 <= i < |s| ensures Letter(s[i]) || '0' <= s[i] <= '9' || s[i] == '-' {
        assert IdentChar(s[i], i == 0);
      }
    }
  }

  /** What splitting yields joins back, and no part holds the separator. */
  lemma {:induction false} SplitIsCut(s: string, c: char, n: nat)
    requires n <= |s| && forall i :: 0 <= i < n ==> s[i] != c
    ensures var parts := SplitFrom(s, c, n);
            JoinWith(parts, c) == s && forall i :: 0 <= i < |parts| ==> FreeOf(parts[i], c)
    decreases |s|, |s| - n
  {
    if n < |s| {
      if s[n] == c {
        var rest := SplitFrom(s[n + 1..], c, 0);
        SplitIsCut(s[n + 1..], c, 0);
        var parts := [s[..n]] + rest;
        assert parts[1..] == rest && s == s[..n] + [c] + s[n + 1..];
      } else {
        SplitIsCut(s, c, n + 1);
      }
    }
  }

  lemma DenotesIff(unq: Unquoter, t: string, d: string)
    ensures Unquote(unq, t) == d <==> Denotes(unq, t, d)
  {
    if |t| >= 2 && (t[0] == '\'' || t[0] == '"') && t[|t| - 1] == t[0] {
      var q, inner := [t[0]], t[1..|t| - 1];
      assert t == q + inner + q;
      assert t == q + d + q ==> d == inner by {
        if t == q + d + q { assert (q + d + q)[1..|t| - 1] == d; }
      }
    }
  }

  lemma NamespacesAre(ns: string)
    ensures ns in NAMESPACES <==> ns == "input" || ns == "vars" || ns == "secrets"
  {
  }

  lemma NamesIff(lookup: string, ref: Ref)
    ensures Lookup(lookup) == Ok(ref) <==> Names(lookup, ref)
  {
    hide ValidIdent, Identifier, Find, JoinWith, NAMESPACES;
    forall s ensures ValidIdent(s) <==> Identifier(s) { IdentifierIff(s); }
    NamespacesAre(ref.namespace);
    if Names(lookup, ref) {
      LookupRoundTrip(ref);
    }
    if Lookup(lookup) == Ok(ref) {
      var dot := Find(lookup, ".", 0);
      assert lookup[dot..dot + 1] == ".";
      assert lookup == lookup[..dot] + "." + lookup[dot + 1..];
      SplitIsCut(lookup[dot + 1..], '.', 0);
    }
  }

  /** Every filter must be a default; the last one counts. */
  lemma {:induction false} FiltersAre(unq: Unquoter, hole: Part, segments: seq<string>)
    requires hole.Hole?
    ensures Filters(unq, hole, segments).Ok?
            <==> forall i :: 0 <= i < |segments| ==> "default:" <= TrimSpace(segments[i])
    ensures Filters(unq, hole, segments).Ok? ==>
              var p := Filters(unq, hole, segments).value;
              && p.Hole? && p.ref == hole.ref
              && (segments == [] ==> p == hole)
              && (segments != [] ==> p.hasDefault && SetsDefault(unq, segments[|segments| - 1], p.defaultVal))
    decreases |segments|
  {
    hide Unquote, TrimSpace, Denotes;
    if segments != [] {
      var filter := TrimSpace(segments[0]);
      if "default:" <= filter {
        var d := Unquote(unq, TrimSpace(filter[8..]));
        var next := Hole(hole.ref, d, true);
        FiltersAre(unq, next, segments[1..]);
        assert filter == "default:" + filter[8..];
        DenotesIff(unq, TrimSpace(filter[8..]), d);
        assert SetsDefault(unq, segments[0], d);
        forall i | 0 <= i < |segments[1..]| ensures segments[1..][i] == segments[i + 1] {}
        assert Filters(unq, hole, segments) == Filters(unq, next, segments[1..]);
      }
    }
  }

  /** A filter sets the default to one text only. */
  lemma DefaultIsOne(unq: Unquoter, segment: string, d: string, e: string)
    requires SetsDefault(unq, segment, d) && SetsDefault(unq, segment, e)
    ensures d == e
  {
    hide TrimSpace, Denotes;
    var v :| TrimSpace(segment) == "default:" + v && Denotes(unq, TrimSpace(v), d);
    var w :| TrimSpace(segment) == "default:" + w && Denotes(unq, TrimSpace(w), e);
    assert ("default:" + v)[8..] == v && ("default:" + w)[8..] == w;
    DenotesIff(unq, TrimSpace(v), d);
    DenotesIff(unq, TrimSpace(v), e);
  }

  /** A body is the placeholder of a hole exactly when the stretches between its bars
      say so; white space around each of them does not matter. */
  lemma PlaceholderIff(unq: Unquoter, body: string, segments: seq<string>, hole: Part)
    requires hole.Hole?
    requires segments != [] && JoinWith(segments, '|') == body
    requires forall i :: 0 <= i < |segments| ==> FreeOf(segments[i], '|')
    ensures Placeholder(unq, body) == Ok(hole) <==> Says(unq, segments, hole)
  {
    hide Lookup, Filters, TrimSpace, Unquote, Names, SetsDefault, JoinWith, FreeOf;
    SplitJoin(segments, '|');
    var lookup, rest := TrimSpace(segments[0]), segments[1..];
    NamesIff(lookup, hole.ref);
    var empty := Hole(hole.ref, "", false);
    FiltersAre(unq, empty, rest);
    forall i | 0 <= i < |rest| ensures rest[i] == segments[i + 1] {}
    assert (forall i :: 0 <= i < |rest| ==> "default:" <= TrimSpace(rest[i]))
      <==> (forall i :: 1 <= i < |segments| ==> "default:" <= TrimSpace(segments[i])) by {
      if forall i :: 0 <= i < |rest| ==> "default:" <= TrimSpace(rest[i]) {
        forall i | 1 <= i < |segments| ensures "default:" <= TrimSpace(segments[i]) {
          assert rest[i - 1] == segments[i];
        }
      }
    }
    if Placeholder(unq, body) == Ok(hole) {
      RefKept(unq, body, segments, hole);
    }
    if Says(unq, segments, hole) {
      assert Placeholder(unq, body) == Filters(unq, empty, rest);
      var p := Filters(unq, empty, rest).value;
      if rest != [] { DefaultIsOne(unq, segments[|segments| - 1], p.defaultVal, hole.defaultVal); }
    }
  }

  lemma RefKept(unq: Unquoter, body: string, segments: seq<string>, hole: Part)
    requires hole.Hole? && Split(body, '|') == segments && Placeholder(unq, body) == Ok(hole)
    ensures Lookup(TrimSpace(segments[0])) == Ok(hole.ref)
  {
    hide Lookup, Filters, TrimSpace, SetsDefault;
    var ref := Lookup(TrimSpace(segments[0])).value;
    FiltersAre(unq, Hole(ref, "", false), segments[1..]);
  }

  /** Every body is cut at its bars in one way, so the above decides every body. */
  lemma EveryBodyIsCut(body: string) returns (segments: seq<string>)
    ensures segments != [] && JoinWith(segments, '|') == body
    ensures forall i :: 0 <= i < |segments| ==> FreeOf(segments[i], '|')
  {
    segments := Split(body, '|');
    SplitIsCut(body, '|', 0);
  }
}
