/** Rendering templates (internal/tmpl/tmpl.go): what a template may read, and what
    of a value reaches the output. */
module TemplateRender {
  import opened Wrappers
  import opened Template
  import opened TemplateRoundTrip
  import Text

  /** A JSON value; a number carries the text it is shown as. */
  datatype Value =
    | Str(text: string)
    | Bool(b: bool)
    | Number(shown: string)
    | Null
    | Object(fields: map<string, Value>)
    | Array(items: seq<Value>)

  datatype Scope = NoScope | MapScope(input: map<string, Value>, vars: map<string, string>, secrets: map<string, string>)

  datatype Outcome = Rendered(text: string) | Unresolved | Failed

  datatype ValueOutcome = Typed(value: Value) | UnresolvedValue | FailedValue

  type Escaper = string -> string

  // ---------------------------------------------------------------------
  // Looking values up
  // ---------------------------------------------------------------------

  function Nested(v: Value, path: seq<string>): Option<Value>
    decreases |path|
  {
    if path == [] then Some(v)
    else if v.Object? && path[0] in v.fields then Nested(v.fields[path[0]], path[1..])
    else None
  }

  method LookupNested(root: map<string, Value>, path: seq<string>) returns (r: Option<Value>)
    ensures r == Nested(Object(root), path)
  {
    var cur := Object(root);
    for i := 0 to |path|
      invariant Nested(cur, path[i..]) == Nested(Object(root), path)
    {
      if !cur.Object? || path[i] !in cur.fields { return None; }
      assert path[i..][1..] == path[i + 1..];
      cur := cur.fields[path[i]];
    }
    return Some(cur);
  }

  function Flat(m: map<string, string>, path: seq<string>): Option<Value> {
    if |path| == 1 && path[0] in m then Some(Str(m[path[0]])) else None
  }

  function LookupIn(scope: Scope, ref: Ref): Option<Value> {
    if scope.NoScope? then None
    else if ref.namespace == "input" then Nested(Object(scope.input), ref.path)
    else if ref.namespace == "vars" then Flat(scope.vars, ref.path)
    else if ref.namespace == "secrets" then Flat(scope.secrets, ref.path)
    else None
  }

  /** A null that exists counts as missing. */
  function Resolve(scope: Scope, p: Part): Option<Value>
    requires p.Hole?
  {
    var v := LookupIn(scope, p.ref);
    if v.Some? && v.value != Null then v
    else if p.hasDefault then Some(Str(p.defaultVal))
    else None
  }

  /** The text of a value that has one. */
  function Shown(v: Value): Option<string> {
    match v
    case Str(t) => Some(t)
    case Bool(b) => Some(if b then "true" else "false")
    case Number(t) => Some(t)
    case Null | Object(_) | Array(_) => None
  }

  // ---------------------------------------------------------------------
  // Rendering
  // ---------------------------------------------------------------------

  function Rendering(parts: seq<Part>, scope: Scope, escape: Escaper): Outcome
    decreases |parts|
  {
    if parts == [] then Rendered("")
    else match Written(parts[0], scope, escape)
      case Rendered(t) =>
        (match Rendering(parts[1..], scope, escape)
         case Rendered(more) => Rendered(t + more)
         case other => other)
      case other => other
  }

  /** What one part contributes. */
  function Written(p: Part, scope: Scope, escape: Escaper): Outcome {
    match p
    case Literal(t) => Rendered(t)
    case Hole(_, _, _) =>
      match Resolve(scope, p)
      case None => Unresolved
      case Some(v) => match Shown(v) case Some(t) => Rendered(escape(t)) case None => Failed
  }

  function Then(done: string, rest: Outcome): Outcome {
    match rest case Rendered(t) => Rendered(done + t) case other => other
  }

  method Render(parts: seq<Part>, scope: Scope, escape: Escaper) returns (r: Outcome)
    ensures r == Rendering(parts, scope, escape)
  {
    hide Resolve, Shown;
    var sb := "";
    for i := 0 to |parts|
      invariant Then(sb, Rendering(parts[i..], scope, escape)) == Rendering(parts, scope, escape)
    {
      var p := parts[i];
      assert parts[i..][1..] == parts[i + 1..];
      assert Written(p, scope, escape).Rendered? ==>
        Then(sb, Rendering(parts[i..], scope, escape))
        == Then(sb + Written(p, scope, escape).text, Rendering(parts[i + 1..], scope, escape)) by {
        if Written(p, scope, escape).Rendered? {
          Unroll(sb, parts[i..], scope, escape);
        }
      }
      match p
      case Literal(t) => sb := sb + t;
      case Hole(_, _, _) =>
        var raw := Resolve(scope, p);
        if raw.None? { return Unresolved; }
        var s := Shown(raw.value);
        if s.None? { return Failed; }
        sb := sb + escape(s.value);
    }
    return Rendered(sb);
  }

  lemma Unroll(sb: string, parts: seq<Part>, scope: Scope, escape: Escaper)
    requires parts != [] && Written(parts[0], scope, escape).Rendered?
    ensures Then(sb, Rendering(parts, scope, escape))
            == Then(sb + Written(parts[0], scope, escape).text, Rendering(parts[1..], scope, escape))
  {
    hide Written;
    var rest := Rendering(parts[1..], scope, escape);
    if rest.Rendered? {
      assert sb + (Written(parts[0], scope, escape).text + rest.text)
          == sb + Written(parts[0], scope, escape).text + rest.text;
    }
  }

  /** Rendering produces text exactly when every part does; otherwise nothing is
      emitted, and the first part without text says why. */
  lemma {:induction false} AllOrNothing(parts: seq<Part>, scope: Scope, escape: Escaper) returns (bad: nat)
    ensures bad <= |parts|
    ensures forall i :: 0 <= i < bad ==> Written(parts[i], scope, escape).Rendered?
    ensures Rendering(parts, scope, escape).Rendered? <==> bad == |parts|
    ensures bad < |parts| ==> Rendering(parts, scope, escape) == Written(parts[bad], scope, escape)
    decreases |parts|
  {
    hide Written;
    if parts == [] { return 0; }
    if !Written(parts[0], scope, escape).Rendered? { return 0; }
    var b := AllOrNothing(parts[1..], scope, escape);
    bad := b + 1;
    forall i | 0 <= i < bad ensures Written(parts[i], scope, escape).Rendered? {
      assert i > 0 ==> parts[i] == parts[1..][i - 1];
    }
  }

  function Refs(parts: seq<Part>): seq<Ref> {
    if parts == [] then []
    else (if parts[0].Hole? then [parts[0].ref] else []) + Refs(parts[1..])
  }

  /** A template reads nothing but what its references name. */
  lemma {:induction false} ReadsOnlyItsRefs(parts: seq<Part>, a: Scope, b: Scope, escape: Escaper)
    requires forall i :: 0 <= i < |Refs(parts)| ==> LookupIn(a, Refs(parts)[i]) == LookupIn(b, Refs(parts)[i])
    ensures Rendering(parts, a, escape) == Rendering(parts, b, escape)
    decreases |parts|
  {
    hide LookupIn, Shown;
    if parts != [] {
      var rest := Refs(parts[1..]);
      if parts[0].Hole? {
        assert Refs(parts) == [parts[0].ref] + rest;
        assert LookupIn(a, Refs(parts)[0]) == LookupIn(b, Refs(parts)[0]);
        forall i | 0 <= i < |rest| ensures LookupIn(a, rest[i]) == LookupIn(b, rest[i]) {
          assert rest[i] == Refs(parts)[i + 1];
        }
      } else {
        assert Refs(parts) == rest;
      }
      ReadsOnlyItsRefs(parts[1..], a, b, escape);
    }
  }

  predicate UsesSecrets(parts: seq<Part>) {
    exists i :: 0 <= i < |parts| && parts[i].Hole? && parts[i].ref.namespace == "secrets"
  }

  /** A template that says it uses no secrets renders the same whatever the secrets are. */
  lemma SecretsStayOut(parts: seq<Part>, scope: Scope, others: map<string, string>, escape: Escaper)
    requires scope.MapScope? && !UsesSecrets(parts)
    ensures Rendering(parts, scope, escape) == Rendering(parts, scope.(secrets := others), escape)
  {
    NoSecretRefs(parts);
    ReadsOnlyItsRefs(parts, scope, scope.(secrets := others), escape);
  }

  lemma {:induction false} NoSecretRefs(parts: seq<Part>)
    requires !UsesSecrets(parts)
    ensures forall i :: 0 <= i < |Refs(parts)| ==> Refs(parts)[i].namespace != "secrets"
    decreases |parts|
  {
    if parts != [] {
      forall i | 0 <= i < |parts[1..]| && parts[1..][i].Hole? ensures parts[1..][i].ref.namespace != "secrets" {
        assert parts[1..][i] == parts[i + 1];
      }
      NoSecretRefs(parts[1..]);
    }
  }

  function Count(s: string, c: char): nat {
    if s == "" then 0 else (if s[0] == c then 1 else 0) + Count(s[1..], c)
  }

  function CountInLiterals(parts: seq<Part>, c: char): nat {
    if parts == [] then 0
    else (if parts[0].Literal? then Count(parts[0].text, c) else 0) + CountInLiterals(parts[1..], c)
  }

  lemma {:induction false} CountConcat(a: string, b: string, c: char)
    ensures Count(a + b, c) == Count(a, c) + Count(b, c)
  {
    if a == "" {
      assert a + b == b;
    } else {
      assert (a + b)[1..] == a[1..] + b;
      CountConcat(a[1..], b, c);
    }
  }

  lemma {:induction false} CountNone(s: string, c: char)
    requires c !in s
    ensures Count(s, c) == 0
  {
    if s != "" { CountNone(s[1..], c); }
  }

  /** A delimiter the escaper never writes stands in the output exactly as often as in
      the template's own literals: no value adds a path segment, and none of the
      template's own delimiters is escaped away. */
  lemma {:induction false} ValuesAddNoDelimiter(parts: seq<Part>, scope: Scope, escape: Escaper, c: char)
    requires forall s :: c !in escape(s)
    requires Rendering(parts, scope, escape).Rendered?
    ensures Count(Rendering(parts, scope, escape).text, c) == CountInLiterals(parts, c)
    decreases |parts|
  {
    hide Count, Resolve, Shown;
    if parts == [] {
      CountNone("", c);
    } else {
      ValuesAddNoDelimiter(parts[1..], scope, escape, c);
      var t := Written(parts[0], scope, escape).text;
      CountConcat(t, Rendering(parts[1..], scope, escape).text, c);
      if parts[0].Hole? { CountNone(t, c); }
    }
  }

  predicate Static(parts: seq<Part>) {
    forall i :: 0 <= i < |parts| ==> parts[i].Literal?
  }

  /** A template without placeholders renders to its own source, in any scope. */
  lemma StaticRendersSource(unq: Unquoter, src: string, scope: Scope, escape: Escaper)
    requires Parsed(unq, src).Ok? && Static(Parsed(unq, src).value)
    ensures Rendering(Parsed(unq, src).value, scope, escape) == Rendered(src)
  {
    hide Parsed;
    var pieces := AcceptedSourceIsItsPieces(unq, src);
    StaticPieces(unq, pieces, Parsed(unq, src).value, scope, escape);
  }

  lemma {:induction false} StaticPieces(unq: Unquoter, pieces: seq<Piece>, parts: seq<Part>, scope: Scope, escape: Escaper)
    requires AllStandFor(unq, pieces, parts) && Static(parts)
    ensures Rendering(parts, scope, escape) == Rendered(Source(pieces))
    decreases |parts|
  {
    hide Placeholder;
    if parts != [] {
      assert StandsFor(unq, pieces[0], parts[0]);
      assert AllStandFor(unq, pieces[1..], parts[1..]) by {
        forall i | 0 <= i < |parts[1..]| ensures StandsFor(unq, pieces[1..][i], parts[1..][i]) {
          assert StandsFor(unq, pieces[i + 1], parts[i + 1]);
        }
      }
      if pieces[0].Braced? { PlaceholderIsHole(unq, pieces[0].body); }
      StaticPieces(unq, pieces[1..], parts[1..], scope, escape);
    }
  }

  /** Every accepted placeholder names a known namespace and a path of identifiers. */
  lemma PlaceholderIsHole(unq: Unquoter, body: string)
    requires Placeholder(unq, body).Ok?
    ensures Placeholder(unq, body).value.Hole? && WellFormed(Placeholder(unq, body).value.ref)
  {
    hide Split, Unquote, NAMESPACES, ValidIdent;
    var ref := Lookup(Text.TrimSpace(Split(body, '|')[0]));
    FiltersKeepRef(unq, Hole(ref.value, "", false), Split(body, '|')[1..]);
  }

  lemma {:induction false} FiltersKeepRef(unq: Unquoter, hole: Part, segments: seq<string>)
    requires hole.Hole? && Filters(unq, hole, segments).Ok?
    ensures Filters(unq, hole, segments).value.Hole? && Filters(unq, hole, segments).value.ref == hole.ref
    decreases |segments|
  {
    hide Unquote;
    if segments != [] {
      var filter := Text.TrimSpace(segments[0]);
      FiltersKeepRef(unq, Hole(hole.ref, Unquote(unq, Text.TrimSpace(filter[8..])), true), segments[1..]);
    }
  }

  ghost predicate WellFormed(ref: Ref) {
    ref.namespace in NAMESPACES && ref.path != [] && forall i :: 0 <= i < |ref.path| ==> ValidIdent(ref.path[i])
  }

  /** Whatever source is accepted, each reference names a known namespace and a
      non-empty path of identifiers. */
  lemma AcceptedRefsAreWellFormed(unq: Unquoter, src: string)
    requires Parsed(unq, src).Ok?
    ensures forall i :: 0 <= i < |Parsed(unq, src).value| && Parsed(unq, src).value[i].Hole?
              ==> WellFormed(Parsed(unq, src).value[i].ref)
  {
    hide Parsed, WellFormed, Placeholder;
    var parts := Parsed(unq, src).value;
    var pieces := AcceptedSourceIsItsPieces(unq, src);
    forall i | 0 <= i < |parts| && parts[i].Hole? ensures WellFormed(parts[i].ref) {
      assert StandsFor(unq, pieces[i], parts[i]);
      PlaceholderIsHole(unq, pieces[i].body);
    }
  }

  // ---------------------------------------------------------------------
  // Typed rendering
  // ---------------------------------------------------------------------

  /** json.Unmarshal of a text: its value, or nothing when it is not JSON. */
  type JsonParser = string -> Option<Value>

  /** A default literal as the most specific scalar it can be. */
  function Coerced(json: JsonParser, s: string): Value {
    match json(s)
    case Some(v) => if v.Number? || v.Bool? || v.Null? then v else Str(s)
    case None => Str(s)
  }

  function RenderValue(json: JsonParser, parts: seq<Part>, scope: Scope): ValueOutcome {
    if |parts| == 1 && parts[0].Hole? then
      match Resolve(scope, parts[0])
      case None => UnresolvedValue
      case Some(raw) =>
        if parts[0].hasDefault && raw == Str(parts[0].defaultVal) then Typed(Coerced(json, parts[0].defaultVal))
        else Typed(raw)
    else
      match Rendering(parts, scope, s => s)
      case Rendered(t) => Typed(Str(t))
      case Unresolved => UnresolvedValue
      case Failed => FailedValue
  }

  /** A single placeholder whose value is present yields that value with its type,
      except when the value is the default's own text and that text reads as another
      scalar: then a string the caller supplied comes out as a number, boolean or null. */
  lemma PresentValueKeptIff(json: JsonParser, hole: Part, scope: Scope)
    requires hole.Hole? && LookupIn(scope, hole.ref).Some? && LookupIn(scope, hole.ref).value != Null
    ensures var v := LookupIn(scope, hole.ref).value;
            RenderValue(json, [hole], scope) == Typed(v)
            <==> !(hole.hasDefault && v == Str(hole.defaultVal) && Coerced(json, hole.defaultVal) != v)
  {
    hide LookupIn;
    assert [hole][0] == hole;
  }

  /** The caller's string "7" under default:7 comes out as the number 7. */
  lemma StringBecomesNumber(json: JsonParser)
    requires json("7") == Some(Number("7"))
    ensures var hole := Hole(Ref("input", ["q"]), "7", true);
            var scope := MapScope(map["q" := Str("7")], map[], map[]);
            LookupIn(scope, hole.ref) == Some(Str("7")) && RenderValue(json, [hole], scope) == Typed(Number("7"))
  {
    var input := map["q" := Str("7")];
    assert ["q"][1..] == [];
    assert Nested(Object(input), ["q"]) == Nested(input["q"], []);
  }

  /** Typed and textual rendering of one placeholder agree: both miss together; a value
      without text is still handed on typed; and where there is text, it is the text of
      the typed value or what the typed value was coerced from. */
  lemma TypedAgreesWithText(json: JsonParser, hole: Part, scope: Scope)
    requires hole.Hole?
    ensures var typed, text := RenderValue(json, [hole], scope), Rendering([hole], scope, s => s);
            && (typed.UnresolvedValue? <==> text.Unresolved?)
            && (text.Failed? ==> typed.Typed? && Shown(typed.value).None?)
            && (text.Rendered? ==>
                  && typed.Typed?
                  && (Shown(typed.value) == Some(text.text)
                      || (hole.hasDefault && text.text == hole.defaultVal && typed.value == Coerced(json, text.text))))
  {
    hide LookupIn;
    var written := Written(hole, scope, s => s);
    assert [hole][1..] == [] && [hole][0] == hole;
    assert written.Rendered? ==> written.text + "" == written.text;
  }
}
