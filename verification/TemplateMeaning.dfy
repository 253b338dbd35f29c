/** What a template means (internal/tmpl/tmpl.go), without the renderer: which values
    a reference reaches, the text each part contributes, and the typed value of a
    lone placeholder. */
module TemplateMeaning {
  import opened Wrappers
  import opened Template
  import opened TemplateRender

  // ---------------------------------------------------------------------
  // The meaning
  // ---------------------------------------------------------------------

  /** Walking the path from the root field by field ends at v. */
  ghost predicate Reaches(root: Value, path: seq<string>, v: Value) {
    exists walk: seq<Value> :: IsWalk(walk, root, path, v)
  }

  ghost predicate IsWalk(walk: seq<Value>, root: Value, path: seq<string>, v: Value) {
    && |walk| == |path| + 1 && walk[0] == root && walk[|path|] == v
    && forall i :: 0 <= i < |path| ==> StepsTo(walk[i], path[i], walk[i + 1])
  }

  ghost predicate StepsTo(from: Value, key: string, to: Value) {
    from.Object? && key in from.fields && from.fields[key] == to
  }

  ghost predicate Has(m: map<string, string>, path: seq<string>, v: Value) {
    exists name :: path == [name] && name in m && v == Str(m[name])
  }

  /** The scope supplies v for the reference: input values are reached along the whole
      path, variables and secrets by a single name; a null supplies nothing. */
  ghost predicate Supplies(scope: Scope, ref: Ref, v: Value) {
    && scope.MapScope? && v != Null
    && (|| (ref.namespace == "input" && Reaches(Object(scope.input), ref.path, v))
        || (ref.namespace == "vars" && Has(scope.vars, ref.path, v))
        || (ref.namespace == "secrets" && Has(scope.secrets, ref.path, v)))
  }

  ghost predicate SuppliesNothing(scope: Scope, ref: Ref) {
    forall v :: !Supplies(scope, ref, v)
  }

  /** Strings, numbers and booleans have a text; objects and arrays have none. */
  ghost predicate HasText(v: Value, t: string) {
    || v == Str(t) || v == Number(t)
    || (v == Bool(true) && t == "true") || (v == Bool(false) && t == "false")
  }

  /** The value a placeholder stands for: what the scope supplies, or else the default. */
  ghost predicate StandsIn(scope: Scope, hole: Part, v: Value)
    requires hole.Hole?
  {
    || Supplies(scope, hole.ref, v)
    || (SuppliesNothing(scope, hole.ref) && hole.hasDefault && v == Str(hole.defaultVal))
  }

  /** What a part contributes: a literal itself, a placeholder its escaped text. */
  ghost predicate Contributes(p: Part, scope: Scope, escape: Escaper, piece: string) {
    match p
    case Literal(t) => piece == t
    case Hole(_, _, _) => exists v, t :: StandsIn(scope, p, v) && HasText(v, t) && piece == escape(t)
  }

  function Joined(pieces: seq<string>): string {
    if pieces == [] then "" else pieces[0] + Joined(pieces[1..])
  }

  ghost predicate AllContribute(parts: seq<Part>, scope: Scope, escape: Escaper, pieces: seq<string>) {
    |pieces| == |parts| && forall i :: 0 <= i < |parts| ==> Contributes(parts[i], scope, escape, pieces[i])
  }

  /** v is the most specific scalar the text s can be: itself as JSON when that is a
      number, a boolean or null, and the string otherwise. */
  ghost predicate MostSpecific(json: JsonParser, s: string, v: Value) {
    || (json(s) == Some(v) && (v.Number? || v.Bool? || v == Null))
    || (v == Str(s) && forall w :: json(s) == Some(w) ==> w.Str? || w.Object? || w.Array?)
  }

  // ---------------------------------------------------------------------
  // The renderer gives exactly that
  // ---------------------------------------------------------------------

  lemma {:induction false} NestedReaches(root: Value, path: seq<string>, v: Value)
    ensures Nested(root, path) == Some(v) <==> Reaches(root, path, v)
    decreases |path|
  {
    if path == [] {
      if Nested(root, path) == Some(v) { assert IsWalk([v], root, path, v); }
    } else {
      if root.Object? && path[0] in root.fields {
        var next := root.fields[path[0]];
        NestedReaches(next, path[1..], v);
        if Nested(root, path) == Some(v) {
          var walk :| IsWalk(walk, next, path[1..], v);
          WalkOn(walk, root, path, v);
        }
      }
      if Reaches(root, path, v) {
        var walk :| IsWalk(walk, root, path, v);
        assert StepsTo(walk[0], path[0], walk[1]);
        WalkRest(walk, root, path, v);
      }
    }
  }

  lemma WalkOn(walk: seq<Value>, root: Value, path: seq<string>, v: Value)
    requires path != [] && root.Object? && path[0] in root.fields
    requires IsWalk(walk, root.fields[path[0]], path[1..], v)
    ensures Reaches(root, path, v)
  {
    hide StepsTo;
    var whole := [root] + walk;
    forall i | 0 <= i < |path| ensures StepsTo(whole[i], path[i], whole[i + 1]) {
      if i == 0 {
        assert StepsTo(root, path[0], walk[0]) by { StepsToField(root, path[0]); }
      } else {
        assert StepsTo(walk[i - 1], path[1..][i - 1], walk[i]);
      }
    }
    assert IsWalk(whole, root, path, v);
  }

  lemma StepsToField(root: Value, key: string)
    requires root.Object? && key in root.fields
    ensures StepsTo(root, key, root.fields[key])
  {
  }

  lemma WalkRest(walk: seq<Value>, root: Value, path: seq<string>, v: Value)
    requires path != [] && IsWalk(walk, root, path, v)
    ensures IsWalk(walk[1..], walk[1], path[1..], v)
  {
    hide StepsTo;
    forall i | 0 <= i < |path[1..]| ensures StepsTo(walk[1..][i], path[1..][i], walk[1..][i + 1]) {
      assert StepsTo(walk[i + 1], path[i + 1], walk[i + 2]);
    }
  }

  lemma FlatHas(m: map<string, string>, path: seq<string>, v: Value)
    ensures Flat(m, path) == Some(v) <==> Has(m, path, v)
  {
    if Flat(m, path) == Some(v) { assert path == [path[0]]; }
  }

  lemma LookupIff(scope: Scope, ref: Ref, v: Value)
    requires v != Null
    ensures LookupIn(scope, ref) == Some(v) <==> Supplies(scope, ref, v)
  {
    hide Nested, Reaches, Flat, Has;
    if scope.MapScope? {
      NestedReaches(Object(scope.input), ref.path, v);
      FlatHas(scope.vars, ref.path, v);
      FlatHas(scope.secrets, ref.path, v);
    }
  }

  lemma ResolveIff(scope: Scope, hole: Part, v: Value)
    requires hole.Hole?
    ensures Resolve(scope, hole) == Some(v) <==> StandsIn(scope, hole, v)
  {
    hide LookupIn, Supplies;
    forall w | w != Null ensures LookupIn(scope, hole.ref) == Some(w) <==> Supplies(scope, hole.ref, w) {
      LookupIff(scope, hole.ref, w);
    }
    NullSuppliesNothing(scope, hole.ref);
    var found := LookupIn(scope, hole.ref);
    if found.Some? && found.value != Null {
      assert Supplies(scope, hole.ref, found.value);
    }
  }

  lemma NullSuppliesNothing(scope: Scope, ref: Ref)
    ensures !Supplies(scope, ref, Null)
  {
  }

  lemma ShownIff(v: Value, t: string)
    ensures Shown(v) == Some(t) <==> HasText(v, t)
  {
  }

  lemma WrittenIff(p: Part, scope: Scope, escape: Escaper, piece: string)
    ensures Written(p, scope, escape) == Rendered(piece) <==> Contributes(p, scope, escape, piece)
  {
    hide Resolve, Shown, StandsIn, HasText;
    if p.Hole? {
      forall v ensures Resolve(scope, p) == Some(v) <==> StandsIn(scope, p, v) { ResolveIff(scope, p, v); }
      forall v, t ensures Shown(v) == Some(t) <==> HasText(v, t) { ShownIff(v, t); }
      if Written(p, scope, escape) == Rendered(piece) {
        var v := Resolve(scope, p).value;
        assert StandsIn(scope, p, v) && HasText(v, Shown(v).value);
      }
    }
  }

  /** A template renders to a text exactly when the text is made of one contribution
      for each part, in order. */
  lemma {:induction false} RendersIff(parts: seq<Part>, scope: Scope, escape: Escaper, text: string)
    ensures Rendering(parts, scope, escape) == Rendered(text)
            <==> exists pieces :: AllContribute(parts, scope, escape, pieces) && Joined(pieces) == text
    decreases |parts|
  {
    hide Written, Contributes;
    if parts == [] {
      assert AllContribute(parts, scope, escape, []);
    } else {
      var first, rest := Written(parts[0], scope, escape), parts[1..];
      if Rendering(parts, scope, escape) == Rendered(text) {
        var more := Rendering(rest, scope, escape).text;
        RendersIff(rest, scope, escape, more);
        WrittenIff(parts[0], scope, escape, first.text);
        var pieces :| AllContribute(rest, scope, escape, pieces) && Joined(pieces) == more;
        var whole := [first.text] + pieces;
        assert whole[1..] == pieces;
        assert AllContribute(parts, scope, escape, whole);
      }
      if pieces :| AllContribute(parts, scope, escape, pieces) && Joined(pieces) == text {
        assert Contributes(parts[0], scope, escape, pieces[0]);
        WrittenIff(parts[0], scope, escape, pieces[0]);
        assert AllContribute(rest, scope, escape, pieces[1..]);
        RendersIff(rest, scope, escape, Joined(pieces[1..]));
      }
    }
  }

  /** Otherwise the first part without text says why: a placeholder with nothing to
      stand in leaves the template unresolved, one with a composite value fails it. */
  lemma NoTextIff(hole: Part, scope: Scope, escape: Escaper)
    requires hole.Hole?
    ensures Written(hole, scope, escape).Unresolved? <==> SuppliesNothing(scope, hole.ref) && !hole.hasDefault
    ensures Written(hole, scope, escape).Failed?
            <==> exists v :: Supplies(scope, hole.ref, v) && (v.Object? || v.Array?)
  {
    hide Resolve, Supplies;
    forall v ensures Resolve(scope, hole) == Some(v) <==> StandsIn(scope, hole, v) { ResolveIff(scope, hole, v); }
    NullSuppliesNothing(scope, hole.ref);
    if Resolve(scope, hole).Some? {
      var v := Resolve(scope, hole).value;
      assert StandsIn(scope, hole, v);
    }
    if Written(hole, scope, escape).Failed? {
      var v := Resolve(scope, hole).value;
      assert Supplies(scope, hole.ref, v);
    }
    if SuppliesNothing(scope, hole.ref) && hole.hasDefault {
      assert StandsIn(scope, hole, Str(hole.defaultVal));
    }
    if v :| Supplies(scope, hole.ref, v) {
      assert StandsIn(scope, hole, v);
    }
    if v :| Supplies(scope, hole.ref, v) && (v.Object? || v.Array?) {
      assert StandsIn(scope, hole, v);
      assert Resolve(scope, hole) == Some(v);
    }
  }

  lemma CoercedIff(json: JsonParser, s: string, v: Value)
    ensures Coerced(json, s) == v <==> MostSpecific(json, s, v)
  {
  }

  /** The typed value of a lone placeholder: the value that stands in, except that the
      default's own text is read as the most specific scalar. */
  lemma TypedIff(json: JsonParser, hole: Part, scope: Scope, r: Value)
    requires hole.Hole?
    ensures RenderValue(json, [hole], scope) == Typed(r)
            <==> exists v :: StandsIn(scope, hole, v)
                   && (if hole.hasDefault && v == Str(hole.defaultVal) then MostSpecific(json, hole.defaultVal, r)
                       else r == v)
  {
    hide Resolve, StandsIn, Coerced, MostSpecific;
    assert [hole][0] == hole;
    forall v ensures Resolve(scope, hole) == Some(v) <==> StandsIn(scope, hole, v) { ResolveIff(scope, hole, v); }
    CoercedIff(json, hole.defaultVal, r);
    if RenderValue(json, [hole], scope) == Typed(r) {
      assert StandsIn(scope, hole, Resolve(scope, hole).value);
    }
  }

  /** Any other template is typed as the text it renders to, unescaped. */
  lemma OtherTypedIff(json: JsonParser, parts: seq<Part>, scope: Scope, r: Value)
    requires !(|parts| == 1 && parts[0].Hole?)
    ensures RenderValue(json, parts, scope) == Typed(r)
            <==> exists pieces :: AllContribute(parts, scope, s => s, pieces) && r == Str(Joined(pieces))
  {
    hide Rendering, AllContribute, Joined;
    var outcome := Rendering(parts, scope, s => s);
    if outcome.Rendered? {
      RendersIff(parts, scope, s => s, outcome.text);
    }
    if pieces :| AllContribute(parts, scope, s => s, pieces) && r == Str(Joined(pieces)) {
      RendersIff(parts, scope, s => s, Joined(pieces));
    }
  }
}
