/** The component reconciler: `collectUsedReactNativeComponents` walks the
    converted program and records, in first-use order, every React Native
    component it recognises on a JSX tag (together with `StyleSheet`) and
    every `Alert`/`FlatList` identifier; `ensureReactNativeImports` then
    makes the first `react-native` import name all of them.

    The walk is pre-order in Babel's child order. It is modelled by an
    "events" function per node kind: the names the two visitors add at that
    node and below it, in visiting order. The collector's `Set` is the
    events list with repeats dropped. */
module Reconciler {
  import opened Wrappers
  import opened Objects
  import opened Ast
  import opened Imports

  /** The tag names the `JSXElement` visitor recognises. */
  predicate IsRnTag(name: string) {
    match name
    case "View" => true
    case "Text" => true
    case "TextInput" => true
    case "TouchableOpacity" => true
    case "FlatList" => true
    case "ScrollView" => true
    case "Alert" => true
    case "Image" => true
    case _ => false
  }

  /** A name the collector can record: a recognised tag or `StyleSheet`. */
  predicate Collectible(name: string) {
    IsRnTag(name) || name == "StyleSheet"
  }

  predicate AllCollectible(names: seq<string>) {
    forall i :: 0 <= i < |names| ==> Collectible(names[i])
  }

  lemma CollectibleAppend(a: seq<string>, b: seq<string>)
    requires AllCollectible(a) && AllCollectible(b)
    ensures AllCollectible(a + b)
  {
    assert forall i :: |a| <= i < |a + b| ==> (a + b)[i] == b[i - |a|];
  }

  // ---------------------------------------------------------------------
  // What the two visitors record, node by node.

  /** The `Identifier` visitor: `Alert` and `FlatList` are recorded. */
  function IdentEvents(name: string): (r: seq<string>)
    ensures name == "Alert" ==> r == ["Alert"]
    ensures name == "FlatList" ==> r == ["FlatList"]
    ensures name != "Alert" && name != "FlatList" ==> r == []
  {
    if name == "Alert" then ["Alert"] else if name == "FlatList" then ["FlatList"] else []
  }

  /** The `JSXElement` visitor on an opening tag: a recognised plain tag is
      recorded, then `StyleSheet`. */
  function TagEvents(name: JsxName): (r: seq<string>)
    ensures name.JsxIdent? && IsRnTag(name.id) ==> r == [name.id, "StyleSheet"]
    ensures !(name.JsxIdent? && IsRnTag(name.id)) ==> r == []
  {
    if name.JsxIdent? && IsRnTag(name.id) then [name.id, "StyleSheet"] else []
  }

  function ExprEvents(e: Expr): (r: seq<string>)
    ensures AllCollectible(r)
    decreases e
  {
    match e
    case Ident(name) => IdentEvents(name)
    case Member(obj, property, _) =>
      CollectibleAppend(ExprEvents(obj), ExprEvents(property));
      ExprEvents(obj) + ExprEvents(property)
    case Call(callee, args) =>
      CollectibleAppend(ExprEvents(callee), ExprsEvents(args));
      ExprEvents(callee) + ExprsEvents(args)
    case ObjectExpr(props) => PropsEvents(props)
    case ArrayExpr(elems) => ExprsEvents(elems)
    case Arrow(params, result) =>
      CollectibleAppend(PatternsEvents(params), ExprEvents(result));
      PatternsEvents(params) + ExprEvents(result)
    case Function(_, params, body) =>
      CollectibleAppend(PatternsEvents(params), StmtsEvents(body));
      PatternsEvents(params) + StmtsEvents(body)
    case Compound(_, operands) => ExprsEvents(operands)
    case Jsx(element) => ElementEvents(element)
    case Fragment(children) => ChildrenEvents(children)
    case _ => []
  }

  function ExprsEvents(es: seq<Expr>): (r: seq<string>)
    ensures AllCollectible(r)
    decreases es
  {
    if es == [] then []
    else
      CollectibleAppend(ExprEvents(es[0]), ExprsEvents(es[1..]));
      ExprEvents(es[0]) + ExprsEvents(es[1..])
  }

  function PropEvents(p: Prop): (r: seq<string>)
    ensures AllCollectible(r)
    decreases p
  {
    match p
    case Property(key, _, value) =>
      CollectibleAppend(ExprEvents(key), ExprEvents(value));
      ExprEvents(key) + ExprEvents(value)
    case SpreadProp(argument) => ExprEvents(argument)
  }

  function PropsEvents(ps: seq<Prop>): (r: seq<string>)
    ensures AllCollectible(r)
    decreases ps
  {
    if ps == [] then []
    else
      CollectibleAppend(PropEvents(ps[0]), PropsEvents(ps[1..]));
      PropEvents(ps[0]) + PropsEvents(ps[1..])
  }

  /** An element: its tag, then its attributes, then its children. */
  function ElementEvents(el: Element): (r: seq<string>)
    ensures AllCollectible(r)
    decreases el
  {
    CollectibleAppend(TagEvents(el.name), AttrsEvents(el.attributes));
    CollectibleAppend(TagEvents(el.name) + AttrsEvents(el.attributes), ChildrenEvents(el.children));
    TagEvents(el.name) + AttrsEvents(el.attributes) + ChildrenEvents(el.children)
  }

  function AttrEvents(a: Attr): (r: seq<string>)
    ensures AllCollectible(r)
    decreases a
  {
    match a
    case JsxAttr(_, value) => if value.ExprValue? then ExprEvents(value.expr) else []
    case JsxSpread(argument) => ExprEvents(argument)
  }

  function AttrsEvents(attrs: seq<Attr>): (r: seq<string>)
    ensures AllCollectible(r)
    decreases attrs
  {
    if attrs == [] then []
    else
      CollectibleAppend(AttrEvents(attrs[0]), AttrsEvents(attrs[1..]));
      AttrEvents(attrs[0]) + AttrsEvents(attrs[1..])
  }

  function ChildEvents(c: Child): (r: seq<string>)
    ensures AllCollectible(r)
    decreases c
  {
    match c
    case Text(_) => []
    case Container(expr) => ExprEvents(expr)
    case ChildElement(element) => ElementEvents(element)
    case ChildFragment(children) => ChildrenEvents(children)
  }

  function ChildrenEvents(cs: seq<Child>): (r: seq<string>)
    ensures AllCollectible(r)
    decreases cs
  {
    if cs == [] then []
    else
      CollectibleAppend(ChildEvents(cs[0]), ChildrenEvents(cs[1..]));
      ChildEvents(cs[0]) + ChildrenEvents(cs[1..])
  }

  /** A binding pattern: every identifier in it, object-pattern keys included. */
  function PatternEvents(p: Pattern): (r: seq<string>)
    ensures AllCollectible(r)
    decreases p
  {
    match p
    case PIdent(name) => IdentEvents(name)
    case PArray(elements) => PatternsEvents(elements)
    case PObject(props) => PatternPropsEvents(props)
  }

  function PatternsEvents(ps: seq<Pattern>): (r: seq<string>)
    ensures AllCollectible(r)
    decreases ps
  {
    if ps == [] then []
    else
      CollectibleAppend(PatternEvents(ps[0]), PatternsEvents(ps[1..]));
      PatternEvents(ps[0]) + PatternsEvents(ps[1..])
  }

  function PatternPropsEvents(ps: seq<PatternProp>): (r: seq<string>)
    ensures AllCollectible(r)
    decreases ps
  {
    if ps == [] then []
    else
      var head := IdentEvents(ps[0].key) + PatternEvents(ps[0].value);
      CollectibleAppend(IdentEvents(ps[0].key), PatternEvents(ps[0].value));
      CollectibleAppend(head, PatternPropsEvents(ps[1..]));
      head + PatternPropsEvents(ps[1..])
  }

  function DeclEvents(d: Declarator): (r: seq<string>)
    ensures AllCollectible(r)
    decreases d
  {
    var init := if d.init.Some? then ExprEvents(d.init.value) else [];
    CollectibleAppend(PatternEvents(d.id), init);
    PatternEvents(d.id) + init
  }

  function DeclsEvents(ds: seq<Declarator>): (r: seq<string>)
    ensures AllCollectible(r)
    decreases ds
  {
    if ds == [] then []
    else
      CollectibleAppend(DeclEvents(ds[0]), DeclsEvents(ds[1..]));
      DeclEvents(ds[0]) + DeclsEvents(ds[1..])
  }

  /** An import specifier: its local binding, then the imported name. */
  function SpecifierEvents(s: Specifier): (r: seq<string>)
    ensures AllCollectible(r)
  {
    match s
    case DefaultSpec(local) => IdentEvents(local)
    case NamespaceSpec(local) => IdentEvents(local)
    case NamedSpec(local, imported) =>
      CollectibleAppend(IdentEvents(local), IdentEvents(imported));
      IdentEvents(local) + IdentEvents(imported)
  }

  function SpecifiersEvents(ss: seq<Specifier>): (r: seq<string>)
    ensures AllCollectible(r)
  {
    if ss == [] then []
    else
      CollectibleAppend(SpecifierEvents(ss[0]), SpecifiersEvents(ss[1..]));
      SpecifierEvents(ss[0]) + SpecifiersEvents(ss[1..])
  }

  function StmtEvents(s: Stmt): (r: seq<string>)
    ensures AllCollectible(r)
    decreases s
  {
    match s
    case Import(_, specifiers) => SpecifiersEvents(specifiers)
    case VarDecl(_, declarations, _) => DeclsEvents(declarations)
    case FuncDecl(id, params, body, _) =>
      var name := if id.Some? then IdentEvents(id.value) else [];
      CollectibleAppend(name, PatternsEvents(params));
      CollectibleAppend(name + PatternsEvents(params), StmtsEvents(body));
      name + PatternsEvents(params) + StmtsEvents(body)
    case ExprStmt(expr) => ExprEvents(expr)
    case Return(argument) => if argument.Some? then ExprEvents(argument.value) else []
    case ExportDefaultExpr(expr) => ExprEvents(expr)
    case OtherStmt(exprs, stmts) =>
      CollectibleAppend(ExprsEvents(exprs), StmtsEvents(stmts));
      ExprsEvents(exprs) + StmtsEvents(stmts)
    case TypeDecl(name) => IdentEvents(name)
  }

  /** The names recorded for a whole statement list, in visiting order. */
  function StmtsEvents(ss: seq<Stmt>): (r: seq<string>)
    ensures AllCollectible(r)
    decreases ss
  {
    if ss == [] then []
    else
      CollectibleAppend(StmtEvents(ss[0]), StmtsEvents(ss[1..]));
      StmtEvents(ss[0]) + StmtsEvents(ss[1..])
  }

  // ---------------------------------------------------------------------
  // The collected set.

  /** A JavaScript `Set` built by adding `names` in order: each name once,
      where it was first added. */
  function Dedup(names: seq<string>): (r: seq<string>)
    ensures Distinct(r)
    ensures forall x :: x in r <==> x in names
    ensures |r| <= |names|
  {
    if names == [] then []
    else
      var front := names[..|names| - 1];
      var x := names[|names| - 1];
      assert names == front + [x];
      var d := Dedup(front);
      if x in d then d else d + [x]
  }

  /** Later additions never move the names already in the set. */
  lemma {:induction false} DedupPrefix(a: seq<string>, b: seq<string>)
    ensures Dedup(a) <= Dedup(a + b)
    decreases |b|
  {
    if b == [] {
      assert a + b == a;
    } else {
      var b' := b[..|b| - 1];
      assert (a + b)[..|a + b| - 1] == a + b';
      DedupPrefix(a, b');
    }
  }

  /** `collectUsedReactNativeComponents`: the names recorded over the whole
      program, each once, in the order first recorded. */
  method CollectUsed(body: seq<Stmt>) returns (used: seq<string>)
    ensures used == Dedup(StmtsEvents(body))
    ensures Distinct(used) && AllCollectible(used)
    ensures forall x :: x in used <==> x in StmtsEvents(body)
  {
    var events := StmtsEvents(body);
    used := [];
    var i := 0;
    while i < |events|
      invariant 0 <= i <= |events|
      invariant used == Dedup(events[..i])
    {
      assert events[..i + 1][..i] == events[..i];
      if events[i] !in used {
        used := used + [events[i]];
      }
      i := i + 1;
    }
    assert events[..i] == events;
    forall k | 0 <= k < |used| ensures Collectible(used[k]) {
      assert used[k] in events;
    }
  }

  // ---------------------------------------------------------------------
  // ensureReactNativeImports

  /** The first `react-native` import declaration: the traversal stops at it. */
  function FirstImportFrom(body: seq<Stmt>, source: string): (r: Option<nat>)
    ensures r.Some? ==> r.value < |body| && body[r.value].Import? && body[r.value].source == source
    ensures r.Some? ==> forall j :: 0 <= j < r.value ==> !(body[j].Import? && body[j].source == source)
    ensures r.None? ==> forall j :: 0 <= j < |body| ==> !(body[j].Import? && body[j].source == source)
  {
    if body == [] then None
    else if body[0].Import? && body[0].source == source then Some(0)
    else match FirstImportFrom(body[1..], source)
      case None => None
      case Some(k) => Some(k + 1)
  }

  /** The first matching import is the one at `k` when nothing before it
      matches. */
  lemma {:induction false} FirstImportAt(body: seq<Stmt>, source: string, k: nat)
    requires k < |body| && body[k].Import? && body[k].source == source
    requires forall j :: 0 <= j < k ==> !(body[j].Import? && body[j].source == source)
    ensures FirstImportFrom(body, source) == Some(k)
  {
    if k > 0 {
      forall j | 0 <= j < k - 1 ensures !(body[1..][j].Import? && body[1..][j].source == source) {
        assert body[1..][j] == body[j + 1];
      }
      FirstImportAt(body[1..], source, k - 1);
    }
  }

  /** `import { a, b, ... }` specifiers for `names`, in order. */
  function NamedAll(names: seq<string>): (r: seq<Specifier>)
    ensures |r| == |names|
    ensures forall i :: 0 <= i < |names| ==> r[i] == Named(names[i])
  {
    seq(|names|, i requires 0 <= i < |names| => Named(names[i]))
  }

  /** The used names not yet imported by a named specifier, in order. */
  function Missing(used: seq<string>, specs: seq<Specifier>): (r: seq<string>)
    ensures forall x :: x in r <==> x in used && !HasNamed(specs, x)
    ensures Distinct(used) ==> Distinct(r)
    ensures |r| <= |used|
  {
    if used == [] then []
    else
      var front := used[..|used| - 1];
      var x := used[|used| - 1];
      assert used == front + [x];
      var m := Missing(front, specs);
      if HasNamed(specs, x) then m
      else
        assert Distinct(used) ==> Distinct(front) && x !in front;
        m + [x]
  }

  /** The specifiers of the first `react-native` import once the missing
      names are pushed. */
  function Completed(specs: seq<Specifier>, used: seq<string>): seq<Specifier> {
    specs + NamedAll(Missing(used, specs))
  }

  /** The body after `ensureReactNativeImports(ast, used)`: a new import of
      exactly the used names in front when there is no `react-native`
      import, else the missing names appended to the first one. */
  function EnsureSpec(body: seq<Stmt>, used: seq<string>): seq<Stmt> {
    match FirstImportFrom(body, "react-native")
    case None => [Import("react-native", NamedAll(used))] + body
    case Some(k) => body[k := Import("react-native", Completed(body[k].specifiers, used))]
  }

  /** No two named specifiers import the same name. */
  predicate DistinctNamed(specs: seq<Specifier>) {
    forall i, j :: 0 <= i < j < |specs| && specs[i].NamedSpec? && specs[j].NamedSpec? ==>
      specs[i].imported != specs[j].imported
  }

  /** The specifiers built for `names` import exactly those names. */
  lemma NamedAllHas(names: seq<string>, x: string)
    ensures HasNamed(NamedAll(names), x) <==> x in names
  {
    if x in names {
      var i :| 0 <= i < |names| && names[i] == x;
      assert NamedAll(names)[i] == Named(x);
    }
    if HasNamed(NamedAll(names), x) {
      var i :| 0 <= i < |NamedAll(names)| && NamedAll(names)[i].NamedSpec? && NamedAll(names)[i].imported == x;
      assert names[i] == x;
    }
  }

  lemma HasNamedAppend(a: seq<Specifier>, b: seq<Specifier>, x: string)
    requires HasNamed(a, x) || HasNamed(b, x)
    ensures HasNamed(a + b, x)
  {
    if HasNamed(a, x) {
      var i :| 0 <= i < |a| && a[i].NamedSpec? && a[i].imported == x;
      assert (a + b)[i] == a[i];
    } else {
      var i :| 0 <= i < |b| && b[i].NamedSpec? && b[i].imported == x;
      assert (a + b)[|a| + i] == b[i];
    }
  }

  /** Every used name is imported by the completed specifier list. */
  lemma CompletedHasUsed(specs: seq<Specifier>, used: seq<string>, x: string)
    requires x in used
    ensures HasNamed(Completed(specs, used), x)
  {
    if HasNamed(specs, x) {
      HasNamedAppend(specs, NamedAll(Missing(used, specs)), x);
    } else {
      NamedAllHas(Missing(used, specs), x);
      HasNamedAppend(specs, NamedAll(Missing(used, specs)), x);
    }
  }

  /** Pushing the missing names never introduces a duplicate: the names
      pushed are distinct among themselves and from those already there. */
  lemma CompletedDistinct(specs: seq<Specifier>, used: seq<string>)
    requires Distinct(used) && DistinctNamed(specs)
    ensures DistinctNamed(Completed(specs, used))
  {
    var m := Missing(used, specs);
    var r := Completed(specs, used);
    forall i, j | 0 <= i < j < |r| && r[i].NamedSpec? && r[j].NamedSpec?
      ensures r[i].imported != r[j].imported
    {
      if j >= |specs| {
        assert r[j].imported == m[j - |specs|];
        if i >= |specs| {
          assert r[i].imported == m[i - |specs|];
        } else {
          assert r[i] == specs[i];
          assert m[j - |specs|] in m;
          assert !HasNamed(specs, m[j - |specs|]);
        }
      }
    }
  }

  /** After the pass, the first `react-native` import names every used
      component; a body without one gets one in front, holding exactly the
      used names; otherwise only that declaration changes, by appending. */
  lemma EnsureImportsUsed(body: seq<Stmt>, used: seq<string>)
    ensures var r := EnsureSpec(body, used); var k := FirstImportFrom(r, "react-native");
      k.Some? && r[k.value].Import? &&
      forall x :: x in used ==> HasNamed(r[k.value].specifiers, x)
    ensures FirstImportFrom(body, "react-native").None? ==>
      EnsureSpec(body, used) == [Import("react-native", NamedAll(used))] + body
    ensures FirstImportFrom(body, "react-native").Some? ==>
      var k := FirstImportFrom(body, "react-native").value; var r := EnsureSpec(body, used);
      |r| == |body| && (forall j :: 0 <= j < |body| && j != k ==> r[j] == body[j]) &&
      r[k].specifiers[..|body[k].specifiers|] == body[k].specifiers
  {
    var r := EnsureSpec(body, used);
    match FirstImportFrom(body, "react-native")
    case None =>
      assert FirstImportFrom(r, "react-native") == Some(0);
      forall x | x in used ensures HasNamed(r[0].specifiers, x) {
        NamedAllHas(used, x);
      }
    case Some(k) =>
      forall j | 0 <= j < k ensures !(r[j].Import? && r[j].source == "react-native") {
        assert r[j] == body[j];
      }
      FirstImportAt(r, "react-native", k);
      forall x | x in used ensures HasNamed(r[k].specifiers, x) {
        CompletedHasUsed(body[k].specifiers, used, x);
      }
  }

  /** With distinct used names (the collector's are), a body whose
      `react-native` import has no duplicate names gets none either. */
  lemma EnsureNoDuplicates(body: seq<Stmt>, used: seq<string>)
    requires Distinct(used)
    requires FirstImportFrom(body, "react-native").Some? ==>
      DistinctNamed(body[FirstImportFrom(body, "react-native").value].specifiers)
    ensures var r := EnsureSpec(body, used); var k := FirstImportFrom(r, "react-native");
      k.Some? && DistinctNamed(r[k.value].specifiers)
  {
    EnsureImportsUsed(body, used);
    var r := EnsureSpec(body, used);
    match FirstImportFrom(body, "react-native")
    case None =>
      assert FirstImportFrom(r, "react-native") == Some(0);
      var specs := NamedAll(used);
      forall i, j | 0 <= i < j < |specs| ensures specs[i].imported != specs[j].imported {
      }
    case Some(k) =>
      CompletedDistinct(body[k].specifiers, used);
      assert FirstImportFrom(r, "react-native") == Some(k);
  }

  /** A second run with the same names changes nothing. */
  lemma EnsureIdempotent(body: seq<Stmt>, used: seq<string>)
    ensures EnsureSpec(EnsureSpec(body, used), used) == EnsureSpec(body, used)
  {
    EnsureImportsUsed(body, used);
    var r := EnsureSpec(body, used);
    var k := FirstImportFrom(r, "react-native").value;
    var specs := r[k].specifiers;
    assert Missing(used, specs) == [] by {
      if Missing(used, specs) != [] {
        assert Missing(used, specs)[0] in Missing(used, specs);
        assert false;
      }
    }
    assert Completed(specs, used) == specs;
    assert r[k := Import("react-native", specs)] == r;
  }
}
