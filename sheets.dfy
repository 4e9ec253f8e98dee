/** The stylesheet generator, `generateStyleSheet`: the `styles` object
    literal of the module is taken out, each of its rules is read into an
    entry list and transformed, and `const styles = StyleSheet.create({...})`
    holding the non-empty transformed rules is appended to the program.
    Only the module's top-level declarations are searched. */
module Sheets {
  import opened Wrappers
  import opened Objects
  import opened Ast
  import opened StyleRules

  // ---------------------------------------------------------------------
  // Finding and removing the `styles` object.

  /** `styles = { ... }`: a declarator the generator takes out. */
  predicate IsStylesObject(d: Declarator) {
    d.id == PIdent("styles") && d.init.Some? && d.init.value.ObjectExpr?
  }

  /** The properties of the last `styles` object in a declarator list. */
  function LastStyles(ds: seq<Declarator>): (r: Option<seq<Prop>>)
    ensures r.Some? <==> exists i :: 0 <= i < |ds| && IsStylesObject(ds[i])
    ensures r.Some? ==> exists i :: 0 <= i < |ds| && IsStylesObject(ds[i]) &&
                                    ds[i].init.value.props == r.value &&
                                    forall j :: i < j < |ds| ==> !IsStylesObject(ds[j])
  {
    if ds == [] then None
    else
      var last := ds[|ds| - 1];
      if IsStylesObject(last) then Some(last.init.value.props)
      else
        var r := LastStyles(ds[..|ds| - 1]);
        assert forall i :: 0 <= i < |ds| - 1 ==> ds[..|ds| - 1][i] == ds[i];
        r
  }

  /** The object the traversal leaves in `stylesObject`: the last `styles`
      object of the program, in source order. */
  function FoundStyles(body: seq<Stmt>): Option<seq<Prop>> {
    if body == [] then None
    else
      var last := body[|body| - 1];
      if last.VarDecl? && LastStyles(last.declarations).Some? then LastStyles(last.declarations)
      else FoundStyles(body[..|body| - 1])
  }

  /** The elements of `s` that satisfy `keep`, in order. */
  function Filter<T>(keep: T -> bool, s: seq<T>): seq<T> {
    if s == [] then [] else (if keep(s[0]) then [s[0]] else []) + Filter(keep, s[1..])
  }

  lemma {:induction false} FilterSnoc<T>(keep: T -> bool, s: seq<T>, x: T)
    ensures Filter(keep, s + [x]) == Filter(keep, s) + (if keep(x) then [x] else [])
  {
    if s == [] {
      assert s + [x] == [x];
    } else {
      assert (s + [x])[1..] == s[1..] + [x];
      FilterSnoc(keep, s[1..], x);
    }
  }

  lemma {:induction false} FilterAll<T>(keep: T -> bool, s: seq<T>)
    requires forall i :: 0 <= i < |s| ==> keep(s[i])
    ensures Filter(keep, s) == s
  {
    if s != [] {
      FilterAll(keep, s[1..]);
    }
  }

  predicate NotStyles(d: Declarator) {
    !IsStylesObject(d)
  }

  /** The declarators that stay: exactly those that are not `styles`
      objects, in their order. */
  function KeepDecls(ds: seq<Declarator>): (r: seq<Declarator>)
    ensures r == Filter(NotStyles, ds)
    ensures |r| <= |ds|
    ensures forall i :: 0 <= i < |r| ==> !IsStylesObject(r[i])
    ensures (forall i :: 0 <= i < |ds| ==> !IsStylesObject(ds[i])) ==> r == ds
  {
    if ds == [] then []
    else
      var kept := KeepDecls(ds[..|ds| - 1]);
      assert ds[..|ds| - 1] + [ds[|ds| - 1]] == ds;
      FilterSnoc(NotStyles, ds[..|ds| - 1], ds[|ds| - 1]);
      if IsStylesObject(ds[|ds| - 1]) then kept else kept + [ds[|ds| - 1]]
  }

  /** A declaration whose every declarator is a `styles` object: the
      removal leaves nothing of it. */
  predicate Emptied(s: Stmt) {
    s.VarDecl? && s.declarations != [] && KeepDecls(s.declarations) == []
  }

  predicate Survives(s: Stmt) {
    !Emptied(s)
  }

  /** A statement with its `styles` object declarators taken out. */
  function Clean(s: Stmt): (r: Stmt)
    ensures (!s.VarDecl? || forall j :: 0 <= j < |s.declarations| ==> !IsStylesObject(s.declarations[j])) ==> r == s
    ensures r.VarDecl? <==> s.VarDecl?
    ensures s.VarDecl? ==>
      r.kind == s.kind && r.exported == s.exported && r.declarations == Filter(NotStyles, s.declarations)
  {
    if s.VarDecl? then VarDecl(s.kind, KeepDecls(s.declarations), s.exported) else s
  }

  /** What is left of one statement: a declaration that loses its last
      declarator goes with it. */
  function Strip(s: Stmt): (r: seq<Stmt>)
    ensures |r| <= 1
    ensures !s.VarDecl? ==> r == [s]
    ensures forall i :: 0 <= i < |r| ==> r[i].VarDecl? == s.VarDecl?
  {
    if s.VarDecl? then
      var kept := KeepDecls(s.declarations);
      if kept == [] && s.declarations != [] then [] else [VarDecl(s.kind, kept, s.exported)]
    else [s]
  }

  /** The program body once every `styles` object declarator is removed. */
  function RemoveStyles(body: seq<Stmt>): (r: seq<Stmt>)
    ensures |r| <= |body|
  {
    if body == [] then [] else RemoveStyles(body[..|body| - 1]) + Strip(body[|body| - 1])
  }

  /** `traverse(ast, { VariableDeclarator })` over the top-level statements:
      each `styles` object declarator is recorded and removed, in source
      order. */
  method ExtractStyles(body: seq<Stmt>) returns (rest: seq<Stmt>, stylesObject: Option<seq<Prop>>)
    ensures rest == RemoveStyles(body)
    ensures stylesObject == FoundStyles(body)
  {
    rest := [];
    stylesObject := None;
    var i := 0;
    while i < |body|
      invariant 0 <= i <= |body|
      invariant rest == RemoveStyles(body[..i])
      invariant stylesObject == FoundStyles(body[..i])
    {
      var node := body[i];
      assert body[..i + 1][..i] == body[..i];
      if node.VarDecl? {
        var ds := node.declarations;
        var kept, found := ExtractDecls(ds);
        if found.Some? {
          stylesObject := found;
        }
        if !(kept == [] && ds != []) {
          rest := rest + [VarDecl(node.kind, kept, node.exported)];
        }
      } else {
        rest := rest + [node];
      }
      i := i + 1;
    }
    assert body[..i] == body;
  }

  /** The visit of one declaration's declarators: each `styles` object is
      recorded, the last one winning, and removed. */
  method ExtractDecls(ds: seq<Declarator>) returns (kept: seq<Declarator>, found: Option<seq<Prop>>)
    ensures kept == KeepDecls(ds)
    ensures found == LastStyles(ds)
  {
    kept := [];
    found := None;
    var j := 0;
    while j < |ds|
      invariant 0 <= j <= |ds|
      invariant kept == KeepDecls(ds[..j])
      invariant found == LastStyles(ds[..j])
    {
      assert ds[..j + 1][..j] == ds[..j];
      if IsStylesObject(ds[j]) {
        found := Some(ds[j].init.value.props);
      } else {
        kept := kept + [ds[j]];
      }
      j := j + 1;
    }
    assert ds[..j] == ds;
  }

  // ---------------------------------------------------------------------
  // Reading the rules.

  /** The name an object key gives an entry: `prop.key.name` for an
      identifier, `prop.key.value` for a string literal. Any other key has no
      `value` and reads as `undefined`; a numeric key stringifies differently,
      but no numeric string is a style property, so both kinds of entry are
      dropped alike (`UndefinedDropped`). */
  function KeyName(key: Expr): string {
    if key.Ident? then key.name else if key.StrLit? then key.text else "undefined"
  }

  /** The node kinds whose value is carried through as an expression. */
  predicate IsNodeValue(e: Expr) {
    e.Ident? || e.Call? || e.Arrow? || e.Function? ||
    (e.Compound? && e.kind in {Template, Binary, Conditional, Logical})
  }

  /** The value the reducer stores for a property value. */
  function ValueOf(e: Expr): (v: StyleValue)
    ensures e.StrLit? ==> v == Str(e.text)
    ensures e.NumLit? ==> v == Num(e.num)
    ensures IsNodeValue(e) ==> v == Node(e)
    ensures !e.StrLit? && !e.NumLit? && !IsNodeValue(e) ==> v == Null
  {
    if e.StrLit? then Str(e.text)
    else if e.NumLit? then Num(e.num)
    else if IsNodeValue(e) then Node(e)
    else Null
  }

  /** `property.value.properties.reduce(...)`: the entries of one rule, a
      later property of the same name overwriting the earlier value in the
      earlier place; spread members are skipped. */
  function RuleEntries(props: seq<Prop>): Style {
    if props == [] then []
    else
      var acc := RuleEntries(props[..|props| - 1]);
      match props[|props| - 1]
      case Property(key, _, value) => Upsert(acc, KeyName(key), ValueOf(value))
      case SpreadProp(_) => acc
  }

  /** A top-level property of the styles object that is read as a rule. */
  predicate IsRule(p: Prop) {
    p.Property? && (p.key.Ident? || p.key.StrLit?) && p.value.ObjectExpr?
  }

  function RuleName(p: Prop): string
    requires IsRule(p)
  {
    if p.key.Ident? then p.key.name else p.key.text
  }

  /** The transformed rule of a rule property. */
  function RuleStyle(p: Prop): Style
    requires IsRule(p)
  {
    AstSpec(RuleEntries(p.value.props))
  }

  /** `transformedStyles` after the `forEach` over the styles object: every
      rule whose transformation is non-empty, stored under its name. */
  function SheetRules(props: seq<Prop>): seq<(string, Style)> {
    if props == [] then []
    else
      var acc := SheetRules(props[..|props| - 1]);
      var p := props[|props| - 1];
      if IsRule(p) && |RuleStyle(p)| > 0 then Upsert(acc, RuleName(p), RuleStyle(p)) else acc
  }

  /** The `forEach` over the properties of the styles object. */
  method CollectRules(properties: seq<Prop>) returns (transformedStyles: seq<(string, Style)>)
    ensures transformedStyles == SheetRules(properties)
  {
    transformedStyles := [];
    var i := 0;
    while i < |properties|
      invariant 0 <= i <= |properties|
      invariant transformedStyles == SheetRules(properties[..i])
    {
      var property := properties[i];
      assert properties[..i + 1][..i] == properties[..i];
      if IsRule(property) {
        var styleName := RuleName(property);
        var styleValue := RuleEntries(property.value.props);
        var transformedStyleObj := TransformStyleObjectInAST(styleValue);
        if |transformedStyleObj| > 0 {
          transformedStyles := Upsert(transformedStyles, styleName, transformedStyleObj);
        }
      }
      i := i + 1;
    }
    assert properties[..i] == properties;
  }

  // ---------------------------------------------------------------------
  // Writing the sheet.

  /** The literal written for a stored value. */
  function ToExpr(v: StyleValue): Expr {
    match v
    case Num(n) => NumLit(n)
    case Str(t) => StrLit(t)
    case Node(e) => e
    case Null => NullLit
  }

  /** `{ k: v, ... }` for one transformed rule. */
  function StyleObject(style: Style): (e: Expr)
    ensures e.ObjectExpr? && |e.props| == |style|
    ensures forall i :: 0 <= i < |style| ==>
      e.props[i] == Property(Ident(style[i].0), false, ToExpr(style[i].1))
  {
    ObjectExpr(seq(|style|, i requires 0 <= i < |style| => Property(Ident(style[i].0), false, ToExpr(style[i].1))))
  }

  /** `{ rule: { ... }, ... }`, the argument of `StyleSheet.create`. */
  function SheetObject(rules: seq<(string, Style)>): (e: Expr)
    ensures e.ObjectExpr? && |e.props| == |rules|
    ensures forall i :: 0 <= i < |rules| ==>
      e.props[i] == Property(Ident(rules[i].0), false, StyleObject(rules[i].1))
  {
    ObjectExpr(seq(|rules|, i requires 0 <= i < |rules| => Property(Ident(rules[i].0), false, StyleObject(rules[i].1))))
  }

  /** `const styles = StyleSheet.create({...});` */
  function SheetDecl(rules: seq<(string, Style)>): Stmt {
    ConstDecl("styles", Call(Dot("StyleSheet", "create"), [SheetObject(rules)]))
  }

  /** The program body after `generateStyleSheet`. */
  function GenerateSpec(body: seq<Stmt>): seq<Stmt> {
    match FoundStyles(body)
    case Some(props) => RemoveStyles(body) + [SheetDecl(SheetRules(props))]
    case None => RemoveStyles(body) + [SheetDecl([])]
  }

  // ---------------------------------------------------------------------
  // Properties.

  /** No `styles` object declarator is left, non-declaration statements keep
      their relative order, and a body without a `styles` object keeps all
      its statements. */
  lemma {:induction false} RemoveStylesShape(body: seq<Stmt>)
    ensures forall i :: 0 <= i < |RemoveStyles(body)| && RemoveStyles(body)[i].VarDecl? ==>
      forall j :: 0 <= j < |RemoveStyles(body)[i].declarations| ==> !IsStylesObject(RemoveStyles(body)[i].declarations[j])
    ensures NonDecls(RemoveStyles(body)) == NonDecls(body)
  {
    if body != [] {
      var pre := body[..|body| - 1];
      RemoveStylesShape(pre);
      var last := body[|body| - 1];
      assert body == pre + [last];

      NonDeclsAppend(RemoveStyles(pre), Strip(last));
      NonDeclsAppend(pre, [last]);
      if last.VarDecl? {
        assert NonDecls(Strip(last)) == [] by {
          if Strip(last) != [] {
            assert Strip(last)[1..] == [];
          }
        }
      }
    }
  }

  /** The body that is left is the surviving statements, in order, each
      with its `styles` object declarators taken out. */
  lemma {:induction false} RemoveStylesKept(body: seq<Stmt>)
    ensures var kept := Filter(Survives, body);
      |RemoveStyles(body)| == |kept| &&
      forall i :: 0 <= i < |kept| ==> RemoveStyles(body)[i] == Clean(kept[i])
  {
    if body != [] {
      var pre := body[..|body| - 1];
      var last := body[|body| - 1];
      assert body == pre + [last];
      RemoveStylesKept(pre);
      FilterSnoc(Survives, pre, last);
      assert Strip(last) == if Survives(last) then [Clean(last)] else [];
      var kept := Filter(Survives, body);
      var r := RemoveStyles(body);
      assert r == RemoveStyles(pre) + Strip(last);
      forall i | 0 <= i < |kept| ensures r[i] == Clean(kept[i]) {
        if i < |Filter(Survives, pre)| {
          assert r[i] == RemoveStyles(pre)[i];
          assert kept[i] == Filter(Survives, pre)[i];
        }
      }
    }
  }

  /** The statements other than variable declarations, in order. */
  function NonDecls(ss: seq<Stmt>): seq<Stmt> {
    if ss == [] then [] else (if ss[0].VarDecl? then [] else [ss[0]]) + NonDecls(ss[1..])
  }

  lemma {:induction false} NonDeclsAppend(a: seq<Stmt>, b: seq<Stmt>)
    ensures NonDecls(a + b) == NonDecls(a) + NonDecls(b)
  {
    if a != [] {
      assert (a + b)[1..] == a[1..] + b;
      NonDeclsAppend(a[1..], b);
    } else {
      assert a + b == b;
    }
  }

  /** A body without a `styles` object keeps all its statements. */
  lemma {:induction false} NoStylesKept(body: seq<Stmt>)
    requires forall i :: 0 <= i < |body| && body[i].VarDecl? ==>
      forall j :: 0 <= j < |body[i].declarations| ==> !IsStylesObject(body[i].declarations[j])
    ensures RemoveStyles(body) == body
    ensures FoundStyles(body) == None
  {
    if body != [] {
      NoStylesKept(body[..|body| - 1]);
      assert body[..|body| - 1] + [body[|body| - 1]] == body;
    }
  }

  /** The rules of the sheet: distinct names, each a non-empty transformed
      rule with distinct keys and no `background`. */
  lemma {:induction false} SheetRulesShape(props: seq<Prop>)
    ensures var rules := SheetRules(props);
      Distinct(Keys(rules)) &&
      forall i :: 0 <= i < |rules| ==>
        |rules[i].1| > 0 && Distinct(Keys(rules[i].1)) && "background" !in Keys(rules[i].1)
  {
    if props != [] {
      var pre := props[..|props| - 1];
      var p := props[|props| - 1];
      SheetRulesShape(pre);
      var acc := SheetRules(pre);
      if IsRule(p) && |RuleStyle(p)| > 0 {
        var r := Upsert(acc, RuleName(p), RuleStyle(p));
        UpsertDistinct(acc, RuleName(p), RuleStyle(p));
        AstSpecShape(RuleEntries(p.value.props));
        forall i | 0 <= i < |r|
          ensures |r[i].1| > 0 && Distinct(Keys(r[i].1)) && "background" !in Keys(r[i].1)
        {
          LookupAt(r, i);
          var k := r[i].0;
          if k != RuleName(p) {
            assert k in Keys(r);
            LookupIn(acc, k);
          }
        }
      }
    }
  }

  /** The rules in source order, when no two of them share a name. */
  function InOrder(props: seq<Prop>): seq<(string, Style)> {
    if props == [] then []
    else
      var p := props[|props| - 1];
      InOrder(props[..|props| - 1]) + (if IsRule(p) && |RuleStyle(p)| > 0 then [(RuleName(p), RuleStyle(p))] else [])
  }

  /** The names of the rules that are kept. */
  function KeptNames(props: seq<Prop>): seq<string> {
    Keys(InOrder(props))
  }

  /** Rules with distinct names appear in the sheet in source order. */
  lemma {:induction false} SheetRulesInOrder(props: seq<Prop>)
    requires Distinct(KeptNames(props))
    ensures SheetRules(props) == InOrder(props)
  {
    if props != [] {
      var pre := props[..|props| - 1];
      var p := props[|props| - 1];
      assert Keys(InOrder(pre)) == KeptNames(props)[..|InOrder(pre)|];
      SheetRulesInOrder(pre);
      if IsRule(p) && |RuleStyle(p)| > 0 {
        assert KeptNames(props)[|InOrder(pre)|] == RuleName(p);
        UpsertFresh(InOrder(pre), RuleName(p), RuleStyle(p));
      }
    }
  }

  /** Every stored value can be written as a literal and read back. */
  predicate Readable(v: StyleValue) {
    v.Node? ==> IsNodeValue(v.expr)
  }

  lemma ReadValue(v: StyleValue)
    requires Readable(v)
    ensures ValueOf(ToExpr(v)) == v
  {
  }

  lemma StyleObjectPrefix(style: Style)
    requires style != []
    ensures var props := StyleObject(style).props;
      props[..|props| - 1] == StyleObject(style[..|style| - 1]).props &&
      props[|props| - 1] == Property(Ident(style[|style| - 1].0), false, ToExpr(style[|style| - 1].1))
  {
  }

  /** Reading a written rule back the way the generator reads a styles object
      gives the rule again. */
  lemma {:induction false} ReadBack(style: Style)
    requires Distinct(Keys(style))
    requires forall i :: 0 <= i < |style| ==> Readable(style[i].1)
    ensures RuleEntries(StyleObject(style).props) == style
  {
    if style != [] {
      var n := |style| - 1;
      var pre := style[..n];
      var (k, v) := style[n];
      assert style == pre + [(k, v)];
      DistinctPrefix(style);
      ReadablePrefix(style, pre);
      ReadBack(pre);
      ReadBackStep(pre, k, v);
    }
  }

  lemma ReadablePrefix(style: Style, pre: Style)
    requires style != [] && pre == style[..|style| - 1]
    requires forall i :: 0 <= i < |style| ==> Readable(style[i].1)
    ensures forall i :: 0 <= i < |pre| ==> Readable(pre[i].1)
    ensures Readable(style[|style| - 1].1)
  {
    assert forall i :: 0 <= i < |pre| ==> pre[i] == style[i];
  }

  /** Writing one more fresh, readable entry and reading it back appends it. */
  lemma ReadBackStep(pre: Style, k: string, v: StyleValue)
    requires RuleEntries(StyleObject(pre).props) == pre
    requires k !in Keys(pre) && Readable(v)
    ensures RuleEntries(StyleObject(pre + [(k, v)]).props) == pre + [(k, v)]
  {
    var style := pre + [(k, v)];
    assert style[..|style| - 1] == pre;
    StyleObjectPrefix(style);
    ReadValue(v);
    var props := StyleObject(style).props;
    assert props == StyleObject(pre).props + [Property(Ident(k), false, ToExpr(v))];
    EntriesSnoc(StyleObject(pre).props, k, ToExpr(v));
    UpsertFresh(pre, k, v);
  }

  lemma EntriesSnoc(props: seq<Prop>, k: string, e: Expr)
    ensures RuleEntries(props + [Property(Ident(k), false, e)]) == Upsert(RuleEntries(props), k, ValueOf(e))
  {
    assert (props + [Property(Ident(k), false, e)])[..|props|] == props;
  }

  /** Dropping the last entry keeps the keys distinct, and the last key is
      not among the others. */
  lemma DistinctPrefix(style: Style)
    requires style != [] && Distinct(Keys(style))
    ensures Distinct(Keys(style[..|style| - 1]))
    ensures style[|style| - 1].0 !in Keys(style[..|style| - 1])
  {
    var n := |style| - 1;
    assert forall i :: 0 <= i < n ==> Keys(style[..n])[i] == Keys(style)[i];
  }

  /** With no `styles` object, an empty sheet is appended: the same
      declaration as for a styles object none of whose rules survive. */
  lemma EmptySheet(body: seq<Stmt>)
    requires FoundStyles(body).None? || SheetRules(FoundStyles(body).value) == []
    ensures GenerateSpec(body) == RemoveStyles(body) + [SheetDecl([])]
    ensures SheetDecl([]) == ConstDecl("styles", Call(Dot("StyleSheet", "create"), [ObjectExpr([])]))
  {
  }

  lemma UndefinedUnknown()
    ensures "undefined" !in KnownProperties && RenameOf("undefined") == None
  {
  }

  /** A key that reads as `undefined` is dropped by the style transformer. */
  lemma UndefinedDropped()
    ensures ResolveKey("undefined") == None
  {
    UndefinedUnknown();
    assert '-' !in "undefined";
  }
}
