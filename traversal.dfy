/** The main rewrite pass: one walk over the whole program that applies, at
    every node it reaches, the import rewrite (to import declarations), the
    JSX rewrite (to elements), the hook rewrite (to variable declarators) and
    the `localStorage` rewrite (to calls). The walk is pre-order and visits
    every sub-expression and nested statement.

    The JSX rewrite also walks the subtree of each element it rewrites,
    turning a call of the bare identifier `navigate` into `router.navigate`.
    That inner walk is modelled by the `inJsx` flag: it is set on entering an
    element, so a `navigate` call is rewritten exactly when it lies somewhere
    inside a JSX element. A fragment `<>...</>` is not an element and leaves
    the flag as it is. */
module Traversal {
  import opened Wrappers
  import opened Strings
  import opened Ast
  import opened Imports
  import opened Markup

  /** `callee` is `localStorage.getItem` (or `localStorage[getItem]`). */
  predicate IsStorageGet(callee: Expr) {
    callee.Member? && callee.obj == Ident("localStorage") && callee.property == Ident("getItem")
  }

  /** The call rewrites on a callee, in the order they reach a call: first the
      `navigate` rewrite of an enclosing element's inner walk, then
      `replaceLocalStorage` when the main walk visits the call. */
  function CallRewrite(callee: Expr, inJsx: bool): (c: Expr)
    ensures inJsx && callee == Ident("navigate") ==> c == Dot("router", "navigate")
    ensures IsStorageGet(callee) ==> c == Dot("SecureStore", "getItem")
    ensures !(inJsx && callee == Ident("navigate")) && !IsStorageGet(callee) ==> c == callee
    ensures !IsStorageGet(c)
  {
    var c1 := if inJsx && callee == Ident("navigate") then Dot("router", "navigate") else callee;
    if IsStorageGet(c1) then Dot("SecureStore", "getItem") else c1
  }

  /** `transformHooks`: a declarator initialised by a call of `useNavigate`
      calls `useRouter` instead, and a plain identifier binding is renamed
      `router`. */
  function Hook(d: Declarator): (r: Declarator)
    ensures IsNavigateHook(d) ==>
      r.init == Some(Call(Ident("useRouter"), d.init.value.args)) &&
      r.id == (if d.id.PIdent? then PIdent("router") else d.id)
    ensures !IsNavigateHook(d) ==> r == d
    ensures !IsNavigateHook(r)
  {
    if IsNavigateHook(d) then
      Declarator(if d.id.PIdent? then PIdent("router") else d.id,
                 Some(Call(Ident("useRouter"), d.init.value.args)))
    else d
  }

  predicate IsNavigateHook(d: Declarator) {
    d.init.Some? && d.init.value.Call? && d.init.value.callee == Ident("useNavigate")
  }

  // ---------------------------------------------------------------------
  // What the pass leaves behind, everywhere in the tree.

  /** No call to rewrite remains in `e`: no `localStorage.getItem` call, and
      inside JSX no call of `navigate`; no element keeps an HTML tag or a
      `className`; no declarator calls `useNavigate`; no import is left that
      the import rewrite would still change. */
  predicate ExprDone(e: Expr, inJsx: bool)
    decreases e
  {
    match e
    case Call(callee, args) =>
      !(inJsx && callee == Ident("navigate")) && !IsStorageGet(callee) &&
      ExprDone(callee, inJsx) && (forall i :: 0 <= i < |args| ==> ExprDone(args[i], inJsx))
    case Member(obj, property, _) => ExprDone(obj, inJsx) && ExprDone(property, inJsx)
    case ObjectExpr(props) => forall i :: 0 <= i < |props| ==> PropDone(props[i], inJsx)
    case ArrayExpr(elems) => forall i :: 0 <= i < |elems| ==> ExprDone(elems[i], inJsx)
    case Arrow(_, result) => ExprDone(result, inJsx)
    case Function(_, _, body) => forall i :: 0 <= i < |body| ==> StmtDone(body[i], inJsx)
    case Compound(_, operands) => forall i :: 0 <= i < |operands| ==> ExprDone(operands[i], inJsx)
    case Jsx(element) => ElementDone(element)
    case Fragment(children) => forall i :: 0 <= i < |children| ==> ChildDone(children[i], inJsx)
    case _ => true
  }

  predicate PropDone(p: Prop, inJsx: bool)
    decreases p
  {
    match p
    case Property(key, _, value) => ExprDone(key, inJsx) && ExprDone(value, inJsx)
    case SpreadProp(argument) => ExprDone(argument, inJsx)
  }

  predicate ElementDone(el: Element)
    decreases el
  {
    TagFor(el.name).None? &&
    (forall i :: 0 <= i < |el.attributes| ==> AttrDone(el.attributes[i])) &&
    (forall i :: 0 <= i < |el.children| ==> ChildDone(el.children[i], true))
  }

  predicate AttrDone(a: Attr)
    decreases a
  {
    match a
    case JsxAttr(name, value) => name != "className" && (value.ExprValue? ==> ExprDone(value.expr, true))
    case JsxSpread(argument) => ExprDone(argument, true)
  }

  predicate ChildDone(c: Child, inJsx: bool)
    decreases c
  {
    match c
    case Text(_) => true
    case Container(expr) => ExprDone(expr, inJsx)
    case ChildElement(element) => ElementDone(element)
    case ChildFragment(children) => forall i :: 0 <= i < |children| ==> ChildDone(children[i], inJsx)
  }

  predicate DeclDone(d: Declarator, inJsx: bool)
    decreases d
  {
    !IsNavigateHook(d) && (d.init.Some? ==> ExprDone(d.init.value, inJsx))
  }

  /** An import that is done has no `.css` source, is not from
      `react-router-dom`, and imports `StyleSheet` if it is from `react-native`. */
  predicate ImportDone(s: Stmt)
    requires s.Import?
  {
    !EndsWith(s.source, ".css") && s.source != "react-router-dom" &&
    (s.source == "react-native" ==> HasNamed(s.specifiers, "StyleSheet"))
  }

  predicate StmtDone(s: Stmt, inJsx: bool)
    decreases s
  {
    match s
    case Import(_, _) => ImportDone(s)
    case VarDecl(_, declarations, _) => forall i :: 0 <= i < |declarations| ==> DeclDone(declarations[i], inJsx)
    case FuncDecl(_, _, body, _) => forall i :: 0 <= i < |body| ==> StmtDone(body[i], inJsx)
    case ExprStmt(expr) => ExprDone(expr, inJsx)
    case Return(argument) => argument.Some? ==> ExprDone(argument.value, inJsx)
    case ExportDefaultExpr(expr) => ExprDone(expr, inJsx)
    case OtherStmt(exprs, stmts) =>
      (forall i :: 0 <= i < |exprs| ==> ExprDone(exprs[i], inJsx)) &&
      (forall i :: 0 <= i < |stmts| ==> StmtDone(stmts[i], inJsx))
    case TypeDecl(_) => true
  }

  // ---------------------------------------------------------------------
  // Where the walk succeeds. The converter throws at exactly two places it
  // reaches: a `className` attribute whose value is not a string literal
  // (its `.value.split` fails), and an `.svg` import with no specifier (its
  // first specifier is read). Everything else converts.

  /** An import the import rewrite throws at. */
  predicate BadSvgImport(s: Stmt)
    requires s.Import?
  {
    EndsWith(s.source, ".svg") && s.specifiers == []
  }

  predicate ConvertibleExpr(e: Expr)
    decreases e
  {
    match e
    case Call(callee, args) =>
      ConvertibleExpr(callee) && forall i :: 0 <= i < |args| ==> ConvertibleExpr(args[i])
    case Member(obj, property, _) => ConvertibleExpr(obj) && ConvertibleExpr(property)
    case ObjectExpr(props) => forall i :: 0 <= i < |props| ==> ConvertibleProp(props[i])
    case ArrayExpr(elems) => forall i :: 0 <= i < |elems| ==> ConvertibleExpr(elems[i])
    case Arrow(_, result) => ConvertibleExpr(result)
    case Function(_, _, body) => forall i :: 0 <= i < |body| ==> ConvertibleStmt(body[i])
    case Compound(_, operands) => forall i :: 0 <= i < |operands| ==> ConvertibleExpr(operands[i])
    case Jsx(element) => ConvertibleElement(element)
    case Fragment(children) => forall i :: 0 <= i < |children| ==> ConvertibleChild(children[i])
    case _ => true
  }

  predicate ConvertibleProp(p: Prop)
    decreases p
  {
    match p
    case Property(key, _, value) => ConvertibleExpr(key) && ConvertibleExpr(value)
    case SpreadProp(argument) => ConvertibleExpr(argument)
  }

  predicate ConvertibleElement(el: Element)
    decreases el
  {
    (forall i :: 0 <= i < |el.attributes| ==> ConvertibleAttr(el.attributes[i])) &&
    (forall i :: 0 <= i < |el.children| ==> ConvertibleChild(el.children[i]))
  }

  predicate ConvertibleAttr(a: Attr)
    decreases a
  {
    match a
    case JsxAttr(name, value) =>
      if name == "className" then value.StrValue?
      else value.ExprValue? ==> ConvertibleExpr(value.expr)
    case JsxSpread(argument) => ConvertibleExpr(argument)
  }

  predicate ConvertibleChild(c: Child)
    decreases c
  {
    match c
    case Text(_) => true
    case Container(expr) => ConvertibleExpr(expr)
    case ChildElement(element) => ConvertibleElement(element)
    case ChildFragment(children) => forall i :: 0 <= i < |children| ==> ConvertibleChild(children[i])
  }

  predicate ConvertibleDecl(d: Declarator)
    decreases d
  {
    d.init.Some? ==> ConvertibleExpr(d.init.value)
  }

  predicate ConvertibleStmt(s: Stmt)
    decreases s
  {
    match s
    case Import(_, _) => !BadSvgImport(s)
    case VarDecl(_, declarations, _) => forall i :: 0 <= i < |declarations| ==> ConvertibleDecl(declarations[i])
    case FuncDecl(_, _, body, _) => forall i :: 0 <= i < |body| ==> ConvertibleStmt(body[i])
    case ExprStmt(expr) => ConvertibleExpr(expr)
    case Return(argument) => argument.Some? ==> ConvertibleExpr(argument.value)
    case ExportDefaultExpr(expr) => ConvertibleExpr(expr)
    case OtherStmt(exprs, stmts) =>
      (forall i :: 0 <= i < |exprs| ==> ConvertibleExpr(exprs[i])) &&
      (forall i :: 0 <= i < |stmts| ==> ConvertibleStmt(stmts[i]))
    case TypeDecl(_) => true
  }

  // ---------------------------------------------------------------------
  // The walk. A run that meets a node the rewrites cannot handle stops
  // with the error the converter throws there.

  /** The walk of an expression. */
  function RwExpr(e: Expr, inJsx: bool): (r: Result<Expr, ConvertError>)
    ensures r.Ok? <==> ConvertibleExpr(e)
    ensures r.Ok? ==> ExprDone(r.value, inJsx)
    ensures e.Ident? ==> r == Ok(e)
    ensures r.Ok? ==> (e.Ident? <==> r.value.Ident?)
    ensures r.Ok? && e.Member? ==>
      r.value.Member? && r.value.computed == e.computed &&
      RwExpr(e.obj, inJsx) == Ok(r.value.obj) && RwExpr(e.property, inJsx) == Ok(r.value.property)
    ensures r.Ok? && e.Arrow? ==>
      r.value.Arrow? && r.value.params == e.params &&
      RwExpr(e.result, inJsx) == Ok(r.value.result)
    ensures e.Call? ==> r == RwCall(e, inJsx)
    ensures !e.Call? && !e.Member? && !e.Arrow? && !e.Ident? ==> r == RwNested(e, inJsx)
    ensures r.Ok? && r.value.Call? && r.value.callee.Ident? ==> e.Call? && e.callee == r.value.callee
    ensures r.Ok? && IsStorageGet(r.value) ==> IsStorageGet(e)
    decreases e, 2
  {
    match e
    case Call(_, _) => RwCall(e, inJsx)
    case Member(obj, property, computed) =>
      var obj' :- RwExpr(obj, inJsx);
      var property' :- RwExpr(property, inJsx);
      Ok(Member(obj', property', computed))
    case Arrow(params, result) =>
      var result' :- RwExpr(result, inJsx);
      Ok(Arrow(params, result'))
    case Ident(_) => Ok(e)
    case _ => RwNested(e, inJsx)
  }

  /** The walk of an expression that holds a list of nodes, or none. */
  function RwNested(e: Expr, inJsx: bool): (r: Result<Expr, ConvertError>)
    requires !e.Call? && !e.Member? && !e.Arrow? && !e.Ident?
    ensures r.Ok? <==> ConvertibleExpr(e)
    ensures r.Ok? ==> ExprDone(r.value, inJsx)
    ensures r.Ok? ==> !r.value.Ident? && !r.value.Call? && !r.value.Member?
    ensures e.StrLit? || e.NumLit? || e.NullLit? || e.FontTable? ==> r == Ok(e)
    ensures r.Ok? && e.ObjectExpr? ==> r.value.ObjectExpr? && RwProps(e.props, inJsx) == Ok(r.value.props)
    ensures r.Ok? && e.ArrayExpr? ==> r.value.ArrayExpr? && RwExprs(e.elems, inJsx) == Ok(r.value.elems)
    ensures r.Ok? && e.Function? ==>
      r.value.Function? && r.value.arrow == e.arrow &&
      r.value.params == e.params && RwStmts(e.body, inJsx) == Ok(r.value.body)
    ensures r.Ok? && e.Compound? ==>
      r.value.Compound? && r.value.kind == e.kind &&
      RwExprs(e.operands, inJsx) == Ok(r.value.operands)
    ensures r.Ok? && e.Jsx? ==> r.value.Jsx? && RwElement(e.element) == Ok(r.value.element)
    ensures r.Ok? && e.Fragment? ==> r.value.Fragment? && RwChildren(e.children, inJsx) == Ok(r.value.children)
    decreases e, 1
  {
    match e
    case ObjectExpr(props) =>
      var props' :- RwProps(props, inJsx);
      Ok(ObjectExpr(props'))
    case ArrayExpr(elems) =>
      var elems' :- RwExprs(elems, inJsx);
      Ok(ArrayExpr(elems'))
    case Function(arrow, params, body) =>
      var body' :- RwStmts(body, inJsx);
      Ok(Function(arrow, params, body'))
    case Compound(kind, operands) =>
      var operands' :- RwExprs(operands, inJsx);
      Ok(Compound(kind, operands'))
    case Jsx(_) => RwMarkup(e, inJsx)
    case Fragment(_) => RwMarkup(e, inJsx)
    case _ => Ok(e)
  }

  /** An element or a fragment used as an expression. */
  function RwMarkup(e: Expr, inJsx: bool): (r: Result<Expr, ConvertError>)
    requires e.Jsx? || e.Fragment?
    ensures r.Ok? <==> ConvertibleExpr(e)
    ensures r.Ok? ==> ExprDone(r.value, inJsx)
    ensures r.Ok? && e.Jsx? ==> r.value.Jsx? && RwElement(e.element) == Ok(r.value.element)
    ensures r.Ok? && e.Fragment? ==> r.value.Fragment? && RwChildren(e.children, inJsx) == Ok(r.value.children)
    decreases e, 0
  {
    match e
    case Jsx(element) =>
      var element' :- RwElement(element);
      Ok(Jsx(element'))
    case Fragment(children) =>
      var children' :- RwChildren(children, inJsx);
      Ok(Fragment(children'))
  }

  /** A call: the callee rewrites, then the walk of the callee and the
      arguments. */
  function RwCall(e: Expr, inJsx: bool): (r: Result<Expr, ConvertError>)
    requires e.Call?
    ensures r.Ok? <==> ConvertibleExpr(e)
    ensures r.Ok? ==> r.value.Call? && ExprDone(r.value, inJsx)
    ensures r.Ok? && r.value.callee.Ident? ==> e.callee == r.value.callee
    ensures r.Ok? ==> RwExprs(e.args, inJsx) == Ok(r.value.args)
    ensures r.Ok? && CallRewrite(e.callee, inJsx) != e.callee ==> r.value.callee == CallRewrite(e.callee, inJsx)
    ensures r.Ok? && CallRewrite(e.callee, inJsx) == e.callee ==> RwExpr(e.callee, inJsx) == Ok(r.value.callee)
    decreases e, 0
  {
    // A replaced callee is a fresh `a.b` member expression of two plain
    // identifiers, which no rewrite changes further.
    var c := CallRewrite(e.callee, inJsx);
    var callee :- if c == e.callee then RwExpr(e.callee, inJsx) else Ok(c);
    assert !(inJsx && callee == Ident("navigate")) && !IsStorageGet(callee) && ExprDone(callee, inJsx);
    var args :- RwExprs(e.args, inJsx);
    Ok(Call(callee, args))
  }

  function RwExprs(es: seq<Expr>, inJsx: bool): (r: Result<seq<Expr>, ConvertError>)
    ensures r.Ok? <==> forall i :: 0 <= i < |es| ==> RwExpr(es[i], inJsx).Ok?
    ensures r.Ok? ==> |r.value| == |es|
    ensures r.Ok? ==> forall i :: 0 <= i < |es| ==> RwExpr(es[i], inJsx) == Ok(r.value[i])
    decreases es
  {
    if es == [] then Ok([])
    else
      var head :- RwExpr(es[0], inJsx);
      var tail :- RwExprs(es[1..], inJsx);
      var r := [head] + tail;
      assert forall i :: 1 <= i < |es| ==> es[i] == es[1..][i - 1] && r[i] == tail[i - 1];
      Ok(r)
  }

  function RwProp(p: Prop, inJsx: bool): (r: Result<Prop, ConvertError>)
    ensures r.Ok? <==> ConvertibleProp(p)
    ensures r.Ok? ==> PropDone(r.value, inJsx)
    ensures r.Ok? && p.Property? ==>
      r.value.Property? && r.value.computed == p.computed &&
      RwExpr(p.key, inJsx) == Ok(r.value.key) && RwExpr(p.value, inJsx) == Ok(r.value.value)
    ensures r.Ok? && p.SpreadProp? ==> r.value.SpreadProp? && RwExpr(p.argument, inJsx) == Ok(r.value.argument)
    decreases p
  {
    match p
    case Property(key, computed, value) =>
      var key' :- RwExpr(key, inJsx);
      var value' :- RwExpr(value, inJsx);
      Ok(Property(key', computed, value'))
    case SpreadProp(argument) =>
      var argument' :- RwExpr(argument, inJsx);
      Ok(SpreadProp(argument'))
  }

  function RwProps(ps: seq<Prop>, inJsx: bool): (r: Result<seq<Prop>, ConvertError>)
    ensures r.Ok? <==> forall i :: 0 <= i < |ps| ==> RwProp(ps[i], inJsx).Ok?
    ensures r.Ok? ==> |r.value| == |ps|
    ensures r.Ok? ==> forall i :: 0 <= i < |ps| ==> RwProp(ps[i], inJsx) == Ok(r.value[i])
    ensures r.Ok? ==> forall i :: 0 <= i < |ps| ==> PropDone(r.value[i], inJsx)
    decreases ps
  {
    if ps == [] then Ok([])
    else
      var head :- RwProp(ps[0], inJsx);
      var tail :- RwProps(ps[1..], inJsx);
      var r := [head] + tail;
      assert forall i :: 1 <= i < |ps| ==> ps[i] == ps[1..][i - 1] && r[i] == tail[i - 1];
      Ok(r)
  }

  /** `transformJSX` followed by the walk of the element's subtree: the tags
      and attributes are rewritten, then everything inside is walked with
      the `navigate` rewrite switched on. */
  function RwElement(el: Element): (r: Result<Element, ConvertError>)
    ensures r.Ok? <==> ConvertibleElement(el)
    ensures r.Ok? ==> ElementDone(r.value)
    ensures r.Ok? ==> TransformElement(el).Ok?
    ensures r.Ok? ==> r.value.name == Retag(el.name) && r.value.closing == TransformElement(el).value.closing
    ensures r.Ok? ==> |r.value.attributes| == |el.attributes| && |r.value.children| == |el.children|
    ensures r.Ok? ==> RwAttrs(el.attributes, TagFor(el.name)) == Ok(r.value.attributes)
    ensures r.Ok? ==> RwChildren(el.children, true) == Ok(r.value.children)
    ensures r.Ok? && TagsMatch(el) ==> TagsMatch(r.value)
    decreases el
  {
    var renamed :- TransformElement(el);
    var attributes :- RwAttrs(el.attributes, TagFor(el.name));
    var children :- RwChildren(el.children, true);
    Ok(Element(renamed.name, attributes, children, renamed.closing))
  }

  /** The walk of an attribute value, without renaming the attribute. */
  function WalkAttr(a: Attr): (r: Result<Attr, ConvertError>)
    ensures r.Ok? && a.JsxAttr? ==> r.value.JsxAttr? && r.value.name == a.name
    ensures r.Ok? && a.JsxAttr? ==> (r.value.value.ExprValue? <==> a.value.ExprValue?)
    ensures r.Ok? && a.JsxAttr? && !a.value.ExprValue? ==> r.value.value == a.value
    ensures r.Ok? ==> AttrDone(r.value) || (a.JsxAttr? && a.name == "className")
  {
    match a
    case JsxAttr(name, value) =>
      if value.ExprValue? then
        var expr' :- RwExpr(value.expr, true);
        Ok(JsxAttr(name, ExprValue(expr')))
      else Ok(a)
    case JsxSpread(argument) =>
      var argument' :- RwExpr(argument, true);
      Ok(JsxSpread(argument'))
  }

  /** One attribute of an element whose original tag maps to `mapped`: the
      `className` rewrite replaces the whole value, which is then already
      final; any other attribute has its value walked and is renamed as
      `transformJSX` renames it. The rename keeps the value, so renaming
      before or after the walk gives the same node (`RenameThenWalk`). */
  function RwAttr(a: Attr, mapped: Option<string>): (r: Result<Attr, ConvertError>)
    ensures r.Ok? <==> ConvertibleAttr(a)
    ensures r.Ok? ==> AttrDone(r.value)
    ensures r.Ok? ==> RewriteAttr(a, mapped).Ok?
    ensures a.JsxAttr? && a.name == "className" ==> r == RewriteAttr(a, mapped)
    ensures r.Ok? && a.JsxAttr? && a.name != "className" ==>
      r.value.JsxAttr? && r.value.name == RewriteAttr(a, mapped).value.name &&
      (a.value.ExprValue? ==> r.value.value.ExprValue? && RwExpr(a.value.expr, true) == Ok(r.value.value.expr)) &&
      (!a.value.ExprValue? ==> r.value.value == a.value)
    ensures r.Ok? && a.JsxSpread? ==> r.value.JsxSpread? && RwExpr(a.argument, true) == Ok(r.value.argument)
    decreases a
  {
    if a.JsxAttr? && a.name == "className" then
      ClassStyleDone(a.value);
      RewriteAttr(a, mapped)
    else
      match a
      case JsxAttr(name, value) =>
        if value.ExprValue? then
          var expr :- RwExpr(value.expr, true);
          RewriteAttr(JsxAttr(name, ExprValue(expr)), mapped)
        else RewriteAttr(a, mapped)
      case JsxSpread(argument) =>
        var argument' :- RwExpr(argument, true);
        Ok(JsxSpread(argument'))
  }

  function RwAttrs(attrs: seq<Attr>, mapped: Option<string>): (r: Result<seq<Attr>, ConvertError>)
    ensures r.Ok? <==> forall i :: 0 <= i < |attrs| ==> RwAttr(attrs[i], mapped).Ok?
    ensures r.Ok? ==> |r.value| == |attrs|
    ensures r.Ok? ==> forall i :: 0 <= i < |attrs| ==> RwAttr(attrs[i], mapped) == Ok(r.value[i])
    decreases attrs
  {
    if attrs == [] then Ok([])
    else
      var head :- RwAttr(attrs[0], mapped);
      var tail :- RwAttrs(attrs[1..], mapped);
      assert forall i :: 1 <= i < |attrs| ==> attrs[i] == attrs[1..][i - 1];
      Ok([head] + tail)
  }

  function RwChild(c: Child, inJsx: bool): (r: Result<Child, ConvertError>)
    ensures r.Ok? <==> ConvertibleChild(c)
    ensures r.Ok? ==> ChildDone(r.value, inJsx)
    ensures c.Text? ==> r == Ok(c)
    ensures r.Ok? && c.Container? ==> r.value.Container? && RwExpr(c.expr, inJsx) == Ok(r.value.expr)
    ensures r.Ok? && c.ChildElement? ==> r.value.ChildElement? && RwElement(c.element) == Ok(r.value.element)
    ensures r.Ok? && c.ChildFragment? ==> r.value.ChildFragment? && RwChildren(c.children, inJsx) == Ok(r.value.children)
    decreases c
  {
    match c
    case Text(_) => Ok(c)
    case Container(expr) =>
      var expr' :- RwExpr(expr, inJsx);
      Ok(Container(expr'))
    case ChildElement(element) =>
      var element' :- RwElement(element);
      Ok(ChildElement(element'))
    case ChildFragment(children) =>
      var children' :- RwChildren(children, inJsx);
      Ok(ChildFragment(children'))
  }

  function RwChildren(cs: seq<Child>, inJsx: bool): (r: Result<seq<Child>, ConvertError>)
    ensures r.Ok? <==> forall i :: 0 <= i < |cs| ==> RwChild(cs[i], inJsx).Ok?
    ensures r.Ok? ==> |r.value| == |cs|
    ensures r.Ok? ==> forall i :: 0 <= i < |cs| ==> RwChild(cs[i], inJsx) == Ok(r.value[i])
    ensures r.Ok? ==> forall i :: 0 <= i < |cs| ==> ChildDone(r.value[i], inJsx)
    decreases cs
  {
    if cs == [] then Ok([])
    else
      var head :- RwChild(cs[0], inJsx);
      var tail :- RwChildren(cs[1..], inJsx);
      var r := [head] + tail;
      assert forall i :: 1 <= i < |cs| ==> cs[i] == cs[1..][i - 1] && r[i] == tail[i - 1];
      Ok(r)
  }

  /** A declarator: its initialiser is walked and `transformHooks` applied.
      The walk keeps a call's plain-identifier callee other than `navigate`,
      so hooking before or after the walk gives the same node
      (`HookThenWalk`). */
  function RwDecl(d: Declarator, inJsx: bool): (r: Result<Declarator, ConvertError>)
    ensures r.Ok? <==> ConvertibleDecl(d)
    ensures r.Ok? ==> DeclDone(r.value, inJsx)
    ensures d.init.None? ==> r == Ok(d)
    ensures r.Ok? && d.init.Some? ==>
      RwExpr(d.init.value, inJsx).Ok? &&
      r.value == Hook(Declarator(d.id, Some(RwExpr(d.init.value, inJsx).value)))
    decreases d
  {
    match d.init
    case None => Ok(d)
    case Some(init) =>
      var init' :- RwExpr(init, inJsx);
      Ok(Hook(Declarator(d.id, Some(init'))))
  }

  function RwDecls(ds: seq<Declarator>, inJsx: bool): (r: Result<seq<Declarator>, ConvertError>)
    ensures r.Ok? <==> forall i :: 0 <= i < |ds| ==> RwDecl(ds[i], inJsx).Ok?
    ensures r.Ok? ==> |r.value| == |ds|
    ensures r.Ok? ==> forall i :: 0 <= i < |ds| ==> RwDecl(ds[i], inJsx) == Ok(r.value[i])
    ensures r.Ok? ==> forall i :: 0 <= i < |ds| ==> DeclDone(r.value[i], inJsx)
    decreases ds
  {
    if ds == [] then Ok([])
    else
      var head :- RwDecl(ds[0], inJsx);
      var tail :- RwDecls(ds[1..], inJsx);
      var r := [head] + tail;
      assert forall i :: 1 <= i < |ds| ==> ds[i] == ds[1..][i - 1] && r[i] == tail[i - 1];
      Ok(r)
  }

  /** The walk of a statement; None when the statement is an import that
      `transformImports` removes. */
  function RwStmt(s: Stmt, inJsx: bool): (r: Result<Option<Stmt>, ConvertError>)
    ensures r.Ok? <==> ConvertibleStmt(s)
    ensures r.Ok? && r.value.Some? ==> StmtDone(r.value.value, inJsx)
    ensures r.Ok? && r.value.None? <==> Removed(s)
    ensures r.Ok? && r.value.Some? ==> (r.value.value.Import? <==> s.Import?)
    ensures s.Import? ==> r == TransformImport(s)
    ensures r.Ok? && !s.Import? ==> r.value.Some?
    ensures s.TypeDecl? || (s.Return? && s.argument.None?) ==> r == Ok(Some(s))
    ensures r.Ok? && s.VarDecl? ==> var t := r.value.value;
      t.VarDecl? && t.kind == s.kind && t.exported == s.exported && RwDecls(s.declarations, inJsx) == Ok(t.declarations)
    ensures r.Ok? && s.FuncDecl? ==> var t := r.value.value;
      t.FuncDecl? && t.id == s.id && t.params == s.params && t.exportKind == s.exportKind &&
      RwStmts(s.body, inJsx) == Ok(t.body)
    ensures r.Ok? && s.ExprStmt? ==> var t := r.value.value; t.ExprStmt? && RwExpr(s.expr, inJsx) == Ok(t.expr)
    ensures r.Ok? && s.Return? && s.argument.Some? ==> var t := r.value.value;
      t.Return? && t.argument.Some? && RwExpr(s.argument.value, inJsx) == Ok(t.argument.value)
    ensures r.Ok? && s.ExportDefaultExpr? ==> var t := r.value.value;
      t.ExportDefaultExpr? && RwExpr(s.expr, inJsx) == Ok(t.expr)
    ensures r.Ok? && s.OtherStmt? ==> var t := r.value.value;
      t.OtherStmt? && RwExprs(s.exprs, inJsx) == Ok(t.exprs) && RwStmts(s.stmts, inJsx) == Ok(t.stmts)
    decreases s
  {
    match s
    case Import(_, _) => TransformImport(s)
    case VarDecl(kind, declarations, exported) =>
      var declarations' :- RwDecls(declarations, inJsx);
      Ok(Some(VarDecl(kind, declarations', exported)))
    case FuncDecl(id, params, body, exportKind) =>
      var body' :- RwStmts(body, inJsx);
      Ok(Some(FuncDecl(id, params, body', exportKind)))
    case ExprStmt(expr) =>
      var expr' :- RwExpr(expr, inJsx);
      Ok(Some(ExprStmt(expr')))
    case Return(argument) =>
      if argument.None? then Ok(Some(s))
      else
        var argument' :- RwExpr(argument.value, inJsx);
        Ok(Some(Return(Some(argument'))))
    case ExportDefaultExpr(expr) =>
      var expr' :- RwExpr(expr, inJsx);
      Ok(Some(ExportDefaultExpr(expr')))
    case OtherStmt(exprs, stmts) =>
      var exprs' :- RwExprs(exprs, inJsx);
      var stmts' :- RwStmts(stmts, inJsx);
      Ok(Some(OtherStmt(exprs', stmts')))
    case TypeDecl(_) => Ok(Some(s))
  }

  /** An import declaration the import rewrite deletes: a `.css` import. */
  predicate Removed(s: Stmt) {
    s.Import? && s.source != "react" && s.source != "react-router-dom" && EndsWith(s.source, ".css")
  }

  /** The number of statements of `ss` that are removed imports. */
  function RemovedCount(ss: seq<Stmt>): nat {
    if ss == [] then 0 else (if Removed(ss[0]) then 1 else 0) + RemovedCount(ss[1..])
  }

  /** The statements that walked results hold, in order: the removed ones
      (and failures) contribute nothing. */
  function KeptStmts(rs: seq<Result<Option<Stmt>, ConvertError>>): seq<Stmt> {
    if rs == [] then []
    else (if rs[0].Ok? && rs[0].value.Some? then [rs[0].value.value] else []) + KeptStmts(rs[1..])
  }

  /** The walk of a statement list: each statement rewritten in place, the
      removed imports dropped, the others kept in order. */
  function RwStmts(ss: seq<Stmt>, inJsx: bool): (r: Result<seq<Stmt>, ConvertError>)
    ensures r.Ok? <==> forall i :: 0 <= i < |ss| ==> ConvertibleStmt(ss[i])
    ensures r.Ok? <==> forall i :: 0 <= i < |ss| ==> RwStmt(ss[i], inJsx).Ok?
    ensures r.Ok? ==> r.value == KeptStmts(seq(|ss|, i requires 0 <= i < |ss| => RwStmt(ss[i], inJsx)))
    ensures r.Ok? ==> |r.value| == |ss| - RemovedCount(ss)
    ensures r.Ok? ==> forall i :: 0 <= i < |r.value| ==> StmtDone(r.value[i], inJsx)
    decreases ss
  {
    if ss == [] then Ok([])
    else
      var head :- RwStmt(ss[0], inJsx);
      var tail :- RwStmts(ss[1..], inJsx);
      var rs := seq(|ss|, i requires 0 <= i < |ss| => RwStmt(ss[i], inJsx));
      assert rs[0] == Ok(head);
      assert rs[1..] == seq(|ss[1..]|, i requires 0 <= i < |ss[1..]| => RwStmt(ss[1..][i], inJsx));
      Ok((if head.Some? then [head.value] else []) + tail)
  }

  /** The `style` value a `className` rewrite produces holds nothing the walk
      would change. */
  lemma ClassStyleDone(value: AttrValue)
    ensures value.StrValue? ==> ExprDone(ClassStyle(value.text), true)
  {
    if value.StrValue? {
      var tokens := Split(value.text, ' ');
      var e := ClassStyle(value.text);
      if |tokens| == 1 {
        ClassRefDone(tokens[0]);
      } else {
        forall i | 0 <= i < |e.elems| ensures ExprDone(e.elems[i], true) {
          ClassRefDone(tokens[i]);
        }
      }
    }
  }

  lemma ClassRefDone(cls: string)
    ensures ExprDone(ClassRef(cls), true)
  {
  }

  /** Walking an attribute's value after `transformJSX` has renamed the
      attribute gives what `RwAttr` computes by walking first. */
  lemma RenameThenWalk(a: Attr, mapped: Option<string>)
    requires !(a.JsxAttr? && a.name == "className")
    ensures RewriteAttr(a, mapped).Ok?
    ensures RwAttr(a, mapped) == WalkAttr(RewriteAttr(a, mapped).value)
  {
  }

  /** Walking a declarator's initialiser after `transformHooks` has run on it,
      as the converter does, gives what `RwDecl` computes by walking first. */
  lemma HookThenWalk(d: Declarator, inJsx: bool)
    ensures var h := Hook(d);
      RwDecl(d, inJsx) ==
        if h.init.None? then Ok(h)
        else match RwExpr(h.init.value, inJsx)
          case Ok(init) => Ok(Declarator(h.id, Some(init)))
          case Err(error) => Err(error)
  {
    if IsNavigateHook(d) {
      var args := d.init.value.args;
      assert RwExpr(Ident("useNavigate"), inJsx) == Ok(Ident("useNavigate"));
      assert RwExpr(Ident("useRouter"), inJsx) == Ok(Ident("useRouter"));
      assert RwExpr(d.init.value, inJsx) == RwCall(d.init.value, inJsx);
      assert RwExpr(Call(Ident("useRouter"), args), inJsx) == RwCall(Call(Ident("useRouter"), args), inJsx);
    }
  }

  /** The `navigate` rewrite belongs to the JSX rewrite: outside any element
      a call of `navigate` is left as it is. */
  lemma NavigateOutsideJsx(args: seq<Expr>)
    requires RwExprs(args, false).Ok?
    ensures RwExpr(Call(Ident("navigate"), args), false) == Ok(Call(Ident("navigate"), RwExprs(args, false).value))
  {
    assert RwExpr(Ident("navigate"), false) == Ok(Ident("navigate"));
  }

  /** Inside an element, the callee becomes `router.navigate`. */
  lemma NavigateInsideJsx(args: seq<Expr>)
    requires RwExprs(args, true).Ok?
    ensures RwExpr(Call(Ident("navigate"), args), true) == Ok(Call(Dot("router", "navigate"), RwExprs(args, true).value))
  {
  }

  /** `localStorage.getItem(...)` becomes `SecureStore.getItem(...)`, inside
      JSX or not. */
  lemma StorageCall(args: seq<Expr>, inJsx: bool)
    requires RwExprs(args, inJsx).Ok?
    ensures RwExpr(Call(Dot("localStorage", "getItem"), args), inJsx) ==
      Ok(Call(Dot("SecureStore", "getItem"), RwExprs(args, inJsx).value))
  {
  }

  /** `const navigate = useNavigate();` becomes `const router = useRouter();`. */
  lemma HookExample(inJsx: bool)
    ensures RwDecl(Declarator(PIdent("navigate"), Some(Call(Ident("useNavigate"), []))), inJsx)
      == Ok(Declarator(PIdent("router"), Some(Call(Ident("useRouter"), []))))
  {
    assert RwExpr(Ident("useNavigate"), inJsx) == Ok(Ident("useNavigate"));
  }

  /** The walk of a one-declarator list. */
  lemma DeclsOne(d: Declarator, inJsx: bool)
    requires RwDecl(d, inJsx).Ok?
    ensures RwDecls([d], inJsx) == Ok([RwDecl(d, inJsx).value])
  {
    assert [d][1..] == [];
    assert RwDecls([], inJsx) == Ok([]);
    var x := RwDecl(d, inJsx).value;
    assert [x] + [] == [x];
  }

  /** The walk of a statement list, one statement at a time. */
  lemma StmtsCons(s: Stmt, ss: seq<Stmt>, inJsx: bool)
    requires RwStmt(s, inJsx).Ok? && RwStmt(s, inJsx).value.Some? && RwStmts(ss, inJsx).Ok?
    ensures RwStmts([s] + ss, inJsx) == Ok([RwStmt(s, inJsx).value.value] + RwStmts(ss, inJsx).value)
  {
    assert ([s] + ss)[1..] == ss;
  }

  lemma VarDeclWalk(kind: DeclKind, ds: seq<Declarator>, exported: bool, inJsx: bool)
    requires RwDecls(ds, inJsx).Ok?
    ensures RwStmt(VarDecl(kind, ds, exported), inJsx) == Ok(Some(VarDecl(kind, RwDecls(ds, inJsx).value, exported)))
  {
  }

  lemma ExprStmtWalk(e: Expr, inJsx: bool)
    requires RwExpr(e, inJsx).Ok?
    ensures RwStmt(ExprStmt(e), inJsx) == Ok(Some(ExprStmt(RwExpr(e, inJsx).value)))
  {
  }

  /** A handler defined outside JSX keeps calling `navigate` while the hook
      rewrite renames the binding to `router`: after the pass nothing
      declares the name the handler calls. */
  lemma DanglingNavigate()
    ensures var body := [VarDecl(Const, [Declarator(PIdent("navigate"), Some(Call(Ident("useNavigate"), [])))], false),
                         ExprStmt(Call(Ident("navigate"), []))];
      RwStmts(body, false) ==
        Ok([VarDecl(Const, [Declarator(PIdent("router"), Some(Call(Ident("useRouter"), [])))], false),
            ExprStmt(Call(Ident("navigate"), []))])
  {
    var d := Declarator(PIdent("navigate"), Some(Call(Ident("useNavigate"), [])));
    var d' := Declarator(PIdent("router"), Some(Call(Ident("useRouter"), [])));
    var s2 := ExprStmt(Call(Ident("navigate"), []));
    HookStmt();
    NavigateStmt();
    TwoStmts(VarDecl(Const, [d], false), s2, VarDecl(Const, [d'], false), s2, false);
  }

  /** `const navigate = useNavigate();` as a statement, outside JSX. */
  lemma HookStmt()
    ensures RwStmt(VarDecl(Const, [Declarator(PIdent("navigate"), Some(Call(Ident("useNavigate"), [])))], false), false)
      == Ok(Some(VarDecl(Const, [Declarator(PIdent("router"), Some(Call(Ident("useRouter"), [])))], false)))
  {
    var d := Declarator(PIdent("navigate"), Some(Call(Ident("useNavigate"), [])));
    HookExample(false);
    DeclsOne(d, false);
    VarDeclWalk(Const, [d], false, false);
  }

  /** `navigate();` as a statement, outside JSX. */
  lemma NavigateStmt()
    ensures RwStmt(ExprStmt(Call(Ident("navigate"), [])), false) == Ok(Some(ExprStmt(Call(Ident("navigate"), []))))
  {
    assert RwExprs([], false) == Ok([]);
    NavigateOutsideJsx([]);
    ExprStmtWalk(Call(Ident("navigate"), []), false);
  }

  /** The walk of a two-statement list. */
  lemma TwoStmts(s1: Stmt, s2: Stmt, t1: Stmt, t2: Stmt, inJsx: bool)
    requires RwStmt(s1, inJsx) == Ok(Some(t1)) && RwStmt(s2, inJsx) == Ok(Some(t2))
    ensures RwStmts([s1, s2], inJsx) == Ok([t1, t2])
  {
    assert RwStmts([], inJsx) == Ok([]);
    StmtsCons(s2, [], inJsx);
    assert [s2] + [] == [s2] && [t2] + [] == [t2];
    StmtsCons(s1, [s2], inJsx);
    assert [s1] + [s2] == [s1, s2] && [t1] + [t2] == [t1, t2];
  }

  // ---------------------------------------------------------------------
  // What the pass leaves alone.

  /** `e` holds no call, no JSX and no import: nothing the rewrites match. */
  predicate InertExpr(e: Expr)
    decreases e
  {
    match e
    case Call(_, _) => false
    case Jsx(_) => false
    case Fragment(_) => false
    case Member(obj, property, _) => InertExpr(obj) && InertExpr(property)
    case ObjectExpr(props) => forall i :: 0 <= i < |props| ==> InertProp(props[i])
    case ArrayExpr(elems) => forall i :: 0 <= i < |elems| ==> InertExpr(elems[i])
    case Arrow(_, result) => InertExpr(result)
    case Function(_, _, body) => forall i :: 0 <= i < |body| ==> InertStmt(body[i])
    case Compound(_, operands) => forall i :: 0 <= i < |operands| ==> InertExpr(operands[i])
    case _ => true
  }

  predicate InertProp(p: Prop)
    decreases p
  {
    match p
    case Property(key, _, value) => InertExpr(key) && InertExpr(value)
    case SpreadProp(argument) => InertExpr(argument)
  }

  predicate InertDecl(d: Declarator)
    decreases d
  {
    d.init.Some? ==> InertExpr(d.init.value)
  }

  predicate InertStmt(s: Stmt)
    decreases s
  {
    match s
    case Import(_, _) => false
    case VarDecl(_, declarations, _) => forall i :: 0 <= i < |declarations| ==> InertDecl(declarations[i])
    case FuncDecl(_, _, body, _) => forall i :: 0 <= i < |body| ==> InertStmt(body[i])
    case ExprStmt(expr) => InertExpr(expr)
    case Return(argument) => argument.Some? ==> InertExpr(argument.value)
    case ExportDefaultExpr(expr) => InertExpr(expr)
    case OtherStmt(exprs, stmts) =>
      (forall i :: 0 <= i < |exprs| ==> InertExpr(exprs[i])) &&
      (forall i :: 0 <= i < |stmts| ==> InertStmt(stmts[i]))
    case TypeDecl(_) => true
  }

  /** The walk leaves an expression with no call, no JSX and no import as it
      was, inside JSX or not. */
  lemma {:induction false} InertExprKept(e: Expr, inJsx: bool)
    requires InertExpr(e)
    ensures RwExpr(e, inJsx) == Ok(e)
    decreases e
  {
    match e
    case Member(obj, property, _) =>
      InertExprKept(obj, inJsx);
      InertExprKept(property, inJsx);
    case Arrow(_, result) =>
      InertExprKept(result, inJsx);
    case ObjectExpr(props) =>
      InertPropsKept(props, inJsx);
    case ArrayExpr(elems) =>
      InertExprsKept(elems, inJsx);
    case Function(_, _, body) =>
      InertStmtsKept(body, inJsx);
    case Compound(_, operands) =>
      InertExprsKept(operands, inJsx);
    case _ =>
  }

  lemma {:induction false} InertExprsKept(es: seq<Expr>, inJsx: bool)
    requires forall i :: 0 <= i < |es| ==> InertExpr(es[i])
    ensures RwExprs(es, inJsx) == Ok(es)
    decreases es
  {
    if es != [] {
      InertExprKept(es[0], inJsx);
      InertExprsKept(es[1..], inJsx);
      assert [es[0]] + es[1..] == es;
    }
  }

  lemma {:induction false} InertPropsKept(ps: seq<Prop>, inJsx: bool)
    requires forall i :: 0 <= i < |ps| ==> InertProp(ps[i])
    ensures RwProps(ps, inJsx) == Ok(ps)
    decreases ps
  {
    if ps != [] {
      InertPropKept(ps[0], inJsx);
      InertPropsKept(ps[1..], inJsx);
      assert [ps[0]] + ps[1..] == ps;
    }
  }

  lemma {:induction false} InertPropKept(p: Prop, inJsx: bool)
    requires InertProp(p)
    ensures RwProp(p, inJsx) == Ok(p)
    decreases p
  {
    match p
    case Property(key, _, value) =>
      InertExprKept(key, inJsx);
      InertExprKept(value, inJsx);
    case SpreadProp(argument) =>
      InertExprKept(argument, inJsx);
  }

  lemma {:induction false} InertDeclKept(d: Declarator, inJsx: bool)
    requires InertDecl(d)
    ensures RwDecl(d, inJsx) == Ok(d)
    decreases d
  {
    match d.init
    case None =>
    case Some(init) =>
      InertExprKept(init, inJsx);
      assert !IsNavigateHook(d);
  }

  lemma {:induction false} InertDeclsKept(ds: seq<Declarator>, inJsx: bool)
    requires forall i :: 0 <= i < |ds| ==> InertDecl(ds[i])
    ensures RwDecls(ds, inJsx) == Ok(ds)
    decreases ds
  {
    if ds != [] {
      InertDeclKept(ds[0], inJsx);
      InertDeclsKept(ds[1..], inJsx);
      assert [ds[0]] + ds[1..] == ds;
    }
  }

  lemma {:induction false} InertStmtKept(s: Stmt, inJsx: bool)
    requires InertStmt(s)
    ensures RwStmt(s, inJsx) == Ok(Some(s))
    decreases s
  {
    match s
    case VarDecl(_, declarations, _) =>
      InertDeclsKept(declarations, inJsx);
    case FuncDecl(_, _, body, _) =>
      InertStmtsKept(body, inJsx);
    case ExprStmt(expr) =>
      InertExprKept(expr, inJsx);
    case Return(argument) =>
      if argument.Some? {
        InertExprKept(argument.value, inJsx);
      }
    case ExportDefaultExpr(expr) =>
      InertExprKept(expr, inJsx);
    case OtherStmt(exprs, stmts) =>
      InertExprsKept(exprs, inJsx);
      InertStmtsKept(stmts, inJsx);
    case TypeDecl(_) =>
  }

  /** A body with no call, no JSX and no import comes out of the walk
      unchanged. */
  lemma {:induction false} InertStmtsKept(ss: seq<Stmt>, inJsx: bool)
    requires forall i :: 0 <= i < |ss| ==> InertStmt(ss[i])
    ensures RwStmts(ss, inJsx) == Ok(ss)
    decreases ss
  {
    if ss != [] {
      InertStmtKept(ss[0], inJsx);
      InertStmtsKept(ss[1..], inJsx);
      assert [ss[0]] + ss[1..] == ss;
    }
  }
}
