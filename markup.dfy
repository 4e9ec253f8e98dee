/** The JSX element rewrite, `transformJSX` without its subtree walk: HTML
    tags become React Native components, and `className`, `onClick` and
    `onChange` attributes become their React Native counterparts. */
module Markup {
  import opened Wrappers
  import opened Strings
  import opened Ast

  /** `tagMapping[tagName]`; a member-expression tag has no name to look up. */
  function TagFor(name: JsxName): Option<string> {
    match name
    case JsxIdent("div") => Some("View")
    case JsxIdent("button") => Some("TouchableOpacity")
    case JsxIdent("img") => Some("Image")
    case JsxIdent("span") => Some("Text")
    case JsxIdent("input") => Some("TextInput")
    case _ => None
  }

  /** The table is one-to-one, so testing the mapped name tests the tag. */
  lemma TagForInjective(a: JsxName, b: JsxName)
    requires TagFor(a).Some? && TagFor(a) == TagFor(b)
    ensures a == b
  {
  }

  /** The tag an element is given: the mapped name, or the tag unchanged. */
  function Retag(name: JsxName): (r: JsxName)
    ensures TagFor(name).Some? ==> r == JsxIdent(TagFor(name).value)
    ensures TagFor(name).None? ==> r == name
    ensures TagFor(r).None?
  {
    match TagFor(name)
    case Some(t) => JsxIdent(t)
    case None => name
  }

  /** `styles.<Cls>` for one class name, its first character upper-cased. */
  function ClassRef(cls: string): Expr {
    Dot("styles", Capitalize(cls))
  }

  /** The style expression for a `className` string: one member reference for
      a single class, else an array of them in class order. */
  function ClassStyle(classes: string): (e: Expr)
    ensures var tokens := Split(classes, ' ');
      if |tokens| == 1 then e == ClassRef(tokens[0])
      else e.ArrayExpr? && |e.elems| == |tokens| &&
           forall i :: 0 <= i < |tokens| ==> e.elems[i] == ClassRef(tokens[i])
  {
    var tokens := Split(classes, ' ');
    if |tokens| == 1 then ClassRef(tokens[0])
    else ArrayExpr(seq(|tokens|, i requires 0 <= i < |tokens| => ClassRef(tokens[i])))
  }

  /** A class string with N spaces yields N + 1 references, whose class names
      read back to the string. */
  lemma ClassStyleCount(classes: string)
    ensures var e := ClassStyle(classes);
      if ' ' !in classes then e == ClassRef(classes)
      else e.ArrayExpr? && |e.elems| == Count(classes, ' ') + 1
    ensures Join(Split(classes, ' '), ' ') == classes
  {
    CountZero(classes, ' ');
    if ' ' !in classes {
      SplitPlain(classes, ' ');
    }
  }

  /** The rewrite of one attribute of an element whose original tag maps to
      `mapped`. */
  function RewriteAttr(attr: Attr, mapped: Option<string>): (r: Result<Attr, ConvertError>)
    ensures attr.JsxAttr? && attr.name == "className" ==>
      (r.Ok? <==> attr.value.StrValue?) &&
      (r.Ok? ==> r.value == JsxAttr("style", ExprValue(ClassStyle(attr.value.text))))
    ensures r.Err? ==> r.error == ClassNameNotString
    ensures attr.JsxAttr? && attr.name == "onClick" ==>
      r == Ok(if mapped == Some("TouchableOpacity") then JsxAttr("onPress", attr.value) else attr)
    ensures attr.JsxAttr? && attr.name == "onChange" ==>
      r == Ok(if mapped == Some("TextInput") then JsxAttr("onChangeText", attr.value) else attr)
    ensures (attr.JsxSpread? || attr.name !in {"className", "onClick", "onChange"}) ==> r == Ok(attr)
  {
    if attr.JsxAttr? && attr.name == "className" then
      if attr.value.StrValue? then Ok(JsxAttr("style", ExprValue(ClassStyle(attr.value.text))))
      else Err(ClassNameNotString)
    else if attr.JsxAttr? && attr.name == "onClick" && mapped == Some("TouchableOpacity") then
      Ok(JsxAttr("onPress", attr.value))
    else if attr.JsxAttr? && attr.name == "onChange" && mapped == Some("TextInput") then
      Ok(JsxAttr("onChangeText", attr.value))
    else Ok(attr)
  }

  /** `attributes.map(...)`: each attribute rewritten in place, the first
      failing one stopping the run. */
  function RewriteAttrs(attrs: seq<Attr>, mapped: Option<string>): (r: Result<seq<Attr>, ConvertError>)
    ensures r.Ok? <==> forall i :: 0 <= i < |attrs| ==> RewriteAttr(attrs[i], mapped).Ok?
    ensures r.Ok? ==> |r.value| == |attrs|
    ensures r.Ok? ==> forall i :: 0 <= i < |attrs| ==> r.value[i] == RewriteAttr(attrs[i], mapped).value
  {
    if attrs == [] then Ok([])
    else
      var head :- RewriteAttr(attrs[0], mapped);
      var tail :- RewriteAttrs(attrs[1..], mapped);
      assert forall i :: 1 <= i < |attrs| ==> attrs[i] == attrs[1..][i - 1];
      Ok([head] + tail)
  }

  /** The opening and closing tag agree. */
  predicate TagsMatch(el: Element) {
    el.closing.None? || el.closing == Some(el.name)
  }

  /** `transformJSX` on the element itself: tags renamed together, attributes
      rewritten, children left to the walk. */
  function TransformElement(el: Element): (r: Result<Element, ConvertError>)
    ensures r.Ok? ==> r.value.name == Retag(el.name) && r.value.children == el.children
    ensures r.Ok? ==> r.value.closing == if el.closing.Some? && TagFor(el.name).Some? then Some(Retag(el.name)) else el.closing
    ensures r.Ok? <==> RewriteAttrs(el.attributes, TagFor(el.name)).Ok?
    ensures r.Ok? ==> r.value.attributes == RewriteAttrs(el.attributes, TagFor(el.name)).value
    ensures r.Ok? && TagsMatch(el) ==> TagsMatch(r.value)
  {
    var mapped := TagFor(el.name);
    var attributes :- RewriteAttrs(el.attributes, mapped);
    var closing := if el.closing.Some? && mapped.Some? then Some(Retag(el.name)) else el.closing;
    Ok(Element(Retag(el.name), attributes, el.children, closing))
  }

  /** `onClick` becomes `onPress` exactly when the original tag is `button`. */
  lemma OnClickOnlyOnButton(name: JsxName, v: AttrValue)
    ensures RewriteAttr(JsxAttr("onClick", v), TagFor(name)).value.name == "onPress"
            <==> name == JsxIdent("button")
  {
    if TagFor(name) == Some("TouchableOpacity") {
      TagForInjective(name, JsxIdent("button"));
    }
  }

  /** `onChange` becomes `onChangeText` exactly when the original tag is `input`. */
  lemma OnChangeOnlyOnInput(name: JsxName, v: AttrValue)
    ensures RewriteAttr(JsxAttr("onChange", v), TagFor(name)).value.name == "onChangeText"
            <==> name == JsxIdent("input")
  {
    if TagFor(name) == Some("TextInput") {
      TagForInjective(name, JsxIdent("input"));
    }
  }

  /** Class names joined by single spaces come back as one reference each,
      in order. */
  lemma ClassStyleOfJoin(classes: seq<string>)
    requires |classes| >= 2
    requires forall i :: 0 <= i < |classes| ==> ' ' !in classes[i]
    ensures ClassStyle(Join(classes, ' ')) == ArrayExpr(seq(|classes|, i requires 0 <= i < |classes| => ClassRef(classes[i])))
  {
    SplitJoin(classes, ' ');
    var e := ClassStyle(Join(classes, ' '));
    assert e.elems == seq(|classes|, i requires 0 <= i < |classes| => ClassRef(classes[i]));
  }

  lemma CapitalizeWord(first: char, rest: string, upper: char)
    requires 'a' <= first <= 'z' && upper as int == first as int - 32
    ensures Capitalize([first] + rest) == [upper] + rest
  {
    assert ([first] + rest)[1..] == rest;
  }

  lemma JoinCardWide()
    ensures Join(["card", "wide"], ' ') == "card wide"
  {
    assert ["card", "wide"][1..] == ["wide"];
  }

  lemma ClassRefs(a: string, b: string)
    requires ' ' !in a && ' ' !in b
    ensures ClassStyle(Join([a, b], ' ')) == ArrayExpr([ClassRef(a), ClassRef(b)])
  {
    ClassStyleOfJoin([a, b]);
    assert seq(2, i requires 0 <= i < 2 => ClassRef([a, b][i])) == [ClassRef(a), ClassRef(b)];
  }

  /** `"card wide"` becomes `[styles.Card, styles.Wide]`. */
  lemma CardStyle()
    ensures ClassStyle("card wide") == ArrayExpr([Dot("styles", "Card"), Dot("styles", "Wide")])
  {
    JoinCardWide();
    ClassRefs("card", "wide");
    CapitalizeWord('c', "ard", 'C');
    CapitalizeWord('w', "ide", 'W');
    assert "card" == ['c'] + "ard" && "wide" == ['w'] + "ide";
    assert "Card" == ['C'] + "ard" && "Wide" == ['W'] + "ide";
  }

  /** A `div` with one class attribute becomes a `View` with the matching
      style attribute. */
  lemma DivWithClass(classes: string)
    ensures TransformElement(Element(JsxIdent("div"), [JsxAttr("className", StrValue(classes))], [], Some(JsxIdent("div"))))
      == Ok(Element(JsxIdent("View"), [JsxAttr("style", ExprValue(ClassStyle(classes)))], [], Some(JsxIdent("View"))))
  {
    var attr := JsxAttr("className", StrValue(classes));
    assert RewriteAttrs([attr], Some("View")).value == [JsxAttr("style", ExprValue(ClassStyle(classes)))];
  }

  /** `<div className="card wide"></div>` becomes
      `<View style={[styles.Card, styles.Wide]}></View>`. */
  lemma CardExample()
    ensures TransformElement(Element(JsxIdent("div"), [JsxAttr("className", StrValue("card wide"))], [], Some(JsxIdent("div"))))
      == Ok(Element(JsxIdent("View"), [JsxAttr("style", ExprValue(ArrayExpr([Dot("styles", "Card"), Dot("styles", "Wide")])))],
                    [], Some(JsxIdent("View"))))
  {
    DivWithClass("card wide");
    CardStyle();
  }
}
