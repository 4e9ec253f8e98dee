/** The style rule transformer: one CSS-style rule (an ordered list of
    property/value entries) becomes a React Native style object. Each key is
    resolved through the rename table, or else through its camelCase form if
    that is an allowed React Native property; `background` becomes
    `backgroundColor`; a `px` length becomes a number; a `vh` height or a `vw`
    width becomes `flex: 1`. Anything else is carried through unchanged. */
module StyleRules {
  import opened Wrappers
  import opened Numbers
  import opened Strings
  import opened Objects
  import opened Ast

  /** A property value: a string or number literal, an expression node that is
      carried through unevaluated, or `null` for any other node. */
  datatype StyleValue = Str(text: string) | Num(num: Number) | Node(expr: Expr) | Null

  type Style = seq<(string, StyleValue)>

  /** `cssToReactNativeMap[key]`: the CSS-to-React-Native rename table, or None
      for a key it does not list; `cursor` maps to the empty string. */
  function RenameOf(key: string): Option<string> {
    match key
    case "background" => Some("background")
    case "background-color" => Some("backgroundColor")
    case "color" => Some("color")
    case "display" => Some("display")
    case "font-size" => Some("fontSize")
    case "font-family" => Some("fontFamily")
    case "font-weight" => Some("fontWeight")
    case "flex-direction" => Some("flexDirection")
    case "justify-content" => Some("justifyContent")
    case "justify-items" => Some("justifyItems")
    case "align-items" => Some("alignItems")
    case "padding" => Some("padding")
    case "padding-top" => Some("paddingTop")
    case "padding-bottom" => Some("paddingBottom")
    case "padding-left" => Some("paddingLeft")
    case "padding-right" => Some("paddingRight")
    case "margin" => Some("margin")
    case "margin-top" => Some("marginTop")
    case "margin-bottom" => Some("marginBottom")
    case "margin-left" => Some("marginLeft")
    case "margin-right" => Some("marginRight")
    case "border-radius" => Some("borderRadius")
    case "border" => Some("border")
    case "height" => Some("height")
    case "width" => Some("width")
    case "position" => Some("position")
    case "top" => Some("top")
    case "left" => Some("left")
    case "right" => Some("right")
    case "bottom" => Some("bottom")
    case "cursor" => Some("")
    case _ => None
  }

  /** The React Native property names a camelCased key may resolve to. */
  const KnownProperties: set<string> := {
    "display", "flexDirection", "maxWidth", "maxHeight", "backgroundColor",
    "background", "color", "fontSize", "fontFamily", "fontWeight",
    "justifyContent", "alignItems", "padding", "paddingTop", "paddingBottom",
    "paddingLeft", "paddingRight", "margin", "marginTop", "marginBottom",
    "marginLeft", "marginRight", "borderRadius", "border", "height", "width",
    "position", "top", "left", "right", "bottom", "textAlign", "minWidth",
    "minHeight", "overflowY", "boxShadow"
  }

  /** Every name `ResolveKey` can produce, and `background`, which it never
      produces. */
  const ResolvedNames: set<string> := KnownProperties + {"justifyItems"}

  const FlexOne: StyleValue := Num(Finite(1.0))

  predicate IsLower(c: char) {
    'a' <= c <= 'z'
  }

  /** No dash is followed by a lower-case letter. */
  predicate NoDashLower(s: string) {
    forall i :: 0 <= i < |s| - 1 ==> !(s[i] == '-' && IsLower(s[i + 1]))
  }

  /** `key.replace(/-([a-z])/g, g => g[1].toUpperCase())`: scanning left to
      right, each dash followed by a lower-case letter becomes that letter in
      upper case. */
  function CamelCase(key: string): (r: string)
    ensures |r| <= |key|
    ensures NoDashLower(r)
    ensures r != [] && IsLower(r[0]) ==> key != [] && key[0] == r[0]
    ensures '-' !in key ==> r == key
    ensures NoDashLower(key) ==> r == key
  {
    if |key| >= 2 && key[0] == '-' && IsLower(key[1]) then
      [Upper(key[1])] + CamelCase(key[2..])
    else if key == [] then []
    else
      var rest := CamelCase(key[1..]);
      assert forall i :: 1 <= i < |rest| + 1 ==> ([key[0]] + rest)[i] == rest[i - 1];
      assert NoDashLower(key) ==> NoDashLower(key[1..]) by {
        if NoDashLower(key) {
          NoDashLowerTail(key);
        }
      }
      [key[0]] + rest
  }

  /** The first dash followed by a lower-case letter is replaced by that
      letter in upper case, the text before it is kept, and the rest is
      camelCased in turn. With the identity on keys without such a dash,
      this determines `CamelCase` on every key. */
  lemma {:induction false} CamelCaseDash(a: string, c: char, b: string)
    requires NoDashLower(a) && IsLower(c)
    ensures CamelCase(a + ['-', c] + b) == a + [Upper(c)] + CamelCase(b)
  {
    var key := a + ['-', c] + b;
    if a == [] {
      assert key == ['-', c] + b;
      CamelCaseDashHead(c, b);
    } else {
      var tail := a[1..] + ['-', c] + b;
      assert key == [a[0]] + tail;
      NoDashLowerTail(a);
      CamelCaseDash(a[1..], c, b);
      assert tail[0] == if |a| >= 2 then a[1] else '-';
      CamelCaseCons(a[0], tail);
      assert a == [a[0]] + a[1..];
    }
  }

  lemma CamelCaseDashHead(c: char, b: string)
    requires IsLower(c)
    ensures CamelCase(['-', c] + b) == [Upper(c)] + CamelCase(b)
  {
    assert (['-', c] + b)[2..] == b;
  }

  /** A character that does not start a dash-lower pair is copied. */
  lemma CamelCaseCons(x: char, rest: string)
    requires !(x == '-' && rest != [] && IsLower(rest[0]))
    ensures CamelCase([x] + rest) == [x] + CamelCase(rest)
  {
    assert ([x] + rest)[1..] == rest;
  }

  lemma NoDashLowerTail(a: string)
    requires a != [] && NoDashLower(a)
    ensures NoDashLower(a[1..])
  {
    forall i | 0 <= i < |a[1..]| - 1 ensures !(a[1..][i] == '-' && IsLower(a[1..][i + 1])) {
      assert a[1..][i] == a[i + 1] && a[1..][i + 1] == a[i + 2];
    }
  }


  /** `cssToReactNativeMap[key]` is truthy: the key has a non-empty entry. */
  predicate Renamed(key: string) {
    RenameOf(key).Some? && RenameOf(key).value != ""
  }

  /** `cssToReactNativeMap[key] || camelCaseKey`. */
  function CandidateKey(key: string): string {
    if Renamed(key) then RenameOf(key).value else CamelCase(key)
  }

  /** Every non-empty value of the rename table is an allowed React Native
      name or `justifyItems`. */
  lemma TableRange(key: string)
    ensures Renamed(key) ==> RenameOf(key).value in ResolvedNames
  {
  }

  /** The React Native name under which an entry with CSS key `key` is written,
      or None when the entry is dropped. */
  function ResolveKey(key: string): (r: Option<string>)
    ensures r.None? <==> !Renamed(key) && CamelCase(key) !in KnownProperties
    ensures r.Some? && CandidateKey(key) != "background" ==> r.value == CandidateKey(key)
    ensures r != Some("background")
    ensures r.Some? ==> r.value in ResolvedNames
  {
    if !Renamed(key) && CamelCase(key) !in KnownProperties then None
    else
      TableRange(key);
      var name := CandidateKey(key);
      if name == "background" then Some("backgroundColor") else Some(name)
  }

  /** One iteration of the loop in `transformStyleObjectInAST`. */
  function AstStep(out: Style, key: string, value: StyleValue): Style {
    match ResolveKey(key)
    case None => out
    case Some(k) =>
      if value.Str? && EndsWith(value.text, "px") then
        Upsert(out, k, Num(ParseFloat(RemoveFirst(value.text, "px"))))
      else if value.Str? && EndsWith(value.text, "vh") && k == "height" then
        Upsert(out, "flex", FlexOne)
      else if value.Str? && EndsWith(value.text, "vw") && k == "width" then
        Upsert(out, "flex", FlexOne)
      else
        Upsert(out, k, value)
  }

  /** One iteration of the loop in `transformStyleObject`, whose unit tests
      are nested in the other order. */
  function PlainStep(out: Style, key: string, value: StyleValue): Style {
    match ResolveKey(key)
    case None => out
    case Some(k) =>
      if value.Str? && EndsWith(value.text, "px") then
        Upsert(out, k, Num(ParseFloat(RemoveFirst(value.text, "px"))))
      else if value.Str? && EndsWith(value.text, "vh") then
        (if k == "height" then Upsert(out, "flex", FlexOne) else Upsert(out, k, value))
      else if value.Str? && EndsWith(value.text, "vw") then
        (if k == "width" then Upsert(out, "flex", FlexOne) else Upsert(out, k, value))
      else
        Upsert(out, k, value)
  }

  /** The value left under an output key: no `px` string, and no `vh` height
      or `vw` width, survives a transformation. */
  predicate Converted(k: string, v: StyleValue) {
    && !(v.Str? && EndsWith(v.text, "px"))
    && !(v.Str? && EndsWith(v.text, "vh") && k == "height")
    && !(v.Str? && EndsWith(v.text, "vw") && k == "width")
  }

  /** An entry of a transformed rule. */
  predicate Emitted(k: string, v: StyleValue) {
    (k == "flex" && v == FlexOne) || (k in ResolvedNames && Converted(k, v))
  }

  lemma EndsWithDiffer(s: string, a: string, b: string)
    requires |a| == |b| && a != [] && a[|a| - 1] != b[|b| - 1]
    requires EndsWith(s, a)
    ensures !EndsWith(s, b)
  {
    assert s[|s| - 1] == a[|a| - 1];
  }

  /** The result of `transformStyleObjectInAST` on a rule. */
  function AstSpec(style: Style): Style {
    if style == [] then []
    else
      var (key, value) := style[|style| - 1];
      AstStep(AstSpec(style[..|style| - 1]), key, value)
  }

  /** What every transformed rule looks like: its keys are distinct and never
      `background`, and every entry is either `flex: 1` or a converted value
      under an allowed name. */
  lemma {:induction false} AstSpecShape(style: Style)
    ensures var r := AstSpec(style);
      Distinct(Keys(r)) && "background" !in Keys(r) &&
      forall i :: 0 <= i < |r| ==> Emitted(r[i].0, r[i].1)
  {
    if style != [] {
      var (key, value) := style[|style| - 1];
      AstSpecShape(style[..|style| - 1]);
      StepEmits(AstSpec(style[..|style| - 1]), key, value);
    }
  }

  lemma StepEmits(out: Style, key: string, value: StyleValue)
    requires Distinct(Keys(out)) && "background" !in Keys(out)
    requires forall i :: 0 <= i < |out| ==> Emitted(out[i].0, out[i].1)
    ensures var r := AstStep(out, key, value);
      Distinct(Keys(r)) && "background" !in Keys(r) &&
      forall i :: 0 <= i < |r| ==> Emitted(r[i].0, r[i].1)
  {
    var r := AstStep(out, key, value);
    match ResolveKey(key)
    case None =>
    case Some(k) =>
      var pair: (string, StyleValue);
      if value.Str? && EndsWith(value.text, "px") {
        pair := (k, Num(ParseFloat(RemoveFirst(value.text, "px"))));
      } else if value.Str? && EndsWith(value.text, "vh") && k == "height" {
        pair := ("flex", FlexOne);
      } else if value.Str? && EndsWith(value.text, "vw") && k == "width" {
        pair := ("flex", FlexOne);
      } else {
        pair := (k, value);
      }
      assert r == Upsert(out, pair.0, pair.1);
      if value.Str? && EndsWith(value.text, "vh") {
        EndsWithDiffer(value.text, "vh", "vw");
      }
      assert Emitted(pair.0, pair.1);
      UpsertEmits(out, pair.0, pair.1);
  }

  /** Writing an emitted entry into a well-formed output keeps it well formed. */
  lemma UpsertEmits(out: Style, k: string, v: StyleValue)
    requires Distinct(Keys(out)) && "background" !in Keys(out)
    requires forall i :: 0 <= i < |out| ==> Emitted(out[i].0, out[i].1)
    requires Emitted(k, v) && k != "background"
    ensures var r := Upsert(out, k, v);
      Distinct(Keys(r)) && "background" !in Keys(r) &&
      forall i :: 0 <= i < |r| ==> Emitted(r[i].0, r[i].1)
  {
    var r := Upsert(out, k, v);
    UpsertDistinct(out, k, v);
    forall i | 0 <= i < |r| ensures Emitted(r[i].0, r[i].1) {
      var j := r[i].0;
      assert j in Keys(r);
      LookupAt(r, i);
      if j != k {
        assert Lookup(r, j) == Lookup(out, j);
        LookupIn(out, j);
      }
    }
  }

  /** The result of `transformStyleObject`. */
  function PlainSpec(style: Style): Style {
    if style == [] then []
    else
      var (key, value) := style[|style| - 1];
      PlainStep(PlainSpec(style[..|style| - 1]), key, value)
  }

  /** `transformStyleObjectInAST`: the loop over `Object.entries(styleObject)`
      writing into a fresh `transformedStyle`. */
  method TransformStyleObjectInAST(styleObject: Style) returns (transformedStyle: Style)
    ensures transformedStyle == AstSpec(styleObject)
  {
    transformedStyle := [];
    var i := 0;
    while i < |styleObject|
      invariant 0 <= i <= |styleObject|
      invariant transformedStyle == AstSpec(styleObject[..i])
    {
      var (key, value) := styleObject[i];
      assert styleObject[..i + 1][..i] == styleObject[..i];
      var camelCaseKey := CamelCase(key);
      var reactNativeKey := if Renamed(key) then RenameOf(key).value else camelCaseKey;
      if !Renamed(key) && camelCaseKey !in KnownProperties {
        // dropped
      } else {
        if reactNativeKey == "background" {
          reactNativeKey := "backgroundColor";
        }
        if value.Str? && EndsWith(value.text, "px") {
          var numericVal := ParseFloat(RemoveFirst(value.text, "px"));
          transformedStyle := Upsert(transformedStyle, reactNativeKey, Num(numericVal));
        } else if value.Str? && EndsWith(value.text, "vh") && reactNativeKey == "height" {
          transformedStyle := Upsert(transformedStyle, "flex", FlexOne);
        } else if value.Str? && EndsWith(value.text, "vw") && reactNativeKey == "width" {
          transformedStyle := Upsert(transformedStyle, "flex", FlexOne);
        } else {
          transformedStyle := Upsert(transformedStyle, reactNativeKey, value);
        }
      }
      i := i + 1;
    }
    assert styleObject[..i] == styleObject;
  }

  /** `transformStyleObject`, the twin that works on plain values. */
  method TransformStyleObject(styleObject: Style) returns (transformedStyle: Style)
    ensures transformedStyle == PlainSpec(styleObject)
  {
    transformedStyle := [];
    var i := 0;
    while i < |styleObject|
      invariant 0 <= i <= |styleObject|
      invariant transformedStyle == PlainSpec(styleObject[..i])
    {
      var (key, value) := styleObject[i];
      assert styleObject[..i + 1][..i] == styleObject[..i];
      var camelCaseKey := CamelCase(key);
      var reactNativeKey := if Renamed(key) then RenameOf(key).value else camelCaseKey;
      if !Renamed(key) && camelCaseKey !in KnownProperties {
        // dropped
      } else {
        var transformedValue := value;
        if reactNativeKey == "background" {
          reactNativeKey := "backgroundColor";
        }
        var flex := false;
        if value.Str? && EndsWith(value.text, "px") {
          transformedValue := Num(ParseFloat(RemoveFirst(value.text, "px")));
        } else if value.Str? && EndsWith(value.text, "vh") {
          flex := reactNativeKey == "height";
        } else if value.Str? && EndsWith(value.text, "vw") {
          flex := reactNativeKey == "width";
        }
        if flex {
          transformedStyle := Upsert(transformedStyle, "flex", FlexOne);
        } else {
          transformedStyle := Upsert(transformedStyle, reactNativeKey, transformedValue);
        }
      }
      i := i + 1;
    }
    assert styleObject[..i] == styleObject;
  }

  /** The two twins agree on every rule. */
  lemma {:induction false} TwinsAgree(style: Style)
    ensures PlainSpec(style) == AstSpec(style)
  {
    if style != [] {
      var init := style[..|style| - 1];
      var (key, value) := style[|style| - 1];
      TwinsAgree(init);
      var out := AstSpec(init);
      if value.Str? && EndsWith(value.text, "px") {
        EndsWithDiffer(value.text, "px", "vh");
      } else if value.Str? && EndsWith(value.text, "vh") {
        EndsWithDiffer(value.text, "vh", "vw");
      }
      assert PlainStep(out, key, value) == AstStep(out, key, value);
    }
  }

  /** The fold unrolled at its last entry. */
  lemma AstSpecSnoc(style: Style, key: string, value: StyleValue)
    ensures AstSpec(style + [(key, value)]) == AstStep(AstSpec(style), key, value)
  {
    assert (style + [(key, value)])[..|style|] == style;
  }

  /** A dropped entry contributes nothing. */
  lemma DroppedEntry(style: Style, key: string, value: StyleValue)
    requires ResolveKey(key).None?
    ensures AstSpec(style + [(key, value)]) == AstSpec(style)
  {
    AstSpecSnoc(style, key, value);
  }

  /** `flex` is never a resolved name. */
  lemma FlexUnresolved()
    ensures "flex" !in ResolvedNames
  {
  }

  /** An entry whose key resolves elsewhere leaves the value under `k` alone. */
  lemma StepKeepsOther(out: Style, key: string, value: StyleValue, k: string)
    requires ResolveKey(key) != Some(k) && k != "flex"
    ensures Lookup(AstStep(out, key, value), k) == Lookup(out, k)
  {
  }

  /** A `px` string is written under its resolved key as the number its text,
      with the first "px" removed, parses to. */
  lemma PxEntry(pre: Style, key: string, s: string)
    requires ResolveKey(key).Some? && EndsWith(s, "px")
    ensures Lookup(AstSpec(pre + [(key, Str(s))]), ResolveKey(key).value)
            == Some(Num(ParseFloat(RemoveFirst(s, "px"))))
  {
    AstSpecSnoc(pre, key, Str(s));
  }

  /** A later entry whose key resolves elsewhere leaves the value written
      under `k` where it is. */
  lemma LaterEntryKeeps(pre: Style, key: string, value: StyleValue, k: string)
    requires k in ResolvedNames && ResolveKey(key) != Some(k)
    ensures Lookup(AstSpec(pre + [(key, value)]), k) == Lookup(AstSpec(pre), k)
  {
    AstSpecSnoc(pre, key, value);
    FlexUnresolved();
    StepKeepsOther(AstSpec(pre), key, value, k);
  }

  /** A `vh` height becomes `flex: 1` and writes nothing under `height`. */
  lemma ViewportHeight(pre: Style, key: string, s: string)
    requires ResolveKey(key) == Some("height") && EndsWith(s, "vh")
    ensures AstSpec(pre + [(key, Str(s))]) == Upsert(AstSpec(pre), "flex", FlexOne)
    ensures Lookup(AstSpec(pre + [(key, Str(s))]), "height") == Lookup(AstSpec(pre), "height")
  {
    AstSpecSnoc(pre, key, Str(s));
    EndsWithDiffer(s, "vh", "px");
  }

  /** A `vw` width becomes `flex: 1` and writes nothing under `width`. */
  lemma ViewportWidth(pre: Style, key: string, s: string)
    requires ResolveKey(key) == Some("width") && EndsWith(s, "vw")
    ensures AstSpec(pre + [(key, Str(s))]) == Upsert(AstSpec(pre), "flex", FlexOne)
    ensures Lookup(AstSpec(pre + [(key, Str(s))]), "width") == Lookup(AstSpec(pre), "width")
  {
    AstSpecSnoc(pre, key, Str(s));
    EndsWithDiffer(s, "vw", "px");
  }

  /** A `vh` string on a key other than `height`, or a `vw` string on a key
      other than `width`, is carried through unchanged. */
  lemma ViewportElsewhere(pre: Style, key: string, s: string)
    requires ResolveKey(key).Some?
    requires (EndsWith(s, "vh") && ResolveKey(key) != Some("height")) ||
             (EndsWith(s, "vw") && ResolveKey(key) != Some("width"))
    ensures AstSpec(pre + [(key, Str(s))]) == Upsert(AstSpec(pre), ResolveKey(key).value, Str(s))
  {
    AstSpecSnoc(pre, key, Str(s));
    if EndsWith(s, "vh") {
      EndsWithDiffer(s, "vh", "px");
    } else {
      EndsWithDiffer(s, "vw", "px");
    }
  }

  /** No allowed React Native name contains a dash. */
  lemma ResolvedPlain(k: string)
    ensures k in ResolvedNames ==> '-' !in k
  {
    if k in ResolvedNames {
      if k in {"display", "flexDirection", "maxWidth", "maxHeight", "backgroundColor",
               "background", "color", "fontSize", "fontFamily", "fontWeight", "justifyContent", "alignItems"} {
        PlainFirst(k);
      } else if k in {"padding", "paddingTop", "paddingBottom", "paddingLeft", "paddingRight", "margin",
                      "marginTop", "marginBottom", "marginLeft", "marginRight", "borderRadius", "border"} {
        PlainSecond(k);
      } else {
        PlainThird(k);
      }
    }
  }

  lemma PlainFirst(k: string)
    requires k in {"display", "flexDirection", "maxWidth", "maxHeight", "backgroundColor",
                   "background", "color", "fontSize", "fontFamily", "fontWeight", "justifyContent", "alignItems"}
    ensures '-' !in k
  {
  }

  lemma PlainSecond(k: string)
    requires k in {"padding", "paddingTop", "paddingBottom", "paddingLeft", "paddingRight", "margin",
                   "marginTop", "marginBottom", "marginLeft", "marginRight", "borderRadius", "border"}
    ensures '-' !in k
  {
  }

  lemma PlainThird(k: string)
    requires k in {"height", "width", "position", "top", "left", "right", "bottom", "textAlign", "minWidth",
                   "minHeight", "overflowY", "boxShadow", "justifyItems"}
    ensures '-' !in k
  {
  }

  /** The table maps each of its dash-free keys to itself. */
  lemma TablePlain(key: string)
    ensures Renamed(key) && '-' !in key ==> RenameOf(key) == Some(key)
  {
  }

  /** An output entry the transformer would write back as it is. */
  predicate Settled(k: string, v: StyleValue) {
    k in ResolvedNames && k != "justifyItems" && k != "background" && Converted(k, v)
  }

  /** Every resolved name other than `justifyItems` resolves to itself. */
  lemma ResolveSettled(k: string)
    requires k in ResolvedNames && k != "justifyItems" && k != "background"
    ensures ResolveKey(k) == Some(k)
  {
    ResolvedPlain(k);
    TablePlain(k);
  }

  /** Re-running the transformer on its own output changes nothing, unless the
      output holds `flex` or `justifyItems`: neither is in the allow-list, so a
      second run drops them. */
  lemma Idempotent(style: Style)
    requires "flex" !in Keys(AstSpec(style)) && "justifyItems" !in Keys(AstSpec(style))
    ensures AstSpec(AstSpec(style)) == AstSpec(style)
  {
    var o := AstSpec(style);
    AstSpecShape(style);
    forall i | 0 <= i < |o| ensures Settled(o[i].0, o[i].1) {
      assert o[i].0 in Keys(o);
    }
    SettledFixpoint(o, |o|);
    assert o[..|o|] == o;
  }

  /** An entry that is already settled is written back as it is. */
  lemma SettledStep(out: Style, k: string, v: StyleValue)
    requires Settled(k, v) && k !in Keys(out)
    ensures AstStep(out, k, v) == out + [(k, v)]
  {
    ResolveSettled(k);
    UpsertFresh(out, k, v);
  }

  lemma {:induction false} SettledFixpoint(o: Style, n: nat)
    requires n <= |o| && Distinct(Keys(o))
    requires forall i :: 0 <= i < |o| ==> Settled(o[i].0, o[i].1)
    ensures AstSpec(o[..n]) == o[..n]
  {
    if n > 0 {
      SettledFixpoint(o, n - 1);
      var prefix := o[..n - 1];
      var (k, v) := o[n - 1];
      assert o[..n] == prefix + [(k, v)];
      AstSpecSnoc(prefix, k, v);
      assert Keys(prefix) == Keys(o)[..n - 1];
      SettledStep(prefix, k, v);
    }
  }

  /** `height: 100vh` on its own becomes `flex: 1`. */
  lemma HeightRule()
    ensures AstSpec([("height", Str("100vh"))]) == [("flex", FlexOne)]
  {
    HeightResolves();
    HundredVh();
    ViewportRule("height", "100vh");
  }

  lemma HeightResolves()
    ensures ResolveKey("height") == Some("height")
  {
    assert Renamed("height") && RenameOf("height").value == "height";
  }

  lemma HundredVh()
    ensures EndsWith("100vh", "vh")
  {
    assert "100vh"[3..] == "vh";
  }

  /** A rule holding only a `vh` height becomes `flex: 1`. */
  lemma ViewportRule(key: string, s: string)
    requires ResolveKey(key) == Some("height") && EndsWith(s, "vh")
    ensures AstSpec([(key, Str(s))]) == [("flex", FlexOne)]
  {
    ViewportHeight([], key, s);
    assert [] + [(key, Str(s))] == [(key, Str(s))];
    UpsertFresh([], "flex", FlexOne);
  }

  /** `flex` is neither in the table nor allowed, so its entries are dropped. */
  lemma FlexDropped()
    ensures ResolveKey("flex").None?
  {
    FlexNotRenamed();
    FlexUnresolved();
    DroppedKey("flex");
  }

  lemma FlexNotRenamed()
    ensures !Renamed("flex")
  {
    assert RenameOf("flex").None?;
  }

  /** A key the table does not rename and whose camelCase form is not allowed
      is dropped; a key without a dash is its own camelCase form. */
  lemma DroppedKey(key: string)
    requires '-' !in key && !Renamed(key) && key !in KnownProperties
    ensures ResolveKey(key).None?
  {
  }

  /** A rule holding only `flex: 1` transforms to the empty rule. */
  lemma FlexRule()
    ensures AstSpec([("flex", FlexOne)]) == []
  {
    FlexDropped();
    DroppedEntry([], "flex", FlexOne);
    assert [] + [("flex", FlexOne)] == [("flex", FlexOne)];
  }

  /** A second run is not a no-op in general: `height: 100vh` becomes
      `flex: 1`, which a second run drops. */
  lemma NotIdempotent()
    ensures AstSpec([("height", Str("100vh"))]) == [("flex", FlexOne)]
    ensures AstSpec(AstSpec([("height", Str("100vh"))])) == []
  {
    HeightRule();
    FlexRule();
  }

  /** "10px" becomes the number 10. */
  lemma TenPixels()
    ensures ParseFloat(RemoveFirst("10px", "px")) == Finite(10.0)
  {
    var d := "10";
    assert d + "px" == "10px";
    PxDigits(d);
    TenValue();
  }

  /** Digits followed by "px" read back as the number the digits spell. */
  lemma PxDigits(d: string)
    requires d != [] && AllDigits(d)
    ensures ParseFloat(RemoveFirst(d + "px", "px")) == Finite(DigitsValue(d) as real)
  {
    assert forall i :: 0 <= i < |d| ==> d[i] != 'p';
    RemoveFirstOfSuffix(d);
    ParseDigits(d);
  }

  lemma TenValue()
    ensures AllDigits("10") && DigitsValue("10") == 10
  {
    assert "10"[..1] == "1";
    assert "1"[..0] == "";
  }

  /** `'background-color': '#fff'` is renamed and keeps its string. */
  lemma BackgroundColorRule()
    ensures AstSpec([("background-color", Str("#fff"))]) == [("backgroundColor", Str("#fff"))]
  {
    BackgroundColorResolves();
    PlainColor();
    PlainRule("background-color", "backgroundColor", "#fff");
  }

  lemma BackgroundColorResolves()
    ensures ResolveKey("background-color") == Some("backgroundColor")
  {
    assert Renamed("background-color") && RenameOf("background-color").value == "backgroundColor";
  }

  lemma PlainColor()
    ensures !EndsWith("#fff", "px") && !EndsWith("#fff", "vh") && !EndsWith("#fff", "vw")
  {
    assert "#fff"[2..] == "ff";
  }

  /** A one-entry rule with a string that has no unit keeps the string under
      the resolved key. */
  lemma PlainRule(key: string, k: string, s: string)
    requires ResolveKey(key) == Some(k)
    requires !EndsWith(s, "px") && !EndsWith(s, "vh") && !EndsWith(s, "vw")
    ensures AstSpec([(key, Str(s))]) == [(k, Str(s))]
  {
    AstSpecSnoc([], key, Str(s));
    assert [] + [(key, Str(s))] == [(key, Str(s))];
    UpsertFresh([], k, Str(s));
  }

  /** `padding: '10px'` is written as `padding` with the parsed number. */
  lemma PaddingPx(out: Style)
    ensures AstStep(out, "padding", Str("10px")) == Upsert(out, "padding", Num(ParseFloat(RemoveFirst("10px", "px"))))
  {
    PaddingResolves();
    TenPxSuffix();
    PxStep(out, "padding", "padding", "10px");
  }

  lemma PaddingResolves()
    ensures ResolveKey("padding") == Some("padding")
  {
    assert Renamed("padding") && RenameOf("padding").value == "padding";
  }

  lemma TenPxSuffix()
    ensures EndsWith("10px", "px")
  {
    assert "10px"[2..] == "px";
  }

  lemma PxStep(out: Style, key: string, k: string, text: string)
    requires ResolveKey(key) == Some(k) && EndsWith(text, "px")
    ensures AstStep(out, key, Str(text)) == Upsert(out, k, Num(ParseFloat(RemoveFirst(text, "px"))))
  {
  }

  /** `padding: '10px'` is written as `padding: 10`. */
  lemma PaddingTen(out: Style)
    ensures AstStep(out, "padding", Str("10px")) == Upsert(out, "padding", Num(Finite(10.0)))
  {
    PaddingPx(out);
    TenPixels();
  }

  /** `{ 'background-color': '#fff', padding: '10px' }` becomes
      `{ backgroundColor: '#fff', padding: 10 }`. */
  lemma BoxRule()
    ensures AstSpec([("background-color", Str("#fff")), ("padding", Str("10px"))])
            == [("backgroundColor", Str("#fff")), ("padding", Num(Finite(10.0)))]
  {
    var one := [("backgroundColor", Str("#fff"))];
    BackgroundColorRule();
    PaddingTen(one);
    SecondEntry(("background-color", Str("#fff")), "padding", Str("10px"));
    assert Keys(one) == ["backgroundColor"];
    UpsertFresh(one, "padding", Num(Finite(10.0)));
  }

  lemma SecondEntry(first: (string, StyleValue), key: string, value: StyleValue)
    ensures AstSpec([first, (key, value)]) == AstStep(AstSpec([first]), key, value)
  {
    AstSpecSnoc([first], key, value);
    assert [first] + [(key, value)] == [first, (key, value)];
  }

}
