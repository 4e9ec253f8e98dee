/** The converter's main sequence: the program body (`ast.program.body`) is
    the state, and each pass is a method that rewrites it in place, in the
    order the converter runs them: the rewrite walk, `generateStyleSheet`,
    `addAdditionalImports`, `addTypeInterfaces`, `addFontLoading`, then the
    component collection and `ensureReactNativeImports`. */
module Converter {
  import opened Wrappers
  import opened Objects
  import opened Ast
  import opened Imports
  import opened Traversal
  import opened StyleRules
  import opened Sheets
  import opened Injectors
  import opened Reconciler

  /** The body once `generateStyleSheet`, `addAdditionalImports` and
      `addTypeInterfaces` have run. */
  function Injected(walked: seq<Stmt>): seq<Stmt> {
    WithInterface(AdditionalImports(GenerateSpec(walked)))
  }

  /** The body once the passes between the walk and the reconciler have run,
      with the corrected font loading. */
  function Prepared(walked: seq<Stmt>): seq<Stmt> {
    FontLoading(Injected(walked))
  }

  /** The same with `addFontLoading` as written, which may throw. */
  function PreparedAsWritten(walked: seq<Stmt>): Result<seq<Stmt>, ConvertError> {
    FontLoadingAsWritten(Injected(walked))
  }

  /** The names `ensureReactNativeImports` is given, as written: only what
      the collector records. */
  function UsedAsWritten(prepared: seq<Stmt>): seq<string> {
    Dedup(StmtsEvents(prepared))
  }

  /** The names as intended: `StyleSheet` as well, which the generated
      `styles` declaration always refers to. */
  function Used(prepared: seq<Stmt>): (r: seq<string>)
    ensures "StyleSheet" in r
    ensures forall x :: x in r <==> x in StmtsEvents(prepared) || x == "StyleSheet"
    ensures Distinct(r)
  {
    var events := StmtsEvents(prepared) + ["StyleSheet"];
    assert events[|events| - 1] == "StyleSheet";
    Dedup(events)
  }

  /** Everything after the walk as written: the font loading as written,
      then the reconciler given only what the collector records. */
  function FinishAsWritten(walked: seq<Stmt>): Result<seq<Stmt>, ConvertError> {
    match PreparedAsWritten(walked)
    case Err(error) => Err(error)
    case Ok(prepared) => Ok(EnsureSpec(prepared, UsedAsWritten(prepared)))
  }

  /** Everything after the walk, with `StyleSheet` always imported. */
  function Finish(walked: seq<Stmt>): seq<Stmt> {
    var prepared := Prepared(walked);
    EnsureSpec(prepared, Used(prepared))
  }

  /** The whole conversion of a program body, with the corrected font
      loading: the walk may stop with an error, which happens exactly at a
      `className` that is not a string or an `.svg` import with no
      specifier; the corrected passes after the walk cannot fail.
      `ConvertAsWritten` keeps the throw of the font loading as written. */
  function ConvertSpec(body: seq<Stmt>): (r: Result<seq<Stmt>, ConvertError>)
    ensures r.Ok? <==> forall i :: 0 <= i < |body| ==> ConvertibleStmt(body[i])
  {
    match RwStmts(body, false)
    case Err(error) => Err(error)
    case Ok(walked) => Ok(Finish(walked))
  }
  /** The whole conversion as written: the walk, then the passes with the
      font loading as written, which also throws at a function declaration
      without a name. */
  function ConvertAsWritten(body: seq<Stmt>): (r: Result<seq<Stmt>, ConvertError>)
    ensures r.Err? <==>
      (exists i :: 0 <= i < |body| && !ConvertibleStmt(body[i])) || HasAnonymous(body)
  {
    match RwStmts(body, false)
    case Err(error) => Err(error)
    case Ok(walked) =>
      WalkKeepsAnonymous(body);
      InjectedKeepsAnonymous(walked);
      FinishAsWritten(walked)
  }

  /** Some top-level statement is a function declaration without a name. */
  predicate HasAnonymous(body: seq<Stmt>) {
    exists i :: 0 <= i < |body| && body[i].FuncDecl? && body[i].id.None?
  }

  lemma {:induction false} AnonymousConcat(a: seq<Stmt>, b: seq<Stmt>)
    ensures HasAnonymous(a + b) <==> HasAnonymous(a) || HasAnonymous(b)
  {
    if HasAnonymous(a + b) {
      var i :| 0 <= i < |a + b| && (a + b)[i].FuncDecl? && (a + b)[i].id.None?;
      if i < |a| {
        assert a[i] == (a + b)[i];
      } else {
        assert b[i - |a|] == (a + b)[i];
      }
    }
    if HasAnonymous(a) {
      var i :| 0 <= i < |a| && a[i].FuncDecl? && a[i].id.None?;
      assert (a + b)[i] == a[i];
    }
    if HasAnonymous(b) {
      var i :| 0 <= i < |b| && b[i].FuncDecl? && b[i].id.None?;
      assert (a + b)[|a| + i] == b[i];
    }
  }

  /** The walk keeps every function declaration's name and turns no other
      statement into a function declaration. */
  lemma {:induction false} WalkKeepsAnonymous(ss: seq<Stmt>)
    requires RwStmts(ss, false).Ok?
    ensures HasAnonymous(RwStmts(ss, false).value) <==> HasAnonymous(ss)
    decreases ss
  {
    if ss != [] {
      assert forall i :: 0 <= i < |ss[1..]| ==> ss[1..][i] == ss[i + 1];
      var head := RwStmt(ss[0], false).value;
      var tail := RwStmts(ss[1..], false).value;
      var h := if head.Some? then [head.value] else [];
      assert RwStmts(ss, false).value == h + tail;
      WalkKeepsAnonymous(ss[1..]);
      AnonymousConcat(h, tail);
      AnonymousConcat([ss[0]], ss[1..]);
      assert [ss[0]] + ss[1..] == ss;
      assert HasAnonymous(h) <==> HasAnonymous([ss[0]]) by {
        if head.Some? {
          assert h[0] == head.value;
        }
      }
    }
  }

  lemma {:induction false} RemoveStylesKeepsAnonymous(body: seq<Stmt>)
    ensures HasAnonymous(RemoveStyles(body)) <==> HasAnonymous(body)
  {
    if body != [] {
      var init := body[..|body| - 1];
      var last := body[|body| - 1];
      RemoveStylesKeepsAnonymous(init);
      AnonymousConcat(RemoveStyles(init), Strip(last));
      AnonymousConcat(init, [last]);
      assert init + [last] == body;
      assert HasAnonymous(Strip(last)) <==> HasAnonymous([last]) by {
        if !last.VarDecl? {
          assert Strip(last) == [last];
        }
      }
    }
  }

  /** The passes before the font loading add only imports, the interface and
      the sheet, and remove only declarations. */
  lemma InjectedKeepsAnonymous(walked: seq<Stmt>)
    ensures HasAnonymous(Injected(walked)) <==> HasAnonymous(walked)
  {
    GenerateKeepsAnonymous(walked);
    ImportsKeepAnonymous(GenerateSpec(walked));
    InterfaceKeepsAnonymous(AdditionalImports(GenerateSpec(walked)));
  }

  lemma GenerateKeepsAnonymous(body: seq<Stmt>)
    ensures HasAnonymous(GenerateSpec(body)) <==> HasAnonymous(body)
  {
    var generated := GenerateSpec(body);
    var sheet := generated[|generated| - 1];
    assert sheet.VarDecl?;
    assert generated == RemoveStyles(body) + [sheet];
    RemoveStylesKeepsAnonymous(body);
    AnonymousConcat(RemoveStyles(body), [sheet]);
  }

  lemma ImportsKeepAnonymous(body: seq<Stmt>)
    ensures HasAnonymous(AdditionalImports(body)) <==> HasAnonymous(body)
  {
    var imported := AdditionalImports(body);
    var front := imported[..|imported| - |body|];
    assert imported == front + body;
    assert forall i :: 0 <= i < |front| ==> front[i].Import?;
    AnonymousConcat(front, body);
  }

  lemma InterfaceKeepsAnonymous(body: seq<Stmt>)
    ensures HasAnonymous(WithInterface(body)) <==> HasAnonymous(body)
  {
    var k := LastImportIndex(body) + 1;
    assert WithInterface(body) == body[..k] + [TransactionInterface] + body[k..];
    AnonymousConcat(body[..k], [TransactionInterface]);
    AnonymousConcat(body[..k] + [TransactionInterface], body[k..]);
    AnonymousConcat(body[..k], body[k..]);
    assert body[..k] + body[k..] == body;
  }



  /** The rules of the sheet `generateStyleSheet` writes for a walked body. */
  function SheetRulesOf(walked: seq<Stmt>): seq<(string, Style)> {
    match FoundStyles(walked)
    case Some(props) => SheetRules(props)
    case None => []
  }

  class Program {
    var body: seq<Stmt>

    constructor (body: seq<Stmt>)
      ensures this.body == body
    {
      this.body := body;
    }

    /** The rewrite walk. A run that throws stops the converter; the model
        leaves the body as it was. */
    method Traverse() returns (error: Option<ConvertError>)
      modifies this
      ensures RwStmts(old(body), false).Ok? ==> error.None? && body == RwStmts(old(body), false).value
      ensures RwStmts(old(body), false).Err? ==>
        error == Some(RwStmts(old(body), false).error) && body == old(body)
    {
      var walked := RwStmts(body, false);
      if walked.Err? {
        return Some(walked.error);
      }
      body := walked.value;
      return None;
    }

    /** `generateStyleSheet`: the `styles` object is taken out, its rules
        transformed, and the sheet pushed at the end. */
    method GenerateStyleSheet()
      modifies this
      ensures body == GenerateSpec(old(body))
    {
      var rest, stylesObject := ExtractStyles(body);
      var transformedStyles: seq<(string, Style)> := [];
      if stylesObject.Some? {
        transformedStyles := CollectRules(stylesObject.value);
      }
      body := rest + [SheetDecl(transformedStyles)];
    }

    /** `addAdditionalImports`: look for both imports, then unshift each
        missing one, the font import last. */
    method AddAdditionalImports()
      modifies this
      ensures body == AdditionalImports(old(body))
    {
      var b := body;
      var hasSecureStoreImport := false;
      var hasUseFontsImport := false;
      var i := 0;
      while i < |b|
        invariant 0 <= i <= |b|
        invariant hasSecureStoreImport <==> ImportsFrom(b[..i], "expo-secure-store")
        invariant hasUseFontsImport <==> ImportsFrom(b[..i], "expo-font")
      {
        ImportsFromSnoc(b, i, "expo-secure-store");
        ImportsFromSnoc(b, i, "expo-font");
        if b[i].Import? && b[i].source == "expo-secure-store" {
          hasSecureStoreImport := true;
        }
        if b[i].Import? && b[i].source == "expo-font" {
          hasUseFontsImport := true;
        }
        i := i + 1;
      }
      assert b[..i] == b;
      if !hasSecureStoreImport {
        b := [SecureStoreImport] + b;
      }
      if !hasUseFontsImport {
        b := [UseFontsImport] + b;
      }
      body := b;
    }

    /** `addTypeInterfaces`: find the last import, splice the interface in
        after it. */
    method AddTypeInterfaces()
      modifies this
      ensures body == WithInterface(old(body))
    {
      var b := body;
      var lastImportIndex := -1;
      var i := 0;
      while i < |b|
        invariant 0 <= i <= |b|
        invariant lastImportIndex == LastImportIndex(b[..i])
      {
        assert b[..i + 1][..i] == b[..i];
        if b[i].Import? {
          lastImportIndex := i;
        }
        i := i + 1;
      }
      assert b[..i] == b;
      body := b[..lastImportIndex + 1] + [TransactionInterface] + b[lastImportIndex + 1..];
    }

    /** `addFontLoading`, with the guard of the corrected pass: each target
        component is visited and given the `useFonts` call when it lacks one. */
    method AddFontLoading()
      modifies this
      ensures body == FontLoading(old(body))
    {
      var b := body;
      ghost var original := b;
      var i := 0;
      while i < |b|
        invariant 0 <= i <= |b| && |b| == |original|
        invariant forall j :: 0 <= j < i ==> b[j] == LoadFonts(original[j])
        invariant forall j :: i <= j < |b| ==> b[j] == original[j]
      {
        b := b[i := LoadFonts(b[i])];
        i := i + 1;
      }
      body := b;
    }

    /** `ensureReactNativeImports(ast, used)`: find the first `react-native`
        import; without one, unshift a new import of the used names; with
        one, push each used name it does not import yet. */
    method EnsureReactNativeImports(used: seq<string>)
      modifies this
      ensures body == EnsureSpec(old(body), used)
    {
      var b := body;
      var i := 0;
      while i < |b| && !(b[i].Import? && b[i].source == "react-native")
        invariant 0 <= i <= |b|
        invariant forall j :: 0 <= j < i ==> !(b[j].Import? && b[j].source == "react-native")
      {
        i := i + 1;
      }
      if i == |b| {
        body := [Import("react-native", NamedAll(used))] + b;
        return;
      }
      FirstImportAt(b, "react-native", i);
      var specifiers := PushMissing(b[i].specifiers, used);
      body := b[i := Import("react-native", specifiers)];
    }

    /** The converter's main sequence on the parsed program. */
    method Convert() returns (error: Option<ConvertError>)
      modifies this
      ensures ConvertSpec(old(body)).Ok? ==> error.None? && body == ConvertSpec(old(body)).value
      ensures ConvertSpec(old(body)).Err? ==> error == Some(ConvertSpec(old(body)).error) && body == old(body)
    {
      ghost var original := body;
      error := Traverse();
      if error.Some? {
        return;
      }
      ghost var walked := body;
      assert RwStmts(original, false) == Ok(walked);
      GenerateStyleSheet();
      AddAdditionalImports();
      AddTypeInterfaces();
      AddFontLoading();
      ghost var prepared := body;
      assert prepared == Prepared(walked);
      var usedComponents := CollectUsedWithSheet(body);
      EnsureReactNativeImports(usedComponents);
      assert body == Finish(walked);
    }
  }

  /** `collectUsedReactNativeComponents`, with `StyleSheet` added when the
      walk did not record it. */
  method CollectUsedWithSheet(prepared: seq<Stmt>) returns (usedComponents: seq<string>)
    ensures usedComponents == Used(prepared)
  {
    usedComponents := CollectUsed(prepared);
    if "StyleSheet" !in usedComponents {
      usedComponents := usedComponents + ["StyleSheet"];
    }
    UsedIsCollected(prepared, usedComponents);
  }

  /** The push loop of `ensureReactNativeImports`: each used name the
      existing import does not name yet is appended, in order. */
  method PushMissing(existingSpecifiers: seq<Specifier>, used: seq<string>) returns (specifiers: seq<Specifier>)
    ensures specifiers == Completed(existingSpecifiers, used)
  {
    specifiers := existingSpecifiers;
    var k := 0;
    while k < |used|
      invariant 0 <= k <= |used|
      invariant specifiers == Completed(existingSpecifiers, used[..k])
    {
      CompletedSnoc(existingSpecifiers, used, k);
      if !HasNamed(existingSpecifiers, used[k]) {
        specifiers := specifiers + [Named(used[k])];
      }
      k := k + 1;
    }
    assert used[..k] == used;
  }

  /** One more used name appends its specifier when it is not imported yet. */
  lemma CompletedSnoc(specs: seq<Specifier>, used: seq<string>, k: nat)
    requires k < |used|
    ensures Completed(specs, used[..k + 1]) ==
      Completed(specs, used[..k]) + (if HasNamed(specs, used[k]) then [] else [Named(used[k])])
  {
    var m := Missing(used[..k], specs);
    assert used[..k + 1][..k] == used[..k];
    assert Missing(used[..k + 1], specs) == m + (if HasNamed(specs, used[k]) then [] else [used[k]]);
    if !HasNamed(specs, used[k]) {
      assert NamedAll(m + [used[k]]) == NamedAll(m) + [Named(used[k])];
    }
  }

  lemma ImportsFromSnoc(b: seq<Stmt>, i: nat, source: string)
    requires i < |b|
    ensures ImportsFrom(b[..i + 1], source) <==>
      ImportsFrom(b[..i], source) || (b[i].Import? && b[i].source == source)
  {
    assert b[..i + 1] == b[..i] + [b[i]];
    if ImportsFrom(b[..i + 1], source) {
      var j :| 0 <= j < i + 1 && b[..i + 1][j].Import? && b[..i + 1][j].source == source;
      if j < i {
        assert b[..i][j] == b[..i + 1][j];
      }
    }
    if ImportsFrom(b[..i], source) {
      var j :| 0 <= j < i && b[..i][j].Import? && b[..i][j].source == source;
      assert b[..i + 1][j] == b[..i][j];
    }
    if b[i].Import? && b[i].source == source {
      assert b[..i + 1][i] == b[i];
    }
  }

  /** The names the main sequence hands to the reconciler are `Used`. */
  lemma UsedIsCollected(prepared: seq<Stmt>, names: seq<string>)
    requires names == Dedup(StmtsEvents(prepared)) + (if "StyleSheet" in Dedup(StmtsEvents(prepared)) then [] else ["StyleSheet"])
    ensures names == Used(prepared)
  {
    var events := StmtsEvents(prepared) + ["StyleSheet"];
    assert events[..|events| - 1] == StmtsEvents(prepared);
  }

  // ---------------------------------------------------------------------
  // What the whole sequence guarantees.

  /** The prepared body ends with the sheet `generateStyleSheet` wrote. */
  lemma PreparedEndsWithSheet(walked: seq<Stmt>)
    ensures var p := Prepared(walked);
      |p| > 0 && p[|p| - 1] == SheetDecl(SheetRulesOf(walked))
  {
    InjectedEndsWithSheet(walked);
    FontLoadingKeepsLast(Injected(walked));
  }

  lemma InjectedEndsWithSheet(walked: seq<Stmt>)
    ensures var t := Injected(walked);
      |t| > 0 && t[|t| - 1] == SheetDecl(SheetRulesOf(walked))
  {
    var g := GenerateSpec(walked);
    GenerateEndsWithSheet(walked);
    var a := AdditionalImports(g);
    AdditionalKeepsLast(g);
    InterfaceKeepsLast(a);
  }

  /** The same for the font loading as written, when it does not throw. */
  lemma PreparedAsWrittenEndsWithSheet(walked: seq<Stmt>)
    requires PreparedAsWritten(walked).Ok?
    ensures var p := PreparedAsWritten(walked).value;
      |p| > 0 && p[|p| - 1] == SheetDecl(SheetRulesOf(walked))
  {
    var t := Injected(walked);
    InjectedEndsWithSheet(walked);
    var p := PreparedAsWritten(walked).value;
    assert p[|p| - 1] == LoadFontsAsWritten(t[|t| - 1]);
  }

  lemma GenerateEndsWithSheet(walked: seq<Stmt>)
    ensures var g := GenerateSpec(walked); |g| > 0 && g[|g| - 1] == SheetDecl(SheetRulesOf(walked))
  {
  }

  lemma FontLoadingKeepsLast(t: seq<Stmt>)
    requires |t| > 0 && t[|t| - 1].VarDecl?
    ensures var f := FontLoading(t); |f| > 0 && f[|f| - 1] == t[|t| - 1]
  {
  }

  lemma AdditionalKeepsLast(g: seq<Stmt>)
    requires |g| > 0
    ensures var a := AdditionalImports(g); |a| > 0 && a[|a| - 1] == g[|g| - 1]
  {
    var a := AdditionalImports(g);
    AdditionalImportsShape(g);
    assert a[|a| - 1] == a[|a| - |g|..][|g| - 1];
  }

  lemma InterfaceKeepsLast(a: seq<Stmt>)
    requires |a| > 0 && !a[|a| - 1].Import?
    ensures var t := WithInterface(a); |t| > 0 && t[|t| - 1] == a[|a| - 1]
  {
    var t := WithInterface(a);
    InterfaceAfterImports(a);
    var k := LastImportIndex(a) + 1;
    assert k <= |a| - 1;
    assert t[|t| - 1] == t[k + 1..][|a| - 1 - k];
  }

  /** The reconciler never touches the last statement when it is not an
      import. */
  lemma EnsureKeepsLast(body: seq<Stmt>, used: seq<string>)
    requires |body| > 0 && !body[|body| - 1].Import?
    ensures var r := EnsureSpec(body, used); |r| > 0 && r[|r| - 1] == body[|body| - 1]
  {
    EnsureImportsUsed(body, used);
  }

  /** The converted program ends with `const styles = StyleSheet.create(...)`
      holding the rules of the program's `styles` object. */
  lemma SheetIsLast(walked: seq<Stmt>)
    ensures var r := Finish(walked); |r| > 0 && r[|r| - 1] == SheetDecl(SheetRulesOf(walked))
  {
    PreparedEndsWithSheet(walked);
    var p := Prepared(walked);
    var used := Used(p);
    EnsureKeepsLast(p, used);
    assert Finish(walked) == EnsureSpec(p, used);
  }

  lemma InterfaceKeepsImports(a: seq<Stmt>, source: string)
    requires ImportsFrom(a, source)
    ensures ImportsFrom(WithInterface(a), source)
  {
    var i :| 0 <= i < |a| && a[i].Import? && a[i].source == source;
    InterfaceAfterImports(a);
    var k := LastImportIndex(a) + 1;
    var t := WithInterface(a);
    assert t[i] == t[..k][i];
  }

  lemma FontLoadingKeepsImports(t: seq<Stmt>, source: string)
    requires ImportsFrom(t, source)
    ensures ImportsFrom(FontLoading(t), source)
  {
    var i :| 0 <= i < |t| && t[i].Import? && t[i].source == source;
    assert FontLoading(t)[i] == t[i];
  }

  lemma EnsureKeepsImports(f: seq<Stmt>, used: seq<string>, source: string)
    requires ImportsFrom(f, source) && source != "react-native"
    ensures ImportsFrom(EnsureSpec(f, used), source)
  {
    var i :| 0 <= i < |f| && f[i].Import? && f[i].source == source;
    EnsureImportsUsed(f, used);
    var r := EnsureSpec(f, used);
    if FirstImportFrom(f, "react-native").None? {
      assert r[i + 1] == f[i];
    } else {
      assert r[i] == f[i];
    }
  }

  /** The converted program imports `expo-font` and `expo-secure-store`. */
  lemma ExpoImportsPresent(walked: seq<Stmt>)
    ensures ImportsFrom(Finish(walked), "expo-font")
    ensures ImportsFrom(Finish(walked), "expo-secure-store")
  {
    var a := AdditionalImports(GenerateSpec(walked));
    AdditionalImportsShape(GenerateSpec(walked));
    var p := Prepared(walked);
    InterfaceKeepsImports(a, "expo-font");
    InterfaceKeepsImports(a, "expo-secure-store");
    FontLoadingKeepsImports(WithInterface(a), "expo-font");
    FontLoadingKeepsImports(WithInterface(a), "expo-secure-store");
    EnsureKeepsImports(p, Used(p), "expo-font");
    EnsureKeepsImports(p, Used(p), "expo-secure-store");
  }

  /** The first `react-native` import of the converted program names
      `StyleSheet` and every component the collector records. */
  lemma ReactNativeImportComplete(walked: seq<Stmt>)
    ensures var r := Finish(walked); var k := FirstImportFrom(r, "react-native");
      k.Some? && HasNamed(r[k.value].specifiers, "StyleSheet") &&
      forall x :: x in StmtsEvents(Prepared(walked)) ==> HasNamed(r[k.value].specifiers, x)
  {
    EnsureImportsUsed(Prepared(walked), Used(Prepared(walked)));
  }

  /** The `Transaction` interface stands at `p`, right after an import, with
      no import after it. */
  predicate InterfaceAt(r: seq<Stmt>, p: int) {
    0 < p < |r| && r[p] == TransactionInterface && r[p - 1].Import? &&
    forall j :: p < j < |r| ==> !r[j].Import?
  }

  /** Splicing the interface into a body with an import puts it right
      after the last import. */
  lemma WithInterfaceAt(a: seq<Stmt>)
    requires LastImportIndex(a) >= 0
    ensures InterfaceAt(WithInterface(a), LastImportIndex(a) + 1)
  {
    InterfaceAfterImports(a);
  }

  /** `addFontLoading` changes only function declarations, so the place of
      the interface stands. */
  lemma FontLoadingAt(t: seq<Stmt>, p: int)
    requires InterfaceAt(t, p)
    ensures InterfaceAt(FontLoading(t), p)
  {
    var f := FontLoading(t);
    assert f[p] == t[p] && f[p - 1] == t[p - 1];
    forall j | p < j < |f| ensures !f[j].Import? {
      assert !t[j].Import?;
    }
  }

  /** The reconciler either puts an import in front, which moves the
      interface one place on, or changes an import before it. */
  lemma EnsureAt(f: seq<Stmt>, used: seq<string>, p: int)
    requires InterfaceAt(f, p)
    ensures InterfaceAt(EnsureSpec(f, used), if FirstImportFrom(f, "react-native").None? then p + 1 else p)
  {
    var r := EnsureSpec(f, used);
    EnsureImportsUsed(f, used);
    if FirstImportFrom(f, "react-native").None? {
      assert r[p + 1] == f[p] && r[p] == f[p - 1];
      forall j | p + 1 < j < |r| ensures !r[j].Import? {
        assert r[j] == f[j - 1];
      }
    } else {
      var k := FirstImportFrom(f, "react-native").value;
      assert k != p;
      forall j | p < j < |r| ensures !r[j].Import? {
        assert r[j] == f[j];
      }
    }
  }

  /** In the converted program the `Transaction` interface follows the last
      import. */
  lemma InterfacePlaced(walked: seq<Stmt>)
    ensures exists p :: InterfaceAt(Finish(walked), p)
  {
    var a := AdditionalImports(GenerateSpec(walked));
    AdditionalImportsShape(GenerateSpec(walked));
    var i :| 0 <= i < |a| && a[i].Import? && a[i].source == "expo-font";
    var p := LastImportIndex(a) + 1;
    WithInterfaceAt(a);
    FontLoadingAt(WithInterface(a), p);
    var f := Prepared(walked);
    EnsureAt(f, Used(f), p);
    var q := if FirstImportFrom(f, "react-native").None? then p + 1 else p;
    assert Finish(walked) == EnsureSpec(f, Used(f));
    assert InterfaceAt(Finish(walked), q);
  }

  // ---------------------------------------------------------------------
  // `StyleSheet` is imported only alongside a recognised tag.

  /** As written: a program with no `react-native` import in which the
      collector records no `StyleSheet` gets a new `react-native` import
      without it, while its last statement calls `StyleSheet.create`. */
  lemma StyleSheetUnimportedAsWritten(walked: seq<Stmt>)
    requires PreparedAsWritten(walked).Ok?
    requires FirstImportFrom(PreparedAsWritten(walked).value, "react-native").None?
    requires "StyleSheet" !in StmtsEvents(PreparedAsWritten(walked).value)
    ensures FinishAsWritten(walked).Ok?
    ensures var r := FinishAsWritten(walked).value;
      FirstImportFrom(r, "react-native") == Some(0) &&
      !HasNamed(r[0].specifiers, "StyleSheet") &&
      r[|r| - 1] == SheetDecl(SheetRulesOf(walked))
  {
    var p := PreparedAsWritten(walked).value;
    var used := UsedAsWritten(p);
    var r := FinishAsWritten(walked).value;
    assert r == EnsureSpec(p, used);
    EnsureImportsUsed(p, used);
    assert FirstImportFrom(r, "react-native") == Some(0);
    NamedAllHas(used, "StyleSheet");
    PreparedAsWrittenEndsWithSheet(walked);
    EnsureKeepsLast(p, used);
  }

  /** The corrected passes agree with the ones as written whenever the font
      loading as written does not throw, both font guards agree on every
      target, and the collector already records `StyleSheet`. */
  lemma CorrectedAgrees(walked: seq<Stmt>)
    requires FontLoadingAsWritten(Injected(walked)).Ok?
    requires forall i :: 0 <= i < |Injected(walked)| && IsFontTarget(Injected(walked)[i]) ==>
      (HasFontsLoaded(Injected(walked)[i].body) <==> HasFontsLoadedAsWritten(Injected(walked)[i].body))
    requires "StyleSheet" in StmtsEvents(Prepared(walked))
    ensures FinishAsWritten(walked) == Ok(Finish(walked))
  {
    FontLoadingAgrees(Injected(walked));
    assert PreparedAsWritten(walked) == Ok(Prepared(walked));
    var e := StmtsEvents(Prepared(walked));
    var events := e + ["StyleSheet"];
    assert events[..|events| - 1] == e;
    assert Used(Prepared(walked)) == UsedAsWritten(Prepared(walked));
  }

  /** The sheet declaration records no name. */
  lemma SheetDeclEvents()
    ensures StmtEvents(SheetDecl([])) == []
  {
    assert "StyleSheet" != "Alert" && "StyleSheet" != "FlatList";
    assert ExprEvents(Ident("StyleSheet")) == [] && ExprEvents(Ident("create")) == [];
    assert ExprEvents(Dot("StyleSheet", "create")) == [];
    assert ExprsEvents([SheetObject([])]) == [];
    var d := Declarator(PIdent("styles"), Some(Call(Dot("StyleSheet", "create"), [SheetObject([])])));
    assert DeclEvents(d) == [];
    assert DeclsEvents([d]) == DeclEvents(d) + DeclsEvents([]);
  }

  /** The injected imports and the interface record no name. */
  lemma InjectedEvents()
    ensures StmtEvents(UseFontsImport) == [] && StmtEvents(SecureStoreImport) == []
    ensures StmtEvents(TransactionInterface) == []
  {
    assert "useFonts"[0] != "FlatList"[0];
    assert SpecifiersEvents([Named("useFonts")]) == SpecifierEvents(Named("useFonts")) + SpecifiersEvents([]);
    assert SpecifiersEvents([NamespaceSpec("SecureStore")]) == SpecifierEvents(NamespaceSpec("SecureStore")) + SpecifiersEvents([]);
  }

  /** An empty module: the body the passes prepare before the reconciler,
      with either font loading, since it holds no function declaration. */
  lemma EmptyModulePrepared()
    ensures PreparedAsWritten([]) == Ok([UseFontsImport, SecureStoreImport, TransactionInterface, SheetDecl([])])
  {
    EmptyModuleInjected();
    var t := [UseFontsImport, SecureStoreImport, TransactionInterface, SheetDecl([])];
    assert forall i :: 0 <= i < |t| ==> !t[i].FuncDecl?;
    var r := FontLoadingAsWritten(t);
    assert r.Ok? && |r.value| == |t|;
    assert forall i :: 0 <= i < |t| ==> r.value[i] == LoadFontsAsWritten(t[i]) == t[i];
    assert r.value == t;
    assert PreparedAsWritten([]) == FontLoadingAsWritten(Injected([]));
  }

  lemma EmptyModuleInjected()
    ensures Injected([]) == [UseFontsImport, SecureStoreImport, TransactionInterface, SheetDecl([])]
  {
    var g := GenerateSpec([]);
    assert g == [SheetDecl([])];
    assert !ImportsFrom(g, "expo-secure-store") && !ImportsFrom(g, "expo-font");
    var a := AdditionalImports(g);
    assert a == [UseFontsImport, SecureStoreImport, SheetDecl([])];
    assert LastImportIndex(a) == 1 by {
      assert a[..2][..1] == [UseFontsImport];
    }
    var t := WithInterface(a);
    assert t == [UseFontsImport, SecureStoreImport, TransactionInterface, SheetDecl([])];
  }

  lemma EmptyModuleNoReactNative()
    ensures FirstImportFrom([UseFontsImport, SecureStoreImport, TransactionInterface, SheetDecl([])], "react-native").None?
  {
    var p := [UseFontsImport, SecureStoreImport, TransactionInterface, SheetDecl([])];
    assert "expo-font" != "react-native" && "expo-secure-store" != "react-native";
    assert forall j :: 0 <= j < |p| ==> !(p[j].Import? && p[j].source == "react-native");
  }

  lemma StmtsEventsCons(s: Stmt, ss: seq<Stmt>)
    ensures StmtsEvents([s] + ss) == StmtEvents(s) + StmtsEvents(ss)
  {
    assert ([s] + ss)[1..] == ss;
  }

  lemma EmptyModuleEvents()
    ensures StmtsEvents([UseFontsImport, SecureStoreImport, TransactionInterface, SheetDecl([])]) == []
  {
    InjectedEvents();
    SheetDeclEvents();
    StmtsEventsCons(SheetDecl([]), []);
    assert [SheetDecl([])] + [] == [SheetDecl([])];
    StmtsEventsCons(TransactionInterface, [SheetDecl([])]);
    StmtsEventsCons(SecureStoreImport, [TransactionInterface, SheetDecl([])]);
    StmtsEventsCons(UseFontsImport, [SecureStoreImport, TransactionInterface, SheetDecl([])]);
  }

  /** With no `react-native` import and nothing recorded, the reconciler as
      written puts an import of no names in front. */
  lemma EnsureNothingUsed(p: seq<Stmt>)
    requires FirstImportFrom(p, "react-native").None? && StmtsEvents(p) == []
    ensures EnsureSpec(p, UsedAsWritten(p)) == [Import("react-native", [])] + p
  {
    assert UsedAsWritten(p) == [];
  }

  lemma FinishAsWrittenOf(walked: seq<Stmt>, p: seq<Stmt>)
    requires PreparedAsWritten(walked) == Ok(p) && FirstImportFrom(p, "react-native").None? && StmtsEvents(p) == []
    ensures FinishAsWritten(walked) == Ok([Import("react-native", [])] + p)
  {
    EnsureNothingUsed(p);
  }

  /** The walk of an empty module succeeds with nothing. */
  lemma EmptyWalk()
    ensures RwStmts([], false) == Ok([])
  {
  }

  /** As written, an empty module converts to a program that calls
      `StyleSheet.create` under an import of `react-native` that names
      nothing. */
  lemma EmptyModuleAsWritten()
    ensures FinishAsWritten([]) ==
      Ok([Import("react-native", []), UseFontsImport, SecureStoreImport, TransactionInterface, SheetDecl([])])
  {
    EmptyModulePrepared();
    EmptyModuleEvents();
    EmptyModuleNoReactNative();
    var p := [UseFontsImport, SecureStoreImport, TransactionInterface, SheetDecl([])];
    FinishAsWrittenOf([], p);
    assert [Import("react-native", [])] + p ==
      [Import("react-native", []), UseFontsImport, SecureStoreImport, TransactionInterface, SheetDecl([])];
  }
}
