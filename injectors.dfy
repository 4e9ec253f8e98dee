/** The three passes that insert fixed statements into the program:
    `addAdditionalImports` (the `expo-secure-store` and `expo-font` imports),
    `addTypeInterfaces` (the `Transaction` interface after the last import)
    and `addFontLoading` (a `useFonts` call at the top of the `WalletScreen`
    and `Balance` components). The interface and the `useFonts` argument are
    opaque marker nodes: only where they are inserted is modelled. */
module Injectors {
  import opened Wrappers
  import opened Ast

  // ---------------------------------------------------------------------
  // addAdditionalImports

  /** `import * as SecureStore from 'expo-secure-store';` */
  const SecureStoreImport: Stmt := Import("expo-secure-store", [NamespaceSpec("SecureStore")])

  /** `import { useFonts } from 'expo-font';` */
  const UseFontsImport: Stmt := Import("expo-font", [Named("useFonts")])

  /** Some top-level import declaration has module source `source`. */
  predicate ImportsFrom(body: seq<Stmt>, source: string) {
    exists i :: 0 <= i < |body| && body[i].Import? && body[i].source == source
  }

  /** The body after `addAdditionalImports`: each missing import is put in
      front, the font import last, so that it ends up first. */
  function AdditionalImports(body: seq<Stmt>): seq<Stmt> {
    var hasSecureStoreImport := ImportsFrom(body, "expo-secure-store");
    var hasUseFontsImport := ImportsFrom(body, "expo-font");
    var withSecureStore := if hasSecureStoreImport then body else [SecureStoreImport] + body;
    if hasUseFontsImport then withSecureStore else [UseFontsImport] + withSecureStore
  }

  /** Both imports are present afterwards, in front of the old body, which is
      kept whole; when both were missing the font import comes first. */
  lemma AdditionalImportsShape(body: seq<Stmt>)
    ensures var r := AdditionalImports(body);
      ImportsFrom(r, "expo-secure-store") && ImportsFrom(r, "expo-font") &&
      |r| >= |body| && r[|r| - |body|..] == body
    ensures !ImportsFrom(body, "expo-secure-store") && !ImportsFrom(body, "expo-font") ==>
      AdditionalImports(body) == [UseFontsImport, SecureStoreImport] + body
    ensures ImportsFrom(body, "expo-secure-store") && ImportsFrom(body, "expo-font") ==>
      AdditionalImports(body) == body
    ensures !ImportsFrom(body, "expo-secure-store") && ImportsFrom(body, "expo-font") ==>
      AdditionalImports(body) == [SecureStoreImport] + body
    ensures ImportsFrom(body, "expo-secure-store") && !ImportsFrom(body, "expo-font") ==>
      AdditionalImports(body) == [UseFontsImport] + body
  {
    var w := if ImportsFrom(body, "expo-secure-store") then body else [SecureStoreImport] + body;
    var r := AdditionalImports(body);
    assert r == if ImportsFrom(body, "expo-font") then w else [UseFontsImport] + w;
    ImportsFromCons(SecureStoreImport, body, "expo-secure-store");
    ImportsFromCons(SecureStoreImport, body, "expo-font");
    assert ImportsFrom(w, "expo-secure-store");
    assert ImportsFrom(body, "expo-font") ==> ImportsFrom(w, "expo-font");
    assert w[|w| - |body|..] == body;
    ImportsFromCons(UseFontsImport, w, "expo-secure-store");
    ImportsFromCons(UseFontsImport, w, "expo-font");
    assert r[|r| - |w|..] == w;
    assert r[|r| - |body|..] == w[|w| - |body|..];
  }

  /** Putting a statement in front keeps every import and adds its own. */
  lemma ImportsFromCons(s: Stmt, body: seq<Stmt>, source: string)
    ensures ImportsFrom([s] + body, source) <==> (s.Import? && s.source == source) || ImportsFrom(body, source)
  {
    var t := [s] + body;
    if ImportsFrom(body, source) {
      var i :| 0 <= i < |body| && body[i].Import? && body[i].source == source;
      assert t[i + 1] == body[i];
    }
    if s.Import? && s.source == source {
      assert t[0] == s;
    }
    if ImportsFrom(t, source) {
      var i :| 0 <= i < |t| && t[i].Import? && t[i].source == source;
      if i > 0 {
        assert body[i - 1] == t[i];
      }
    }
  }

  /** Running the pass again changes nothing. */
  lemma AdditionalImportsIdempotent(body: seq<Stmt>)
    ensures AdditionalImports(AdditionalImports(body)) == AdditionalImports(body)
  {
    AdditionalImportsShape(body);
    AdditionalImportsShape(AdditionalImports(body));
  }

  // ---------------------------------------------------------------------
  // addTypeInterfaces

  /** The `Transaction` interface declaration. */
  const TransactionInterface: Stmt := TypeDecl("Transaction")

  /** `lastImportIndex`: the position of the last top-level import, or -1. */
  function LastImportIndex(body: seq<Stmt>): (r: int)
    ensures -1 <= r < |body|
    ensures r >= 0 ==> body[r].Import?
    ensures forall j :: r < j < |body| ==> !body[j].Import?
  {
    if body == [] then -1
    else if body[|body| - 1].Import? then |body| - 1
    else LastImportIndex(body[..|body| - 1])
  }

  /** The body after `addTypeInterfaces`:
      `body.splice(lastImportIndex + 1, 0, transactionInterface)`. */
  function WithInterface(body: seq<Stmt>): seq<Stmt> {
    var k := LastImportIndex(body) + 1;
    body[..k] + [TransactionInterface] + body[k..]
  }

  /** The interface sits right after the last import (at the front when there
      is none), every import stays before it, and the old statements keep
      their order around it. */
  lemma InterfaceAfterImports(body: seq<Stmt>)
    ensures var k := LastImportIndex(body) + 1; var r := WithInterface(body);
      |r| == |body| + 1 && r[k] == TransactionInterface &&
      r[..k] == body[..k] && r[k + 1..] == body[k..] &&
      (k > 0 ==> r[k - 1].Import?) &&
      forall j :: k < j < |r| ==> !r[j].Import?
  {
    var k := LastImportIndex(body) + 1;
    var r := WithInterface(body);
    assert r[k + 1..] == body[k..];
    forall j | k < j < |r| ensures !r[j].Import? {
      assert r[j] == body[j - 1];
    }
  }

  /** The number of `Transaction` interface declarations in a statement list. */
  function Interfaces(body: seq<Stmt>): nat {
    if body == [] then 0 else (if body[0] == TransactionInterface then 1 else 0) + Interfaces(body[1..])
  }

  lemma {:induction false} InterfacesAppend(a: seq<Stmt>, b: seq<Stmt>)
    ensures Interfaces(a + b) == Interfaces(a) + Interfaces(b)
  {
    if a == [] {
      assert a + b == b;
    } else {
      assert (a + b)[1..] == a[1..] + b;
      InterfacesAppend(a[1..], b);
    }
  }

  /** The pass does not look for an interface already present: every run
      adds one more. */
  lemma InterfaceEachRun(body: seq<Stmt>)
    ensures Interfaces(WithInterface(body)) == Interfaces(body) + 1
  {
    var k := LastImportIndex(body) + 1;
    InterfacesAppend(body[..k] + [TransactionInterface], body[k..]);
    InterfacesAppend(body[..k], [TransactionInterface]);
    InterfacesAppend(body[..k], body[k..]);
    assert body[..k] + body[k..] == body;
    assert Interfaces([TransactionInterface]) == 1;
  }

  // ---------------------------------------------------------------------
  // addFontLoading

  /** `const [fontsLoaded] = useFonts({...});` with the font table opaque. */
  const FontLoadingDecl: Stmt :=
    VarDecl(Const, [Declarator(PArray([PIdent("fontsLoaded")]), Some(Call(Ident("useFonts"), [FontTable])))], false)

  /** A function declaration whose name is `WalletScreen` or `Balance`. */
  predicate IsFontTarget(s: Stmt) {
    s.FuncDecl? && s.id.Some? && (s.id.value == "WalletScreen" || s.id.value == "Balance")
  }

  /** The guard as written: a declaration in the body has a declarator whose
      binding is the plain identifier `fontsLoaded`. */
  predicate HasFontsLoadedAsWritten(body: seq<Stmt>) {
    exists i, j :: 0 <= i < |body| && body[i].VarDecl? && 0 <= j < |body[i].declarations| &&
                   body[i].declarations[j].id == PIdent("fontsLoaded")
  }

  /** One statement under `addFontLoading` as written. */
  function LoadFontsAsWritten(s: Stmt): Stmt {
    if IsFontTarget(s) && !HasFontsLoadedAsWritten(s.body) then
      FuncDecl(s.id, s.params, [FontLoadingDecl] + s.body, s.exportKind)
    else s
  }

  /** `addFontLoading` as written: reading `node.id.name` of a function
      declaration without a name (`export default function () {}`) throws. */
  function FontLoadingAsWritten(body: seq<Stmt>): (r: Result<seq<Stmt>, ConvertError>)
    ensures r.Err? <==> exists i :: 0 <= i < |body| && body[i].FuncDecl? && body[i].id.None?
    ensures r.Ok? ==> |r.value| == |body| && forall i :: 0 <= i < |body| ==> r.value[i] == LoadFontsAsWritten(body[i])
  {
    if exists i :: 0 <= i < |body| && body[i].FuncDecl? && body[i].id.None? then Err(AnonymousFunction)
    else Ok(seq(|body|, i requires 0 <= i < |body| => LoadFontsAsWritten(body[i])))
  }

  /** The guard misses the binding the pass itself inserts: a component that
      already loads its fonts with `const [fontsLoaded] = useFonts(...)`
      gets a second declaration of `fontsLoaded`. */
  lemma RepeatedFontLoading()
    ensures var component := FuncDecl(Some("Balance"), [], [FontLoadingDecl], NotExported);
      FontLoadingAsWritten([component]) ==
        Ok([FuncDecl(Some("Balance"), [], [FontLoadingDecl, FontLoadingDecl], NotExported)])
  {
    var component := FuncDecl(Some("Balance"), [], [FontLoadingDecl], NotExported);
    assert !HasFontsLoadedAsWritten(component.body);
    assert [FontLoadingDecl] + [FontLoadingDecl] == [FontLoadingDecl, FontLoadingDecl];
    var r := FontLoadingAsWritten([component]);
    assert r.Ok? && |r.value| == 1 && r.value[0] == LoadFontsAsWritten(component);
    assert LoadFontsAsWritten(component) == FuncDecl(Some("Balance"), [], [FontLoadingDecl, FontLoadingDecl], NotExported);
    assert r.value == [r.value[0]];
  }

  /** An anonymous default-exported function stops the whole run. */
  lemma AnonymousCrash()
    ensures FontLoadingAsWritten([FuncDecl(None, [], [], DefaultExport)]) == Err(AnonymousFunction)
  {
    assert [FuncDecl(None, [], [], DefaultExport)][0].id.None?;
  }

  /** `p` binds the name `n`, at any depth of a destructuring pattern. */
  predicate Binds(p: Pattern, n: string)
    decreases p
  {
    match p
    case PIdent(name) => name == n
    case PArray(elements) => exists k :: 0 <= k < |elements| && Binds(elements[k], n)
    case PObject(props) => exists k :: 0 <= k < |props| && Binds(props[k].value, n)
  }

  /** The guard as intended: some declaration in the body binds `fontsLoaded`. */
  predicate HasFontsLoaded(body: seq<Stmt>) {
    exists i, j :: 0 <= i < |body| && body[i].VarDecl? && 0 <= j < |body[i].declarations| &&
                   Binds(body[i].declarations[j].id, "fontsLoaded")
  }

  /** One statement under the corrected pass. */
  function LoadFonts(s: Stmt): (r: Stmt)
    ensures IsFontTarget(s) ==> IsFontTarget(r) && r.id == s.id && HasFontsLoaded(r.body)
    ensures IsFontTarget(s) && !HasFontsLoaded(s.body) ==>
      r == FuncDecl(s.id, s.params, [FontLoadingDecl] + s.body, s.exportKind)
    ensures !IsFontTarget(s) || HasFontsLoaded(s.body) ==> r == s
  {
    if IsFontTarget(s) && !HasFontsLoaded(s.body) then
      var body := [FontLoadingDecl] + s.body;
      assert Binds(body[0].declarations[0].id, "fontsLoaded") by {
        assert body[0].declarations[0].id.elements[0] == PIdent("fontsLoaded");
      }
      FuncDecl(s.id, s.params, body, s.exportKind)
    else s
  }

  /** `addFontLoading` with the guard recognising any binding of
      `fontsLoaded` and with nameless functions skipped. */
  function FontLoading(body: seq<Stmt>): (r: seq<Stmt>)
    ensures |r| == |body|
    ensures forall i :: 0 <= i < |body| ==> r[i] == LoadFonts(body[i])
  {
    seq(|body|, i requires 0 <= i < |body| => LoadFonts(body[i]))
  }

  /** Each `WalletScreen`/`Balance` component binds `fontsLoaded` afterwards,
      every other statement (nameless functions included) is unchanged, and
      running the pass again changes nothing. */
  lemma FontLoadingIdempotent(body: seq<Stmt>)
    ensures FontLoading(FontLoading(body)) == FontLoading(body)
    ensures forall i :: 0 <= i < |body| && IsFontTarget(body[i]) ==> HasFontsLoaded(FontLoading(body)[i].body)
  {
    var once := FontLoading(body);
    forall i | 0 <= i < |body| ensures LoadFonts(once[i]) == once[i] {
      if IsFontTarget(body[i]) {
        assert HasFontsLoaded(once[i].body);
      }
    }
  }

  /** The corrected pass agrees with the one as written wherever the written
      one succeeds and the target components do not already destructure
      `fontsLoaded`. */
  lemma FontLoadingAgrees(body: seq<Stmt>)
    requires FontLoadingAsWritten(body).Ok?
    requires forall i :: 0 <= i < |body| && IsFontTarget(body[i]) ==>
      (HasFontsLoaded(body[i].body) <==> HasFontsLoadedAsWritten(body[i].body))
    ensures FontLoadingAsWritten(body).value == FontLoading(body)
  {
    forall i | 0 <= i < |body| ensures LoadFontsAsWritten(body[i]) == LoadFonts(body[i]) {
    }
  }
}
