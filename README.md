# React-to-Expo converter, modelled in Dafny

The converter (`index.js`) reads a React web component, parses it with
Babel, rewrites the syntax tree so that it runs under Expo / React Native,
and prints it again. This project models the rewrite passes over a small
syntax tree of its own and proves what each pass guarantees.

The passes run in this order (`index.js:607-628`):

1. One walk over the whole tree. At every node it reaches it applies:
   - the import rewrite (`transformImports`) to import declarations;
   - the JSX rewrite (`transformJSX`) to elements;
   - the hook rewrite (`transformHooks`) to variable declarators;
   - the `localStorage` rewrite (`replaceLocalStorage`) to calls.
2. `generateStyleSheet`, built on `transformStyleObjectInAST`.
3. `addAdditionalImports`.
4. `addTypeInterfaces`.
5. `addFontLoading`.
6. `collectUsedReactNativeComponents`, then `ensureReactNativeImports`.

## How the model is built

- `Ast` holds the syntax tree as datatypes:
  - import declarations and their specifiers;
  - variable and function declarations;
  - statements and expressions;
  - JSX elements with attributes and an optional closing tag;
  - fragments and children.
- A JavaScript object built by assignment is a list of key/value pairs. `Objects.Upsert` writes a key: a key already there keeps its place, and a new key goes at the end.
- Babel's traversal is a family of recursive functions over the tree, in module `Traversal`.
  - Each per-node rewrite is a pure node-to-node function: `TransformImport`, `TransformElement`, `Hook` and `CallRewrite`.
  - An exception the converter would throw is an `Err` result.
- The program body (`ast.program.body`) is the field `body` of the class `Converter.Program`.
  - Every pass is a method of that class that reassigns `body`.
  - Each method is proved equal to a specification function of the old body.
  - The properties of those functions are then proved as lemmas.
- The loops of the source stay loops:
  - the style transformers (`index.js:83-145`);
  - the property loop of `generateStyleSheet`;
  - the collector's `Set`;
  - the push loop of `ensureReactNativeImports`.

  Each loop's invariant ties the loop to its specification function.
- Style values follow the source's classification (`index.js:294-311`):
  - a string;
  - a number, where `parseFloat`'s result is `Finite(real)` or `NaN`;
  - an expression node;
  - `null`.
- `Numbers.ParseFloat` reads optional leading white space, an optional sign, digits, and an optional fraction.

## Model

| member | source | states |
|---|---|---|
| Strings.Split | index.js:209 | `split(' ')` on a string: one part more than there are separators, no part holds the separator, and joining the parts gives the string back |
| Strings.SplitJoin | index.js:185 | splitting a joined list of separator-free parts gives the parts back |
| Strings.Capitalize | index.js:213 | `charAt(0).toUpperCase() + slice(1)`: same length, first character upper-cased (ASCII letters), the rest unchanged |
| Strings.RemoveFirst | index.js:96 | `replace('px', '')` removes the first occurrence only, and leaves a string without one unchanged |
| Strings.RemoveFirstOfSuffix | index.js:126 | removing the first `px` from `d + "px"` gives `d` when `d` holds no `p` |
| Numbers.ParseDigits | index.js:126 | `parseFloat` of a digit string is that decimal number |
| Objects.Upsert | index.js:108 | assigning `obj[k] = v`: the key order is unchanged when `k` is present and `k` is appended otherwise; `k` reads `v` and every other key reads as before |
| Objects.UpsertDistinct | index.js:127 | an object built by assignments never holds a key twice |
| Imports.RouterSpecs | index.js:155-161 | the `react-router-dom` specifiers are kept one for one, with `useNavigate` replaced by `useRouter`, and no `useNavigate` is left |
| Imports.LastTwo | index.js:185 | `slice(-2)`: the last two parts, or all of them when there are fewer, and they end the list |
| Imports.TransformImport | index.js:148-188 | the rule table, first match wins. `react` is left alone. `react-router-dom` becomes `expo-router` with the rewritten specifiers. A `.css` import (and only that) is removed. A `react-native` import gets `StyleSheet` appended exactly when it is missing. An `.svg` import with no specifier throws, and that is the only error. One with a specifier becomes a single default import of the first specifier's local name, from `../assets/images/<last two segments>`. Anything else is unchanged. No result is a `.css` or router import |
| Imports.SvgTailShape | index.js:185 | the kept tail ends the original path and holds at most one `/`, none when the path had none, and it starts at a segment boundary |
| Imports.SvgPathNotCss | index.js:164-187 | a rewritten `.svg` path ends in `.css` only if the original did, so the rewrite never creates an import the `.css` rule would have removed |
| Markup.Retag | index.js:194-206 | a mapped tag becomes its React Native name and an unmapped one is unchanged; no mapped tag is left afterwards |
| Markup.TagForInjective | index.js:194-200 | two different mapped tags never get the same name |
| Markup.ClassStyle | index.js:209-221 | one token gives `styles.X` with the token capitalised; N tokens give an array of N references in token order |
| Markup.ClassStyleCount | index.js:209-221 | the number of references equals the number of spaces plus one, and the tokens rejoin into the attribute text |
| Markup.ClassStyleOfJoin | index.js:209-221 | for two or more space-free class names joined by spaces, the array holds one reference per name, capitalised, in order |
| Markup.RewriteAttr | index.js:207-244 | `className` becomes `style`, and throws when its value is not a string. `onClick` becomes `onPress` only on an original `button`, and `onChange` becomes `onChangeText` only on an original `input`, with the value kept. Everything else is unchanged |
| Markup.RewriteAttrs | index.js:207-244 | the attribute list keeps its length and order, element by element, and fails exactly when one attribute fails |
| Markup.OnClickOnlyOnButton | index.js:227-234 | `onClick` is renamed exactly when the tag was `button` |
| Markup.OnChangeOnlyOnInput | index.js:235-242 | `onChange` is renamed exactly when the tag was `input` |
| Markup.TransformElement | index.js:191-244 | the opening tag is retagged. A present closing tag is retagged to the same name, and an absent one stays absent. The attributes are rewritten and the children kept. An element whose tags matched still has matching tags |
| Markup.CardExample | index.js:207-226 | `<div className="card wide">` becomes a `View` styled by `[styles.Card, styles.Wide]` |
| StyleRules.CamelCase | index.js:86 | the regex `-([a-z])` rewrite: no dash stays before a lower-case letter, and a key with no dash before a lower-case letter is unchanged |
| StyleRules.CamelCaseDash | index.js:86 | the first `-x` with `x` lower-case becomes `X`, the text before it is kept and the text after it is rewritten in turn; with the identity case of `CamelCase` this fixes the result for every key |
| StyleRules.ResolveKey | index.js:87-94 | a key is dropped exactly when it is not in the rename table (or maps to `''`) and its camelCase form is not allowed. Otherwise it resolves to the renamed or camelCased key. It is never `background`, and it is always one of the names the table and the allow-list can produce |
| StyleRules.TransformStyleObjectInAST | index.js:114-145 | the loop computes the fold of the per-entry step over the entries in order |
| StyleRules.TransformStyleObject | index.js:83-111 | the plain twin's loop computes its own fold |
| StyleRules.TwinsAgree | index.js:83-145 | the two transformers give the same object for every input |
| StyleRules.AstSpecShape | index.js:114-145 | the output has no duplicate key and no `background` key, and every entry is one the rules emit (a resolved name, or `flex: 1` from a viewport unit) |
| StyleRules.PxEntry | index.js:125-128 | a `px` string is stored under its resolved key as `parseFloat` of the string with `px` removed |
| StyleRules.PxDigits | index.js:125-128 | for a digit string `d`, `d + "px"` is stored as the number `d` |
| StyleRules.ViewportHeight | index.js:130-133 | a `vh` string on a key resolving to `height` writes `flex: 1` and nothing under `height` |
| StyleRules.ViewportWidth | index.js:134-137 | a `vw` string on a key resolving to `width` writes `flex: 1` and nothing under `width` |
| StyleRules.ViewportElsewhere | index.js:130-140 | a `vh` string on a key not resolving to `height`, or a `vw` string on one not resolving to `width`, is carried through unchanged |
| StyleRules.DroppedEntry | index.js:119-121 | an entry whose key does not resolve leaves the output as it was |
| StyleRules.LaterEntryKeeps | index.js:127-142 | an entry that does not resolve to the resolved name `k` leaves what `k` reads unchanged |
| StyleRules.Idempotent | index.js:114-145 | a second run changes nothing whenever the first output holds neither `flex` nor `justifyItems`, the two names the rules can emit but not resolve again |
| StyleRules.NotIdempotent | index.js:114-145 | in general it is not idempotent: `height: 100vh` gives `flex: 1`, which a second run drops |
| StyleRules.FlexRule | index.js:117-121 | `flex` is neither renamed nor allowed, so it is dropped |
| StyleRules.BoxRule | index.js:114-145 | `background-color: #fff; padding: 10px` gives `backgroundColor: '#fff', padding: 10` |
| Sheets.LastStyles | index.js:271-278 | the object the traversal keeps is present exactly when some declarator is a `styles` object, and then it is the last one |
| Sheets.KeepDecls | index.js:275 | the kept declarators are exactly the ones that are not `styles` objects, in their order, which is the same as an independently defined filter |
| Sheets.ExtractStyles | index.js:270-278 | the loop removes every `styles` object declarator and returns the object the traversal keeps |
| Sheets.ExtractDecls | index.js:272-276 | over one declaration's declarators, the loop keeps the others and returns the last `styles` object |
| Sheets.RemoveStylesShape | index.js:273-275 | no `styles` object is left anywhere in the body, and the statements other than variable declarations keep their order |
| Sheets.RemoveStylesKept | index.js:273-275 | the body left is every statement except declarations made only of `styles` objects, in order; each one keeps its declarators other than the `styles` objects, and a statement without a `styles` object is unchanged (`Sheets.Clean`) |
| Sheets.Clean | index.js:273-275 | taking out the `styles` objects changes only the declarator list of a declaration, to the filtered list, and leaves a statement without one unchanged |
| Sheets.NoStylesKept | index.js:269-279 | a body without a `styles` object keeps every statement, and nothing is found |
| Sheets.ValueOf | index.js:293-311 | a string literal reads as its text and a number literal as its value; identifiers, templates, binary, conditional, logical, call and function expressions stay as nodes; anything else is `null` |
| Sheets.CollectRules | index.js:280-321 | the loop over the properties builds the fold that turns each object-valued rule into its transformed style and keeps it only when it is non-empty |
| Sheets.SheetRulesShape | index.js:316-319 | rule names are distinct, and every kept rule is non-empty, has distinct keys and has no `background` key |
| Sheets.SheetRulesInOrder | index.js:281-321 | when no two kept rules share a name, the sheet holds the transformed non-empty rules in their original order |
| Sheets.StyleObject | index.js:322-334 | one property per entry, in order, keyed by the entry's name |
| Sheets.ReadBack | index.js:290-334 | a style with distinct keys and readable values (numbers, strings, `null`, carried nodes), written as an object and read back the way the generator reads a `styles` object, is the style again |
| Sheets.EmptySheet | index.js:350-361 | with no `styles` object, or none of its rules kept, the output is the rest of the body followed by `const styles = StyleSheet.create({})` |
| Sheets.UndefinedDropped | index.js:292 | a key that is neither an identifier nor a string reads as `undefined`, which the transformer drops |
| Traversal.CallRewrite | index.js:246-253 | inside JSX, a call of `navigate` gets the callee `router.navigate`. `localStorage.getItem` becomes `SecureStore.getItem`. Every other callee is unchanged, and no `localStorage.getItem` callee is left |
| Traversal.Hook | index.js:259-266 | a declarator initialised by `useNavigate(...)` becomes `router = useRouter(...)` with the same arguments (the name changes only for a plain identifier). Every other declarator is unchanged, and none still calls `useNavigate` |
| Traversal.RwExpr | index.js:607-620 | the walk of an expression succeeds exactly when it holds no `className` that is not a string and no `.svg` import without a specifier (`ConvertibleExpr`); no other node throws. After the walk, no call the rewrites would still change is left. Identifiers and literals are unchanged. Every other node keeps its kind and its own fields, and its parts are the walked parts: a member walks its object and property, an arrow its result, a call its arguments, and its callee unless a rewrite replaced it. The walk never creates a `localStorage.getItem` member |
| Traversal.RwMarkup | index.js:191-256 | an element or fragment used as an expression walks without error exactly when it is convertible; it keeps its kind, with the element or the children walked |
| Traversal.RwElement | index.js:191-256 | a walked element succeeds exactly when every `className` in it is a string and nothing inside throws. It has the rewritten tag names and the attribute list `RwAttrs` gives for the original tag. Its children are the walked children, inside JSX. Matching tags stay matched, and nothing is left to rewrite |
| Traversal.RwAttr | index.js:207-244 | an attribute walks without error exactly when it is a `className` with a string value, or another attribute whose expression value (if any) walks. A `className` attribute gets exactly the attribute rewrite. Any other attribute gets the name the attribute rewrite gives it, a string value kept, and an expression value walked inside JSX. A spread walks its argument. Nothing is left to rewrite |
| Traversal.RenameThenWalk | index.js:207-245 | walking an attribute is renaming it, then walking its value |
| Traversal.HookThenWalk | index.js:259-266 | walking a declarator is the hook rewrite, then walking its initialiser |
| Traversal.RwStmt | index.js:607-620 | a statement walks without error exactly when it is no `.svg` import without a specifier and holds no `className` that is not a string (`ConvertibleStmt`). An import goes through the import rewrite, and the statement is removed exactly when it is a `.css` import. Any other statement keeps its kind and its own fields (declaration kind, export, function name and parameters), and its parts are walked. Interfaces and empty `return`s are unchanged. Nothing is left to rewrite |
| Traversal.RwStmts | index.js:607-620 | the walk succeeds exactly when every statement is convertible, so a program fails only at a non-string `className` or an `.svg` import without a specifier. The result is the walked statements in their order, with the removed imports dropped, and every statement left is done |
| Traversal.InertExprKept | index.js:607-620 | an expression with no call, no JSX and no import is left exactly as it was |
| Traversal.InertStmtsKept | index.js:607-620 | a statement list with no call, no JSX and no import is left exactly as it was |
| Traversal.NavigateInsideJsx | index.js:245-255 | inside an element, `navigate(...)` becomes `router.navigate(...)` |
| Traversal.NavigateOutsideJsx | index.js:245-255 | outside every element, `navigate(...)` is kept |
| Traversal.DanglingNavigate | index.js:245-266 | a top-level `navigate()` call after `const navigate = useNavigate()` keeps calling `navigate`, which the hook rewrite has renamed to `router` |
| Traversal.StorageCall | index.js:513-521 | `localStorage.getItem(...)` becomes `SecureStore.getItem(...)` with its arguments walked |
| Traversal.ClassStyleDone | index.js:207-226 | the `style` value written for a `className` has nothing left to rewrite |
| Injectors.AdditionalImportsShape | index.js:365-392 | afterwards the body imports from both `expo-secure-store` and `expo-font`, and the old body ends it whole. Each missing import, and only a missing one, is put in front. With both missing, `expo-font` comes first and `expo-secure-store` second. With both present, nothing changes |
| Injectors.AdditionalImportsIdempotent | index.js:365-392 | a second run changes nothing |
| Injectors.LastImportIndex | index.js:453-458 | the index of the last import, or -1 when there is none |
| Injectors.InterfaceAfterImports | index.js:453-459 | the interface goes right after the last import (at the front when there is none); the statements before and after keep their order, and no import follows it |
| Injectors.InterfaceEachRun | index.js:395-460 | every run adds one more `Transaction` interface |
| Injectors.FontLoadingAsWritten | index.js:463-510 | as written, any nameless function declaration throws. Otherwise each `WalletScreen`/`Balance` declaration whose body has no declarator named plainly `fontsLoaded` gets the `useFonts` declaration in front |
| Injectors.RepeatedFontLoading | index.js:467-470 | as written, a component that already has `const [fontsLoaded] = useFonts(...)` gets a second one |
| Injectors.AnonymousCrash | index.js:466 | as written, `export default function () {}` stops the run |
| Injectors.LoadFonts | index.js:466-506 | a `WalletScreen`/`Balance` declaration with no `fontsLoaded` binding gets the `useFonts` declaration in front of its old body, with name, parameters and export kept. One that already binds it, and every other statement, is unchanged |
| Injectors.FontLoading | index.js:463-510 | the pass maps each top-level statement through the corrected font loading |
| Injectors.FontLoadingIdempotent | index.js:463-510 | every target binds `fontsLoaded` afterwards, and a second run changes nothing |
| Injectors.FontLoadingAgrees | index.js:463-510 | when the pass as written does not throw and both guards agree on every target, the corrected pass gives the same body |
| Reconciler.Dedup | index.js:525-544 | a `Set` built by adding names in order: each name once, exactly the names added, in first-added order |
| Reconciler.DedupPrefix | index.js:525-544 | later additions never move names already in the set |
| Reconciler.CollectUsed | index.js:524-546 | the loop returns the names recorded during the walk, each once, in first-recorded order, and all of them are recognised tags or `StyleSheet` |
| Reconciler.TagEvents | index.js:528-534 | a recognised plain tag records itself and then `StyleSheet`; any other tag records nothing |
| Reconciler.IdentEvents | index.js:536-543 | the identifiers `Alert` and `FlatList` record themselves; others record nothing |
| Reconciler.FirstImportFrom | index.js:551-558 | the position of the first `react-native` import, before which there is none, or none at all |
| Reconciler.EnsureImportsUsed | index.js:549-582 | afterwards the first `react-native` import names every used component. A body without one gets one in front holding exactly the used names. Otherwise only that declaration changes, and its old specifiers stay in front |
| Reconciler.CompletedDistinct | index.js:569-581 | the names pushed are missing ones, distinct among themselves, so no duplicate named specifier is introduced |
| Reconciler.EnsureNoDuplicates | index.js:549-582 | with distinct used names and an import without duplicates, the result has none |
| Reconciler.EnsureIdempotent | index.js:549-582 | a second run with the same names changes nothing |
| Converter.Program.constructor | index.js:602-605 | the program holds the parsed body |
| Converter.Program.Traverse | index.js:607-620 | the body becomes the walked body; a walk that throws reports the error and leaves the body unchanged |
| Converter.Program.GenerateStyleSheet | index.js:269-362 | the `styles` objects are removed and the generated sheet is pushed at the end |
| Converter.Program.AddAdditionalImports | index.js:365-392 | the loop looks for both imports, then unshifts each missing one, the font import last |
| Converter.Program.AddTypeInterfaces | index.js:395-460 | the loop finds the last import, and the interface is spliced in after it |
| Converter.Program.AddFontLoading | index.js:463-510 | the body becomes the corrected font-loading pass of the old body |
| Converter.Program.EnsureReactNativeImports | index.js:549-582 | the search stops at the first `react-native` import. With none, a new one is unshifted; otherwise the missing names are pushed onto its specifiers |
| Converter.Program.Convert | index.js:607-628 | the whole pass sequence: an error from the walk is reported with the body left as it was, and otherwise the body becomes the finished program |
| Converter.ConvertSpec | index.js:607-628 | with the corrected font loading, the conversion succeeds exactly when every statement is convertible: it fails only at a non-string `className` or an `.svg` import without a specifier |
| Converter.ConvertAsWritten | index.js:463-628 | as written, the conversion fails exactly when some statement is not convertible or some top-level function declaration has no name (`addFontLoading` reads `id.name`) |
| Converter.WalkKeepsAnonymous | index.js:607-620 | the walk keeps every function declaration's name and makes no other statement a function declaration, so a nameless one survives it exactly when there was one |
| Converter.InjectedKeepsAnonymous | index.js:263-459 | `generateStyleSheet`, `addAdditionalImports` and `addTypeInterfaces` neither add nor remove a nameless function declaration |
| Converter.CollectUsedWithSheet | index.js:626-627 | the names given to the reconciler: the collected names and `StyleSheet` |
| Converter.PushMissing | index.js:569-581 | the loop pushes, in collection order, each used name the existing specifiers do not import |
| Converter.Used | index.js:527-547 | `StyleSheet` and exactly the recorded names, each once |
| Converter.SheetIsLast | index.js:342-349 | the last statement of the converted program is the generated sheet |
| Converter.ExpoImportsPresent | index.js:365-392 | the converted program imports from `expo-font` and `expo-secure-store` |
| Converter.ReactNativeImportComplete | index.js:549-582 | the first `react-native` import of the converted program names `StyleSheet` and every recorded component |
| Converter.InterfacePlaced | index.js:453-459 | the converted program holds the `Transaction` interface right after an import, with no import after it |
| Converter.StyleSheetUnimportedAsWritten | index.js:524-567 | as written (font loading as written, which must not throw): a program with no `react-native` import in which no `StyleSheet` is recorded gets a new `react-native` import without `StyleSheet`, while its last statement calls `StyleSheet.create` |
| Converter.EmptyModuleAsWritten | index.js:524-567 | as written, an empty module converts to an import of `react-native` naming nothing, the two Expo imports, the interface, and `StyleSheet.create({})` |
| Converter.CorrectedAgrees | index.js:463-582 | when the font loading as written does not throw, both font guards agree on every target, and the collector records `StyleSheet`, the corrected passes and the ones as written give the same program |

## Left out

- Reading, checking and writing files, and the command line (`index.js:584-601, 630-632`). Babel's `parse` and `generate` are replaced by the model's datatypes. `import-converter.js` and `style-converter.js` are command-line wrappers around functions `index.js` does not export; they are not part of this model.
- The contents of the `Transaction` interface (`index.js:396-452`) and of the `useFonts({...})` font table (`index.js:472-504`) are opaque marker values. Only where they are inserted is modelled. Type declarations are kept as opaque names.
- `Numbers.ParseFloat`: exponents, `Infinity` and binary floating-point rounding are not modelled. Values are exact decimals.
- `Strings.Upper`: only ASCII letters are upper-cased. Other Unicode case mappings are not modelled.
- Objects are ordered lists of keys. JavaScript's hoisting of integer-like keys to the front and inherited prototype keys are not modelled. So `cssToReactNativeMap['constructor']` and `tagMapping[tagName]` (index.js:201) for a tag such as `<constructor>` find nothing here, where JavaScript finds the inherited `Object` function. So `StyleRules.ResolveKey` drops a `constructor` style key (index.js:87-88, 118-119), which the source keeps under a new name. `Markup.Retag` leaves a `<constructor>` tag unchanged, where the source replaces its name.
- Updates in place are modelled on values: the walk returns a new tree instead of mutating nodes, so aliasing between nodes is not captured.
- A run that throws leaves the body as it was. The source would have mutated the tree up to the throw, but the program then stops without writing anything.
- `generateStyleSheet` and `addFontLoading` look for `styles` declarators and `WalletScreen`/`Balance` function declarations among the top-level statements only. The source's traversal also finds them nested inside other functions.
- The walk visits specifiers, patterns and child nodes in Babel's child order as the model lays them out. Namespaced JSX names (`a:b`) and member-expression tags are carried as non-plain names that no rewrite touches. Pattern default values are not modelled.
- Type syntax is not modelled. Type arguments (`useRef<FlatList>(null)`), type annotations (`let a: Alert`) and the bodies of interfaces and type aliases are dropped, and interface declarations are opaque names. In the source, Babel's `Identifier` visitor in `collectUsedReactNativeComponents` (`index.js:536-543`) also reaches identifiers inside them. So a name used only in a type can be recorded there but not here.
- Object methods (`{ m() {} }`) are not a kind of object member here. `generateStyleSheet` skips such entries in the `styles` object and in its rules (`index.js:282, 290`), so a `styles` object holding one cannot be represented.
- Identifiers inside import specifiers and patterns are visited by the collector, as Babel does. JSX identifiers are not, because Babel visits them as `JSXIdentifier`, not `Identifier`.
- CollectUsedWithSheet: adds `StyleSheet` to the names `collectUsedReactNativeComponents` returns before they reach `ensureReactNativeImports` (`index.js:626-627`). This is the correction of the third finding below; `Converter.UsedAsWritten` keeps the names as written.
- `Converter.ConvertSpec`, `Converter.Program.AddFontLoading` and `Converter.Program.Convert` use the corrected font loading (`Injectors.FontLoading`) and the corrected reconciler input (`Converter.Used`). So `Converter.ConvertSpec` does not fail at a nameless function declaration, where index.js:466 throws. The behaviour as written is kept beside them (`Converter.ConvertAsWritten`, `Converter.FinishAsWritten`), as described under Findings.
- `StyleRules.Idempotent` holds only for settled objects. The transformer is not idempotent in general (`StyleRules.NotIdempotent`). The `Transaction` interface is added again on every run (`Injectors.InterfaceEachRun`).

## Findings

| source | as written | input that shows it | evidently intended | confidence | as-written member | corrected member |
|---|---|---|---|---|---|---|
| index.js:467-470 | the guard looks for a declarator whose `id.name` is `fontsLoaded`, but the pass itself inserts `const [fontsLoaded] = ...`, an array pattern with no `name` | a `Balance` component whose body already starts with `const [fontsLoaded] = useFonts({...})` | any binding of `fontsLoaded` counts, so the pass adds at most one declaration and is idempotent | not executed | Injectors.RepeatedFontLoading | Injectors.FontLoadingIdempotent |
| index.js:466 | `path.node.id.name` is read for every function declaration | `export default function () {}` (its `id` is `null`), which throws `TypeError` | nameless functions are skipped | not executed | Injectors.AnonymousCrash | Injectors.FontLoading |
| index.js:524-567 | `StyleSheet` is recorded only next to a recognised tag, yet `generateStyleSheet` always emits `StyleSheet.create` | an empty module: the output has `import "react-native";`, a `react-native` import with no bindings, and calls `StyleSheet.create({})` | `StyleSheet` is always among the imported names | not executed | Converter.StyleSheetUnimportedAsWritten | Converter.ReactNativeImportComplete |
