/** The import rewriter, `transformImports`: a first-match rule table on an
    import declaration's module source. */
module Imports {
  import opened Wrappers
  import opened Strings
  import opened Ast

  /** Some named specifier imports `name`. */
  predicate HasNamed(specs: seq<Specifier>, name: string) {
    exists i :: 0 <= i < |specs| && specs[i].NamedSpec? && specs[i].imported == name
  }

  /** A `useNavigate` specifier becomes `{ useRouter }`; any other is kept. */
  function RouterSpec(spec: Specifier): (r: Specifier)
    ensures r.NamedSpec? && r.imported == "useNavigate" ==> false
    ensures !(spec.NamedSpec? && spec.imported == "useNavigate") ==> r == spec
  {
    if spec.NamedSpec? && spec.imported == "useNavigate" then Named("useRouter") else spec
  }

  /** The specifiers of a `react-router-dom` import, mapped one by one. */
  function RouterSpecs(specs: seq<Specifier>): (r: seq<Specifier>)
    ensures |r| == |specs|
    ensures forall i :: 0 <= i < |r| ==> r[i] == RouterSpec(specs[i])
    ensures !HasNamed(r, "useNavigate")
  {
    seq(|specs|, i requires 0 <= i < |specs| => RouterSpec(specs[i]))
  }

  /** `array.slice(-2)`: the last two elements, or all of them when fewer. */
  function LastTwo<T>(parts: seq<T>): (r: seq<T>)
    ensures |r| == if |parts| < 2 then |parts| else 2
    ensures parts == parts[..|parts| - |r|] + r
  {
    if |parts| < 2 then parts else parts[|parts| - 2..]
  }

  /** The asset path an `.svg` source is redirected to. */
  function SvgAssetPath(source: string): string {
    "../assets/images/" + SvgTail(source)
  }

  /** `source.split('/').slice(-2).join('/')`. */
  function SvgTail(source: string): string {
    Join(LastTwo(Split(source, '/')), '/')
  }

  /** `transformImports` on one import declaration: the rewritten declaration,
      None when the declaration is removed, or the error the source throws
      when an `.svg` import has no specifier to read a name from. */
  function TransformImport(imp: Stmt): (r: Result<Option<Stmt>, ConvertError>)
    requires imp.Import?
    ensures imp.source == "react" ==> r == Ok(Some(imp))
    ensures imp.source == "react-router-dom" ==>
      r == Ok(Some(Import("expo-router", RouterSpecs(imp.specifiers))))
    ensures r == Ok(None) <==>
      imp.source != "react" && imp.source != "react-router-dom" && EndsWith(imp.source, ".css")
    ensures imp.source == "react-native" ==>
      r.Ok? && r.value.Some? && r.value.value.Import? && r.value.value.source == "react-native" &&
      HasNamed(r.value.value.specifiers, "StyleSheet") &&
      r.value.value.specifiers == imp.specifiers +
        (if HasNamed(imp.specifiers, "StyleSheet") then [] else [Named("StyleSheet")])
    ensures r.Err? <==>
      !EndsWith(imp.source, ".css") && imp.source != "react-native" &&
      EndsWith(imp.source, ".svg") && imp.specifiers == []
    ensures r.Ok? && r.value.Some? && EndsWith(imp.source, ".svg") &&
            !EndsWith(imp.source, ".css") && imp.source != "react-native" ==>
      r.value.value == Import(SvgAssetPath(imp.source), [DefaultSpec(imp.specifiers[0].local)])
    ensures (!EndsWith(imp.source, ".css") && !EndsWith(imp.source, ".svg") &&
             imp.source !in {"react", "react-router-dom", "react-native"}) ==> r == Ok(Some(imp))
    ensures r.Ok? && r.value.Some? ==> r.value.value.Import? && !EndsWith(r.value.value.source, ".css")
    ensures r.Ok? && r.value.Some? ==> r.value.value.source != "react-router-dom"
    ensures r.Ok? && r.value.Some? && r.value.value.source == "react-native" ==> imp.source == "react-native"
  {
    var source := imp.source;
    if source == "react" then
      assert !EndsWith(source, ".css");
      Ok(Some(imp))
    else if source == "react-router-dom" then
      assert !EndsWith(source, ".css") && !EndsWith("expo-router", ".css");
      Ok(Some(Import("expo-router", RouterSpecs(imp.specifiers))))
    else if EndsWith(source, ".css") then Ok(None)
    else if source == "react-native" then
      assert !EndsWith(source, ".svg");
      var specs := if HasNamed(imp.specifiers, "StyleSheet") then imp.specifiers
                   else imp.specifiers + [Named("StyleSheet")];
      assert !HasNamed(imp.specifiers, "StyleSheet") ==> specs[|imp.specifiers|] == Named("StyleSheet");
      Ok(Some(Import(source, specs)))
    else if EndsWith(source, ".svg") then
      if imp.specifiers == [] then Err(SvgWithoutSpecifier)
      else
        SvgPathNotCss(source);
        assert SvgAssetPath(source)[0] == '.';
        Ok(Some(Import(SvgAssetPath(source), [DefaultSpec(imp.specifiers[0].local)])))
    else Ok(Some(imp))
  }

  /** Where the svg tail sits in the source: after the front segments and a
      `/` when there are more than two segments, else it is the source. */
  lemma SvgTailSplit(source: string)
    ensures var parts := Split(source, '/');
      if |parts| > 2 then source == Join(parts[..|parts| - 2], '/') + ['/'] + SvgTail(source)
      else SvgTail(source) == source
  {
    var parts := Split(source, '/');
    if |parts| > 2 {
      var front := parts[..|parts| - 2];
      assert parts == front + LastTwo(parts);
      JoinAppend(front, LastTwo(parts), '/');
    }
  }

  /** The svg tail holds one `/` when the source has any, else none. */
  lemma SvgTailCount(source: string)
    ensures Count(SvgTail(source), '/') == if Count(source, '/') == 0 then 0 else 1
  {
    var parts := Split(source, '/');
    var tail := LastTwo(parts);
    assert forall i :: 0 <= i < |tail| ==> tail[i] == parts[|parts| - |tail| + i];
    CountJoin(tail, '/');
  }

  /** The svg tail is the part of the source after its second-to-last `/`:
      a suffix of the source with at most one `/`, which is the whole source
      or follows a `/`. */
  lemma SvgTailShape(source: string)
    ensures EndsWith(source, SvgTail(source))
    ensures Count(SvgTail(source), '/') == if Count(source, '/') == 0 then 0 else 1
    ensures SvgTail(source) == source || source[|source| - |SvgTail(source)| - 1] == '/'
  {
    SvgTailSplit(source);
    SvgTailCount(source);
    var parts := Split(source, '/');
    if |parts| > 2 {
      var front := Join(parts[..|parts| - 2], '/');
      var tail := SvgTail(source);
      assert source[|front| + 1..] == tail;
      assert source[|front|] == '/';
    }
  }

  /** Putting a directory in front of an ending of `source` cannot make it end
      in `.css` when `source` does not. */
  lemma UnderDirectory(dir: string, tail: string, source: string)
    requires dir != [] && dir[|dir| - 1] == '/' && EndsWith(source, tail)
    ensures EndsWith(dir + tail, ".css") ==> EndsWith(source, ".css")
  {
    var p := dir + tail;
    if |tail| >= 4 {
      assert p[|p| - 4..] == tail[|tail| - 4..] == source[|source| - 4..];
    } else if |p| >= 4 {
      var w := p[|p| - 4..];
      assert w[3 - |tail|] == '/';
      assert w != ".css";
    }
  }

  /** The redirected path never ends in `.css` unless the source did. */
  lemma SvgPathNotCss(source: string)
    ensures EndsWith(SvgAssetPath(source), ".css") ==> EndsWith(source, ".css")
  {
    SvgTailShape(source);
    UnderDirectory("../assets/images/", SvgTail(source), source);
  }
}
