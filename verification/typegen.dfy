/** The import-path rewriter of typegen.ts, which turns the bare module
    specifiers emitted by the type generator into explicit `.ts` paths that
    Deno can load. */
module Typegen {
  import opened Outcomes
  import opened JsSemantics

  /** `countSlashes`: how many '/' characters `s` holds. */
  function CountSlashes(s: string): (count: nat)
    ensures count == multiset(s)['/']
    ensures count <= |s|
  {
    if |s| == 0 then 0
    else
      assert s == [s[0]] + s[1..];
      (if s[0] == '/' then 1 else 0) + CountSlashes(s[1..])
  }

  /** `withThing`: the statement keyword followed by the single-quoted path,
      and a semicolon exactly when `semi` is set. */
  function WithThing(thing: string, s: string, semi: bool): (r: string)
    ensures |r| == |thing| + |s| + 3 + (if semi then 1 else 0)
    ensures r[..|thing|] == thing
    ensures r[|thing|..|thing| + 2] == " '"
    ensures r[|thing| + 2..|thing| + 2 + |s|] == s
    ensures r[|thing| + 2 + |s|] == '\''
    ensures semi <==> r[|r| - 1] == ';'
  {
    thing + " '" + s + "'" + (if semi then ";" else "")
  }

  /** The quoted path can be read back out of a rewritten statement. */
  lemma WithThingInjective(thing: string, s1: string, s2: string, semi: bool)
    requires WithThing(thing, s1, semi) == WithThing(thing, s2, semi)
    ensures s1 == s2
  {
    var r := WithThing(thing, s1, semi);
    assert |s1| == |s2|;
    assert s1 == r[|thing| + 2..|thing| + 2 + |s1|];
  }

  /** Packages whose bare specifier names a directory with an index file. */
  const IndexOnes: set<string> := {
    "@polkadot/rpc-core/types",
    "@polkadot/api-base/types",
    "@polkadot/types-codec",
    "@polkadot/types-codec/types",
    "@polkadot/types/types"
  }

  const InterfacesPrefix: string := "@polkadot/types/interfaces"

  /** A specifier with neither a ".ts" nor a ".js" extension. */
  predicate Bare(imp: string) {
    !EndsWith(imp, ".ts") && !EndsWith(imp, ".js")
  }

  /** The path `replaceImport` puts between the quotes, branch by branch in
      the source's order. */
  function RewritePath(imp: string): (path: string)
    ensures EndsWith(imp, ".ts") ==> path == imp
    ensures !EndsWith(imp, ".ts") && EndsWith(imp, ".js") ==> path == ReplaceFirst(imp, ".js", ".ts")
    ensures Bare(imp) && imp in IndexOnes ==> path == imp + "/index.ts"
    ensures (Bare(imp) && imp !in IndexOnes && StartsWith(imp, InterfacesPrefix) && CountSlashes(imp) == 3)
            ==> path == imp + "/types.ts"
    ensures (Bare(imp) && imp !in IndexOnes && !(StartsWith(imp, InterfacesPrefix) && CountSlashes(imp) == 3))
            ==> path == imp + (if CountSlashes(imp) == 1 && !StartsWith(imp, ".") then "/mod.ts" else ".ts")
    ensures !EndsWith(imp, ".js") || EndsWith(imp, ".ts") ==> EndsWith(path, ".ts")
  {
    if EndsWith(imp, ".ts") then imp
    else if EndsWith(imp, ".js") then ReplaceFirst(imp, ".js", ".ts")
    else if imp in IndexOnes then imp + "/index.ts"
    else
      var slashes := CountSlashes(imp);
      if StartsWith(imp, InterfacesPrefix) && slashes == 3 then imp + "/types.ts"
      else if StartsWith(imp, ".") && slashes == 1 then imp + ".ts"
      else if slashes == 1 then imp + "/mod.ts"
      else imp + ".ts"
  }

  /** `replaceImport(thing, imp, semi = true)`: the keyword, then the
      rewritten path in single quotes, then a semicolon unless `semi` is
      explicitly false. */
  function ReplaceImport(thing: string, imp: string, semi: Option<bool>): (r: string)
    ensures var path := RewritePath(imp);
            && |r| == |thing| + |path| + 3 + (if semi.GetOr(true) then 1 else 0)
            && r[..|thing|] == thing
            && r[|thing|..|thing| + 2] == " '"
            && r[|thing| + 2..|thing| + 2 + |path|] == path
            && r[|thing| + 2 + |path|] == '\''
    ensures semi.None? ==> r[|r| - 1] == ';'
    ensures semi.GetOr(true) <==> r[|r| - 1] == ';'
  {
    WithThing(thing, RewritePath(imp), semi.GetOr(true))
  }

  /** A ".js" specifier whose only ".js" is its extension comes out ending
      in ".ts"... */
  lemma JsExtensionRewritten(imp: string)
    requires EndsWith(imp, ".js") && IndexOf(imp, ".js") == Some(|imp| - 3)
    ensures RewritePath(imp) == imp[..|imp| - 3] + ".ts"
    ensures EndsWith(RewritePath(imp), ".ts")
  {
  }

  /** In "./a.js/b.js" the first ".js" starts at index 3. */
  lemma FirstJsAtThree()
    ensures IndexOf("./a.js/b.js", ".js") == Some(3)
  {
    var imp := "./a.js/b.js";
    assert imp[0] == '.';
    assert imp[1] == '/';
    assert imp[2] == 'a';
    assert imp[3..6] == ".js";
    forall j | 0 <= j < 3 ensures !OccursAt(imp, ".js", j) {
      assert imp[j..j + 3][1] == imp[j + 1];
    }
    IndexOfIsFirstOccurrence(imp, ".js", 3);
  }

  /** ...but `replace` rewrites only the FIRST ".js": a directory named like a
      JavaScript file takes the ".ts" and the real extension stays ".js". */
  lemma JsFirstOccurrenceRewritten()
    ensures RewritePath("./a.js/b.js") == "./a.ts/b.js"
    ensures !EndsWith(RewritePath("./a.js/b.js"), ".ts")
  {
    var imp := "./a.js/b.js";
    assert imp[9] == 'j';
    assert imp[8..] == ".js";
    assert EndsWith(imp, ".js") && !EndsWith(imp, ".ts");
    FirstJsAtThree();
    var path := imp[..3] + ".ts" + imp[6..];
    assert ReplaceFirst(imp, ".js", ".ts") == path;
    assert path == "./a.ts/b.js";
    assert path[9] != 't';
  }
}
