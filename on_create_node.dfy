/**
 * The front-matter side of the plugin (src/on-create-node.ts): a walk over a
 * Markdown node's front matter that rewrites eligible string leaves, chosen by
 * the include and exclude rules matched against the leaf's key path.
 */
module FrontMatter {
  import opened Wrappers
  import opened Platform
  import opened Index

  /**
   * Front-matter data: a string leaf, an object or array (an array is the
   * record of its elements under the keys "0", "1", ...), or any other scalar
   * (number, boolean, null, undefined, ...).
   */
  datatype Data =
    | Text(text: string)
    | Record(fields: seq<(string, Data)>)
    | Scalar

  // ---------------------------------------------------------------------------
  // Accumulated key paths

  /** JavaScript's `Array.prototype.join(",")` on an array of strings (also its `toString`). */
  function JoinWithCommas(xs: seq<string>): string
  {
    if |xs| == 0 then ""
    else if |xs| == 1 then xs[0]
    else JoinWithCommas(xs[..|xs| - 1]) + "," + xs[|xs| - 1]
  }

  /**
   * The entry the reducer pushes for key `current` onto accumulator `acc`:
   * `[acc, current].join(".")` stringifies `acc` with commas before adding
   * `"." + current`.
   */
  function NextPath(acc: seq<string>, current: string): string
  {
    if |acc| > 0 then JoinWithCommas(acc) + "." + current else current
  }

  /** The list `paths` the reducer builds from the key path `keys`. */
  function AccumulatedPaths(keys: seq<string>): (paths: seq<string>)
    ensures |paths| == |keys|
  {
    if keys == [] then []
    else
      var acc := AccumulatedPaths(keys[..|keys| - 1]);
      acc + [NextPath(acc, keys[|keys| - 1])]
  }

  /** The reducer itself: one push per key onto the accumulator. */
  method BuildPaths(keys: seq<string>) returns (paths: seq<string>)
    ensures paths == AccumulatedPaths(keys)
  {
    paths := [];
    var i := 0;
    while i < |keys|
      invariant 0 <= i <= |keys|
      invariant paths == AccumulatedPaths(keys[..i])
    {
      paths := paths + [if |paths| > 0 then JoinWithCommas(paths) + "." + keys[i] else keys[i]];
      assert keys[..i + 1][..i] == keys[..i];
      i := i + 1;
    }
    assert keys[..|keys|] == keys;
  }

  /** The paths of a prefix of the keys are the prefix of the paths. */
  lemma {:induction false} PathsOfPrefix(keys: seq<string>, j: nat)
    requires j <= |keys|
    ensures AccumulatedPaths(keys[..j]) == AccumulatedPaths(keys)[..j]
    decreases |keys|
  {
    if j < |keys| {
      var init := keys[..|keys| - 1];
      assert init[..j] == keys[..j];
      PathsOfPrefix(init, j);
    } else {
      assert keys[..j] == keys;
    }
  }

  /** Entry `k` is what the reducer pushes for key `k` onto the entries before it. */
  lemma {:induction false} PathAt(keys: seq<string>, k: nat)
    requires k < |keys|
    ensures AccumulatedPaths(keys)[k] == NextPath(AccumulatedPaths(keys)[..k], keys[k])
    decreases |keys|
  {
    var init := keys[..|keys| - 1];
    var acc := AccumulatedPaths(init);
    if k < |keys| - 1 {
      PathAt(init, k);
      assert AccumulatedPaths(keys)[..k] == acc[..k];
    } else {
      assert AccumulatedPaths(keys)[..k] == acc;
    }
  }

  /**
   * One entry per key; entry 0 is the first key, entry 1 is `k0 + "." + k1`,
   * and every later entry is the comma-joined list of the entries before it
   * followed by `"." + key`.
   */
  lemma PathsEntries(keys: seq<string>)
    ensures |AccumulatedPaths(keys)| == |keys|
    ensures |keys| >= 1 ==> AccumulatedPaths(keys)[0] == keys[0]
    ensures |keys| >= 2 ==> AccumulatedPaths(keys)[1] == keys[0] + "." + keys[1]
    ensures forall k :: 1 <= k < |keys| ==>
      AccumulatedPaths(keys)[k] == JoinWithCommas(AccumulatedPaths(keys)[..k]) + "." + keys[k]
  {
    var paths := AccumulatedPaths(keys);
    forall k | 1 <= k < |keys|
      ensures paths[k] == JoinWithCommas(paths[..k]) + "." + keys[k]
    {
      PathAt(keys, k);
    }
    if |keys| >= 1 {
      PathAt(keys, 0);
    }
    if |keys| >= 2 {
      assert paths[..1] == [paths[0]];
    }
  }

  /** Two keys give the first key and the dotted pair. */
  lemma PathsOfTwoKeys(k0: string, k1: string)
    ensures AccumulatedPaths([k0, k1]) == [k0, k0 + "." + k1]
  {
    assert [k0, k1][..1] == [k0];
    assert [k0][..0] == [];
  }

  /** The key path `a.b.c` gives `["a", "a.b", "a,a.b.c"]`, not dotted prefixes. */
  lemma PathsOfThreeKeys()
    ensures AccumulatedPaths(["a", "b", "c"]) == ["a", "a.b", "a,a.b.c"]
  {
    assert ["a", "b", "c"][..2] == ["a", "b"];
    PathsOfTwoKeys("a", "b");
    assert "a" + "." + "b" == "a.b";
    assert JoinWithCommas(["a", "a.b"]) == "a,a.b" by {
      assert ["a", "a.b"][..1] == ["a"];
    }
    assert "a,a.b" + "." + "c" == "a,a.b.c";
  }

  // ---------------------------------------------------------------------------
  // Include / exclude decision

  /** `rules.some((a) => paths.includes(a))`. */
  function SomeIn(rules: seq<string>, paths: seq<string>): (r: bool)
    ensures r <==> exists a :: a in rules && a in paths
  {
    if rules == [] then false
    else if rules[0] in paths then true
    else SomeIn(rules[1..], paths)
  }

  /**
   * The `shouldTransform` flag: on by default only when there are no include
   * rules, switched on when an include rule is one of the paths, and switched
   * off, last, when an exclude rule is.
   */
  function ShouldTransform(paths: seq<string>, includes: seq<string>, excludes: seq<string>): (r: bool)
    ensures r <==>
      (|includes| == 0 || exists a :: a in includes && a in paths)
      && !(exists a :: a in excludes && a in paths)
  {
    var byDefault := |includes| < 1;
    var included := if SomeIn(includes, paths) then true else byDefault;
    if SomeIn(excludes, paths) then false else included
  }

  /** The examples of the decision that a reader of the configuration would expect. */
  lemma ShouldTransformExamples()
    ensures ShouldTransform(AccumulatedPaths(["hero", "image"]), ["hero.image"], [])
    ensures !ShouldTransform(AccumulatedPaths(["footer", "logo"]), ["hero.image"], [])
    ensures ShouldTransform(AccumulatedPaths(["hero", "image"]), [], ["footer.logo"])
    ensures !ShouldTransform(AccumulatedPaths(["footer", "logo"]), [], ["footer.logo"])
    ensures !ShouldTransform(AccumulatedPaths(["a"]), ["a"], ["a"])
  {
    PathsOfTwoKeys("hero", "image");
    assert "hero" + "." + "image" == "hero.image";
    PathsOfTwoKeys("footer", "logo");
    assert "footer" + "." + "logo" == "footer.logo";
    assert AccumulatedPaths(["a"]) == ["a"] by {
      assert ["a"][..0] == [];
    }
    assert "hero.image" != "hero";
    assert "footer.logo" != "hero";
    assert "footer.logo" != "hero.image";
    assert "hero.image" != "footer";
    assert "hero.image" != "footer.logo";
    assert "footer.logo" != "footer";
  }

  /** A dotted include rule for a leaf three keys deep never matches it. */
  lemma DeepDottedIncludeMisses()
    ensures !ShouldTransform(AccumulatedPaths(["a", "b", "c"]), ["a.b.c"], [])
  {
    PathsOfThreeKeys();
    assert "a.b.c" != "a" && "a.b.c" != "a.b" && "a.b.c" != "a,a.b.c";
  }

  // ---------------------------------------------------------------------------
  // Leaves and the walk

  /**
   * The step for a string leaf under key path `keys`: eligible strings whose
   * paths pass the decision are resolved, and the remote fallback asks about
   * the Markdown node's `url`, not about the leaf.
   */
  function LeafOutcome(value: string, keys: seq<string>, nodeUrl: Option<string>, env: Env): Outcome
  {
    if !IsEligible(Some(value), env.path) then Skipped
    else if !ShouldTransform(AccumulatedPaths(keys), env.options.includes, env.options.excludes) then Skipped
    else Resolve(value, JsString(nodeUrl), env)
  }

  /** The leaf after `this.update(newValue)`, or unchanged when there was no update. */
  function NewLeaf(value: string, keys: seq<string>, nodeUrl: Option<string>, env: Env): string
  {
    var o := LeafOutcome(value, keys, nodeUrl, env);
    if o.Rewritten? then o.value else value
  }

  /** The front matter after the walk, every string leaf rewritten under its own key path. */
  function RewriteData(d: Data, keys: seq<string>, nodeUrl: Option<string>, env: Env): Data
    decreases d
  {
    match d
    case Text(s) => Text(NewLeaf(s, keys, nodeUrl, env))
    case Scalar => Scalar
    case Record(fields) =>
      Record(seq(|fields|, i requires 0 <= i < |fields| =>
        assert fields[i] in fields;
        (fields[i].0, RewriteData(fields[i].1, keys + [fields[i].0], nodeUrl, env))))
  }

  /** The position of the first field named `key`, or `|fields|`. */
  function KeyIndex(fields: seq<(string, Data)>, key: string): (i: nat)
    ensures i <= |fields|
    ensures i < |fields| ==> fields[i].0 == key
    ensures forall j :: 0 <= j < i ==> fields[j].0 != key
  {
    if fields == [] then 0
    else if fields[0].0 == key then 0
    else 1 + KeyIndex(fields[1..], key)
  }

  /** The value reached from `d` by following the keys `keys`, if there is one. */
  function Lookup(d: Data, keys: seq<string>): Option<Data>
    decreases keys
  {
    if keys == [] then Some(d)
    else match d
      case Record(fields) =>
        var i := KeyIndex(fields, keys[0]);
        if i < |fields| then Lookup(fields[i].1, keys[1..]) else None
      case _ => None
  }

  /** Two field lists with the same key at every position find a key at the same place. */
  lemma KeyIndexSameKeys(f1: seq<(string, Data)>, f2: seq<(string, Data)>, key: string)
    requires |f1| == |f2|
    requires forall j :: 0 <= j < |f1| ==> f1[j].0 == f2[j].0
    ensures KeyIndex(f1, key) == KeyIndex(f2, key)
  {
  }

  /**
   * The walk keeps the shape of the front matter: every key path that reaches
   * a value before reaches one after; a string leaf at `keys` becomes
   * `NewLeaf` of its old value under the full key path, any other scalar stays
   * as it is.
   */
  lemma {:induction false} RewriteAt(d: Data, prefix: seq<string>, keys: seq<string>,
                                     nodeUrl: Option<string>, env: Env)
    ensures Lookup(RewriteData(d, prefix, nodeUrl, env), keys).Some? == Lookup(d, keys).Some?
    ensures Lookup(d, keys) == Some(Scalar) ==> Lookup(RewriteData(d, prefix, nodeUrl, env), keys) == Some(Scalar)
    ensures Lookup(d, keys).Some? && Lookup(d, keys).value.Text? ==>
      Lookup(RewriteData(d, prefix, nodeUrl, env), keys)
        == Some(Text(NewLeaf(Lookup(d, keys).value.text, prefix + keys, nodeUrl, env)))
    ensures Lookup(d, keys).Some? && Lookup(d, keys).value.Record? ==>
      Lookup(RewriteData(d, prefix, nodeUrl, env), keys).value.Record?
    decreases keys
  {
    var r := RewriteData(d, prefix, nodeUrl, env);
    if keys == [] {
      assert prefix + keys == prefix;
    } else if d.Record? {
      var fields := d.fields;
      var rf := r.fields;
      KeyIndexSameKeys(fields, rf, keys[0]);
      var i := KeyIndex(fields, keys[0]);
      if i < |fields| {
        RewriteAt(fields[i].1, prefix + [keys[0]], keys[1..], nodeUrl, env);
        assert prefix + [keys[0]] + keys[1..] == prefix + keys;
      }
    }
  }

  /** An ineligible string, or one whose paths the rules reject, is left as it is. */
  lemma UntransformedLeafUnchanged(value: string, keys: seq<string>, nodeUrl: Option<string>, env: Env)
    requires !IsEligible(Some(value), env.path)
      || !ShouldTransform(AccumulatedPaths(keys), env.options.includes, env.options.excludes)
    ensures NewLeaf(value, keys, nodeUrl, env) == value
    ensures LeafOutcome(value, keys, nodeUrl, env) == Skipped
  {
  }

  /**
   * A transformed leaf with a local match becomes the relative path of the
   * first matching file; without one it becomes the remote URL built from
   * the node's `url`, whatever the leaf holds, or stays as it is when that
   * lookup fails.
   */
  lemma TransformedLeaf(value: string, keys: seq<string>, nodeUrl: Option<string>, env: Env)
    requires IsEligible(Some(value), env.path)
    requires ShouldTransform(AccumulatedPaths(keys), env.options.includes, env.options.excludes)
    ensures !NoMatch(value, env.files, env.options, env.path) ==>
      NewLeaf(value, keys, nodeUrl, env) == env.path.relative(env.directory,
        env.files[FirstMatch(env.files, StaticPath(value, env.options, env.path), env.path)].absolutePath)
    ensures NoMatch(value, env.files, env.options, env.path) ==>
      NewLeaf(value, keys, nodeUrl, env) ==
        if env.options.baseUrl != "" && env.existsOnServer(env.options.baseUrl + JsString(nodeUrl))
        then env.options.baseUrl + JsString(nodeUrl)
        else value
  {
    ResolveCharacterised(value, JsString(nodeUrl), env);
  }

  /** Two transformed leaves without a local match get the same remote answer. */
  lemma FallbackIgnoresLeaf(v1: string, v2: string, keys: seq<string>, nodeUrl: Option<string>, env: Env)
    requires IsEligible(Some(v1), env.path) && IsEligible(Some(v2), env.path)
    requires ShouldTransform(AccumulatedPaths(keys), env.options.includes, env.options.excludes)
    requires NoMatch(v1, env.files, env.options, env.path) && NoMatch(v2, env.files, env.options, env.path)
    ensures LeafOutcome(v1, keys, nodeUrl, env) == LeafOutcome(v2, keys, nodeUrl, env)
  {
  }

  // ---------------------------------------------------------------------------
  // The node hook

  /**
   * A Gatsby node as `onCreateNode` sees it. `fileAbsolutePath` is `None`
   * for a Markdown node whose parent is not a file.
   */
  datatype MarkdownNode = MarkdownNode(
    internalType: string,
    fileAbsolutePath: Option<string>,
    url: Option<string>,
    frontmatter: Data)

  /** `path.dirname(undefined)` throws a TypeError before the walk starts. */
  datatype HookError = MissingFilePath

  predicate IsMarkdownType(internalType: string)
  {
    internalType == "MarkdownRemark" || internalType == "Mdx"
  }

  /**
   * `onCreateNode`: only `MarkdownRemark` and `Mdx` nodes are touched, and of
   * them only the front matter, walked from the empty key path with the
   * directory of the node's file. A Markdown node without a file path throws
   * and nothing is rewritten.
   */
  function OnCreateNode(node: MarkdownNode, files: seq<GatsbyFile>, given: GivenOptions,
                        path: PathLib, existsOnServer: ExistsOracle): (r: Result<MarkdownNode, HookError>)
    ensures !IsMarkdownType(node.internalType) ==> r == Success(node)
    ensures IsMarkdownType(node.internalType) && node.fileAbsolutePath.None? ==> r == Failure(MissingFilePath)
    ensures r.Success? <==> !IsMarkdownType(node.internalType) || node.fileAbsolutePath.Some?
    ensures r.Success? ==>
      r.value.internalType == node.internalType && r.value.fileAbsolutePath == node.fileAbsolutePath
      && r.value.url == node.url
  {
    if !IsMarkdownType(node.internalType) then
      Success(node)
    else if node.fileAbsolutePath.None? then
      Failure(MissingFilePath)
    else
      var env := DocumentEnv(node.fileAbsolutePath.value, files, given, path, existsOnServer);
      Success(node.(frontmatter := RewriteData(node.frontmatter, [], node.url, env)))
  }

  /**
   * For a Markdown node with a file path, every front-matter key path keeps
   * reaching a value, every string leaf ends as `NewLeaf` of its old value
   * under its key path, and every other scalar is kept.
   */
  lemma OnCreateNodeLeaves(node: MarkdownNode, files: seq<GatsbyFile>, given: GivenOptions,
                           path: PathLib, existsOnServer: ExistsOracle, keys: seq<string>)
    requires IsMarkdownType(node.internalType) && node.fileAbsolutePath.Some?
    ensures var r := OnCreateNode(node, files, given, path, existsOnServer);
      var env := DocumentEnv(node.fileAbsolutePath.value, files, given, path, existsOnServer);
      r.Success?
      && Lookup(r.value.frontmatter, keys).Some? == Lookup(node.frontmatter, keys).Some?
      && (Lookup(node.frontmatter, keys) == Some(Scalar) ==> Lookup(r.value.frontmatter, keys) == Some(Scalar))
      && (Lookup(node.frontmatter, keys).Some? && Lookup(node.frontmatter, keys).value.Text? ==>
            Lookup(r.value.frontmatter, keys)
              == Some(Text(NewLeaf(Lookup(node.frontmatter, keys).value.text, keys, node.url, env))))
  {
    var env := DocumentEnv(node.fileAbsolutePath.value, files, given, path, existsOnServer);
    RewriteAt(node.frontmatter, [], keys, node.url, env);
    assert [] + keys == keys;
  }
}
