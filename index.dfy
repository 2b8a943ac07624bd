/**
 * The Markdown-body side of the plugin (src/index.ts): option defaults, the
 * local file matcher, the remote resolver and the rewrite of image and
 * inline-HTML nodes.
 */
module Index {
  import opened Wrappers
  import opened Utils
  import opened Platform

  // ---------------------------------------------------------------------------
  // Options

  datatype PluginOptions = PluginOptions(
    staticFolderName: string,
    includes: seq<string>,
    excludes: seq<string>,
    baseUrl: string)

  /** The options as the site configuration gives them; `None` is a missing field. */
  datatype GivenOptions = GivenOptions(
    staticFolderName: Option<string>,
    includes: Option<seq<string>>,
    excludes: Option<seq<string>>,
    baseUrl: Option<string>)

  const DefaultPluginOptions: PluginOptions := PluginOptions("static", [], [], "")

  /** lodash `defaults(pluginOptions, defaultPluginOptions)`: missing fields take the default. */
  function Defaults(given: GivenOptions): (o: PluginOptions)
    ensures given.staticFolderName.Some? ==> o.staticFolderName == given.staticFolderName.value
    ensures given.staticFolderName.None? ==> o.staticFolderName == "static"
    ensures given.includes.Some? ==> o.includes == given.includes.value
    ensures given.includes.None? ==> o.includes == []
    ensures given.excludes.Some? ==> o.excludes == given.excludes.value
    ensures given.excludes.None? ==> o.excludes == []
    ensures given.baseUrl.Some? ==> o.baseUrl == given.baseUrl.value
    ensures given.baseUrl.None? ==> o.baseUrl == ""
  {
    PluginOptions(
      if given.staticFolderName.Some? then given.staticFolderName.value else DefaultPluginOptions.staticFolderName,
      if given.includes.Some? then given.includes.value else DefaultPluginOptions.includes,
      if given.excludes.Some? then given.excludes.value else DefaultPluginOptions.excludes,
      if given.baseUrl.Some? then given.baseUrl.value else DefaultPluginOptions.baseUrl)
  }

  /** Every field of `o`, given explicitly. */
  function Given(o: PluginOptions): GivenOptions
  {
    GivenOptions(Some(o.staticFolderName), Some(o.includes), Some(o.excludes), Some(o.baseUrl))
  }

  /** Options that are all given are kept as they are. */
  lemma DefaultsKeepsGiven(o: PluginOptions)
    ensures Defaults(Given(o)) == o
  {
  }

  /** Filling in defaults a second time changes nothing. */
  lemma DefaultsIdempotent(given: GivenOptions)
    ensures Defaults(Given(Defaults(given))) == Defaults(given)
  {
  }

  // ---------------------------------------------------------------------------
  // Local file matcher

  datatype GatsbyFile = GatsbyFile(absolutePath: string)

  predicate EndsWith(s: string, suffix: string)
  {
    |suffix| <= |s| && s[|s| - |suffix|..] == suffix
  }

  /** The string every candidate path must end with: `slash(join(staticFolderName, src))`. */
  function StaticPath(src: string, options: PluginOptions, path: PathLib): string
  {
    Slash(path.join(options.staticFolderName, src))
  }

  /**
   * The search predicate: the file's normalised, slashed path ends with the
   * static path. It is a plain suffix test, with no path-segment boundary.
   */
  predicate IsMatch(file: GatsbyFile, staticPath: string, path: PathLib)
  {
    EndsWith(Slash(path.normalize(file.absolutePath)), staticPath)
  }

  /** No file of `files` passes the search predicate. */
  predicate NoMatch(src: string, files: seq<GatsbyFile>, options: PluginOptions, path: PathLib)
  {
    forall f :: f in files ==> !IsMatch(f, StaticPath(src, options, path), path)
  }

  /** The index of the first file that passes the search predicate, or `|files|`. */
  function FirstMatch(files: seq<GatsbyFile>, staticPath: string, path: PathLib): (i: nat)
    ensures i <= |files|
    ensures forall j :: 0 <= j < i ==> !IsMatch(files[j], staticPath, path)
    ensures i < |files| ==> IsMatch(files[i], staticPath, path)
  {
    if files == [] then 0
    else if IsMatch(files[0], staticPath, path) then 0
    else 1 + FirstMatch(files[1..], staticPath, path)
  }

  /** `findMatchingFile`: lodash `find` over `files` with the suffix test. */
  function FindMatchingFile(src: string, files: seq<GatsbyFile>, options: PluginOptions, path: PathLib)
    : (r: Option<GatsbyFile>)
    ensures r.None? <==> NoMatch(src, files, options, path)
    ensures r.Some? ==> r.value in files && IsMatch(r.value, StaticPath(src, options, path), path)
    ensures r.Some? ==> r.value == files[FirstMatch(files, StaticPath(src, options, path), path)]
  {
    var i := FirstMatch(files, StaticPath(src, options, path), path);
    if i < |files| then Some(files[i]) else None
  }

  // ---------------------------------------------------------------------------
  // Remote resolver

  /** The two errors `findMatchingFileRemote` throws, with the values their messages carry. */
  datatype RemoteError =
    | NoBaseUrl(src: string, staticFolderName: string)
    | NotFound(src: string, fullUrl: string)

  /**
   * `findMatchingFileRemote`: fails without a base URL; otherwise probes
   * `baseUrl + src` once and returns it if it exists.
   */
  function FindMatchingFileRemote(src: string, options: PluginOptions, existsOnServer: ExistsOracle)
    : (r: Result<string, RemoteError>)
    ensures options.baseUrl == "" ==> r == Failure(NoBaseUrl(src, options.staticFolderName))
    ensures options.baseUrl != "" ==> (r.Success? <==> existsOnServer(options.baseUrl + src))
    ensures r.Success? ==> r.value == options.baseUrl + src
    ensures options.baseUrl != "" && r.Failure? ==> r.error == NotFound(src, options.baseUrl + src)
  {
    if options.baseUrl == "" then
      Failure(NoBaseUrl(src, options.staticFolderName))
    else
      var fullUrl := options.baseUrl + src;
      var found := existsOnServer(fullUrl);
      if !found then Failure(NotFound(src, fullUrl)) else Success(fullUrl)
  }

  /** Without a base URL the answer does not depend on the probe at all. */
  lemma RemoteWithoutBaseUrlIgnoresOracle(src: string, options: PluginOptions, e1: ExistsOracle, e2: ExistsOracle)
    requires options.baseUrl == ""
    ensures FindMatchingFileRemote(src, options, e1) == FindMatchingFileRemote(src, options, e2)
    ensures FindMatchingFileRemote(src, options, e1).Failure?
  {
  }

  /** With a base URL the probe is asked about `baseUrl + src` only. */
  lemma RemoteAsksOnlyFullUrl(src: string, options: PluginOptions, e1: ExistsOracle, e2: ExistsOracle)
    requires e1(options.baseUrl + src) == e2(options.baseUrl + src)
    ensures FindMatchingFileRemote(src, options, e1) == FindMatchingFileRemote(src, options, e2)
  {
  }

  // ---------------------------------------------------------------------------
  // Resolving one reference

  /** What one rewrite step does to a value. */
  datatype Outcome =
    | Skipped                       // the value is not eligible: left as it is
    | Rewritten(value: string)      // the value is replaced
    | Failed(error: RemoteError)    // the remote lookup threw: the value is left as it is

  /** What the rewrite of one document sees: its files, options, directory and host capabilities. */
  datatype Env = Env(
    files: seq<GatsbyFile>,
    options: PluginOptions,
    directory: string,
    path: PathLib,
    existsOnServer: ExistsOracle)

  /** A value is eligible when it is a string, absolute, and has an extension. */
  predicate IsEligible(v: Option<string>, path: PathLib)
  {
    v.Some? && path.isAbsolute(v.value) && path.extname(v.value) != ""
  }

  /** JavaScript string conversion of a field that may be `undefined`. */
  function JsString(v: Option<string>): string
  {
    if v.Some? then v.value else "undefined"
  }

  /**
   * Resolves `ref`: a matching local file gives its path relative to the
   * document directory; otherwise the remote resolver is asked about
   * `remoteSrc` (the reference itself for image nodes, but `node.url` for
   * inline HTML and front matter).
   */
  function Resolve(ref: string, remoteSrc: string, env: Env): Outcome
  {
    var file := FindMatchingFile(ref, env.files, env.options, env.path);
    if file.Some? then
      Rewritten(env.path.relative(env.directory, file.value.absolutePath))
    else
      var remote := FindMatchingFileRemote(remoteSrc, env.options, env.existsOnServer);
      if remote.Success? then Rewritten(remote.value) else Failed(remote.error)
  }

  /**
   * What resolving a reference means: a matching local file always wins and
   * gives the relative path of the first match; without one, the result is
   * `baseUrl + remoteSrc` when the base URL is set and the probe finds it, and
   * the matching error otherwise. Resolution never skips.
   */
  lemma ResolveCharacterised(ref: string, remoteSrc: string, env: Env)
    ensures !Resolve(ref, remoteSrc, env).Skipped?
    ensures !NoMatch(ref, env.files, env.options, env.path) ==>
      Resolve(ref, remoteSrc, env) == Rewritten(env.path.relative(env.directory,
        env.files[FirstMatch(env.files, StaticPath(ref, env.options, env.path), env.path)].absolutePath))
    ensures Resolve(ref, remoteSrc, env).Failed? <==>
      NoMatch(ref, env.files, env.options, env.path)
      && (env.options.baseUrl == "" || !env.existsOnServer(env.options.baseUrl + remoteSrc))
    ensures Resolve(ref, remoteSrc, env).Rewritten? && NoMatch(ref, env.files, env.options, env.path) ==>
      Resolve(ref, remoteSrc, env).value == env.options.baseUrl + remoteSrc
    ensures Resolve(ref, remoteSrc, env).Failed? ==>
      Resolve(ref, remoteSrc, env).error ==
        if env.options.baseUrl == "" then NoBaseUrl(remoteSrc, env.options.staticFolderName)
        else NotFound(remoteSrc, env.options.baseUrl + remoteSrc)
  {
  }

  /** The value after a step: replaced when rewritten, kept when skipped or failed. */
  function Apply(v: Option<string>, o: Outcome): (r: Option<string>)
    ensures !o.Rewritten? ==> r == v
    ensures o.Rewritten? ==> r == Some(o.value)
  {
    if o.Rewritten? then Some(o.value) else v
  }

  /** The errors of the failed steps among the first `n`, in order. */
  function FailuresIn(os: seq<Outcome>, n: nat): seq<RemoteError>
    requires n <= |os|
  {
    if n == 0 then []
    else FailuresIn(os, n - 1) + (if os[n - 1].Failed? then [os[n - 1].error] else [])
  }

  /** One more step adds its error, if it failed. */
  lemma FailuresStep(os: seq<Outcome>, n: nat, failure: Option<RemoteError>)
    requires n < |os| && failure == FailureOf(os[n])
    ensures FailuresIn(os, n + 1) == FailuresIn(os, n) + (if failure.Some? then [failure.value] else [])
  {
  }

  /** The errors of all failed steps, in order. */
  function FailuresOf(os: seq<Outcome>): seq<RemoteError>
  {
    FailuresIn(os, |os|)
  }

  /** Exactly the failed steps among the first `n` are reported, and no more errors than steps. */
  lemma {:induction false} FailuresInExactly(os: seq<Outcome>, n: nat)
    requires n <= |os|
    ensures |FailuresIn(os, n)| <= n
    ensures forall e :: e in FailuresIn(os, n) <==> exists k :: 0 <= k < n && os[k] == Failed(e)
  {
    if n > 0 {
      FailuresInExactly(os, n - 1);
    }
  }

  /** The failures reported are exactly the failed steps. */
  lemma FailuresOfExactly(os: seq<Outcome>)
    ensures |FailuresOf(os)| <= |os|
    ensures forall e :: e in FailuresOf(os) <==> Failed(e) in os
  {
    FailuresInExactly(os, |os|);
  }

  // ---------------------------------------------------------------------------
  // Markdown image nodes

  /** The step for an image node's `url`: the remote fallback asks about the url itself. */
  function ImageOutcome(url: Option<string>, env: Env): Outcome
  {
    if !IsEligible(url, env.path) then Skipped else Resolve(url.value, url.value, env)
  }

  /** The steps for all image nodes, in node order. */
  function ImageOutcomes(urls: seq<Option<string>>, env: Env): (os: seq<Outcome>)
    ensures |os| == |urls|
  {
    if urls == [] then []
    else ImageOutcomes(urls[..|urls| - 1], env) + [ImageOutcome(urls[|urls| - 1], env)]
  }

  lemma {:induction false} ImageOutcomesAt(urls: seq<Option<string>>, env: Env, k: nat)
    requires k < |urls|
    ensures ImageOutcomes(urls, env)[k] == ImageOutcome(urls[k], env)
    decreases |urls|
  {
    if k < |urls| - 1 {
      ImageOutcomesAt(urls[..|urls| - 1], env, k);
    }
  }

  /** A node of kind "image" in the Markdown syntax tree. */
  class ImageNode {
    var url: Option<string>

    constructor (url: Option<string>)
      ensures this.url == url
    {
      this.url := url;
    }
  }

  /** The objects of an array, as a set, for frames. */
  function Objects<T(==)>(a: array<T>): set<T>
    reads a
  {
    set i | 0 <= i < a.Length :: a[i]
  }

  predicate Distinct<T(==)>(a: array<T>)
    reads a
  {
    forall i, j :: 0 <= i < j < a.Length ==> a[i] != a[j]
  }

  function UrlsOf(images: array<ImageNode>): (urls: seq<Option<string>>)
    reads images, Objects(images)
    ensures |urls| == images.Length
    ensures forall i :: 0 <= i < images.Length ==> urls[i] == images[i].url
  {
    seq(images.Length, i requires 0 <= i < images.Length reads images, Objects(images) => images[i].url)
  }

  /** The error a step reports, if it failed. */
  function FailureOf(o: Outcome): (e: Option<RemoteError>)
    ensures e.Some? <==> o.Failed?
  {
    if o.Failed? then Some(o.error) else None
  }

  /**
   * The callback for one image node: an eligible `url` becomes the relative
   * path of its matching file, or else the remote URL; a failed remote lookup
   * leaves the node alone and is returned.
   */
  method RewriteImage(node: ImageNode, env: Env) returns (failure: Option<RemoteError>, ghost outcome: Outcome)
    modifies node
    ensures outcome == ImageOutcome(old(node.url), env)
    ensures node.url == Apply(old(node.url), outcome)
    ensures failure == FailureOf(outcome)
  {
    failure := None;
    outcome := ImageOutcome(node.url, env);
    var url := node.url;
    if !url.Some? { return; }
    if !env.path.isAbsolute(url.value) || env.path.extname(url.value) == "" { return; }
    var file := FindMatchingFile(url.value, env.files, env.options, env.path);
    if file.Some? {
      node.url := Some(env.path.relative(env.directory, file.value.absolutePath));
    } else {
      var remote := FindMatchingFileRemote(url.value, env.options, env.existsOnServer);
      if remote.Success? {
        node.url := Some(remote.value);
      } else {
        failure := Some(remote.error);
      }
    }
  }

  /**
   * One step of the loop over the image nodes whose urls were `before`: the
   * node at `i` is rewritten and no other node changes.
   */
  method RewriteImageAt(images: array<ImageNode>, i: nat, env: Env, ghost before: seq<Option<string>>)
    returns (failure: Option<RemoteError>)
    requires Distinct(images) && i < images.Length == |before| && images[i].url == before[i]
    modifies images[i]
    ensures images[i].url == Apply(before[i], ImageOutcomes(before, env)[i])
    ensures forall k :: 0 <= k < images.Length && k != i ==> images[k].url == old(images[k].url)
    ensures failure == FailureOf(ImageOutcomes(before, env)[i])
  {
    ImageOutcomesAt(before, env, i);
    var node := images[i];
    ghost var outcome;
    failure, outcome := RewriteImage(node, env);
    forall k | 0 <= k < images.Length && k != i
      ensures images[k].url == old(images[k].url)
    {
      assert images[k] != node;
    }
  }

  /**
   * The loop over the selected image nodes: each is rewritten on its own, a
   * failure in one neither stops nor undoes the others, and the failures are
   * reported in node order.
   */
  method RewriteImages(images: array<ImageNode>, env: Env) returns (failures: seq<RemoteError>)
    requires Distinct(images)
    modifies Objects(images)
    ensures forall i :: 0 <= i < images.Length ==>
      images[i].url == Apply(old(images[i].url), ImageOutcomes(old(UrlsOf(images)), env)[i])
    ensures failures == FailuresOf(ImageOutcomes(old(UrlsOf(images)), env))
  {
    ghost var before := UrlsOf(images);
    ghost var outs := ImageOutcomes(before, env);
    ghost var after := ApplyAll(before, outs);
    failures := [];
    var i := 0;
    while i < images.Length
      invariant 0 <= i <= images.Length
      invariant forall k :: 0 <= k < i ==> images[k].url == after[k]
      invariant forall k :: i <= k < images.Length ==> images[k].url == before[k]
      invariant failures == FailuresIn(outs, i)
    {
      var failure := RewriteImageAt(images, i, env, before);
      FailuresStep(outs, i, failure);
      if failure.Some? {
        failures := failures + [failure.value];
      }
      i := i + 1;
    }
  }

  /**
   * What the rewrite does to one image `url`: an ineligible value is kept; an
   * eligible one becomes the relative path of the first matching file, or
   * else `baseUrl + url` when the base URL is set and the probe finds it, and
   * is kept when the remote lookup fails.
   */
  lemma ImageUrlAfter(url: Option<string>, env: Env)
    ensures !IsEligible(url, env.path) ==> Apply(url, ImageOutcome(url, env)) == url
    ensures IsEligible(url, env.path) && !NoMatch(url.value, env.files, env.options, env.path) ==>
      Apply(url, ImageOutcome(url, env)) == Some(env.path.relative(env.directory,
        env.files[FirstMatch(env.files, StaticPath(url.value, env.options, env.path), env.path)].absolutePath))
    ensures IsEligible(url, env.path) && NoMatch(url.value, env.files, env.options, env.path) ==>
      Apply(url, ImageOutcome(url, env)) ==
        if env.options.baseUrl != "" && env.existsOnServer(env.options.baseUrl + url.value)
        then Some(env.options.baseUrl + url.value)
        else url
    ensures ImageOutcome(url, env).Failed? <==>
      IsEligible(url, env.path) && NoMatch(url.value, env.files, env.options, env.path)
      && (env.options.baseUrl == "" || !env.existsOnServer(env.options.baseUrl + url.value))
  {
    if IsEligible(url, env.path) {
      ResolveCharacterised(url.value, url.value, env);
    }
  }

  /**
   * A rewritten url that is no longer absolute (a relative path, or a remote
   * URL such as `https://...`) is left alone by a second pass.
   */
  lemma ImageRewriteSettles(url: Option<string>, env: Env)
    requires ImageOutcome(url, env).Rewritten?
    requires !env.path.isAbsolute(ImageOutcome(url, env).value)
    ensures var once := Apply(url, ImageOutcome(url, env));
      Apply(once, ImageOutcome(once, env)) == once
  {
  }

  /** A string ends with any string appended to it. */
  lemma EndsWithAppended(prefix: string, suffix: string)
    ensures EndsWith(prefix + suffix, suffix)
  {
    assert (prefix + suffix)[|prefix|..] == suffix;
  }

  /**
   * The suffix test has no segment boundary: with `join` and `normalize`
   * behaving as on POSIX for these inputs, a file under `nostatic` matches a
   * reference into the `static` folder.
   */
  lemma SuffixMatchCrossesSegments(path: PathLib, options: PluginOptions)
    requires options.staticFolderName == "static"
    requires path.join("static", "/a.png") == "static/a.png"
    requires path.normalize("/nostatic/a.png") == "/nostatic/a.png"
    ensures FindMatchingFile("/a.png", [GatsbyFile("/nostatic/a.png")], options, path)
      == Some(GatsbyFile("/nostatic/a.png"))
  {
    var file := GatsbyFile("/nostatic/a.png");
    NoBackslashUnchanged("static/a.png");
    NoBackslashUnchanged("/nostatic/a.png");
    assert StaticPath("/a.png", options, path) == "static/a.png";
    assert "/nostatic/a.png" == "/no" + "static/a.png";
    EndsWithAppended("/no", "static/a.png");
    assert IsMatch(file, "static/a.png", path);
    assert FirstMatch([file], "static/a.png", path) == 0;
  }

  // ---------------------------------------------------------------------------
  // Inline HTML nodes

  /**
   * The step for one `<img>` of an html node. The quirk of the source is kept:
   * the remote fallback asks about the html node's own `url`, not about the
   * element's `src`.
   */
  function HtmlImgOutcome(src: Option<string>, nodeUrl: Option<string>, env: Env): Outcome
  {
    if !IsEligible(src, env.path) then Skipped else Resolve(src.value, JsString(nodeUrl), env)
  }

  /** The steps for all `<img>` elements of a node, in document order. */
  function HtmlImgOutcomes(srcs: seq<Option<string>>, nodeUrl: Option<string>, env: Env): (os: seq<Outcome>)
    ensures |os| == |srcs|
  {
    if srcs == [] then []
    else HtmlImgOutcomes(srcs[..|srcs| - 1], nodeUrl, env) + [HtmlImgOutcome(srcs[|srcs| - 1], nodeUrl, env)]
  }

  lemma {:induction false} HtmlImgOutcomesAt(srcs: seq<Option<string>>, nodeUrl: Option<string>, env: Env, k: nat)
    requires k < |srcs|
    ensures HtmlImgOutcomes(srcs, nodeUrl, env)[k] == HtmlImgOutcome(srcs[k], nodeUrl, env)
    decreases |srcs|
  {
    if k < |srcs| - 1 {
      HtmlImgOutcomesAt(srcs[..|srcs| - 1], nodeUrl, env, k);
    }
  }

  /** The attributes after every step has been applied. */
  function ApplyAll(vs: seq<Option<string>>, os: seq<Outcome>): (r: seq<Option<string>>)
    requires |vs| == |os|
    ensures |r| == |vs|
    ensures forall i :: 0 <= i < |vs| ==> r[i] == Apply(vs[i], os[i])
  {
    seq(|vs|, i requires 0 <= i < |vs| => Apply(vs[i], os[i]))
  }

  /** Some step rewrote its value. */
  predicate AnyRewritten(os: seq<Outcome>, n: nat)
    requires n <= |os|
  {
    n > 0 && (os[n - 1].Rewritten? || AnyRewritten(os, n - 1))
  }

  /** Some step among the first `n` rewrote its value, and only then. */
  lemma {:induction false} AnyRewrittenExactly(os: seq<Outcome>, n: nat)
    requires n <= |os|
    ensures AnyRewritten(os, n) <==> exists k :: 0 <= k < n && os[k].Rewritten?
  {
    if n > 0 {
      AnyRewrittenExactly(os, n - 1);
    }
  }

  /**
   * The `value` of an html node after the rewrite: re-serialised with the new
   * `src` attributes once at least one `<img>` was rewritten, and untouched
   * (byte for byte) otherwise.
   */
  function HtmlValueAfter(value: string, nodeUrl: Option<string>, env: Env, html: HtmlLib): string
  {
    var srcs := html.imgSrcs(value);
    var os := HtmlImgOutcomes(srcs, nodeUrl, env);
    if AnyRewritten(os, |os|) then html.render(value, ApplyAll(srcs, os)) else value
  }

  /** A node of kind "html" in the Markdown syntax tree. */
  class HtmlNode {
    var value: string
    var url: Option<string>

    constructor (value: string, url: Option<string>)
      ensures this.value == value && this.url == url
    {
      this.value := value;
      this.url := url;
    }
  }

  /**
   * The callback for the `i`-th `<img>` of an html node whose fragment was
   * loaded from `original` and whose `<img>` elements now carry `current`:
   * an eligible `src` is rewritten and the fragment re-serialised into the
   * node's `value`; a failed remote lookup changes nothing and is returned.
   */
  method RewriteImgElement(node: HtmlNode, original: string, current: seq<Option<string>>, i: nat,
                           env: Env, html: HtmlLib)
    returns (next: seq<Option<string>>, failure: Option<RemoteError>, ghost outcome: Outcome)
    requires i < |current|
    modifies node
    ensures outcome == HtmlImgOutcome(current[i], old(node.url), env)
    ensures node.url == old(node.url)
    ensures next == current[i := Apply(current[i], outcome)]
    ensures node.value == if outcome.Rewritten? then html.render(original, next) else old(node.value)
    ensures failure == FailureOf(outcome)
  {
    next, failure := current, None;
    outcome := HtmlImgOutcome(current[i], node.url, env);
    var url := current[i];
    if !url.Some? { return; }
    if !env.path.isAbsolute(url.value) || env.path.extname(url.value) == "" { return; }
    var file := FindMatchingFile(url.value, env.files, env.options, env.path);
    if file.Some? {
      next := current[i := Some(env.path.relative(env.directory, file.value.absolutePath))];
      node.value := html.render(original, next);
    } else {
      var remote := FindMatchingFileRemote(JsString(node.url), env.options, env.existsOnServer);
      if remote.Success? {
        next := current[i := Some(remote.value)];
        node.value := html.render(original, next);
      } else {
        failure := Some(remote.error);
      }
    }
  }

  /**
   * The state after the callbacks of the first `i` `<img>` elements: those
   * carry their new attributes, the others their old ones, and the node's
   * value is the re-serialised fragment once any element was rewritten.
   */
  ghost predicate ElementsDone(srcs: seq<Option<string>>, outs: seq<Outcome>, i: nat,
                               current: seq<Option<string>>, value: string, original: string, html: HtmlLib)
    requires |outs| == |srcs| && i <= |srcs|
  {
    |current| == |srcs|
    && (forall k :: 0 <= k < i ==> current[k] == Apply(srcs[k], outs[k]))
    && (forall k :: i <= k < |srcs| ==> current[k] == srcs[k])
    && value == if AnyRewritten(outs, i) then html.render(original, current) else original
  }

  /** One more callback keeps `ElementsDone`. */
  lemma ElementStep(srcs: seq<Option<string>>, outs: seq<Outcome>, i: nat,
                    current: seq<Option<string>>, value: string, original: string, html: HtmlLib,
                    next: seq<Option<string>>, value': string)
    requires |outs| == |srcs| && i < |srcs|
    requires ElementsDone(srcs, outs, i, current, value, original, html)
    requires next == current[i := Apply(current[i], outs[i])]
    requires value' == if outs[i].Rewritten? then html.render(original, next) else value
    ensures ElementsDone(srcs, outs, i + 1, next, value', original, html)
  {
    if !outs[i].Rewritten? {
      assert next == current;
    }
  }

  /**
   * The work on one html node: load the fragment, stop if it has no `<img>`,
   * else run the callback on each `<img>` in turn.
   */
  method RewriteHtmlNode(node: HtmlNode, env: Env, html: HtmlLib) returns (failures: seq<RemoteError>)
    modifies node
    ensures node.url == old(node.url)
    ensures node.value == HtmlValueAfter(old(node.value), old(node.url), env, html)
    ensures failures == FailuresOf(HtmlImgOutcomes(html.imgSrcs(old(node.value)), old(node.url), env))
  {
    failures := [];
    var original := node.value;
    var srcs := html.imgSrcs(original);
    ghost var outs := HtmlImgOutcomes(srcs, node.url, env);
    if |srcs| == 0 {
      return;
    }
    var current := srcs;
    var i := 0;
    while i < |srcs|
      invariant 0 <= i <= |srcs|
      invariant node.url == old(node.url)
      invariant ElementsDone(srcs, outs, i, current, node.value, original, html)
      invariant failures == FailuresIn(outs, i)
    {
      ghost var prev, valueBefore := current, node.value;
      assert current[i] == srcs[i];
      HtmlImgOutcomesAt(srcs, node.url, env, i);
      var failure;
      ghost var outcome;
      current, failure, outcome := RewriteImgElement(node, original, current, i, env, html);
      ElementStep(srcs, outs, i, prev, valueBefore, original, html, current, node.value);
      FailuresStep(outs, i, failure);
      if failure.Some? {
        failures := failures + [failure.value];
      }
      i := i + 1;
    }
    assert current == ApplyAll(srcs, outs);
  }

  /** The failures the rewrite of one html node reports. */
  function HtmlNodeFailures(value: string, nodeUrl: Option<string>, env: Env, html: HtmlLib): seq<RemoteError>
  {
    FailuresOf(HtmlImgOutcomes(html.imgSrcs(value), nodeUrl, env))
  }

  /** The failures of a sequence of html nodes, given as (value, url) pairs, in node order. */
  function AllHtmlFailures(nodes: seq<(string, Option<string>)>, env: Env, html: HtmlLib): seq<RemoteError>
  {
    if nodes == [] then []
    else
      var last := nodes[|nodes| - 1];
      AllHtmlFailures(nodes[..|nodes| - 1], env, html) + HtmlNodeFailures(last.0, last.1, env, html)
  }

  /** One more html node adds its own failures. */
  lemma AllHtmlFailuresStep(nodes: seq<(string, Option<string>)>, i: nat, env: Env, html: HtmlLib)
    requires i < |nodes|
    ensures AllHtmlFailures(nodes[..i + 1], env, html)
      == AllHtmlFailures(nodes[..i], env, html) + HtmlNodeFailures(nodes[i].0, nodes[i].1, env, html)
  {
    assert nodes[..i + 1][..i] == nodes[..i];
  }

  function HtmlStatesOf(htmls: array<HtmlNode>): (states: seq<(string, Option<string>)>)
    reads htmls, Objects(htmls)
    ensures |states| == htmls.Length
    ensures forall i :: 0 <= i < htmls.Length ==> states[i] == (htmls[i].value, htmls[i].url)
  {
    seq(htmls.Length, i requires 0 <= i < htmls.Length reads htmls, Objects(htmls) => (htmls[i].value, htmls[i].url))
  }

  /** The values of a sequence of html nodes after the rewrite, in node order. */
  function HtmlValuesAfter(nodes: seq<(string, Option<string>)>, env: Env, html: HtmlLib): (vs: seq<string>)
    ensures |vs| == |nodes|
  {
    if nodes == [] then []
    else
      var last := nodes[|nodes| - 1];
      HtmlValuesAfter(nodes[..|nodes| - 1], env, html) + [HtmlValueAfter(last.0, last.1, env, html)]
  }

  lemma {:induction false} HtmlValuesAfterAt(nodes: seq<(string, Option<string>)>, env: Env, html: HtmlLib, k: nat)
    requires k < |nodes|
    ensures HtmlValuesAfter(nodes, env, html)[k] == HtmlValueAfter(nodes[k].0, nodes[k].1, env, html)
    decreases |nodes|
  {
    if k < |nodes| - 1 {
      HtmlValuesAfterAt(nodes[..|nodes| - 1], env, html, k);
    }
  }

  /**
   * One step of the loop over the html nodes whose states were `before`: the
   * node at `i` is rewritten and no other node changes.
   */
  method RewriteHtmlAt(htmls: array<HtmlNode>, i: nat, env: Env, html: HtmlLib,
                       ghost before: seq<(string, Option<string>)>)
    returns (failures: seq<RemoteError>)
    requires Distinct(htmls) && i < htmls.Length == |before|
    requires (htmls[i].value, htmls[i].url) == before[i]
    modifies htmls[i]
    ensures htmls[i].url == before[i].1
    ensures htmls[i].value == HtmlValuesAfter(before, env, html)[i]
    ensures forall k :: 0 <= k < htmls.Length && k != i ==>
      htmls[k].value == old(htmls[k].value) && htmls[k].url == old(htmls[k].url)
    ensures failures == HtmlNodeFailures(before[i].0, before[i].1, env, html)
  {
    HtmlValuesAfterAt(before, env, html, i);
    var node := htmls[i];
    failures := RewriteHtmlNode(node, env, html);
    forall k | 0 <= k < htmls.Length && k != i
      ensures htmls[k].value == old(htmls[k].value) && htmls[k].url == old(htmls[k].url)
    {
      assert htmls[k] != node;
    }
  }

  /**
   * The loop over the selected html nodes: each node's `value` ends as
   * `HtmlValueAfter` of its own old value and url, independently of the
   * other nodes.
   */
  method RewriteHtml(htmls: array<HtmlNode>, env: Env, html: HtmlLib) returns (failures: seq<RemoteError>)
    requires Distinct(htmls)
    modifies Objects(htmls)
    ensures forall i :: 0 <= i < htmls.Length ==>
      htmls[i].url == old(htmls[i].url)
      && htmls[i].value == HtmlValueAfter(old(htmls[i].value), old(htmls[i].url), env, html)
    ensures failures == AllHtmlFailures(old(HtmlStatesOf(htmls)), env, html)
  {
    ghost var before := HtmlStatesOf(htmls);
    ghost var afters := HtmlValuesAfter(before, env, html);
    failures := [];
    var i := 0;
    while i < htmls.Length
      invariant 0 <= i <= htmls.Length
      invariant forall k :: 0 <= k < i ==> htmls[k].url == before[k].1 && htmls[k].value == afters[k]
      invariant forall k :: i <= k < htmls.Length ==> htmls[k].value == before[k].0 && htmls[k].url == before[k].1
      invariant failures == AllHtmlFailures(before[..i], env, html)
    {
      AllHtmlFailuresStep(before, i, env, html);
      var nodeFailures := RewriteHtmlAt(htmls, i, env, html, before);
      failures := failures + nodeFailures;
      i := i + 1;
    }
    assert before[..htmls.Length] == before;
    forall k | 0 <= k < htmls.Length
      ensures afters[k] == HtmlValueAfter(before[k].0, before[k].1, env, html)
    {
      HtmlValuesAfterAt(before, env, html, k);
    }
  }

  // ---------------------------------------------------------------------------
  // The plugin's entry point for a Markdown body

  /** The environment a document with absolute path `fileAbsolutePath` is rewritten in. */
  function DocumentEnv(fileAbsolutePath: string, files: seq<GatsbyFile>, given: GivenOptions,
                       path: PathLib, existsOnServer: ExistsOracle): Env
  {
    Env(files, Defaults(given), path.dirname(fileAbsolutePath), path, existsOnServer)
  }

  /**
   * The default export: fill in the options, do nothing for a document
   * without an absolute path, else rewrite the selected image nodes and then
   * the selected html nodes.
   */
  method TransformMarkdown(images: array<ImageNode>, htmls: array<HtmlNode>, fileAbsolutePath: string,
                           files: seq<GatsbyFile>, given: GivenOptions, path: PathLib,
                           existsOnServer: ExistsOracle, html: HtmlLib)
    returns (failures: seq<RemoteError>)
    requires Distinct(images) && Distinct(htmls)
    modifies Objects(images), Objects(htmls)
    ensures fileAbsolutePath == "" ==>
      failures == []
      && (forall i :: 0 <= i < images.Length ==> images[i].url == old(images[i].url))
      && (forall i :: 0 <= i < htmls.Length ==> htmls[i].value == old(htmls[i].value))
    ensures fileAbsolutePath != "" ==>
      var env := DocumentEnv(fileAbsolutePath, files, given, path, existsOnServer);
      (forall i :: 0 <= i < images.Length ==>
        images[i].url == Apply(old(images[i].url), ImageOutcomes(old(UrlsOf(images)), env)[i]))
      && (forall i :: 0 <= i < htmls.Length ==>
        htmls[i].value == HtmlValueAfter(old(htmls[i].value), old(htmls[i].url), env, html))
      && failures == FailuresOf(ImageOutcomes(old(UrlsOf(images)), env))
                     + AllHtmlFailures(old(HtmlStatesOf(htmls)), env, html)
    ensures forall i :: 0 <= i < htmls.Length ==> htmls[i].url == old(htmls[i].url)
  {
    var options := Defaults(given);
    if fileAbsolutePath == "" {
      return [];
    }
    var directory := path.dirname(fileAbsolutePath);
    var env := Env(files, options, directory, path, existsOnServer);
    var imageFailures := RewriteImages(images, env);
    var htmlFailures := RewriteHtml(htmls, env, html);
    failures := imageFailures + htmlFailures;
  }

  /**
   * What the rewrite does to one `<img>` `src`: kept when ineligible; the
   * relative path of the first matching file; else the remote URL built from
   * the html node's `url`, whatever the `src` is; kept when that fails.
   */
  lemma HtmlSrcAfter(src: Option<string>, nodeUrl: Option<string>, env: Env)
    ensures !IsEligible(src, env.path) ==> Apply(src, HtmlImgOutcome(src, nodeUrl, env)) == src
    ensures IsEligible(src, env.path) && !NoMatch(src.value, env.files, env.options, env.path) ==>
      Apply(src, HtmlImgOutcome(src, nodeUrl, env)) == Some(env.path.relative(env.directory,
        env.files[FirstMatch(env.files, StaticPath(src.value, env.options, env.path), env.path)].absolutePath))
    ensures IsEligible(src, env.path) && NoMatch(src.value, env.files, env.options, env.path) ==>
      Apply(src, HtmlImgOutcome(src, nodeUrl, env)) ==
        if env.options.baseUrl != "" && env.existsOnServer(env.options.baseUrl + JsString(nodeUrl))
        then Some(env.options.baseUrl + JsString(nodeUrl))
        else src
  {
    if IsEligible(src, env.path) {
      ResolveCharacterised(src.value, JsString(nodeUrl), env);
    }
  }

  /** An html node without `<img>` elements keeps its value. */
  lemma NoImgKeepsValue(value: string, nodeUrl: Option<string>, env: Env, html: HtmlLib)
    requires html.imgSrcs(value) == []
    ensures HtmlValueAfter(value, nodeUrl, env, html) == value
  {
  }

  /**
   * An html node keeps its value byte for byte when no `<img>` element is
   * rewritten, and is re-serialised with the new attributes as soon as one is.
   */
  lemma HtmlValueKeptUnlessRewritten(value: string, nodeUrl: Option<string>, env: Env, html: HtmlLib)
    ensures (forall k :: 0 <= k < |html.imgSrcs(value)| ==>
               !HtmlImgOutcomes(html.imgSrcs(value), nodeUrl, env)[k].Rewritten?)
      ==> HtmlValueAfter(value, nodeUrl, env, html) == value
    ensures (exists k :: 0 <= k < |html.imgSrcs(value)| &&
               HtmlImgOutcomes(html.imgSrcs(value), nodeUrl, env)[k].Rewritten?)
      ==> HtmlValueAfter(value, nodeUrl, env, html)
            == html.render(value, ApplyAll(html.imgSrcs(value), HtmlImgOutcomes(html.imgSrcs(value), nodeUrl, env)))
  {
    var srcs := html.imgSrcs(value);
    var os := HtmlImgOutcomes(srcs, nodeUrl, env);
    AnyRewrittenExactly(os, |os|);
    if exists k :: 0 <= k < |os| && os[k].Rewritten? {
      assert AnyRewritten(os, |os|);
      assert HtmlValueAfter(value, nodeUrl, env, html) == html.render(value, ApplyAll(srcs, os));
    } else {
      assert !AnyRewritten(os, |os|);
      assert HtmlValueAfter(value, nodeUrl, env, html) == value;
    }
  }

  /**
   * The remote fallback of an `<img>` does not depend on its `src`: two
   * eligible elements with no local match get the same answer, the one for
   * the node's `url`.
   */
  lemma HtmlFallbackUsesNodeUrl(src1: string, src2: string, nodeUrl: Option<string>, env: Env)
    requires IsEligible(Some(src1), env.path) && IsEligible(Some(src2), env.path)
    requires NoMatch(src1, env.files, env.options, env.path)
    requires NoMatch(src2, env.files, env.options, env.path)
    ensures HtmlImgOutcome(Some(src1), nodeUrl, env) == HtmlImgOutcome(Some(src2), nodeUrl, env)
    ensures HtmlImgOutcome(Some(src1), nodeUrl, env).Rewritten? ==>
      HtmlImgOutcome(Some(src1), nodeUrl, env).value == env.options.baseUrl + JsString(nodeUrl)
  {
  }

}
