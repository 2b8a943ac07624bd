# gatsby-remark-relative-images, modelled in Dafny

This project models the Gatsby plugin gatsby-remark-relative-images. The plugin rewrites absolute image references in Markdown documents. A reference such as `/img/a.png` is rewritten in one of two ways:

- to the path of the matching file under the site's static folder, relative to the document's directory;
- failing that, to a remote URL built from a configured `baseUrl`, if an existence probe finds that URL.

It does this in three places:

- the `url` of Markdown image nodes;
- the `src` of `<img>` elements inside inline HTML nodes;
- string leaves of a Markdown node's front matter. The include and exclude rules choose which leaves, matched against the leaf's key path.

The modules follow the source files:

| module | file | what it holds |
|---|---|---|
| `Utils` | `utils.dfy` | `slash`, the path-separator normaliser |
| `Index` | `index.dfy` | option defaults, the local file matcher and the remote resolver. Also the body rewriter: image nodes and html nodes are classes held in arrays and updated in place by loops |
| `FrontMatter` | `on_create_node.dfy` | `onCreateNode`: the node-type gate, the accumulated key-path list with its comma quirk, the include/exclude decision and the walk over the front matter |
| `Platform` | `platform.dfy` | the capabilities the plugin uses but does not define, as injected functions. Node's `path` primitives (`PathLib`), the HTML fragment view (`HtmlLib`) and the HEAD existence probe (`ExistsOracle`) |
| `Wrappers` | `wrappers.dfy` | `Option` and `Result` |

Every property holds for every implementation of the injected capabilities. One property (`SuffixMatchCrossesSegments`) assumes concrete behaviour of `join` and `normalize`, and it states that behaviour in its `requires`.

The model keeps the source's quirks, as the code has them:

- The matcher's suffix test has no path-segment boundary.
- The key path `["a","b","c"]` gives the path list `["a","a.b","a,a.b.c"]`. The array accumulator is stringified with commas.
- The remote fallback for an inline `<img>` asks about the html node's own `url`, not about the element's `src`. An html node normally has no `url`, so the probe gets `baseUrl + "undefined"`. The fallback for a front-matter leaf asks about the Markdown node's `url`, not about the leaf.

The code passes `node.url` in both places (`src/index.ts:142`, `src/on-create-node.ts:59`). The model follows the code.

In the model, a remote lookup that fails is a `RemoteError` value. That error is returned in node order, and the value it concerns is left unchanged. In the source it is the rejection of an unawaited callback.

## Model

| member | source | states |
|---|---|---|
| Utils.ReplaceBackslashes | src/utils.ts:8 | the global replace keeps the length, turns every `\` into `/` and keeps every other character in place |
| Utils.Slash | src/utils.ts:2-9 | an extended-length path (prefix `\\?\`) comes back unchanged. Any other path keeps its length, contains no `\`, and is mapped position by position (`\` to `/`, others kept) |
| Utils.NoBackslashUnchanged | src/utils.ts:8 | a path with no backslash is returned unchanged |
| Utils.SlashIdempotent | src/utils.ts:2-9 | `slash(slash(p)) == slash(p)` for every path |
| Utils.SlashOfOrdinaryIsOrdinary | src/utils.ts:3-8 | the result of the replace never starts with the extended-length prefix, so a second call takes the replace branch again |
| Index.Defaults | src/index.ts:52-57 | each missing option takes its default (`"static"`, `[]`, `[]`, `""`) and each given option is kept |
| Index.DefaultsKeepsGiven | src/index.ts:95 | options that are all given come back unchanged |
| Index.DefaultsIdempotent | src/index.ts:95 | filling in defaults a second time changes nothing |
| Index.FirstMatch | src/index.ts:64-67 | the index found is within bounds, no earlier file passes the suffix test, and the file at the index passes it |
| Index.FindMatchingFile | src/index.ts:59-69 | returns nothing iff no file passes the suffix test. A returned file is an element of `files` whose slashed, normalised path ends with `slash(join(staticFolderName, src))`, and it is the lowest-index such file |
| Index.EndsWithAppended | src/index.ts:66 | a string ends with any string appended to it, as `endsWith` reports |
| Index.SuffixMatchCrossesSegments | src/index.ts:65-66 | the suffix test has no segment boundary: with POSIX `join` and `normalize` on these inputs, `/nostatic/a.png` matches the reference `/a.png` into folder `static` |
| Index.FindMatchingFileRemote | src/index.ts:71-88 | an empty `baseUrl` fails with the no-base-URL error. Otherwise it succeeds iff the probe finds `baseUrl + src`, returns exactly that string, and otherwise fails with an error carrying `src` and the full URL |
| Index.RemoteWithoutBaseUrlIgnoresOracle | src/index.ts:75-79 | with an empty `baseUrl` the result fails and is the same for every probe |
| Index.RemoteAsksOnlyFullUrl | src/index.ts:80-81 | two probes that agree on `baseUrl + src` give the same result, so the probe is asked about that URL only |
| Index.ResolveCharacterised | src/index.ts:107-115 | resolving never skips. A local match always wins and gives the relative path of the first matching file. Without one the result is `baseUrl + remoteSrc` when the base URL is set and the probe finds it, and otherwise the matching error |
| Index.FailuresOfExactly | src/index.ts:102-116 | the failures reported are exactly the errors of the failed steps, at most one per step |
| Index.RewriteImage | src/index.ts:103-115 | the callback for one image node changes only that node's `url`. The new `url` is the step's outcome applied to the old one, and a failed remote lookup is returned while the `url` is kept |
| Index.RewriteImageAt | src/index.ts:102 | one step of the image loop rewrites node `i` as its outcome says, leaves every other node unchanged and returns that step's failure |
| Index.RewriteImages | src/index.ts:101-116 | after the loop every image node's `url` is its own old `url` with its own outcome applied, independently of the other nodes. The failures are those of the failed nodes, in node order |
| Index.ImageUrlAfter | src/index.ts:104-115 | an ineligible `url` (not a string, not absolute, or no extension) is kept. An eligible one becomes `relative(directory, file.absolutePath)` of the first match, or else `baseUrl + url` when the base URL is set and the probe finds it, and is kept otherwise. The step fails exactly in that last case |
| Index.ImageRewriteSettles | src/index.ts:104-111 | a rewritten `url` that is no longer absolute is left alone by a second pass |
| Index.RewriteImgElement | src/index.ts:126-146 | the callback for `<img>` number `i` changes only that element's `src`. When the element is rewritten the node's `value` becomes the re-serialised fragment; otherwise the `value` is kept and any failure is returned. The node's `url` is unchanged |
| Index.RewriteHtmlNode | src/index.ts:120-146 | one html node ends with `value` equal to the fragment re-serialised with every element's new `src` once any element was rewritten, and the old `value` byte for byte otherwise. Its `url` is unchanged and the failures are those of its failed elements, in document order |
| Index.RewriteHtmlAt | src/index.ts:119 | one step of the html loop rewrites node `i` as `RewriteHtmlNode` says and leaves every other node unchanged |
| Index.RewriteHtml | src/index.ts:118-147 | after the loop every html node's `value` is determined by its own old `value` and `url` alone, no `url` changes, and the failures come node by node in order |
| Index.NoImgKeepsValue | src/index.ts:124 | an html node with no `<img>` keeps its `value` |
| Index.AnyRewrittenExactly | src/index.ts:135-144 | the node's value is re-serialised exactly when some `<img>` among those handled so far was rewritten |
| Index.HtmlValueKeptUnlessRewritten | src/index.ts:122-146 | the node keeps its `value` byte for byte when no element is rewritten (all skipped or failed). Once one is, the `value` is the fragment re-serialised with every element's new `src` |
| Index.HtmlSrcAfter | src/index.ts:128-145 | an ineligible `src` is kept. An eligible one becomes the relative path of the first match, or else `baseUrl` plus the node's `url`, whatever the `src` is, when the probe finds it, and is kept otherwise |
| Index.HtmlFallbackUsesNodeUrl | src/index.ts:141-143 | two eligible elements with no local match get the same outcome, and a rewrite gives `baseUrl` plus the node's `url` |
| Index.TransformMarkdown | src/index.ts:90-148 | with an empty `fileAbsolutePath` nothing changes and nothing fails. Otherwise every image `url` and every html `value` ends as its own outcome says, with the options defaulted and the directory taken from the document path. The image failures come first, then the html failures. No html `url` ever changes |
| FrontMatter.BuildPaths | src/on-create-node.ts:37-40 | the reducer's accumulator, built by one push per key, equals `AccumulatedPaths(keys)` |
| FrontMatter.PathsOfPrefix | src/on-create-node.ts:37-40 | the list for a prefix of the keys is the prefix of the list |
| FrontMatter.PathAt | src/on-create-node.ts:38 | entry `k` is what the reducer pushes for key `k` onto the entries before it |
| FrontMatter.PathsEntries | src/on-create-node.ts:37-40 | one entry per key. Entry 0 is the first key and entry 1 is `k0 + "." + k1`. Every later entry is the comma-joined list of the earlier entries followed by `"." + key` |
| FrontMatter.PathsOfTwoKeys | src/on-create-node.ts:38 | two keys give `[k0, k0 + "." + k1]` |
| FrontMatter.PathsOfThreeKeys | src/on-create-node.ts:38 | `["a","b","c"]` gives `["a","a.b","a,a.b.c"]` |
| FrontMatter.SomeIn | src/on-create-node.ts:44 | true iff some rule is literally a member of the path list |
| FrontMatter.ShouldTransform | src/on-create-node.ts:42-52 | a leaf is transformed iff (there are no include rules, or some include rule is in the path list) and no exclude rule is in it. An exclude wins over an include |
| FrontMatter.ShouldTransformExamples | src/on-create-node.ts:42-50 | `hero.image` included and `footer.logo` not. With only an exclude, the other leaf is transformed and the excluded one is not. A key both included and excluded is not transformed |
| FrontMatter.DeepDottedIncludeMisses | src/on-create-node.ts:37-46 | an include rule `a.b.c` never selects the leaf at key path `a`, `b`, `c` |
| FrontMatter.UntransformedLeafUnchanged | src/on-create-node.ts:34-52 | a leaf that is not absolute, has no extension, or is rejected by the rules is skipped and kept |
| FrontMatter.TransformedLeaf | src/on-create-node.ts:54-63 | a transformed leaf becomes the relative path of the first matching file. Otherwise it becomes `baseUrl` plus the node's `url`, not the leaf, when the probe finds that, and is kept when the lookup fails |
| FrontMatter.FallbackIgnoresLeaf | src/on-create-node.ts:58-60 | two transformed leaves with no local match get the same outcome |
| FrontMatter.RewriteAt | src/on-create-node.ts:33-64 | the walk keeps the shape of the front matter: each key path reaches a value after iff it did before. Each string leaf becomes its own rewrite under its full key path, each other scalar is kept and objects stay objects |
| FrontMatter.OnCreateNode | src/on-create-node.ts:21-66 | a node that is neither `MarkdownRemark` nor `Mdx` is returned unchanged. A Markdown node without a file path fails, because `path.dirname` throws on it, and only that node fails. A node that succeeds keeps its type, file path and `url` |
| FrontMatter.OnCreateNodeLeaves | src/on-create-node.ts:27-64 | for a Markdown node with a file path, the hook succeeds and every front-matter key path keeps reaching a value. Each string leaf ends as its own rewrite under that key path, with the options defaulted and the directory taken from the node's file, and every other scalar is kept |

## Left out

- The HTTP HEAD probe (`chekcIfExistsOnServer`, src/utils.ts:11-18) is network I/O. It is the injected `ExistsOracle`, so an axios error and a missing file are the same `false`.
- Node's `path` module is library code outside this model. `join`, `normalize`, `relative`, `dirname`, `isAbsolute` and `extname` are injected functions, and the properties hold for all of them.
- Cheerio's parsing and serialisation are a foreign library. An html fragment is seen through `HtmlLib`: its `<img>` `src` attributes in document order, and the serialised `<body>` once those attributes are set. The fallback `?? ""` is part of that serialiser.
- `unist-util-select` is not part of this model. The image and html nodes it selects are given as arrays of distinct objects.
- `traverse` is not part of this model. Front matter is a value (`Data`). An array is the record of its elements under keys `"0"`, `"1"` and so on. The walk returns a new tree, so the in-place `this.update` and any aliasing between parts of the front matter are not captured.
- The unawaited `forEach(async ...)` dispatch is concurrency and promise timing, so the model runs the callbacks one after another. It does not capture that the source returns before remote rewrites settle, nor that those rewrites can interleave.
- A failed remote lookup is a rejected promise that no one awaits. The model instead returns it as a `RemoteError` per failed value. The exact message wording and the `reporter` are left out.
- FrontMatter.OnCreateNode: does not return the failed remote lookups of front-matter leaves; a failed leaf is kept unchanged, as in the image and html loops.
- The front-matter walk is assumed to visit every node of the front matter and to apply `this.update` at each rewritten string leaf, whatever the `async` callback returns. The library `traverse` is not part of this model, so how it treats the callback's return value (a Promise) is not captured.
- `getNodesByType("File")` is host plumbing. Its result is the `files` parameter.
- Index.TransformMarkdown: an empty `fileAbsolutePath` stands for every falsy value the guard at `src/index.ts:97` rejects (`undefined`, `null` and `""`). The model has no separate `undefined` or `null` for it.
- A field that may be `undefined` (`node.url`, and `fileAbsolutePath` on a front-matter node) is an `Option`. `None` becomes the JavaScript string `"undefined"` where the source concatenates it. The option field `include` is called `includes`, because `include` is a Dafny keyword, and `exclude` is called `excludes` to match it.
- The TypeScript type declarations are left out.
