/**
 * Stand-ins for the host capabilities the plugin calls but does not define:
 * Node's `path` module, cheerio's HTML fragment handling and the HTTP HEAD
 * existence probe. Each is an injected function, so every property of the
 * model holds for every implementation of them.
 */
module Platform {
  import opened Wrappers

  /** The six Node `path` primitives the plugin uses. */
  datatype PathLib = PathLib(
    join: (string, string) -> string,
    normalize: string -> string,
    relative: (string, string) -> string,
    dirname: string -> string,
    isAbsolute: string -> bool,
    extname: string -> string)

  /**
   * The view of an HTML fragment that the body rewriter needs:
   * `imgSrcs(value)` lists the `src` attribute of each `<img>` element of the
   * fragment in document order (`None` when the attribute is missing), and
   * `render(value, srcs)` is the serialised `<body>` of that fragment once its
   * `<img>` elements carry the attributes `srcs`.
   */
  datatype HtmlLib = HtmlLib(
    imgSrcs: string -> seq<Option<string>>,
    render: (string, seq<Option<string>>) -> string)

  /** The remote existence probe: true when a HEAD request to the URL succeeds. */
  type ExistsOracle = string -> bool
}
