/**
 * The reload-injection middleware of the dev server: a request whose
 * path resolves to an HTML file under the asset directory is answered
 * with that file, the reload snippet spliced in after its first closing
 * body tag; any other request goes on to the static file service.
 */
module ServeDirReload {
  import opened Wrappers
  import opened Text
  import opened Paths

  const BODY_END: string := "</body>"

  // ---------------------------------------------------------------------
  // Splicing the snippet into a page

  /**
   * The page with `js` spliced in: a newline and `js` go right after the
   * first `</body>`; a page without one is returned as it is.
   */
  function Injected(html: string, js: string): (r: string)
    ensures !Contains(html, BODY_END) ==> r == html
    ensures Contains(html, BODY_END) ==> |r| == |html| + |js| + 1
  {
    match FindFrom(html, BODY_END, 0)
    case None => html
    case Some(i) => html[..i + |BODY_END|] + "\n" + js + html[i + |BODY_END|..]
  }

  /** No occurrence of `</body>` starts inside a prefix that does not contain one: the tag cannot overlap itself. */
  lemma {:induction false} NoTagStartsBefore(html: string, before: string, after: string, j: nat)
    requires html == before + BODY_END + after
    requires !Contains(before, BODY_END)
    requires j < |before|
    ensures !OccursAt(html, BODY_END, j)
  {
    if j + |BODY_END| <= |before| {
      assert html[j..j + |BODY_END|] == before[j..j + |BODY_END|];
      assert !OccursAt(before, BODY_END, j);
    } else if j + |BODY_END| <= |html| {
      var m := |before| - j;
      assert 1 <= m < |BODY_END|;
      assert html[|before|] == '<';
      assert html[j..j + |BODY_END|][m] == '<';
      assert BODY_END[m] != '<';
    }
  }

  /** When `before` holds no `</body>`, the tag right after it is the first one. */
  lemma {:induction false} FirstTagAt(html: string, before: string, after: string)
    requires html == before + BODY_END + after
    requires !Contains(before, BODY_END)
    ensures FindFrom(html, BODY_END, 0) == Some(|before|)
  {
    assert html[|before|..|before| + |BODY_END|] == BODY_END;
    assert OccursAt(html, BODY_END, |before|);
    forall j: nat | j < |before| ensures !OccursAt(html, BODY_END, j) {
      NoTagStartsBefore(html, before, after, j);
    }
  }

  /** Placement: split at the first `</body>`, the output is `before`, the tag, a newline, the snippet, `after`. */
  lemma {:induction false} InjectedAtFirstTag(html: string, js: string, before: string, after: string)
    requires html == before + BODY_END + after
    requires !Contains(before, BODY_END)
    ensures Injected(html, js) == before + BODY_END + "\n" + js + after
  {
    FirstTagAt(html, before, after);
    var k := |before| + |BODY_END|;
    assert html[..k] == before + BODY_END;
    assert html[k..] == after;
  }

  /** `s` without the `n` characters from index `at`. */
  function Delete(s: string, at: nat, n: nat): (r: string)
    requires at + n <= |s|
    ensures |r| == |s| - n
  {
    s[..at] + s[at + n..]
  }

  /**
   * Round trip: cutting the newline and the snippet back out of the
   * output gives the page back, so nothing else was altered.
   */
  lemma {:induction false} InjectedRoundTrip(html: string, js: string, before: string, after: string)
    requires html == before + BODY_END + after
    requires !Contains(before, BODY_END)
    ensures |before| + |BODY_END| + 1 + |js| <= |Injected(html, js)|
    ensures Injected(html, js)[|before| + |BODY_END|..|before| + |BODY_END| + 1 + |js|] == "\n" + js
    ensures Delete(Injected(html, js), |before| + |BODY_END|, 1 + |js|) == html
  {
    InjectedAtFirstTag(html, js, before, after);
    var out := Injected(html, js);
    var k := |before| + |BODY_END|;
    assert out[..k] == before + BODY_END;
    assert out[k..k + 1 + |js|] == "\n" + js;
    assert out[k + 1 + |js|..] == after;
  }

  /**
   * `inject_js_into_html`: split the page at its first `</body>` and
   * fill a buffer, sized up front, with the parts and the snippet.
   */
  method InjectJsIntoHtml(html: string, js: string) returns (out: string)
    ensures out == Injected(html, js)
    ensures Contains(html, BODY_END) ==> |out| == |html| + |js| + 1
    ensures !Contains(html, BODY_END) ==> out == html
  {
    var split := SplitOnce(html, BODY_END);
    if split.Some? {
      var (before, after) := split.value;
      var totalSize := |before| + |BODY_END| + 1 + |js| + |after|;
      var buffer := new StringBuf.WithCapacity(totalSize);
      buffer.PushStr(before);
      buffer.PushStr(BODY_END);
      buffer.Push('\n');
      buffer.PushStr(js);
      buffer.PushStr(after);
      assert buffer.contents == before + BODY_END + "\n" + js + after;
      assert |buffer.contents| == buffer.capacity;
      out := buffer.contents;
      InjectedAtFirstTag(html, js, before, after);
    } else {
      out := html;
    }
  }

  // ---------------------------------------------------------------------
  // From the request path to a file under the asset directory

  /** A path that names a directory asks for its `index.html`. */
  function IndexedUriPath(path: string): (r: string)
    ensures path <= r && !EndsWith(r, '/')
    ensures r != path <==> EndsWith(path, '/')
    ensures r != path ==> r[|path|..] == INDEX_HTML
  {
    if EndsWith(path, '/') then path + "index.html" else path
  }

  /** The request path, with `index.html` pushed onto it when it ends in `/`. */
  method AppendIndexHtml(path: string) returns (uri: string)
    ensures EndsWith(path, '/') ==> uri == path + "index.html"
    ensures !EndsWith(path, '/') ==> uri == path
    ensures !EndsWith(uri, '/')
    ensures uri == IndexedUriPath(path)
  {
    var buf := new StringBuf.FromStr(path);
    if EndsWith(buf.contents, '/') {
      buf.PushStr("index.html");
    }
    uri := buf.contents;
  }

  /**
   * `uri.trim_start().trim_start_matches('/')`: the part of the URI path
   * joined onto the asset directory. What is cut off is a run of
   * whitespace followed by a run of slashes; what remains never starts
   * with a slash, so it is never an absolute path.
   */
  function RelativeComponent(uri: string): (r: string)
    ensures |r| <= |uri| && r == uri[|uri| - |r|..]
    ensures !IsAbsolute(r)
  {
    TrimStartMatches(TrimStart(uri), '/')
  }

  /** What `RelativeComponent` cuts off is leading whitespace and then slashes, nothing else. */
  lemma {:induction false} RelativeComponentStrips(uri: string)
    ensures StrippedPrefix(uri, |uri| - |TrimStart(uri)|, RelativeComponent(uri))
  {
    var trimmed := TrimStart(uri);
    var w := |uri| - |trimmed|;
    var r := TrimStartMatches(trimmed, '/');
    assert trimmed == uri[w..];
    forall i | w <= i < |uri| - |r| ensures uri[i] == '/' {
      assert uri[i] == trimmed[i - w];
    }
    assert w < |uri| ==> uri[w] == trimmed[0];
  }

  /**
   * What precedes the suffix `r` of `uri` is a maximal run of whitespace,
   * `uri[..w]`, followed by slashes.
   */
  predicate StrippedPrefix(uri: string, w: nat, r: string) {
    var n := |uri| - |r|;
    w <= n <= |uri|
    && (forall i :: 0 <= i < w ==> IsWhitespace(uri[i]))
    && (forall i :: w <= i < n ==> uri[i] == '/')
    && (w < |uri| ==> !IsWhitespace(uri[w]))
  }

  /**
   * The trims run in that order, so whitespace after the leading slashes
   * survives: the joined component may start with whitespace.
   */
  lemma {:induction false} WhitespaceAfterSlashesSurvives()
    ensures RelativeComponent("/ index.html") == " index.html"
  {
    assert !IsWhitespace('/');
    assert TrimStart("/ index.html") == "/ index.html";
    assert "/ index.html"[1..] == " index.html";
    assert TrimStartMatches(" index.html", '/') == " index.html";
  }

  /** The file a request path is mapped to: the asset directory joined with the relative component. */
  function AssetPath(assetDir: string, requestPath: string): (r: string)
    ensures var rel := RelativeComponent(IndexedUriPath(requestPath));
      assetDir <= r && |assetDir| + |rel| <= |r| <= |assetDir| + |rel| + 1
      && r[|r| - |rel|..] == rel
      && (|r| > |assetDir| + |rel| ==> r[|assetDir|] == '/')
  {
    var rel := RelativeComponent(IndexedUriPath(requestPath));
    PushedRelativeShape(assetDir, rel);
    Pushed(assetDir, rel)
  }

  /**
   * The join only ever extends the asset directory: the directory is a
   * prefix of the result, its components come first, and a relative
   * directory stays relative.
   */
  lemma {:induction false} AssetPathExtendsAssetDir(assetDir: string, requestPath: string)
    ensures assetDir <= AssetPath(assetDir, requestPath)
    ensures Segments(AssetPath(assetDir, requestPath))
         == Segments(assetDir) + Segments(RelativeComponent(IndexedUriPath(requestPath)))
    ensures assetDir != [] ==> (IsAbsolute(AssetPath(assetDir, requestPath)) <==> IsAbsolute(assetDir))
  {
    SegmentsOfRelativePush(assetDir, RelativeComponent(IndexedUriPath(requestPath)));
  }

  const INDEX_HTML: string := "index.html"

  /** The trims stop at the latest at a character that is neither whitespace nor `/`. */
  lemma {:induction false} RelativeComponentKeepsFrom(uri: string, n: nat)
    requires n < |uri| && !IsWhitespace(uri[n]) && uri[n] != '/'
    ensures |uri| - |RelativeComponent(uri)| <= n
  {
    var t := TrimStart(uri);
    assert |uri| - |t| <= n;
    var m := n - (|uri| - |t|);
    assert t[m] == uri[n];
    assert |t| - |TrimStartMatches(t, '/')| <= m;
  }

  /** A suffix of `s` that starts at or before `n` ends in `s[n..]`, with `s[n - 1]` before it when it starts earlier. */
  lemma SuffixKeepsTail(s: string, r: string, n: nat)
    requires |r| <= |s| && r == s[|s| - |r|..] && |s| - |r| <= n <= |s|
    ensures r[|r| - (|s| - n)..] == s[n..]
    ensures |s| - |r| < n ==> r[|r| - (|s| - n) - 1] == s[n - 1]
  {
  }

  /** For a directory path the relative component is `index.html`, alone or after a `/`. */
  lemma {:induction false} DirectoryComponentEndsInIndexHtml(requestPath: string)
    requires EndsWith(requestPath, '/')
    ensures var rel := RelativeComponent(IndexedUriPath(requestPath));
      |rel| >= |INDEX_HTML| && rel[|rel| - |INDEX_HTML|..] == INDEX_HTML
      && (|rel| > |INDEX_HTML| ==> rel[|rel| - |INDEX_HTML| - 1] == '/')
  {
    var uri := requestPath + INDEX_HTML;
    var n := |requestPath|;
    assert IndexedUriPath(requestPath) == uri;
    assert uri[n] == 'i' && !IsWhitespace('i');
    RelativeComponentKeepsFrom(uri, n);
    SuffixKeepsTail(uri, RelativeComponent(uri), n);
    assert uri[n..] == INDEX_HTML && uri[n - 1] == '/';
  }

  /** A path that is `index.html`, alone or after a `/`, has `index.html` as its last component. */
  lemma {:induction false} LastSegmentIsIndexHtml(rel: string)
    requires |rel| >= |INDEX_HTML| && rel[|rel| - |INDEX_HTML|..] == INDEX_HTML
    requires |rel| > |INDEX_HTML| ==> rel[|rel| - |INDEX_HTML| - 1] == '/'
    ensures Segments(rel) != [] && Segments(rel)[|Segments(rel)| - 1] == INDEX_HTML
  {
    SegmentsOfPiece(INDEX_HTML);
    if |rel| == |INDEX_HTML| {
      assert rel == INDEX_HTML;
    } else {
      var x := rel[..|rel| - |INDEX_HTML| - 1];
      assert rel == x + "/" + INDEX_HTML;
      SegmentsOfJoined(x, INDEX_HTML);
    }
  }

  /** Pushing a relative path whose last component is `index.html` gives a path with that file name. */
  lemma {:induction false} FileNameOfIndexHtmlPush(assetDir: string, rel: string)
    requires !IsAbsolute(rel)
    requires Segments(rel) != [] && Segments(rel)[|Segments(rel)| - 1] == INDEX_HTML
    ensures FileName(Pushed(assetDir, rel)) == Some(INDEX_HTML)
  {
    SegmentsOfRelativePush(assetDir, rel);
  }

  /** A path whose file name is `index.html` has the `html` extension. */
  lemma {:induction false} IndexHtmlHasHtmlExtension(p: string)
    requires FileName(p) == Some(INDEX_HTML)
    ensures Extension(p) == Some("html")
  {
    NameExtensionIsHtml(INDEX_HTML);
  }

  /** A request for a directory path resolves to a file named `index.html`. */
  lemma {:induction false} DirectoryRequestNamesIndexHtml(assetDir: string, requestPath: string)
    requires EndsWith(requestPath, '/')
    ensures FileName(AssetPath(assetDir, requestPath)) == Some(INDEX_HTML)
  {
    var rel := RelativeComponent(IndexedUriPath(requestPath));
    DirectoryComponentEndsInIndexHtml(requestPath);
    LastSegmentIsIndexHtml(rel);
    FileNameOfIndexHtmlPush(assetDir, rel);
  }

  /** So a directory request passes the extension check of `is_inject_candidate`. */
  lemma {:induction false} DirectoryRequestHasHtmlExtension(assetDir: string, requestPath: string)
    requires EndsWith(requestPath, '/')
    ensures Extension(AssetPath(assetDir, requestPath)) == Some("html")
  {
    DirectoryRequestNamesIndexHtml(assetDir, requestPath);
    IndexHtmlHasHtmlExtension(AssetPath(assetDir, requestPath));
  }

  // ---------------------------------------------------------------------
  // Deciding whether to inject

  /**
   * What the middleware learns from the file system, as three abstract
   * answers: which paths `is_file` accepts, which `try_exists` reports
   * as existing, and what `read_to_string` returns for the paths it can
   * read (a path missing from `readable` fails to read).
   */
  datatype FileSystem = FileSystem(regularFiles: set<string>, existing: set<string>, readable: map<string, string>)

  /** The three checks of `is_inject_candidate`, in the order they run. */
  datatype Check = IsFileCheck | ExtensionCheck | ExistsCheck

  const CHECKS_IN_ORDER: seq<Check> := [IsFileCheck, ExtensionCheck, ExistsCheck]

  predicate Passes(fs: FileSystem, path: string, c: Check) {
    match c
    case IsFileCheck => path in fs.regularFiles
    case ExtensionCheck => Extension(path) == Some("html")
    case ExistsCheck => path in fs.existing
  }

  /** The verdict of `is_inject_candidate`, with the checks it ran before deciding. */
  datatype Verdict = Verdict(candidate: bool, performed: seq<Check>)

  /**
   * `is_inject_candidate`: a regular file whose name ends in `.html`
   * after at least one other character, and that exists. The checks run
   * in order and the first that fails decides.
   */
  function IsInjectCandidate(fs: FileSystem, path: string): (v: Verdict)
    ensures v.candidate <==>
      path in fs.regularFiles && FileName(path).Some? && HtmlNamed(FileName(path).value) && path in fs.existing
    ensures v.performed != [] && v.performed <= CHECKS_IN_ORDER
    ensures forall k :: 0 <= k < |v.performed| - 1 ==> Passes(fs, path, v.performed[k])
    ensures v.candidate <==> Passes(fs, path, v.performed[|v.performed| - 1]) && v.performed == CHECKS_IN_ORDER
    ensures !v.candidate ==> !Passes(fs, path, v.performed[|v.performed| - 1])
  {
    ExtensionIsHtml(path);
    if path !in fs.regularFiles then Verdict(false, [IsFileCheck])
    else if Extension(path) != Some("html") then Verdict(false, [IsFileCheck, ExtensionCheck])
    else if path !in fs.existing then Verdict(false, CHECKS_IN_ORDER)
    else Verdict(true, CHECKS_IN_ORDER)
  }

  /** `load_html_from`: the file's text, or nothing when reading it fails. */
  function LoadHtmlFrom(fs: FileSystem, path: string): (r: Option<string>)
    ensures r.Some? <==> path in fs.readable
    ensures r.Some? ==> r.value == fs.readable[path]
  {
    if path in fs.readable then Some(fs.readable[path]) else None
  }

  // ---------------------------------------------------------------------
  // The middleware

  datatype Response = Response(status: nat, headers: seq<(string, string)>, body: string)

  /** How a request ends: with a response, or with the panic of a failed read. */
  datatype Handled = Reply(response: Response) | Panic

  /** The response served in place of an HTML file. */
  function HtmlResponse(body: string): (r: Response)
    ensures r.status == 200 && r.body == body
    ensures ("Content-Type", "text/html") in r.headers
    ensures |r.headers| == 1
  {
    Response(200, [("Content-Type", "text/html")], body)
  }

  /** The middleware's state: the asset directory and the snippet to inject. */
  datatype InjectedHtmlServeDir = InjectedHtmlServeDir(assetDir: string, injectContent: string) {

    /**
     * `InjectedHtmlServeDir::new`: the configured directory pushed onto
     * `.`, so a relative directory is read relative to the working
     * directory (same components) and an absolute one replaces `.`.
     */
    static method New(assetDir: string, injectContent: string) returns (s: InjectedHtmlServeDir)
      ensures s.injectContent == injectContent
      ensures IsAbsolute(assetDir) ==> s.assetDir == assetDir
      ensures !IsAbsolute(assetDir) ==> s.assetDir == "./" + assetDir
      ensures Segments(s.assetDir) == Segments(assetDir)
    {
      var dir := new PathBuf.From(".");
      dir.Push(assetDir);
      s := InjectedHtmlServeDir(dir.inner, injectContent);
      if !IsAbsolute(assetDir) {
        assert s.assetDir == "." + "/" + assetDir;
        SegmentsOfJoined(".", assetDir);
        SegmentsOfPiece(".");
      }
    }
  }

  /**
   * `html_reload_injection`: `next` is the response the static file
   * service gives for the same request. A candidate is answered with the
   * injected page (or the read panics); anything else gets `next`'s
   * response untouched.
   */
  method HtmlReloadInjection(state: InjectedHtmlServeDir, fs: FileSystem, requestPath: string, next: Response)
    returns (h: Handled)
    ensures var path := AssetPath(state.assetDir, requestPath);
      if !IsInjectCandidate(fs, path).candidate then h == Reply(next)
      else if path !in fs.readable then h == Panic
      else h == Reply(HtmlResponse(Injected(fs.readable[path], state.injectContent)))
  {
    var uri := AppendIndexHtml(requestPath);
    var assetPath := Join(state.assetDir, RelativeComponent(uri));
    if IsInjectCandidate(fs, assetPath).candidate {
      var loaded := LoadHtmlFrom(fs, assetPath);
      if loaded.None? {
        h := Panic;
      } else {
        var content := InjectJsIntoHtml(loaded.value, state.injectContent);
        h := Reply(HtmlResponse(content));
      }
    } else {
      h := Reply(next);
    }
  }

  // ---------------------------------------------------------------------
  // Parent components in the request path

  /** The request `/../name` keeps its `..` in the relative component. */
  lemma {:induction false} ParentRequestComponent(name: string)
    ensures RelativeComponent("/../" + name) == "../" + name
  {
    var uri := "/../" + name;
    assert uri[0] == '/' && !IsWhitespace('/');
    assert TrimStart(uri) == uri;
    assert uri[1..] == "../" + name;
    assert TrimStartMatches(uri[1..], '/') == uri[1..];
  }

  /** `../name` has the components `..` and `name`. */
  lemma {:induction false} ParentRequestSegments(name: string)
    requires '/' !in name && name != "" && name != "."
    ensures Segments("../" + name) == ["..", name]
  {
    assert "../" + name == ".." + "/" + name;
    SegmentsOfJoined("..", name);
    SegmentsOfPiece("..");
    SegmentsOfPiece(name);
  }

  /**
   * A `..` in the request path is joined on as it is: for every asset
   * directory but the root, `/../name` resolves outside it. The root is
   * the exception because `..` at the root stays there. The only other
   * exception is a `name` equal to the directory's own last component,
   * where the path comes back to the directory itself.
   */
  lemma {:induction false} ResolvedPathCanLeaveAssetDir(assetDir: string, name: string)
    requires '/' !in name && name != "" && name != "." && name != ".."
    requires var d := Resolve(assetDir); (IsAbsolute(assetDir) ==> d != []) && (d == [] || d[|d| - 1] != name)
    ensures AssetPath(assetDir, "/../" + name) == Pushed(assetDir, "../" + name)
    ensures !LexicallyWithin(assetDir, AssetPath(assetDir, "/../" + name))
  {
    ParentRequestAssetPath(assetDir, name);
    if IsAbsolute(assetDir) {
      ParentPushLeavesAbsolute(assetDir, name);
    } else {
      ParentPushLeavesRelative(assetDir, name);
    }
  }

  lemma {:induction false} ParentPushLeavesAbsolute(assetDir: string, name: string)
    requires '/' !in name && name != "" && name != "." && name != ".."
    requires IsAbsolute(assetDir)
    requires var d := Resolve(assetDir); d != [] && d[|d| - 1] != name
    ensures !LexicallyWithin(assetDir, Pushed(assetDir, "../" + name))
  {
    ParentPushSegments(assetDir, name);
    ParentFromAbsolute(Segments(assetDir), name);
  }

  lemma {:induction false} ParentPushLeavesRelative(assetDir: string, name: string)
    requires '/' !in name && name != "" && name != "." && name != ".."
    requires !IsAbsolute(assetDir)
    requires var d := Resolve(assetDir); d == [] || d[|d| - 1] != name
    ensures !LexicallyWithin(assetDir, Pushed(assetDir, "../" + name))
  {
    var p := Pushed(assetDir, "../" + name);
    var xs := Segments(assetDir);
    ParentPushSegments(assetDir, name);
    assert Resolve(p) == Normalize(xs + ["..", name]);
    assert Resolve(assetDir) == Normalize(xs);
    ParentFromRelative(xs, name);
  }

  /** Pushing `../name` appends the components `..` and `name` and keeps the directory absolute or relative. */
  lemma {:induction false} ParentPushSegments(assetDir: string, name: string)
    requires '/' !in name && name != "" && name != "."
    ensures var p := Pushed(assetDir, "../" + name);
      Segments(p) == Segments(assetDir) + ["..", name] && IsAbsolute(p) == IsAbsolute(assetDir)
  {
    ParentRequestSegments(name);
    var rel := "../" + name;
    var p := Pushed(assetDir, rel);
    SegmentsOfRelativePush(assetDir, rel);
    assert assetDir != [] ==> p[0] == assetDir[0];
    assert assetDir == [] ==> p == rel;
  }

  /** The request `/../name` is mapped to `../name` pushed onto the asset directory. */
  lemma {:induction false} ParentRequestAssetPath(assetDir: string, name: string)
    requires '/' !in name && name != ""
    ensures AssetPath(assetDir, "/../" + name) == Pushed(assetDir, "../" + name)
  {
    var uri := "/../" + name;
    assert uri[|uri| - 1] == name[|name| - 1];
    assert !EndsWith(uri, '/');
    ParentRequestComponent(name);
  }

  /**
   * The root is the exception: for an absolute directory that resolves
   * to the root (`/`, `/.`, `/a/..`), `/../name` is `/name`, inside it.
   */
  lemma {:induction false} ParentRequestStaysInRoot(assetDir: string, name: string)
    requires '/' !in name && name != "" && name != "." && name != ".."
    requires IsAbsolute(assetDir) && Resolve(assetDir) == []
    ensures LexicallyWithin(assetDir, AssetPath(assetDir, "/../" + name))
  {
    ParentRequestAssetPath(assetDir, name);
    RootParentPushResolves(assetDir, name);
    WithinByNames(assetDir, Pushed(assetDir, "../" + name), [name]);
  }

  /** On a directory that resolves to the root, `../name` pushed on resolves to the name alone. */
  lemma {:induction false} RootParentPushResolves(assetDir: string, name: string)
    requires '/' !in name && name != "" && name != "." && name != ".."
    requires IsAbsolute(assetDir) && Resolve(assetDir) == []
    ensures var p := Pushed(assetDir, "../" + name);
      IsAbsolute(p) && Resolve(p) == Resolve(assetDir) + [name]
  {
    ParentPushSegments(assetDir, name);
    RootParentSegments(Segments(assetDir), name);
  }

  /** With the directory `assets`, the request `/../secret.html` resolves to `./assets/../secret.html`, outside it. */
  lemma {:induction false} SecretHtmlEscapesAssets()
    ensures !LexicallyWithin("./assets", AssetPath("./assets", "/../secret.html"))
  {
    AssetsDirSegments();
    assert "/../secret.html" == "/../" + "secret.html";
    ResolvedPathCanLeaveAssetDir("./assets", "secret.html");
  }

  /**
   * The server run on the current directory stores `./.`, which resolves
   * to no components; `/../secret.html` still climbs out of it.
   */
  lemma {:induction false} SecretHtmlEscapesCurrentDir()
    ensures !LexicallyWithin("./.", AssetPath("./.", "/../secret.html"))
  {
    CurrentDirSegments();
    assert "/../secret.html" == "/../" + "secret.html";
    ResolvedPathCanLeaveAssetDir("./.", "secret.html");
  }

  lemma {:induction false} CurrentDirSegments()
    ensures Normalize(Segments("./.")) == []
  {
    assert "./." == "." + "/" + ".";
    SegmentsOfJoined(".", ".");
    SegmentsOfPiece(".");
  }

  lemma {:induction false} AssetsDirSegments()
    ensures Normalize(Segments("./assets")) == ["assets"]
  {
    assert "./assets" == "." + "/" + "assets";
    SegmentsOfJoined(".", "assets");
    SegmentsOfPiece(".");
    SegmentsOfPiece("assets");
  }

  /**
   * The asset path, refused when its relative component holds a `..`;
   * otherwise the same path the middleware uses.
   */
  function ContainedAssetPath(assetDir: string, requestPath: string): (r: Option<string>)
    ensures r.Some? ==> r.value == AssetPath(assetDir, requestPath)
    ensures r.None? <==> ".." in Segments(RelativeComponent(IndexedUriPath(requestPath)))
  {
    var rel := RelativeComponent(IndexedUriPath(requestPath));
    if ".." in Segments(rel) then None else Some(Pushed(assetDir, rel))
  }

  /** A path `ContainedAssetPath` accepts lies, lexically, inside the asset directory. */
  lemma {:induction false} ContainedAssetPathStaysWithin(assetDir: string, requestPath: string)
    requires ContainedAssetPath(assetDir, requestPath).Some?
    ensures LexicallyWithin(assetDir, ContainedAssetPath(assetDir, requestPath).value)
  {
    var rel := RelativeComponent(IndexedUriPath(requestPath));
    var p := Pushed(assetDir, rel);
    AssetPathExtendsAssetDir(assetDir, requestPath);
    var xs, ys := Segments(assetDir), Segments(rel);
    assert Segments(p) == xs + ys;
    assert assetDir == [] ==> p == rel;
    assert IsAbsolute(p) == IsAbsolute(assetDir);
    NormalizeAppendPlain(xs, ys);
    if IsAbsolute(assetDir) {
      DropParentsAppendPlain(Normalize(xs), ys);
    }
    WithinByNames(assetDir, p, ys);
  }

  /**
   * The middleware with `..` refused: such a request goes on to the
   * static file service, which rejects it; every other request is
   * handled exactly as `HtmlReloadInjection` handles it.
   */
  method GuardedHtmlReloadInjection(state: InjectedHtmlServeDir, fs: FileSystem, requestPath: string, next: Response)
    returns (h: Handled)
    ensures ContainedAssetPath(state.assetDir, requestPath).None? ==> h == Reply(next)
    ensures ContainedAssetPath(state.assetDir, requestPath).Some? ==>
      var path := ContainedAssetPath(state.assetDir, requestPath).value;
      LexicallyWithin(state.assetDir, path) &&
      if !IsInjectCandidate(fs, path).candidate then h == Reply(next)
      else if path !in fs.readable then h == Panic
      else h == Reply(HtmlResponse(Injected(fs.readable[path], state.injectContent)))
  {
    var contained := ContainedAssetPath(state.assetDir, requestPath);
    if contained.None? {
      h := Reply(next);
    } else {
      ContainedAssetPathStaysWithin(state.assetDir, requestPath);
      h := HtmlReloadInjection(state, fs, requestPath, next);
    }
  }
}
