# Reload-injection middleware of a live-reload dev server

This project models the HTML reload-injection middleware of `resrv`, a
development static file server. The server tells browsers to reload when
watched files change. The middleware makes every served HTML page carry the
browser-side reload snippet. For each request it:

1. resolves the request's URI path to a file under the asset directory. A path
   ending in `/` gets `index.html` appended. Leading whitespace is trimmed,
   then every leading `/`, and the rest is joined onto the directory;
2. decides whether that file is an *inject candidate*. That takes three checks,
   run in order: it is a regular file, its extension is exactly `html`, and it
   exists;
3. for a candidate, reads the file and splices the snippet in after the first
   `</body>`, preceded by a newline. It answers `200` with
   `Content-Type: text/html`. Any other request goes on unchanged to the inner
   static file service (`next`).

The state is built once by `InjectedHtmlServeDir::new`. It pushes the
configured directory onto `.`.

Files:

- `text.dfy`: module `Wrappers` (`Option`) and module `Text`. `Text` holds the
  `str`/`String` operations the middleware uses: first-occurrence search and
  `split_once`, `trim_start` (Unicode White_Space, as Rust's
  `char::is_whitespace`), `trim_start_matches`, and a growable `StringBuf`
  class for `String::with_capacity`/`push_str`/`push`.
- `paths.dfy`: module `Paths`. This is Unix `std::path` as the middleware uses
  it: a `PathBuf` class whose `Push` follows `PathBuf::push`, `Join`, the
  component list of a path, `file_name`, `extension` (after
  `rsplit_file_at_dot`) and lexical resolution of `..`.
- `serve_dir_reload.dfy`: module `ServeDirReload`. This is the middleware
  itself: the splice, the path resolution, the candidate check, the state
  constructor and the dispatch.

The file system comes in as a value, `FileSystem`. It holds the set of paths
`is_file` accepts, the set `try_exists` reports, and a map giving what
`read_to_string` returns. A path missing from the map fails to read, and the
dispatch then ends in `Panic`, as `load_html_from` panics. The inner service
is the `next` response, passed in as a parameter.

Two facts about path resolution come out of the proofs:

- The joined component never starts with `/`, so the join always extends the
  asset directory rather than replacing it.
- It can start with whitespace, because the trims run whitespace first and
  slashes second: `/ index.html` gives ` index.html`. See
  `WhitespaceAfterSlashesSurvives`.

Two details of the code the model keeps:

- The snippet goes after `</body>`, not before it (src/serve_dir_reload.rs:110-113).
- The candidate check runs the code's three checks, in order (src/serve_dir_reload.rs:72-83).

## Model

| member | source | states |
|---|---|---|
| `Text.FindFrom` | src/serve_dir_reload.rs:104 | the index found is an occurrence of the pattern, no earlier index holds one, and nothing is found only when no occurrence exists |
| `Text.SplitOnce` | src/serve_dir_reload.rs:104 | a split exists iff the delimiter occurs; the input is `before + delim + after`; no occurrence starts inside `before`, so `before` contains no `</body>` |
| `Text.IsWhitespaceListed` | src/serve_dir_reload.rs:47 | the whitespace test `trim_start` applies holds for exactly the 25 code points with the Unicode White_Space property |
| `Text.TrimStart` | src/serve_dir_reload.rs:47 | the result is a suffix of the input; everything cut off is whitespace; the result does not start with whitespace |
| `Text.TrimStartMatches` | src/serve_dir_reload.rs:47 | the result is a suffix of the input; everything cut off is the given character; the result does not start with it |
| `Text.EndsWith` | src/serve_dir_reload.rs:37 | `uri.ends_with('/')` holds exactly when the path is some string followed by `/` |
| `Text.StringBuf.WithCapacity` | src/serve_dir_reload.rs:108 | a new buffer is empty and records the capacity it was given |
| `Text.StringBuf.FromStr` | src/serve_dir_reload.rs:35 | the owned copy holds exactly the request's path |
| `Text.StringBuf.PushStr` | src/serve_dir_reload.rs:110-114 | the buffer's new contents are the old contents followed by the pushed string |
| `Text.StringBuf.Push` | src/serve_dir_reload.rs:112 | the buffer's new contents are the old contents followed by the pushed character |
| `Paths.IsAbsolute` | src/serve_dir_reload.rs:47 | a Unix path is absolute exactly when it starts with `/`; this decides whether `join` here and `push` at line 134 replace the base or append to it |
| `Paths.PathBuf.From` | src/serve_dir_reload.rs:133 | the new path buffer holds exactly the given path |
| `Paths.PathBuf.Push` | src/serve_dir_reload.rs:133-134 | the buffer afterwards holds the pushed path: an absolute path replaces it, otherwise a separator is added when needed and the path appended |
| `Paths.PushedRelativeShape` | src/serve_dir_reload.rs:44-47 | a relative push gives the buffer, then at most one separator, then the pushed path |
| `Paths.Join` | src/serve_dir_reload.rs:44-47 | joining a relative path keeps the base as a prefix, appends the components, and keeps the base absolute or relative; an absolute path replaces the base |
| `Paths.SegmentsOfRelativePush` | src/serve_dir_reload.rs:44-47 | pushing a relative path keeps the buffer as a prefix and concatenates the two component lists |
| `Paths.NameExtension` | src/serve_dir_reload.rs:76 | an extension is the dot-free text after a dot that is not the name's first character; there is none exactly for `..`, the empty name, or a name with no dot after its first character |
| `Paths.NameExtensionIsHtml` | src/serve_dir_reload.rs:76 | for every file name, its extension is exactly `html` iff the name ends in `.html` with at least one character before the dot (so `.html` has none); case-sensitive |
| `Paths.Segments` | src/serve_dir_reload.rs:76 | the component names of a path are non-empty, never `.`, and hold no separator |
| `Paths.FileName` | src/serve_dir_reload.rs:76 | there is no file name exactly when the path has no components or its last is `..`; otherwise the file name is the last component; it is never empty, `.` or `..` and holds no separator |
| `Paths.Extension` | src/serve_dir_reload.rs:76 | a path has an extension exactly when it has a file name and that name has one, and the two are equal |
| `Paths.ExtensionIsHtml` | src/serve_dir_reload.rs:76 | `path.extension() == Some("html")` iff the path has a file name and that name ends in `.html` after at least one character |
| `ServeDirReload.Injected` | src/serve_dir_reload.rs:101-121 | without `</body>` the page comes back unchanged; with one, the output is the input's length plus the snippet's length plus one |
| `ServeDirReload.FirstTagAt` | src/serve_dir_reload.rs:104 | when the text before a `</body>` holds none, that tag is the first occurrence (the tag cannot overlap itself) |
| `ServeDirReload.InjectedAtFirstTag` | src/serve_dir_reload.rs:104-114 | for `html == before + "</body>" + after` with no `</body>` in `before`, the output is `before + "</body>" + "\n" + js + after` |
| `ServeDirReload.InjectedRoundTrip` | src/serve_dir_reload.rs:110-114 | right after `before + "</body>"` the output holds exactly a newline and the snippet, and deleting those characters gives back `html`, so nothing else is altered |
| `ServeDirReload.InjectJsIntoHtml` | src/serve_dir_reload.rs:101-121 | the buffer filled by the five pushes equals the specified splice, its length equals the precomputed capacity (page length plus snippet length plus one), and a page with no `</body>` is returned as is |
| `ServeDirReload.IndexedUriPath` | src/serve_dir_reload.rs:34-42 | the result extends the request path and never ends in `/`; it differs from the path exactly when the path ends in `/`, and then by `index.html` |
| `ServeDirReload.AppendIndexHtml` | src/serve_dir_reload.rs:34-42 | a path ending in `/` gets `index.html` appended; any other path is left as is; the result never ends in `/` and is `IndexedUriPath` of the path |
| `ServeDirReload.RelativeComponent` | src/serve_dir_reload.rs:47 | the joined component is a suffix of the URI path and never starts with `/`, so it is never absolute |
| `ServeDirReload.RelativeComponentStrips` | src/serve_dir_reload.rs:47 | what is cut off is a maximal run of whitespace followed by slashes, and nothing else |
| `ServeDirReload.WhitespaceAfterSlashesSurvives` | src/serve_dir_reload.rs:47 | whitespace after the leading slashes is kept: `/ index.html` gives ` index.html` |
| `ServeDirReload.AssetPath` | src/serve_dir_reload.rs:44-47 | the resolved path is the asset directory, at most one separator, then the relative component |
| `ServeDirReload.AssetPathExtendsAssetDir` | src/serve_dir_reload.rs:44-47 | the resolved path starts with the asset directory, its components are the directory's followed by the request's, and a relative directory stays relative |
| `ServeDirReload.DirectoryRequestNamesIndexHtml` | src/serve_dir_reload.rs:34-47 | a request path ending in `/` resolves to a file whose name is `index.html` |
| `ServeDirReload.DirectoryRequestHasHtmlExtension` | src/serve_dir_reload.rs:37-38 | a request path ending in `/` resolves to a path whose extension is `html` |
| `ServeDirReload.IsInjectCandidate` | src/serve_dir_reload.rs:69-86 | a candidate iff a regular file, named `*.html` with a non-empty stem, and existing; the checks run in the order is-file, extension, exists; every check before the last one run passed; when the verdict is no, the last check run failed, so it stops at the first failure and only there |
| `ServeDirReload.InjectedHtmlServeDir.New` | src/serve_dir_reload.rs:131-139 | the snippet is stored as given; a relative directory `d` becomes `./` followed by `d`, with the same components; an absolute one is kept as is |
| `ServeDirReload.LoadHtmlFrom` | src/serve_dir_reload.rs:88-99 | the read succeeds exactly for the paths the file system can read, and then gives that file's text |
| `ServeDirReload.HtmlResponse` | src/serve_dir_reload.rs:56-60 | the response built for an injected page has status 200 (`OK`), the single header `Content-Type: text/html`, and the given contents as body |
| `ServeDirReload.HtmlReloadInjection` | src/serve_dir_reload.rs:29-67 | a candidate gets status 200, `Content-Type: text/html` and the injected file contents, or a panic when the read fails; any other request gets `next`'s response untouched |
| `ServeDirReload.ResolvedPathCanLeaveAssetDir` | src/serve_dir_reload.rs:44-47 | for any asset directory except an absolute one that resolves to the root, and including a relative one that resolves to no components such as `./.`, and any file name other than the directory's own last component, the request `/../name` resolves to a path lexically outside the directory |
| `ServeDirReload.ParentRequestStaysInRoot` | src/serve_dir_reload.rs:44-47 | with an absolute asset directory that resolves to the root (`/`, `/.`, `/a/..`), `/../name` stays inside it, because `..` at the root is the root |
| `ServeDirReload.SecretHtmlEscapesAssets` | src/serve_dir_reload.rs:44-47 | with directory `./assets`, `/../secret.html` resolves outside it |
| `ServeDirReload.SecretHtmlEscapesCurrentDir` | src/serve_dir_reload.rs:44-47 | with directory `./.`, what the server stores when run on the current directory, `/../secret.html` resolves outside it |
| `ServeDirReload.ContainedAssetPath` | src/serve_dir_reload.rs:44-47 | refuses exactly the requests whose relative component has a `..`; otherwise gives the same path as the middleware |
| `ServeDirReload.ContainedAssetPathStaysWithin` | src/serve_dir_reload.rs:44-47 | every path the guarded resolution accepts lies lexically inside the asset directory: same rootedness, the directory's resolved components first, and no `..` after them |
| `ServeDirReload.GuardedHtmlReloadInjection` | src/serve_dir_reload.rs:29-67 | the dispatch with `..` refused: such requests go to `next`; every other request is handled exactly as by `HtmlReloadInjection` |

## Left out

- File system access (`is_file`, `try_exists`, `read_to_string`) is abstract. It is the `FileSystem` value, so races between the checks and the read are not modelled. A read failure becomes the `Panic` outcome; the process abort itself is not modelled.
- The router and middleware wiring in `serve_dir_reloadable` (src/serve_dir_reload.rs:17-27) is left out. It is calls into axum and tower.
- The inner service is the response it returns (`next`). The request it is handed is not modelled.
- The response builder's `.body(content.into()).unwrap()` is not modelled. The builder cannot fail with these constant parts, so the model gives the response directly.
- The injected snippet (`include_str!`, src/serve_dir_reload.rs:123) is an arbitrary string, and the `tracing` log calls are left out.
- Strings are sequences of Unicode scalar values, and lengths are counted in characters. Rust's `len()` counts UTF-8 bytes. The length law and the capacity match hold in both units, because they are sums of the parts' lengths. Search for the ASCII `</body>` gives the same split either way.
- Paths follow Unix rules only (`/` separator, absolute means a leading `/`). Windows prefixes and verbatim paths are not modelled.
- `LexicallyWithin` resolves `..` lexically, as `Resolve` does: a `..` cancels the name before it; at the root of an absolute path it stays at the root; a relative path keeps it. Symbolic links are not followed.
- The websocket session handling and the change broadcast in src/bin/server/main.rs are not part of this model. Their whole content is task coordination over tokio primitives that are not available here.
- The file watcher in src/asset_tracker.rs is not part of this model. It is an OS-watcher callback that forwards every event, so it has no filtering logic to state.
- src/config.rs is not part of this model. It is command-line parsing with a default address.

## Findings

| source | as written | input that shows it | evidently intended | confidence | as-written member | corrected member |
|---|---|---|---|---|---|---|
| src/serve_dir_reload.rs:44-47 | the trimmed request path is joined onto the asset directory with its `..` components kept, and a candidate is read directly, without going through the static file service | asset directory `assets`, request path `/../secret.html`: the middleware reads `./assets/../secret.html`, outside the asset directory; with the current directory as asset directory it reads `././../secret.html`; only the root directory, where `..` stays put, is not escaped | a request whose path has a `..` component is not served from outside the asset directory; it goes on to the static file service instead | not executed; medium: whether such a path reaches the middleware depends on the HTTP stack in front of it, and the server binary mounts a plain static service, not this middleware | `ServeDirReload.ResolvedPathCanLeaveAssetDir` | `ServeDirReload.ContainedAssetPathStaysWithin` |
