# Protected-asset server and its client services, in Dafny

This project models the protected-asset part of a portfolio site. It covers four serverless
handlers that read files under the process's working directory, and the two browser-side
services that call them.

- **`/api/protected-asset?path=…`** (`ProtectedAsset`) serves a file below
  `<cwd>/protected-assets`.
  - It strips leading `/` and `\` from the path, deletes every `..`, joins and normalises the
    result, and checks it against the protected directory with a plain prefix test.
  - It refuses a missing file and a directory.
  - It picks a content type from a 12-entry extension table.
  - `.json` files are validated and sent as text; all other files are sent as bytes with a
    private one-hour cache header.
- **`/api/pa?path=…`** (`LegacyAsset`) is an older copy of the same handler. It joins the raw
  path, has only the prefix test as a guard, has no regular-file check, and uses a 4-entry
  table.
- **`/api/serveImage?image=…`** (`ServeImage`) checks the name against a whitelist. It then
  resolves the name under `<cwd>/protected-images`, checks the prefix with a separator, and
  answers every failure with a bare 404.
- **`/api/getImage?image=…`** (`GetImage`) checks an `authorization` token against
  `SECRET_TOKEN` and returns `{url}` for an image that exists.
- **The asset service** (`AssetService.ProtectedAssetService`) is a class.
  - It keeps a cache from asset paths to object URLs.
  - It maps logical asset names to file names and chooses the `cables/assets/` or `cables/js/`
    folder from the extension.
  - It builds `/api/protected-asset?path=<encodeURIComponent(path)>` URLs and revokes every
    cached URL when it clears the cache.
- **The client decoder** (`ClientAssets`) checks `response.ok` and the `success` flag. It turns
  a `{data, mimeType}` result into a `data:` URL for images and into `atob(data)` for everything
  else.

Shared modules:

- `PosixPath` models `path.join`, `path.normalize`, `path.resolve` and `path.extname` with
  POSIX semantics over segments.
- `Http` holds the host (the working directory and a filesystem that maps absolute paths to
  files and directories) and the response record.
- `Mime` holds the three content-type tables.
- `UriComponent` models `encodeURIComponent` and the decoding `URLSearchParams.get` performs.
  That decoding is UTF-8 percent-decoding with `+` as a space, as in the WHATWG URL standard.
- `Base64` models the encoding of section 4 of RFC 4648 and the "forgiving-base64 decode" of
  the WHATWG HTML standard, which is what `atob` runs.

Requests are modelled as follows:

- Each handler is a function from the request's inputs and the host to a `Response`.
- A response records the status, the headers the handler sets itself (`Content-Type`,
  `Content-Length`, `Cache-Control`) and the body.
- Runtime services the model cannot see are parameters:
  - `JSON.parse`, `require` and the UTF-8 text decoding of a file (`JsonRuntime`);
  - `fetch`, `response.json()` and `URL.createObjectURL`;
  - the `VITE_ASSET_MAP` parser.

## Model

| member | source | states |
|---|---|---|
| ProtectedAsset.NoPathIsBadRequest | api/protected-asset.js:10-12 | a missing or empty `path` gets 400 "No path specified", whatever the host holds |
| ProtectedAsset.StripLeadingSeparators | api/protected-asset.js:17 | the result is a suffix of the input, everything removed is `/` or `\`, and the result does not start with either |
| ProtectedAsset.DeleteDotDot | api/protected-asset.js:17 | the global `..` deletion leaves no `..`, does not lengthen, and leaves a string without `..` unchanged |
| ProtectedAsset.Sanitize | api/protected-asset.js:17 | the sanitised path has no `..`, is no longer than the input, and equals it when nothing needed removing |
| ProtectedAsset.NoParentPiece | api/protected-asset.js:17-20 | a string without `..` splits into no `..` piece |
| ProtectedAsset.FullPathIsTarget | api/protected-asset.js:20-24 | for a path without `..`, the normalised join is the protected directory followed by the path's non-empty, non-`.` pieces |
| ProtectedAsset.LocateServesTarget | api/protected-asset.js:20-28 | for a sanitised path the prefix check passes and the target is served |
| ProtectedAsset.AccessDeniedUnreachable | api/protected-asset.js:26-28 | no request gets 403: the check cannot fail after sanitising |
| ProtectedAsset.MissingIsNotFound | api/protected-asset.js:30-33 | nothing at the target gives 404 "File not found" with the sanitised path echoed |
| ProtectedAsset.DirectoryIsNotServed | api/protected-asset.js:35-40 | a directory at the target gives 404 "Not a file" |
| ProtectedAsset.Serve | api/protected-asset.js:30-107 | serving answers 200, 404 or 500 only, and 200 only for an existing regular file |
| ProtectedAsset.JsonResponse | api/protected-asset.js:61-94 | 200 exactly when the file reads and either parses or loads; the parsed text is returned as read, with `application/json; charset=utf-8` and no cache or length header; 500 "Invalid JSON file" otherwise |
| ProtectedAsset.JsonServed | api/protected-asset.js:43-94 | a `.json` file (any case) takes the JSON branch and never gets a `Cache-Control` header |
| ProtectedAsset.BinaryServed | api/protected-asset.js:43-107 | another file gives 200 with the table type of its lower-cased extension, its length, `private, max-age=3600` and its bytes; a read failure gives 500 "Failed to read file" |
| ProtectedAsset.ServedFileIsProtected | api/protected-asset.js:10-107 | every 200 answers a non-empty path with a regular file at or below `<cwd>/protected-assets` |
| ProtectedAsset.OnlyTargetConsulted | api/protected-asset.js:30-107 | two hosts that agree on the target get the same response |
| ProtectedAsset.ServeLocal | api/protected-asset.js:30-107 | serving depends only on what is at the served path |
| LegacyAsset.NoPathIsBadRequest | api/pa.js:10-12 | a missing or empty `path` gets 400 |
| LegacyAsset.FullPathResolves | api/pa.js:17-21 | the raw path is resolved below `<cwd>/protected-assets` with its `..` pieces in effect |
| LegacyAsset.FullPathIsJoin | api/pa.js:17-20 | the full path is `path.join(cwd, 'protected-assets', raw)` |
| LegacyAsset.Admitted | api/pa.js:23-25 | the check lets a path through exactly when its segment after the working directory merely begins with `protected-assets` |
| LegacyAsset.EscapePath | api/pa.js:17-20 | `../../dir/file` resolves to the parent of the working directory followed by `dir/file` |
| LegacyAsset.EscapeRefused | api/pa.js:17-25 | `../../etc/passwd` and every such path whose directory and file names do not begin with `protected-assets` get 403 |
| LegacyAsset.SiblingPath | api/pa.js:17-20 | `../sibling/file` resolves next to the protected directory |
| LegacyAsset.SiblingDirectoryServed | api/pa.js:23 | a file in a sibling directory such as `protected-assets-evil` is served with 200 |
| LegacyAsset.Serve | api/pa.js:27-53 | 404 "File not found" exactly when nothing exists; 200 exactly when the read succeeds, with the 4-entry table type of the raw path's extension, the length, the bytes and no cache header; 500 otherwise |
| LegacyAsset.DirectoryFails | api/pa.js:27-53 | a directory that passes the check ends in 500 |
| LegacyAsset.StrictAdmitted | api/pa.js:23 | the check with a separator admits exactly the paths strictly below the protected directory |
| LegacyAsset.StrictServesOnlyBelow | api/pa.js:23 | under the corrected check every 200 carries a file strictly below the protected directory |
| LegacyAsset.StrictRefusesSibling | api/pa.js:23 | under the corrected check `../sibling/file` gets 403 |
| ServeImage.StemRun | api/serveImage.js:8 | the run of `[A-Za-z0-9_-]` at the start of a name is maximal |
| ServeImage.ValidImageNameMatches | api/serveImage.js:8 | the executable whitelist accepts exactly the names the regular expression (1–50 stem characters, a dot, an image extension in any case) matches |
| ServeImage.ValidImageNameShape | api/serveImage.js:8-24 | an accepted name is a single path segment whose lower-cased extension is in the image table |
| ServeImage.InvalidNameNotFound | api/serveImage.js:8-11 | a missing or refused name gets a bare 404 |
| ServeImage.ImagePathOfValidName | api/serveImage.js:14-20 | an accepted name resolves to `<cwd>/protected-images/<name>`, and the separator-aware check passes |
| ServeImage.ImageFile | api/serveImage.js:15-18 | a single segment resolved against a directory lies strictly below it, separator included |
| ServeImage.LocateValidName | api/serveImage.js:14-23 | for an accepted name the check passes and that file is read |
| ServeImage.Serve | api/serveImage.js:22-40 | 200 exactly when the read succeeds; every failure is a bare 404 |
| ServeImage.ValidNameServed | api/serveImage.js:8-40 | an accepted name gets its bytes with the table type and `no-cache` when it is a readable file, and a bare 404 otherwise |
| ServeImage.ResponsesAreImagesOrNotFound | api/serveImage.js:4-41 | every response is a bare 404, or an `image/*` file from the image directory with `no-cache` |
| GetImage.GateFirst | api/getImage.js:6-9 | without the right token the answer is 403 whatever the filesystem holds |
| GetImage.GateAdmits | api/getImage.js:6-9 | the gate admits exactly a non-empty token equal to a configured secret |
| GetImage.FetchImageUrl | api/getImage.js:21-27 | a URL exactly when something exists at `join(cwd, 'protected-images', name)`, and then `/api/protected-images/<name>` |
| GetImage.UrlForExistingImage | api/getImage.js:11-16 | an authorised caller gets 200 `{url}` for an existing image and 404 "Image not found" otherwise |
| GetImage.ExistenceProbe | api/getImage.js:22 | the unchecked name lets an authorised caller learn whether `<cwd>/<name>` exists |
| Mime.AssetContentType | api/protected-asset.js:44-59 | the table entry for the extension, or `application/octet-stream` |
| Mime.LegacyContentType | api/pa.js:35-42 | the 4-entry table's entry, or `application/octet-stream` |
| Mime.ImageContentType | api/serveImage.js:27-35 | the image table's entry, or `image/jpeg` |
| Mime.TablesAgree | api/pa.js:35-40 | the smaller tables agree with the main one wherever they have an entry |
| Mime.LegacyTableIsSmaller | api/pa.js:35-42 | the 4-entry table's keys are a strict subset of the main table's, so `.jpeg` and `.svg` fall back to `application/octet-stream` there |
| Mime.ImageTypesAreImages | api/serveImage.js:35 | every content type the image handler sends is `image/*` |
| Http.ReadFile | api/protected-asset.js:98 | a read succeeds exactly for a readable regular file, and gives its bytes |
| PosixPath.GlueSplit | api/protected-asset.js:20 | joining the pieces of a split gives the string back |
| PosixPath.ResolveWithoutParent | api/protected-asset.js:23 | without a `..` piece, normalising only appends the kept pieces |
| PosixPath.ResolveNames | api/protected-asset.js:23 | normalising produces only proper segment names |
| PosixPath.NormalizeRender | api/protected-asset.js:23 | `path.normalize` is idempotent on normalised paths |
| PosixPath.JoinTwo | api/protected-asset.js:20 | `path.join(base, dir, rel)` resolves `rel` below `base/dir` and keeps a trailing separator |
| PosixPath.JoinOne | api/protected-asset.js:24 | `path.join(base, dir)` and `path.resolve(base, dir)` append `dir` |
| PosixPath.StrictPrefixCheck | api/serveImage.js:18 | `startsWith(dir + sep)` holds exactly for the paths strictly below `dir` |
| PosixPath.PlainPrefixCheck | api/protected-asset.js:26 | `startsWith(dir)` holds exactly when the segment at `dir`'s position merely begins with `dir`'s last name |
| PosixPath.Extname | api/protected-asset.js:43 | the extension is a proper suffix of the last segment (trailing separators ignored) starting at its last dot, with no `.` or `/` after that dot; it is empty exactly when no character after the segment's first is a dot, or the segment is `..` |
| PosixPath.ExtnameOfName | api/serveImage.js:24 | a name made of a dot-free stem, a dot and an extension has that extension |
| UriComponent.Encode | src/services/protectedAssets.js:45 | `encodeURIComponent` output holds only unreserved characters and `%`, and is ASCII |
| UriComponent.Utf8RoundTrip | src/services/protectedAssets.js:45 | the UTF-8 decoder gives back every encoded string |
| UriComponent.FormDecodeEncode | src/services/protectedAssets.js:45 | form-decoding the percent-encoding of a string gives the string |
| UriComponent.QueryRoundTrip | api/protected-asset.js:7-8 | `searchParams.get(key)` on `base?<encoded key>=<encoded value>` returns the value |
| AssetService.AssetUrl | src/services/protectedAssets.js:155-157 | `getAssetUrl(p)` begins with `/api/protected-asset?path=` |
| AssetService.AssetUrlRoundTrip | src/services/protectedAssets.js:155-157 | the server's `searchParams.get('path')` reads the URL's path back exactly |
| AssetService.AssetUrlInjective | src/services/protectedAssets.js:155-157 | different paths give different URLs |
| AssetService.Extension | src/services/protectedAssets.js:92 | the extension is the dot-free text after the last dot (all of it when there is none) |
| AssetService.FolderFor | src/services/protectedAssets.js:92-101 | the folder is `cables/js/` exactly for a `js` or `glsl` extension in any case, and `cables/assets/` otherwise |
| AssetService.FolderIsOneOfThePaths | src/services/protectedAssets.js:134-143 | the folder is what `getCablesAssetsPath` or `getCablesOpsPath` returns |
| AssetService.ProtectedAssetService.constructor | src/services/protectedAssets.js:21-32 | the three default mappings when the environment value is unset or empty; the parsed map, or an empty map when parsing throws; an empty cache |
| AssetService.ProtectedAssetService.FetchProtectedAsset | src/services/protectedAssets.js:38-60 | a cache hit is returned with no request and no change; a miss requests the URL, and an ok response caches and returns a new object URL; a failure leaves the cache alone |
| AssetService.FetchCachesResult | src/services/protectedAssets.js:48-55 | a fetch succeeds exactly when it leaves the path cached with the URL it returned |
| AssetService.FetchOnlyAdds | src/services/protectedAssets.js:39-55 | a fetch adds only the requested path, keeps every old entry, and makes at most one request |
| AssetService.RepeatIsCacheHit | src/services/protectedAssets.js:39-41 | asking again after a success returns the same URL with no request |
| AssetService.ProtectedAssetService.FetchProtectedJson | src/services/protectedAssets.js:65-80 | one request, no caching; a non-ok status throws with the status, and the body is returned as parsed |
| AssetService.ProtectedAssetService.GetMappedAsset | src/services/protectedAssets.js:85-104 | an unmapped name or an empty mapping throws "No mapping found for asset: name" with no request; otherwise the mapped file is fetched from its extension's folder |
| AssetService.ProtectedAssetService.GetStaticImage | src/services/protectedAssets.js:109-116 | fetches `images/canvas-static.png` through the cache |
| AssetService.ProtectedAssetService.GetCablesConfig | src/services/protectedAssets.js:121-129 | fetches `cables/BaumIntro.json` as JSON |
| AssetService.ProtectedAssetService.GetMappedAssetUrl | src/services/protectedAssets.js:162-170 | none exactly for an unmapped name; otherwise the protected-asset endpoint URL `getAssetUrl('cables/assets/' + file)`, whose `path` the server reads as `cables/assets/<file>` |
| AssetService.ProtectedAssetService.MappedUrlIgnoresOpsFolder | src/services/protectedAssets.js:92-170 | for a `js`/`glsl` file the helper's URL differs from the one `getMappedAsset` fetches |
| AssetService.ProtectedAssetService.ClearCache | src/services/protectedAssets.js:188-191 | every cached object URL is revoked and the cache is empty |
| Base64.Encode | client/services/protectedAssets.js:64-67 | the encoding's length is a multiple of four |
| Base64.Atob | client/services/protectedAssets.js:64-67 | a whitespace-free length that leaves one character over fails; a success decoded only alphabet characters |
| Base64.AtobEncode | client/services/protectedAssets.js:64-67 | `atob` reads back exactly the bytes encoded |
| Base64.AtobIgnoresWhitespace | client/services/protectedAssets.js:64-67 | an ASCII whitespace character (tab, line feed, form feed, carriage return, space) anywhere in the input does not change the result |
| Base64.AtobRejectsUndefined | client/services/protectedAssets.js:64-70 | `atob("undefined")` fails |
| ClientAssets.DecodeBase64Asset | client/services/protectedAssets.js:57-71 | a missing `mimeType` fails; an `image/` type gives `data:<type>;base64,<data>`; any other type succeeds exactly when `atob(data)` does, with one character per byte `atob` decoded; every failure is "Failed to decode asset" |
| ClientAssets.DecodesEncodedBytes | client/services/protectedAssets.js:63-67 | a non-image result decodes to one character per encoded byte |
| ClientAssets.JsonLikeAnyOtherType | client/services/protectedAssets.js:63-67 | `application/json` decodes exactly as any other non-image type |
| ClientAssets.MissingDataFails | client/services/protectedAssets.js:59-70 | a non-image result without `data` fails to decode |
| ClientAssets.LoadError | client/services/protectedAssets.js:20 | the message is the server's `error` when it is non-empty, else the fallback |
| ClientAssets.FetchProtectedAsset | client/services/protectedAssets.js:4-28 | a non-ok status throws "Failed to fetch protected asset: <status>"; success needs an ok status, a `success` result and a successful decode; an ok `success` result returns `decodeBase64Asset(result)` (the `data:` URL for an image, the decoded text otherwise) or throws its "Failed to decode asset"; messages are never empty |
| ClientAssets.UnsuccessfulAsset | client/services/protectedAssets.js:19-21 | `success: false` throws the server's error, or "Failed to load asset" |
| ClientAssets.ImageArrives | client/services/protectedAssets.js:4-28 | an ok `success` result of an `image/` type yields `data:<type>;base64,<data>` |
| ClientAssets.AssetBytesArrive | client/services/protectedAssets.js:4-28 | an ok result carrying the base64 of some bytes of a non-image type yields those bytes |
| ClientAssets.FetchProtectedJson | client/services/protectedAssets.js:30-55 | a non-ok status throws "Failed to fetch protected JSON: <status>"; success needs an ok status, a `success` result, a successful decode and a parse of the decoded text; an ok `success` result gives the parse of its decode, throws "Failed to decode asset" when decoding fails and a runtime error when parsing does |
| ClientAssets.UnsuccessfulJson | client/services/protectedAssets.js:43-47 | `success: false` throws the server's error, or "Failed to load JSON" |
| ClientAssets.JsonArrives | client/services/protectedAssets.js:43-50 | JSON sent as base64 text parses as that text does |

## Left out

- `new URL(req.url, …)`: the URL parser's own handling of the request target (its escaping, a
  fragment, a base from the `Host` header) is not modelled. The query of a URL is found at its
  first `?` and ends at its first `#`.
- `ProtectedAsset.JsonResponse`: `JSON.parse`, `require` and UTF-8 text decoding of a file are
  parameters. `parses` stands for the whole validation inside the first `try`: `JSON.parse`
  accepts the text and `Object.keys` accepts its value. A file holding `null` therefore has
  `parses` false and goes to the `require` branch, as in the source. `require` is reduced to
  success or failure. The 200 body of the `require` branch is whatever the loader gives, not
  re-serialised. The size that the logging prints is not modelled.
- Exception messages (`e.message`, `error.message`) come from the runtime. They appear as a
  placeholder value in error bodies, and the client's runtime errors carry no message.
- The outer `catch` of the handlers (a throwing `new URL`, `statSync` racing a deletion) is
  not modelled: the filesystem does not change during a request.
- `stats.size` is taken to be the number of bytes a read returns.
- Default headers the framework adds (`res.json`'s content type, an ETag) are not recorded.
  Only the headers a handler sets itself are.
- `toLowerCase` lower-cases ASCII letters only, which covers every table key. Other Unicode
  case mappings are not modelled.
- `encodeURIComponent` on a lone surrogate (which throws `URIError`) is not modelled: Dafny
  strings here hold Unicode scalar values.
- `GetImage.Handle`: the `image` query value is a string. A missing value makes `path.join`
  throw and the runtime answers, and that is not modelled.
- `AssetService.ProtectedAssetService.constructor`: the parsed `VITE_ASSET_MAP` is taken as a
  map from strings to strings. Non-string values, and keys inherited from `Object.prototype`
  (`assetMap["toString"]`), are not modelled.
- `AssetService.ProtectedAssetService.FetchProtectedAsset`: `response.blob()` is taken to
  succeed. The object URL comes from a function of the body, and a fresh, distinct URL per call
  is not modelled. Concurrent calls interleaving at `await` are not modelled: each call runs
  to completion.
- The request log and the set of revoked URLs are ghost fields that stand for the `fetch` and
  `URL.revokeObjectURL` side effects.
- `logAssetInfo` and every `console.*` call are logging only.
- The handler the client decoder calls (`/api/protected-assets/[...path]`, which produces the
  `{success, data, mimeType}` result) is not part of this model. `response.json()` is a
  parameter, and `success` is taken to be a boolean. `data` and `mimeType` are taken to be
  strings or absent: a `null` or non-string `data` (which `atob` would read as the text `null`
  or as the value's string form) is not modelled.
- The `client/services/protectedAssets.js` file's elided code (`// ...existing code...`) is
  not part of this model.

## Findings

| source | as written | input that shows it | evidently intended | confidence | as-written member | corrected member |
|---|---|---|---|---|---|---|
| api/pa.js:23 | `normalizedPath.startsWith(protectedDir)` without a separator | `path=../protected-assets-evil/x` with a readable `<cwd>/protected-assets-evil/x`: 200 with that file's bytes | only paths inside `<cwd>/protected-assets` are served (`startsWith(protectedDir + path.sep)`, as api/serveImage.js:18 does) | not executed | LegacyAsset.SiblingDirectoryServed | LegacyAsset.StrictServesOnlyBelow |
