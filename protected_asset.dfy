/** The handler of `/api/protected-asset?path=…` (api/protected-asset.js): it sanitises the
    requested path, resolves it below `<cwd>/protected-assets`, and serves the file there —
    JSON as validated text, everything else as bytes with a private cache header. */
module ProtectedAsset {
  import opened Wrappers
  import opened Octets
  import opened Text
  import opened PosixPath
  import opened Http
  import opened Mime

  const RootName := "protected-assets"
  const JsonUtf8 := "application/json; charset=utf-8"
  const PrivateCache := "private, max-age=3600"

  /** The parts of the runtime the JSON branch relies on, which the model leaves abstract:
      reading the file as UTF-8 text; whether the `try` block's validation gets through, that
      is, `JSON.parse` accepts the text AND `Object.keys` accepts the parsed value (so `parses`
      is false for the text `null`, whose `Object.keys` throws); and what
      `require` makes of the file (its value as `res.json` serialises it, or `None` when
      `require` throws). */
  datatype JsonRuntime = JsonRuntime(
    decode: seq<byte> -> string,
    parses: string -> bool,
    load: seq<byte> -> Option<string>)

  // ---------------------------------------------------------------------------
  // Sanitising the requested path

  /** `s.replace(/^[\/\\]+/, '')`: drops the run of `/` and `\` that starts `s`. */
  function StripLeadingSeparators(s: string): (r: string)
    ensures |r| <= |s| && r == s[|s| - |r|..]
    ensures forall i :: 0 <= i < |s| - |r| ==> s[i] == '/' || s[i] == '\\'
    ensures r == [] || (r[0] != '/' && r[0] != '\\')
  {
    if s != [] && (s[0] == '/' || s[0] == '\\') then StripLeadingSeparators(s[1..]) else s
  }

  lemma HasDotDotCons(c: char, s: string)
    ensures HasDotDot([c] + s) <==> (c == '.' && s != [] && s[0] == '.') || HasDotDot(s)
  {
    var t := [c] + s;
    if HasDotDot(t) {
      var i :| 0 <= i && i + 1 < |t| && t[i] == '.' && t[i + 1] == '.';
      if i > 0 {
        assert s[i - 1] == t[i] && s[i] == t[i + 1];
      }
    }
    if HasDotDot(s) {
      var i :| 0 <= i && i + 1 < |s| && s[i] == '.' && s[i + 1] == '.';
      assert t[i + 1] == s[i] && t[i + 2] == s[i + 1];
    }
    if c == '.' && s != [] && s[0] == '.' {
      assert t[0] == '.' && t[1] == '.';
    }
  }

  /** `s.replace(/\.\./g, '')`: scanning left to right, every `..` found is deleted (the
      matches do not overlap, so `...` leaves one dot). No `..` is left in the result, and a
      string without one is returned as it is. */
  function DeleteDotDot(s: string): (r: string)
    ensures !HasDotDot(r)
    ensures !HasDotDot(s) ==> r == s
    ensures |r| <= |s|
    ensures r != [] && r[0] == '.' ==> s != [] && s[0] == '.'
  {
    if |s| >= 2 && s[0] == '.' && s[1] == '.' then
      HasDotDotCons(s[0], s[1..]);
      assert s == [s[0]] + s[1..];
      var r := DeleteDotDot(s[2..]);
      r
    else if s == [] then []
    else
      var rest := DeleteDotDot(s[1..]);
      HasDotDotCons(s[0], rest);
      HasDotDotCons(s[0], s[1..]);
      assert s == [s[0]] + s[1..];
      [s[0]] + rest
  }

  /** The two replacements of the handler, in order. */
  function Sanitize(s: string): (r: string)
    ensures !HasDotDot(r)
    ensures |r| <= |s|
    ensures (s == [] || (s[0] != '/' && s[0] != '\\')) && !HasDotDot(s) ==> r == s
  {
    DeleteDotDot(StripLeadingSeparators(s))
  }

  // ---------------------------------------------------------------------------
  // Where a request points

  lemma {:induction false} SplitHead(s: string)
    ensures Split(s)[0] <= s
  {
    if s != [] && s[0] != '/' {
      SplitHead(s[1..]);
      assert s == [s[0]] + s[1..];
    }
  }

  /** A string without `..` has no `..` piece. */
  lemma {:induction false} NoParentPiece(s: string)
    requires !HasDotDot(s)
    ensures ".." !in Split(s)
  {
    if s != [] {
      HasDotDotCons(s[0], s[1..]);
      assert s == [s[0]] + s[1..];
      NoParentPiece(s[1..]);
      var rest := Split(s[1..]);
      if s[0] != '/' {
        SplitHead(s[1..]);
        var head := [s[0]] + rest[0];
        if |rest[0]| == 1 {
          assert rest[0][0] == s[1..][0];
          assert head == [s[0], s[1..][0]];
          assert !(s[0] == '.' && s[1..][0] == '.');
        }
        assert head != "..";
        assert Split(s) == [[s[0]] + rest[0]] + rest[1..];
        assert forall x :: x in rest[1..] ==> x in rest;
      }
    }
  }

  /** `path.join(process.cwd(), 'protected-assets')` */
  function ProtectedDir(h: Host): Abs
  {
    Join(h.Cwd(), [RootName])
  }

  /** `path.normalize(path.join(process.cwd(), 'protected-assets', rel))` */
  function FullPath(h: Host, rel: string): Abs
  {
    Normalize(Render(Join(h.Cwd(), [RootName, rel])))
  }

  /** The asset a sanitised path names: the protected directory followed by the pieces of
      the path that normalisation keeps, with the path's own trailing separator. */
  function Target(h: Host, rel: string): Abs
  {
    Abs(h.cwd + [RootName] + Kept(Split(rel)), rel != "" && rel[|rel| - 1] == '/')
  }

  /** A path without `..` is resolved below the protected directory, piece by piece. */
  lemma FullPathIsTarget(h: Host, rel: string)
    requires h.Valid() && !HasDotDot(rel)
    ensures FullPath(h, rel) == Target(h, rel)
    ensures ProtectedDir(h) == Abs(h.cwd + [RootName], false)
  {
    var p := Abs(h.cwd, false);
    JoinTwo(p, RootName, rel);
    JoinOne(p, RootName);
    NoParentPiece(rel);
    ResolveWithoutParent(h.cwd + [RootName], Split(rel));
    NormalizeRender(Join(h.Cwd(), [RootName, rel]));
  }

  // ---------------------------------------------------------------------------
  // The handler

  /** The JSON branch: the text as read when `JSON.parse` accepts it, otherwise what
      `require` loads, otherwise a 500. */
  function JsonResponse(rt: JsonRuntime, file: Node): (r: Response)
    requires file.File?
    ensures r.status == 200 <==> file.readable && (rt.parses(rt.decode(file.bytes)) || rt.load(file.bytes).Some?)
    ensures r.status == 200 ==> r.contentType == Some(JsonUtf8) && r.contentLength == None && r.cacheControl == None
    ensures file.readable && rt.parses(rt.decode(file.bytes)) ==> r.body == Text(rt.decode(file.bytes))
    ensures file.readable && !rt.parses(rt.decode(file.bytes)) && rt.load(file.bytes).Some? ==>
      r.body == JsonValue(rt.load(file.bytes).value)
    ensures r.status != 200 ==>
      r == Response(500, None, None, None, Object([("error", Str("Invalid JSON file")), ("message", Thrown)]))
  {
    if file.readable && rt.parses(rt.decode(file.bytes)) then
      Response(200, Some(JsonUtf8), None, None, Text(rt.decode(file.bytes)))
    else
      match (if file.readable then rt.load(file.bytes) else None)
      case Some(v) => Response(200, Some(JsonUtf8), None, None, JsonValue(v))
      case None => Response(500, None, None, None, Object([("error", Str("Invalid JSON file")), ("message", Thrown)]))
  }

  /** The response to `GET /api/protected-asset?path=query`. */
  function Handle(h: Host, rt: JsonRuntime, query: Option<string>): Response
  {
    if query.None? || query.value == "" then ErrorJson(400, "No path specified")
    else Locate(h, rt, Sanitize(query.value))
  }

  /** The security check on the normalised path of a sanitised one. */
  function Locate(h: Host, rt: JsonRuntime, rel: string): Response
  {
    var full := FullPath(h, rel);
    if !StartsWith(Render(full), Render(ProtectedDir(h))) then ErrorJson(403, "Access denied")
    else Serve(h.fs, rt, full, rel)
  }

  /** Serving what is at `full`, whose type is chosen by the extension of `rel`. */
  function Serve(fs: FileSystem, rt: JsonRuntime, full: Abs, rel: string): (r: Response)
    ensures r.status == 200 || r.status == 404 || r.status == 500
    ensures r.status == 200 ==> Exists(fs, full) && fs[full.segs].File?
  {
    if !Exists(fs, full) then
      Response(404, None, None, None, Object([("error", Str("File not found")), ("path", Str(rel))]))
    else if fs[full.segs].Dir? then ErrorJson(404, "Not a file")
    else
      var file := fs[full.segs];
      var ext := Lower(Extname(rel));
      if ext == ".json" then JsonResponse(rt, file)
      else if file.readable then
        Response(200, Some(AssetContentType(ext)), Some(|file.bytes|), Some(PrivateCache), Bytes(file.bytes))
      else
        Response(500, None, None, None, Object([("error", Str("Failed to read file")), ("message", Thrown)]))
  }

  /** For a sanitised path the check passes and the target is served. */
  lemma LocateServesTarget(h: Host, rt: JsonRuntime, rel: string)
    requires h.Valid() && !HasDotDot(rel)
    ensures Locate(h, rt, rel) == Serve(h.fs, rt, Target(h, rel), rel)
  {
    var t := Target(h, rel);
    FullPathIsTarget(h, rel);
    assert t.segs[..|h.cwd|] == h.cwd && t.segs[|h.cwd|] == RootName;
    PlainPrefixComplete(h.cwd, RootName, t);
  }

  // ---------------------------------------------------------------------------
  // What the handler guarantees

  /** A request without a path is refused before the host is consulted. */
  lemma NoPathIsBadRequest(h: Host, rt: JsonRuntime, query: Option<string>)
    requires query.None? || query.value == ""
    ensures Handle(h, rt, query) == ErrorJson(400, "No path specified")
  {
  }

  /** After sanitising, the target always lies below the protected directory, so the
      `startsWith` check never refuses a request. */
  lemma AccessDeniedUnreachable(h: Host, rt: JsonRuntime, query: Option<string>)
    requires h.Valid()
    ensures Handle(h, rt, query).status != 403
  {
    if query.None? || query.value == "" {
      assert Handle(h, rt, query) == ErrorJson(400, "No path specified");
    } else {
      var rel := Sanitize(query.value);
      assert Handle(h, rt, query) == Locate(h, rt, rel);
      LocateServesTarget(h, rt, rel);
      var r := Serve(h.fs, rt, Target(h, rel), rel);
      assert r.status == 200 || r.status == 404 || r.status == 500;
    }
  }

  /** Nothing at the target (or a file named with a trailing separator): 404 with the
      sanitised path echoed back. */
  lemma MissingIsNotFound(h: Host, rt: JsonRuntime, path: string)
    requires h.Valid() && path != ""
    requires !Exists(h.fs, Target(h, Sanitize(path)))
    ensures Handle(h, rt, Some(path)) ==
      Response(404, None, None, None, Object([("error", Str("File not found")), ("path", Str(Sanitize(path)))]))
  {
    LocateServesTarget(h, rt, Sanitize(path));
  }

  /** A directory at the target is never served. */
  lemma DirectoryIsNotServed(h: Host, rt: JsonRuntime, path: string)
    requires h.Valid() && path != ""
    requires Target(h, Sanitize(path)).segs in h.fs && h.fs[Target(h, Sanitize(path)).segs].Dir?
    ensures Handle(h, rt, Some(path)) == ErrorJson(404, "Not a file")
  {
    LocateServesTarget(h, rt, Sanitize(path));
  }

  /** A file other than JSON: its bytes with the table's type for the lower-cased
      extension, its length and a private one-hour cache header — or 500 when it cannot be
      read. */
  lemma BinaryServed(h: Host, rt: JsonRuntime, path: string, bytes: seq<byte>, readable: bool)
    requires h.Valid() && path != ""
    requires Exists(h.fs, Target(h, Sanitize(path))) && h.fs[Target(h, Sanitize(path)).segs] == File(bytes, readable)
    requires Lower(Extname(Sanitize(path))) != ".json"
    ensures readable ==> (Handle(h, rt, Some(path)) ==
      Response(200, Some(AssetContentType(Lower(Extname(Sanitize(path))))), Some(|bytes|), Some(PrivateCache), Bytes(bytes)))
    ensures !readable ==> (Handle(h, rt, Some(path)) ==
      Response(500, None, None, None, Object([("error", Str("Failed to read file")), ("message", Thrown)])))
  {
    var rel := Sanitize(path);
    assert Handle(h, rt, Some(path)) == Locate(h, rt, rel);
    LocateServesTarget(h, rt, rel);
    var t := Target(h, rel);
    assert h.fs[t.segs] == File(bytes, readable);
  }

  /** A `.json` file (any letter case) goes through the JSON branch and never gets the
      cache header. */
  lemma JsonServed(h: Host, rt: JsonRuntime, path: string)
    requires h.Valid() && path != ""
    requires Exists(h.fs, Target(h, Sanitize(path))) && h.fs[Target(h, Sanitize(path)).segs].File?
    requires Lower(Extname(Sanitize(path))) == ".json"
    ensures Handle(h, rt, Some(path)) == JsonResponse(rt, h.fs[Target(h, Sanitize(path)).segs])
    ensures Handle(h, rt, Some(path)).cacheControl == None
  {
    LocateServesTarget(h, rt, Sanitize(path));
  }

  /** Confinement: whatever the request, a successful response carries a regular file that
      lies at or below the protected directory (at it only when the sanitised path names no
      piece, and the protected directory itself is a regular file). */
  lemma ServedFileIsProtected(h: Host, rt: JsonRuntime, query: Option<string>)
    requires h.Valid()
    requires Handle(h, rt, query).status == 200
    ensures query.Some? && query.value != ""
    ensures var t := Target(h, Sanitize(query.value));
      t.segs[..|h.cwd| + 1] == h.cwd + [RootName] && t.segs in h.fs && h.fs[t.segs].File?
  {
    var rel := Sanitize(query.value);
    LocateServesTarget(h, rt, rel);
    var t := Target(h, rel);
    assert t.segs[..|h.cwd| + 1] == h.cwd + [RootName];
  }

  /** The response depends on the filesystem only through the target. */
  lemma OnlyTargetConsulted(h1: Host, h2: Host, rt: JsonRuntime, path: string)
    requires h1.Valid() && h1.cwd == h2.cwd && path != ""
    requires var t := Target(h1, Sanitize(path)).segs;
      (t in h1.fs <==> t in h2.fs) && (t in h1.fs ==> h1.fs[t] == h2.fs[t])
    ensures Handle(h1, rt, Some(path)) == Handle(h2, rt, Some(path))
  {
    var rel := Sanitize(path);
    LocateServesTarget(h1, rt, rel);
    LocateServesTarget(h2, rt, rel);
    assert Target(h1, rel) == Target(h2, rel);
    ServeLocal(h1.fs, h2.fs, rt, Target(h1, rel), rel);
  }

  lemma ServeLocal(fs1: FileSystem, fs2: FileSystem, rt: JsonRuntime, full: Abs, rel: string)
    requires (full.segs in fs1 <==> full.segs in fs2) && (full.segs in fs1 ==> fs1[full.segs] == fs2[full.segs])
    ensures Serve(fs1, rt, full, rel) == Serve(fs2, rt, full, rel)
  {
  }
}
