/** The older handler of `/api/pa?path=…` (api/pa.js): the same layout as
    api/protected-asset.js, but the requested path is joined as given, the prefix check has no
    separator, and there is no regular-file check before reading. */
module LegacyAsset {
  import opened Wrappers
  import opened Octets
  import opened Text
  import opened PosixPath
  import opened Http
  import opened Mime
  import ProtectedAsset

  const RootName := ProtectedAsset.RootName

  /** The response to `GET /api/pa?path=query`, with the check as written. */
  function Handle(h: Host, query: Option<string>): Response
  {
    if query.None? || query.value == "" then ErrorJson(400, "No path specified")
    else
      var full := ProtectedAsset.FullPath(h, query.value);
      if !StartsWith(Render(full), Render(ProtectedAsset.ProtectedDir(h))) then ErrorJson(403, "Access denied")
      else Serve(h.fs, full, query.value)
  }

  /** The same handler with the check written against the directory and a separator. */
  function HandleStrict(h: Host, query: Option<string>): Response
  {
    if query.None? || query.value == "" then ErrorJson(400, "No path specified")
    else
      var full := ProtectedAsset.FullPath(h, query.value);
      if !StartsWith(Render(full), Render(ProtectedAsset.ProtectedDir(h)) + "/") then ErrorJson(403, "Access denied")
      else Serve(h.fs, full, query.value)
  }

  /** Serving what is at `full`: 404 when nothing exists there, the bytes when reading
      succeeds, and otherwise (a directory, an unreadable file) the thrown message with 500. */
  function Serve(fs: FileSystem, full: Abs, raw: string): (r: Response)
    ensures r.status == 200 || r.status == 404 || r.status == 500
    ensures r.status == 404 <==> !Exists(fs, full)
    ensures r.status == 200 <==> ReadFile(fs, full).Some?
    ensures r.status == 200 ==> r == Response(200, Some(LegacyContentType(Lower(Extname(raw)))),
      Some(|fs[full.segs].bytes|), None, Bytes(fs[full.segs].bytes))
    ensures r.status == 404 ==> r == ErrorJson(404, "File not found")
    ensures r.status == 500 ==> r == Response(500, None, None, None, Object([("error", Thrown)]))
  {
    if !Exists(fs, full) then ErrorJson(404, "File not found")
    else match ReadFile(fs, full)
      case Some(bytes) =>
        Response(200, Some(LegacyContentType(Lower(Extname(raw)))), Some(|bytes|), None, Bytes(bytes))
      case None => Response(500, None, None, None, Object([("error", Thrown)]))
  }

  /** The raw path is resolved below the protected directory, `..` pieces included. */
  lemma FullPathResolves(h: Host, raw: string)
    requires h.Valid()
    ensures ProtectedAsset.FullPath(h, raw).segs == Resolve(h.cwd + [RootName], Split(raw))
    ensures ProtectedAsset.ProtectedDir(h) == Abs(h.cwd + [RootName], false)
  {
    var p := Abs(h.cwd, false);
    JoinOne(p, RootName);
    FullPathIsJoin(h, raw);
    JoinTwo(p, RootName, raw);
  }

  lemma FullPathIsJoin(h: Host, raw: string)
    requires h.Valid()
    ensures ProtectedAsset.FullPath(h, raw) == Join(Render(Abs(h.cwd, false)), [RootName, raw])
  {
    NormalizeRender(Join(h.Cwd(), [RootName, raw]));
  }

  /** The check as written admits exactly the paths whose segment after the working
      directory merely begins with `protected-assets`. */
  lemma Admitted(h: Host, raw: string)
    requires h.Valid() && raw != ""
    ensures var p := ProtectedAsset.FullPath(h, raw);
      Handle(h, Some(raw)).status != 403 <==>
        |h.cwd| < |p.segs| && p.segs[..|h.cwd|] == h.cwd && RootName <= p.segs[|h.cwd|]
  {
    FullPathResolves(h, raw);
    PlainPrefixCheck(h.cwd, RootName, ProtectedAsset.FullPath(h, raw));
  }

  lemma SplitThree(a: string, b: string, c: string)
    requires '/' !in a && '/' !in b && '/' !in c
    ensures Split(a + "/" + b + "/" + c) == [a, b, c]
  {
    assert a + "/" + b + "/" + c == a + "/" + (b + "/" + c);
    SplitAppend(a, b + "/" + c);
    SplitAppend(b, c);
    SplitSingle(a);
    SplitSingle(b);
    SplitSingle(c);
  }

  /** `../sibling/file` resolves next to the protected directory. */
  lemma SiblingPath(h: Host, sibling: string, file: string)
    requires h.Valid() && IsName(sibling) && IsName(file)
    ensures ProtectedAsset.FullPath(h, ".." + "/" + sibling + "/" + file).segs == h.cwd + [sibling, file]
  {
    var raw := ".." + "/" + sibling + "/" + file;
    SplitThree("..", sibling, file);
    var start := h.cwd + [RootName];
    assert Step(start, "..") == h.cwd;
    assert Resolve(start, ["..", sibling, file]) == Resolve(h.cwd, [sibling, file]);
    assert Resolve(h.cwd, [sibling, file]) == Resolve(h.cwd + [sibling], [file]);
    assert Resolve(h.cwd + [sibling], [file]) == h.cwd + [sibling, file];
    FullPathResolves(h, raw);
  }

  /** A request without a path is refused before the host is consulted. */
  lemma NoPathIsBadRequest(h: Host, query: Option<string>)
    requires query.None? || query.value == ""
    ensures Handle(h, query) == ErrorJson(400, "No path specified")
  {
  }

  /** A directory that passes the check is read as a file, which throws: 500. */
  lemma DirectoryFails(h: Host, raw: string)
    requires h.Valid() && raw != ""
    requires Handle(h, Some(raw)).status != 403
    requires var p := ProtectedAsset.FullPath(h, raw); p.segs in h.fs && h.fs[p.segs].Dir?
    ensures Handle(h, Some(raw)).status == 500
  {
  }

  /** The directory two levels up from the protected one. */
  function Parent(cwd: seq<string>): seq<string>
  {
    if cwd == [] then [] else cwd[..|cwd| - 1]
  }

  lemma SplitFour(a: string, b: string, c: string, d: string)
    requires '/' !in a && '/' !in b && '/' !in c && '/' !in d
    ensures Split(a + "/" + b + "/" + c + "/" + d) == [a, b, c, d]
  {
    assert a + "/" + b + "/" + c + "/" + d == a + "/" + (b + "/" + c + "/" + d);
    SplitAppend(a, b + "/" + c + "/" + d);
    SplitThree(b, c, d);
    SplitSingle(a);
  }

  /** `../../dir/file` climbs out of the protected directory and its parent. */
  lemma EscapePath(h: Host, dir: string, file: string)
    requires h.Valid() && IsName(dir) && IsName(file)
    ensures ProtectedAsset.FullPath(h, ".." + "/" + ".." + "/" + dir + "/" + file).segs == Parent(h.cwd) + [dir, file]
  {
    var raw := ".." + "/" + ".." + "/" + dir + "/" + file;
    SplitFour("..", "..", dir, file);
    var start := h.cwd + [RootName];
    assert Step(start, "..") == h.cwd;
    assert Step(h.cwd, "..") == Parent(h.cwd);
    assert Resolve(start, ["..", "..", dir, file]) == Resolve(h.cwd, ["..", dir, file]);
    assert Resolve(h.cwd, ["..", dir, file]) == Resolve(Parent(h.cwd), [dir, file]);
    assert Resolve(Parent(h.cwd), [dir, file]) == Resolve(Parent(h.cwd) + [dir], [file]);
    FullPathResolves(h, raw);
  }

  /** A path that climbs two levels and names a directory and file that do not begin with
      `protected-assets` (`../../etc/passwd`) is refused by the check. */
  lemma EscapeRefused(h: Host, dir: string, file: string)
    requires h.Valid() && IsName(dir) && IsName(file)
    requires !(RootName <= dir) && !(RootName <= file)
    ensures Handle(h, Some(".." + "/" + ".." + "/" + dir + "/" + file)) == ErrorJson(403, "Access denied")
  {
    var raw := ".." + "/" + ".." + "/" + dir + "/" + file;
    EscapePath(h, dir, file);
    Admitted(h, raw);
    var segs := Parent(h.cwd) + [dir, file];
    if |h.cwd| < |segs| && segs[..|h.cwd|] == h.cwd {
      if h.cwd == [] {
        assert segs[0] == dir;
      } else {
        assert segs[|h.cwd|] == file;
      }
    }
  }

  /** A directory next to the protected one whose name begins with `protected-assets` is
      reachable through `..` and its files are served. */
  lemma SiblingDirectoryServed(h: Host, sibling: string, file: string, bytes: seq<byte>)
    requires h.Valid() && IsName(sibling) && IsName(file) && RootName < sibling
    requires h.cwd + [sibling, file] in h.fs && h.fs[h.cwd + [sibling, file]] == File(bytes, true)
    ensures Handle(h, Some(".." + "/" + sibling + "/" + file)).status == 200
    ensures Handle(h, Some(".." + "/" + sibling + "/" + file)).body == Bytes(bytes)
  {
    var raw := ".." + "/" + sibling + "/" + file;
    var segs := h.cwd + [sibling, file];
    SiblingPath(h, sibling, file);
    var full := ProtectedAsset.FullPath(h, raw);
    assert raw[|raw| - 1] == file[|file| - 1];
    FullPathIsJoin(h, raw);
    JoinTwo(Abs(h.cwd, false), RootName, raw);
    assert full == Abs(segs, false);
    Admitted(h, raw);
    assert segs[..|h.cwd|] == h.cwd && segs[|h.cwd|] == sibling;
  }

  /** The corrected check admits exactly the paths below the protected directory (the
      directory itself only when written with a trailing separator). */
  lemma StrictAdmitted(h: Host, raw: string)
    requires h.Valid() && raw != ""
    ensures var p := ProtectedAsset.FullPath(h, raw);
      HandleStrict(h, Some(raw)).status != 403 <==>
        (|h.cwd| + 1 < |p.segs| && p.segs[..|h.cwd| + 1] == h.cwd + [RootName]) ||
        (p.segs == h.cwd + [RootName] && p.trailing)
  {
    FullPathResolves(h, raw);
    StrictPrefixCheck(h.cwd + [RootName], ProtectedAsset.FullPath(h, raw));
  }

  /** Under the corrected check, whatever is served is a file strictly below the protected
      directory. */
  lemma StrictServesOnlyBelow(h: Host, query: Option<string>)
    requires h.Valid()
    requires HandleStrict(h, query).status == 200
    ensures query.Some? && query.value != ""
    ensures var p := ProtectedAsset.FullPath(h, query.value);
      |h.cwd| + 1 < |p.segs| && p.segs[..|h.cwd| + 1] == h.cwd + [RootName] && h.fs[p.segs].File?
  {
    StrictAdmitted(h, query.value);
  }

  /** Under the corrected check the sibling directory is out of reach. */
  lemma StrictRefusesSibling(h: Host, sibling: string, file: string)
    requires h.Valid() && IsName(sibling) && IsName(file) && sibling != RootName
    ensures HandleStrict(h, Some(".." + "/" + sibling + "/" + file)) == ErrorJson(403, "Access denied")
  {
    var raw := ".." + "/" + sibling + "/" + file;
    var segs := h.cwd + [sibling, file];
    SiblingPath(h, sibling, file);
    StrictAdmitted(h, raw);
    assert segs[..|h.cwd| + 1] != h.cwd + [RootName] by {
      assert segs[..|h.cwd| + 1][|h.cwd|] == sibling;
      assert (h.cwd + [RootName])[|h.cwd|] == RootName;
    }
    assert segs != h.cwd + [RootName] by {
      assert |segs| == |h.cwd| + 2;
    }
  }
}
