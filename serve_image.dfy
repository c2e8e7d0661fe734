/** The handler of `/api/serveImage?image=…` (api/serveImage.js): a whitelisted file name,
    resolved below `<cwd>/protected-images`, served with its image type and `no-cache`; every
    failure is a bare 404. */
module ServeImage {
  import opened Wrappers
  import opened Text
  import opened PosixPath
  import opened Http
  import opened Mime

  const ImagesDirName := "protected-images"
  const ImageExtensions: set<string> := {"jpg", "jpeg", "png", "gif", "webp"}
  const MaxStem := 50

  // ---------------------------------------------------------------------------
  // The whitelist /^[a-zA-Z0-9_-]{1,50}\.(jpg|jpeg|png|gif|webp)$/i

  /** A character of the class `[a-zA-Z0-9_-]` (the `i` flag adds nothing to it). */
  predicate StemChar(c: char)
  {
    'a' <= c <= 'z' || 'A' <= c <= 'Z' || '0' <= c <= '9' || c == '_' || c == '-'
  }

  /** The length of the longest prefix of stem characters. */
  function StemRun(s: string): (k: nat)
    ensures k <= |s|
    ensures forall i :: 0 <= i < k ==> StemChar(s[i])
    ensures k < |s| ==> !StemChar(s[k])
  {
    if s != [] && StemChar(s[0]) then 1 + StemRun(s[1..]) else 0
  }

  /** The strings the pattern matches: 1 to 50 stem characters, a dot, and one of the five
      extensions in any letter case, with nothing before or after. */
  ghost predicate MatchesPattern(s: string)
  {
    exists k :: 1 <= k <= MaxStem && k < |s| && (forall i :: 0 <= i < k ==> StemChar(s[i])) &&
      s[k] == '.' && Lower(s[k + 1..]) in ImageExtensions
  }

  /** `regex.test(s)`: the stem must be the whole run of stem characters, because the dot
      after it is not one. */
  function IsValidImageName(s: string): bool
  {
    var k := StemRun(s);
    1 <= k <= MaxStem && k < |s| && s[k] == '.' && Lower(s[k + 1..]) in ImageExtensions
  }

  lemma ValidImageNameMatches(s: string)
    ensures IsValidImageName(s) <==> MatchesPattern(s)
  {
    if MatchesPattern(s) {
      var k :| 1 <= k <= MaxStem && k < |s| && (forall i :: 0 <= i < k ==> StemChar(s[i])) &&
        s[k] == '.' && Lower(s[k + 1..]) in ImageExtensions;
      assert StemRun(s) == k;
    }
  }

  /** Lower-casing keeps every character that is not an upper-case letter. */
  lemma LowerKeeps(s: string, c: char)
    requires c in s && !('A' <= c <= 'Z')
    ensures c in Lower(s)
  {
    var i :| 0 <= i < |s| && s[i] == c;
    assert Lower(s)[i] == c;
  }

  lemma ExtensionLetters(e: string)
    requires e in ImageExtensions
    ensures '.' !in e && '/' !in e
  {
  }

  /** A whitelisted name is a stem free of dots and separators, a dot, and an extension free
      of both. */
  lemma ValidImageNameParts(s: string)
    requires IsValidImageName(s)
    ensures var k := StemRun(s);
      s == s[..k] + "." + s[k + 1..] &&
      s[..k] != "" && '.' !in s[..k] && '/' !in s[..k] && '.' !in s[k + 1..] && '/' !in s[k + 1..]
  {
    var k := StemRun(s);
    var stem, ext := s[..k], s[k + 1..];
    assert s == stem + "." + ext;
    assert '.' !in stem && '/' !in stem by {
      forall i | 0 <= i < |stem| ensures stem[i] != '.' && stem[i] != '/' {
        assert StemChar(s[i]);
      }
    }
    ExtensionLetters(Lower(ext));
    if '.' in ext {
      LowerKeeps(ext, '.');
    }
    if '/' in ext {
      LowerKeeps(ext, '/');
    }
  }

  /** A dot-free stem, a dot and an extension, none holding a separator, make one segment. */
  lemma NameOfParts(stem: string, ext: string)
    requires stem != "" && '.' !in stem && '/' !in stem && '/' !in ext
    ensures IsName(stem + "." + ext)
  {
    var s := stem + "." + ext;
    assert s[0] == stem[0];
    forall i | 0 <= i < |s| ensures s[i] != '/' {
      if i < |stem| { assert s[i] == stem[i]; }
      else if i > |stem| { assert s[i] == ext[i - |stem| - 1]; }
    }
  }

  /** A whitelisted name is a single path segment, and its extension is in the image table. */
  lemma ValidImageNameShape(s: string)
    requires IsValidImageName(s)
    ensures IsName(s)
    ensures Lower(Extname(s)) in ImageTypes
  {
    var k := StemRun(s);
    var stem, ext := s[..k], s[k + 1..];
    ValidImageNameParts(s);
    NameOfParts(stem, ext);
    ExtnameOfName(stem, ext);
    LowerDot(ext);
    ExtensionKey(Lower(ext));
  }

  lemma LowerDot(ext: string)
    ensures Lower("." + ext) == "." + Lower(ext)
  {
  }

  lemma ExtensionKey(x: string)
    requires x in ImageExtensions
    ensures "." + x in ImageTypes
  {
    if x == "jpg" { assert "." + x == ".jpg"; }
    else if x == "jpeg" { assert "." + x == ".jpeg"; }
    else if x == "png" { assert "." + x == ".png"; }
    else if x == "gif" { assert "." + x == ".gif"; }
    else { assert "." + x == ".webp"; }
  }

  // ---------------------------------------------------------------------------
  // The handler

  /** The response to `GET /api/serveImage?image=image`. */
  function Handle(h: Host, image: Option<string>): Response
  {
    if image.None? || !IsValidImageName(image.value) then Bare(404)
    else Locate(h, image.value)
  }

  /** The traversal check on the resolved path of a whitelisted name. */
  function Locate(h: Host, name: string): Response
  {
    var dir := ResolveAgainst(h.Cwd(), ImagesDirName);
    var imagePath := ResolveAgainst(Render(dir), name);
    if !StartsWith(Render(imagePath), Render(dir) + "/") then Bare(404)
    else Serve(h.fs, imagePath, name)
  }

  /** Reading the image; a failed read is a bare 404 too. */
  function Serve(fs: FileSystem, imagePath: Abs, name: string): (r: Response)
    ensures r.status == 200 <==> ReadFile(fs, imagePath).Some?
    ensures r.status != 200 ==> r == Bare(404)
  {
    match ReadFile(fs, imagePath)
    case None => Bare(404)
    case Some(bytes) =>
      Response(200, Some(ImageContentType(Lower(Extname(name)))), None, Some("no-cache"), Bytes(bytes))
  }

  /** A single-segment name is resolved to the file of that name in the image directory,
      and the traversal check lets it through. */
  lemma ImagePathOfName(h: Host, name: string)
    requires h.Valid() && IsName(name)
    ensures var dir := ResolveAgainst(h.Cwd(), ImagesDirName);
      dir == Abs(h.cwd + [ImagesDirName], false) &&
      ResolveAgainst(Render(dir), name) == Abs(h.cwd + [ImagesDirName, name], false) &&
      StartsWith(Render(ResolveAgainst(Render(dir), name)), Render(dir) + "/")
  {
    ImagesDir(h);
    var d := h.cwd + [ImagesDirName];
    assert AllNames(d) by {
      ImagesDirNameIsName();
    }
    ImageFile(d, name);
    assert d + [name] == h.cwd + [ImagesDirName, name];
  }

  lemma ImagesDirNameIsName()
    ensures IsName(ImagesDirName)
  {
    forall i | 0 <= i < |ImagesDirName| ensures ImagesDirName[i] != '/' {
      assert 'a' <= ImagesDirName[i] <= 'z' || ImagesDirName[i] == '-';
    }
  }

  /** A whitelisted name is such a name. */
  lemma ImagePathOfValidName(h: Host, name: string)
    requires h.Valid() && IsValidImageName(name)
    ensures var dir := ResolveAgainst(h.Cwd(), ImagesDirName);
      dir == Abs(h.cwd + [ImagesDirName], false) &&
      ResolveAgainst(Render(dir), name) == Abs(h.cwd + [ImagesDirName, name], false) &&
      StartsWith(Render(ResolveAgainst(Render(dir), name)), Render(dir) + "/")
  {
    ValidImageNameShape(name);
    ImagePathOfName(h, name);
  }

  /** `path.resolve(process.cwd(), 'protected-images')` */
  lemma ImagesDir(h: Host)
    requires h.Valid()
    ensures ResolveAgainst(h.Cwd(), ImagesDirName) == Abs(h.cwd + [ImagesDirName], false)
  {
    JoinOne(Abs(h.cwd, false), ImagesDirName);
  }

  /** `path.resolve(dir, name)` for a single segment, and the check `startsWith(dir + sep)`. */
  lemma ImageFile(dir: seq<string>, name: string)
    requires AllNames(dir) && dir != [] && IsName(name)
    ensures ResolveAgainst(Render(Abs(dir, false)), name) == Abs(dir + [name], false)
    ensures Render(Abs(dir, false)) + "/" <= Render(Abs(dir + [name], false))
  {
    JoinOne(Abs(dir, false), name);
    var p := Abs(dir + [name], false);
    StrictPrefixCheck(dir, p);
    assert p.segs[..|dir|] == dir;
  }

  /** For a whitelisted name the check passes and the file of that name is read. */
  lemma LocateValidName(h: Host, name: string)
    requires h.Valid() && IsValidImageName(name)
    ensures Locate(h, name) == Serve(h.fs, Abs(h.cwd + [ImagesDirName, name], false), name)
  {
    ImagePathOfValidName(h, name);
  }

  /** What a whitelisted name gets: the file's bytes with the type of its extension (always
      one from the table, by `ValidImageNameShape`) when it is a readable file, and a bare 404
      otherwise. */
  lemma ValidNameServed(h: Host, name: string)
    requires h.Valid() && IsValidImageName(name)
    ensures var segs := h.cwd + [ImagesDirName, name];
      Handle(h, Some(name)) ==
        if segs in h.fs && h.fs[segs].File? && h.fs[segs].readable then
          Response(200, Some(ImageContentType(Lower(Extname(name)))), None, Some("no-cache"), Bytes(h.fs[segs].bytes))
        else Bare(404)
  {
    LocateValidName(h, name);
  }

  /** Anything the whitelist refuses, a missing parameter included, is a bare 404. */
  lemma InvalidNameNotFound(h: Host, image: Option<string>)
    requires image.None? || !MatchesPattern(image.value)
    ensures Handle(h, image) == Bare(404)
  {
    if image.Some? {
      ValidImageNameMatches(image.value);
    }
  }

  /** Every response is either an image served from the image directory without caching, or
      a bare 404. */
  lemma ResponsesAreImagesOrNotFound(h: Host, image: Option<string>)
    requires h.Valid()
    ensures var r := Handle(h, image);
      r == Bare(404) ||
      (r.status == 200 && image.Some? && MatchesPattern(image.value) &&
       r.contentType.Some? && "image/" <= r.contentType.value && r.cacheControl == Some("no-cache") &&
       var segs := h.cwd + [ImagesDirName, image.value];
       segs in h.fs && h.fs[segs].File? && r.body == Bytes(h.fs[segs].bytes))
  {
    if image.Some? && IsValidImageName(image.value) {
      ValidNameServed(h, image.value);
      ValidImageNameMatches(image.value);
      ImageTypesAreImages(Lower(Extname(image.value)));
    }
  }
}
