/** The handler of `/api/getImage?image=…` (api/getImage.js): a bearer-token gate, then the
    URL under which an image in `<cwd>/protected-images` is served, when the file exists. */
module GetImage {
  import opened Wrappers
  import opened PosixPath
  import opened Http
  import ServeImage

  const ImagesDirName := ServeImage.ImagesDirName
  const UrlPrefix := "/api/protected-images/"

  /** The gate: an `authorization` header that is present, non-empty and equal to the
      configured `SECRET_TOKEN` (an unset secret admits nobody). */
  predicate Authorized(token: Option<string>, secret: Option<string>)
  {
    token.Some? && token.value != "" && secret == Some(token.value)
  }

  /** `fetchImageUrl(imageName)`: the serving URL when
      `path.join(process.cwd(), 'protected-images', imageName)` exists, otherwise nothing. */
  function FetchImageUrl(h: Host, name: string): (url: Option<string>)
    ensures url.Some? <==> Exists(h.fs, Join(h.Cwd(), [ImagesDirName, name]))
    ensures url.Some? ==> url.value == UrlPrefix + name && url.value != ""
  {
    if Exists(h.fs, Join(h.Cwd(), [ImagesDirName, name])) then Some(UrlPrefix + name) else None
  }

  /** The response to `GET /api/getImage?image=name` with the given `authorization` header. */
  function Handle(h: Host, secret: Option<string>, token: Option<string>, name: string): Response
  {
    if !Authorized(token, secret) then ErrorJson(403, "Forbidden")
    else match FetchImageUrl(h, name)
      case None => ErrorJson(404, "Image not found")
      case Some(url) => Response(200, None, None, None, Object([("url", Str(url))]))
  }

  /** Without the right token the answer is 403, whatever the filesystem holds. */
  lemma GateFirst(h1: Host, h2: Host, secret: Option<string>, token: Option<string>, name: string)
    requires !Authorized(token, secret)
    ensures Handle(h1, secret, token, name) == Handle(h2, secret, token, name) == ErrorJson(403, "Forbidden")
  {
  }

  /** The gate admits exactly a non-empty token equal to a configured secret. */
  lemma GateAdmits(h: Host, secret: Option<string>, token: Option<string>, name: string)
    ensures Handle(h, secret, token, name).status != 403 <==>
      token.Some? && token.value != "" && secret.Some? && secret.value == token.value
  {
  }

  /** For an authorised caller, a single-segment name gets its URL exactly when the file or
      directory of that name exists in the image directory. */
  lemma UrlForExistingImage(h: Host, secret: Option<string>, token: Option<string>, name: string)
    requires h.Valid() && Authorized(token, secret) && IsName(name)
    ensures Handle(h, secret, token, name) ==
      if h.cwd + [ImagesDirName, name] in h.fs then
        Response(200, None, None, None, Object([("url", Str(UrlPrefix + name))]))
      else ErrorJson(404, "Image not found")
  {
    var dir := Abs(h.cwd + [ImagesDirName], false);
    JoinTwo(Abs(h.cwd, false), ImagesDirName, name);
    SplitSingle(name);
    assert Resolve(h.cwd + [ImagesDirName], [name]) == h.cwd + [ImagesDirName, name];
    assert name[|name| - 1] != '/' by {
      assert name[|name| - 1] in name;
    }
  }

  /** The name is joined unchecked, so an authorised caller can learn whether a file exists
      next to the image directory (or anywhere above it). */
  lemma ExistenceProbe(h: Host, secret: Option<string>, token: Option<string>, name: string)
    requires h.Valid() && Authorized(token, secret) && IsName(name)
    ensures Handle(h, secret, token, ".." + "/" + name).status == 200 <==> h.cwd + [name] in h.fs
  {
    var raw := ".." + "/" + name;
    SplitAppend("..", name);
    SplitSingle("..");
    SplitSingle(name);
    assert Split(raw) == ["..", name];
    var start := h.cwd + [ImagesDirName];
    assert Resolve(start, ["..", name]) == Resolve(h.cwd, [name]);
    assert Resolve(h.cwd, [name]) == h.cwd + [name];
    JoinTwo(Abs(h.cwd, false), ImagesDirName, raw);
    assert raw[|raw| - 1] == name[|name| - 1];
    assert name[|name| - 1] != '/' by {
      assert name[|name| - 1] in name;
    }
  }
}
