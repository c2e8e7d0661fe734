/** The browser-side asset service (src/services/protectedAssets.js): it builds
    `/api/protected-asset?path=…` URLs, keeps a cache of object URLs for fetched assets, maps
    logical asset names to files and picks the folder of a file from its extension. */
module AssetService {
  import opened Wrappers
  import opened Octets
  import opened Text
  import opened PosixPath
  import UriComponent

  const BaseUrl := "/api/protected-asset"
  const StaticImage := "images/canvas-static.png"
  const CablesConfig := "cables/BaumIntro.json"
  const CablesAssets := "cables/assets/"
  const CablesOps := "cables/js/"

  /** The mapping used when no `VITE_ASSET_MAP` is configured. */
  const DefaultAssetMap: map<string, string> := map[
    "baum-intro-image" := "_DSF2140_Kopie_2.png",
    "cable-detail-1" := "cable_001.jpg",
    "cable-detail-2" := "cable_002.jpg"
  ]

  const ImageExtensions: set<string> := {"png", "jpg", "jpeg", "gif", "webp"}
  const OpsExtensions: set<string> := {"js", "glsl"}

  /** What `fetch(url)` settles to: a response, or a rejection (a network failure). */
  datatype FetchOutcome = NetworkError | Received(status: nat, body: seq<byte>)

  /** `response.ok` */
  predicate Ok(status: nat)
  {
    200 <= status <= 299
  }

  /** A rejection: an `Error` with a message the service writes, or an exception raised by
      the runtime (a network failure, a body that is not JSON) whose message is not modelled. */
  datatype Error = Message(text: string) | RuntimeError

  // ---------------------------------------------------------------------------
  // URLs and folders

  lemma {:induction false} EncodeUnreserved(s: string)
    requires forall i :: 0 <= i < |s| ==> UriComponent.Unreserved(s[i])
    ensures UriComponent.Encode(s) == s
  {
    if s != [] {
      EncodeUnreserved(s[1..]);
      assert s == [s[0]] + s[1..];
    }
  }

  /** `getAssetUrl(path)`: the API URL carrying `path` as its `path` parameter. */
  function AssetUrl(path: string): (url: string)
    ensures BaseUrl + "?path=" <= url
  {
    BaseUrl + "?path=" + UriComponent.Encode(path)
  }

  lemma BaseUrlHasNoQuery()
    ensures '?' !in BaseUrl && '#' !in BaseUrl
  {
    forall i | 0 <= i < |BaseUrl| ensures BaseUrl[i] != '?' && BaseUrl[i] != '#' {
      assert BaseUrl[i] == '/' || 'a' <= BaseUrl[i] <= 'z' || BaseUrl[i] == '-';
    }
  }

  /** The server reads the `path` parameter of `AssetUrl(path)` back as exactly `path`. */
  lemma AssetUrlRoundTrip(path: string)
    ensures UriComponent.RequestParam(AssetUrl(path), "path") == Some(path)
  {
    EncodeUnreserved("path");
    BaseUrlHasNoQuery();
    var encoded := UriComponent.Encode(path);
    assert AssetUrl(path) == BaseUrl + "?" + UriComponent.Encode("path") + "=" + encoded;
    UriComponent.QueryRoundTrip(BaseUrl, "path", path);
  }

  /** Different paths give different URLs. */
  lemma AssetUrlInjective(p: string, q: string)
    requires AssetUrl(p) == AssetUrl(q)
    ensures p == q
  {
    AssetUrlRoundTrip(p);
    AssetUrlRoundTrip(q);
  }

  /** `filename.split('.').pop()`: the text after the last dot, or all of it. */
  function Extension(filename: string): (e: string)
    ensures '.' !in e && |e| <= |filename| && e == filename[|filename| - |e|..]
    ensures |e| < |filename| ==> filename[|filename| - |e| - 1] == '.'
  {
    var k := LastIndexOf(filename, '.');
    filename[k + 1..]
  }

  /** The folder `getMappedAsset` fetches a file from. */
  function FolderFor(filename: string): (folder: string)
    ensures folder == CablesOps <==> Lower(Extension(filename)) in OpsExtensions
    ensures folder == CablesAssets <==> Lower(Extension(filename)) !in OpsExtensions
  {
    var ext := Lower(Extension(filename));
    if ext in ImageExtensions then CablesAssets
    else if ext in OpsExtensions then CablesOps
    else CablesAssets
  }

  function MappedPath(filename: string): string
  {
    FolderFor(filename) + filename
  }

  /** `getCablesAssetsPath()` and `getCablesOpsPath()` are the two folders. */
  function CablesAssetsPath(): string { CablesAssets }
  function CablesOpsPath(): string { CablesOps }

  lemma FolderIsOneOfThePaths(filename: string)
    ensures FolderFor(filename) in {CablesAssetsPath(), CablesOpsPath()}
  {
  }

  // ---------------------------------------------------------------------------
  // The cache

  /** What `fetchProtectedAsset(path)` does, as a relation between the cache and request log
      before (`cache0`, `log0`) and after (`cache1`, `log1`) and its result: a cached path is
      answered without a request; otherwise the URL is requested, an ok response is turned
      into an object URL and cached, and anything else leaves the cache alone. */
  predicate Fetched(cache0: map<string, string>, log0: seq<string>, cache1: map<string, string>, log1: seq<string>,
                    path: string, fetch: string -> FetchOutcome, mint: seq<byte> -> string, r: Result<string, Error>)
  {
    if path in cache0 then r == Success(cache0[path]) && cache1 == cache0 && log1 == log0
    else
      log1 == log0 + [AssetUrl(path)] &&
      match fetch(AssetUrl(path))
      case NetworkError => r == Failure(RuntimeError) && cache1 == cache0
      case Received(status, body) =>
        if Ok(status) then r == Success(mint(body)) && cache1 == cache0[path := mint(body)]
        else r == Failure(Message("Failed to fetch protected asset: " + Decimal(status))) && cache1 == cache0
  }

  /** A successful fetch leaves the path cached with the URL it returned. */
  lemma FetchCachesResult(cache0: map<string, string>, log0: seq<string>, cache1: map<string, string>, log1: seq<string>,
                          path: string, fetch: string -> FetchOutcome, mint: seq<byte> -> string, r: Result<string, Error>)
    requires Fetched(cache0, log0, cache1, log1, path, fetch, mint, r)
    ensures r.Success? <==> path in cache1 && r == Success(cache1[path])
  {
  }

  /** A fetch only adds the requested path; other entries, and a failed fetch's cache, stay
      as they were. */
  lemma FetchOnlyAdds(cache0: map<string, string>, log0: seq<string>, cache1: map<string, string>, log1: seq<string>,
                      path: string, fetch: string -> FetchOutcome, mint: seq<byte> -> string, r: Result<string, Error>)
    requires Fetched(cache0, log0, cache1, log1, path, fetch, mint, r)
    ensures cache1.Keys == cache0.Keys + (if r.Success? then {path} else {})
    ensures forall k :: k in cache0 ==> cache1[k] == cache0[k]
    ensures r.Failure? ==> cache1 == cache0
    ensures |log1| <= |log0| + 1
  {
  }

  /** Asking again for a path that was fetched successfully is answered from the cache with
      the same URL, without a second request. */
  lemma RepeatIsCacheHit(cache0: map<string, string>, log0: seq<string>, cache1: map<string, string>, log1: seq<string>,
                         cache2: map<string, string>, log2: seq<string>,
                         path: string, fetch: string -> FetchOutcome, mint: seq<byte> -> string, r1: Result<string, Error>,
                         fetch2: string -> FetchOutcome, mint2: seq<byte> -> string, r2: Result<string, Error>)
    requires Fetched(cache0, log0, cache1, log1, path, fetch, mint, r1) && r1.Success?
    requires Fetched(cache1, log1, cache2, log2, path, fetch2, mint2, r2)
    ensures r2 == r1 && cache2 == cache1 && log2 == log1
  {
  }

  class ProtectedAssetService {
    /** The logical-name-to-file mapping fixed at construction. */
    const assetMap: map<string, string>
    /** Asset path to object URL. */
    var cache: map<string, string>
    /** The URLs requested so far, in order. */
    ghost var requested: seq<string>
    /** The object URLs revoked so far. */
    ghost var revoked: set<string>

    /** `VITE_ASSET_MAP` parsed by `parse` when set and non-empty (an empty map when it does
        not parse), the default mapping otherwise. */
    constructor (env: Option<string>, parse: string -> Option<map<string, string>>)
      ensures env.None? || env.value == "" ==> assetMap == DefaultAssetMap
      ensures env.Some? && env.value != "" && parse(env.value).Some? ==> assetMap == parse(env.value).value
      ensures env.Some? && env.value != "" && parse(env.value).None? ==> assetMap == map[]
      ensures cache == map[] && requested == [] && revoked == {}
    {
      if env.None? || env.value == "" {
        assetMap := DefaultAssetMap;
      } else {
        match parse(env.value)
        case Some(m) => assetMap := m;
        case None => assetMap := map[];
      }
      cache := map[];
      requested := [];
      revoked := {};
    }

    /** `fetchProtectedAsset(path)` */
    method FetchProtectedAsset(path: string, fetch: string -> FetchOutcome, mint: seq<byte> -> string)
      returns (r: Result<string, Error>)
      modifies this
      ensures Fetched(old(cache), old(requested), cache, requested, path, fetch, mint, r)
      ensures revoked == old(revoked)
    {
      if path in cache {
        return Success(cache[path]);
      }
      var url := AssetUrl(path);
      requested := requested + [url];
      var response := fetch(url);
      match response
      case NetworkError =>
        r := Failure(RuntimeError);
      case Received(status, body) =>
        if !Ok(status) {
          r := Failure(Message("Failed to fetch protected asset: " + Decimal(status)));
        } else {
          var objectUrl := mint(body);
          cache := cache[path := objectUrl];
          r := Success(objectUrl);
        }
    }

    /** `fetchProtectedJSON(path)`: no caching; the body is read by `parse`. */
    method FetchProtectedJson(path: string, fetch: string -> FetchOutcome, parse: seq<byte> -> Option<string>)
      returns (r: Result<string, Error>)
      modifies this
      ensures requested == old(requested) + [AssetUrl(path)]
      ensures cache == old(cache) && revoked == old(revoked)
      ensures match fetch(AssetUrl(path))
        case NetworkError => r == Failure(RuntimeError)
        case Received(status, body) =>
          if !Ok(status) then r == Failure(Message("Failed to fetch protected JSON: " + Decimal(status)))
          else if parse(body).None? then r == Failure(RuntimeError)
          else r == Success(parse(body).value)
    {
      var url := AssetUrl(path);
      requested := requested + [url];
      match fetch(url)
      case NetworkError =>
        r := Failure(RuntimeError);
      case Received(status, body) =>
        if !Ok(status) {
          r := Failure(Message("Failed to fetch protected JSON: " + Decimal(status)));
        } else {
          match parse(body)
          case None => r := Failure(RuntimeError);
          case Some(value) => r := Success(value);
        }
    }

    /** Whether a logical name has a (non-empty) mapping. */
    predicate Mapped(name: string)
    {
      name in assetMap && assetMap[name] != ""
    }

    /** `getMappedAsset(name)` (and `getCablesAsset(name)`, which forwards to it). */
    method GetMappedAsset(name: string, fetch: string -> FetchOutcome, mint: seq<byte> -> string)
      returns (r: Result<string, Error>)
      modifies this
      ensures !Mapped(name) ==>
        r == Failure(Message("No mapping found for asset: " + name)) && cache == old(cache) && requested == old(requested)
      ensures Mapped(name) ==>
        Fetched(old(cache), old(requested), cache, requested, MappedPath(assetMap[name]), fetch, mint, r)
      ensures revoked == old(revoked)
    {
      if !Mapped(name) {
        return Failure(Message("No mapping found for asset: " + name));
      }
      r := FetchProtectedAsset(MappedPath(assetMap[name]), fetch, mint);
    }

    /** `getStaticImage()` */
    method GetStaticImage(fetch: string -> FetchOutcome, mint: seq<byte> -> string) returns (r: Result<string, Error>)
      modifies this
      ensures Fetched(old(cache), old(requested), cache, requested, StaticImage, fetch, mint, r)
      ensures revoked == old(revoked)
    {
      r := FetchProtectedAsset(StaticImage, fetch, mint);
    }

    /** `getCablesConfig()` */
    method GetCablesConfig(fetch: string -> FetchOutcome, parse: seq<byte> -> Option<string>) returns (r: Result<string, Error>)
      modifies this
      ensures requested == old(requested) + [AssetUrl(CablesConfig)]
      ensures cache == old(cache) && revoked == old(revoked)
      ensures match fetch(AssetUrl(CablesConfig))
        case NetworkError => r == Failure(RuntimeError)
        case Received(status, body) =>
          if !Ok(status) then r == Failure(Message("Failed to fetch protected JSON: " + Decimal(status)))
          else if parse(body).None? then r == Failure(RuntimeError)
          else r == Success(parse(body).value)
    {
      r := FetchProtectedJson(CablesConfig, fetch, parse);
    }

    /** `getMappedAssetUrl(name)`: the URL of the mapped file, always in the assets folder. */
    function GetMappedAssetUrl(name: string): (url: Option<string>)
      ensures url.None? <==> !Mapped(name)
      ensures url.Some? ==> url.value == AssetUrl(CablesAssets + assetMap[name])
      ensures url.Some? ==> UriComponent.RequestParam(url.value, "path") == Some(CablesAssets + assetMap[name])
    {
      if !Mapped(name) then None
      else
        AssetUrlRoundTrip(CablesAssets + assetMap[name]);
        Some(AssetUrl(CablesAssets + assetMap[name]))
    }

    /** For a `.js` or `.glsl` file the URL helper and `getMappedAsset` disagree on the
        folder: the helper's URL asks for `cables/assets/…` while the service fetches
        `cables/js/…`. */
    lemma MappedUrlIgnoresOpsFolder(name: string)
      requires Mapped(name) && Lower(Extension(assetMap[name])) in OpsExtensions
      ensures GetMappedAssetUrl(name) != Some(AssetUrl(MappedPath(assetMap[name])))
    {
      var f := assetMap[name];
      if GetMappedAssetUrl(name) == Some(AssetUrl(MappedPath(f))) {
        AssetUrlInjective(CablesAssets + f, MappedPath(f));
      }
    }

    /** `clearCache()`: every cached object URL is revoked and the cache is emptied. */
    method ClearCache()
      modifies this
      ensures cache == map[]
      ensures revoked == old(revoked) + old(cache).Values
      ensures requested == old(requested)
    {
      var pending := cache.Keys;
      while pending != {}
        invariant pending <= cache.Keys
        invariant cache == old(cache) && requested == old(requested)
        invariant revoked == old(revoked) + set k | k in cache.Keys - pending :: cache[k]
        decreases pending
      {
        var k :| k in pending;
        revoked := revoked + {cache[k]};
        pending := pending - {k};
      }
      cache := map[];
    }
  }
}
