/** The browser-side decoder of the catch-all asset endpoint's JSON results
    (client/services/protectedAssets.js): it checks `response.ok` and the `success` flag,
    and turns a `{data, mimeType}` result into a `data:` URL for images or into the
    base64-decoded text for everything else. */
module ClientAssets {
  import opened Wrappers
  import opened Octets
  import opened Text
  import Base64
  import AssetService

  /** The fields of the JSON result the client reads; an absent field is None. */
  datatype Payload = Payload(success: bool, error: Option<string>, data: Option<string>, mimeType: Option<string>)

  const DecodeFailure := "Failed to decode asset"

  /** `${data}`: an absent `data` renders as `undefined`. */
  function DataText(data: Option<string>): string
  {
    if data.Some? then data.value else "undefined"
  }

  predicate IsImage(mimeType: string)
  {
    StartsWith(mimeType, "image/")
  }

  /** `decodeBase64Asset(result)` */
  function DecodeBase64Asset(p: Payload): (r: Result<string, string>)
    ensures r.Failure? ==> r.error == DecodeFailure
    ensures p.mimeType.None? ==> r.Failure?
    ensures p.mimeType.Some? && IsImage(p.mimeType.value) ==>
      r.Success? && "data:" + p.mimeType.value + ";base64," <= r.value &&
      r.value[|"data:" + p.mimeType.value + ";base64,"|..] == DataText(p.data)
    ensures p.mimeType.Some? && !IsImage(p.mimeType.value) ==>
      (r.Success? <==> Base64.Atob(DataText(p.data)).Some?)
    ensures p.mimeType.Some? && !IsImage(p.mimeType.value) && r.Success? ==>
      r.value == Base64.Latin1(Base64.Atob(DataText(p.data)).value)
  {
    match p.mimeType
    case None => Failure(DecodeFailure)
    case Some(m) =>
      if IsImage(m) then Success("data:" + m + ";base64," + DataText(p.data))
      else
        match Base64.Atob(DataText(p.data))
        case None => Failure(DecodeFailure)
        case Some(bytes) => Success(Base64.Latin1(bytes))
  }

  /** The text of a non-image asset comes back as one character per encoded byte. */
  lemma DecodesEncodedBytes(success: bool, error: Option<string>, bytes: seq<byte>, m: string)
    requires !IsImage(m)
    ensures DecodeBase64Asset(Payload(success, error, Some(Base64.Encode(bytes)), Some(m))) == Success(Base64.Latin1(bytes))
  {
    Base64.AtobEncode(bytes);
  }

  lemma JsonIsNotImage()
    ensures !IsImage("application/json")
  {
    assert "application/json"[0] != "image/"[0];
  }

  /** `application/json` is decoded exactly as any other non-image type. */
  lemma JsonLikeAnyOtherType(p: Payload, m: string)
    requires !IsImage(m)
    ensures DecodeBase64Asset(p.(mimeType := Some("application/json"))) == DecodeBase64Asset(p.(mimeType := Some(m)))
  {
    JsonIsNotImage();
  }

  /** A non-image result without `data` fails to decode. */
  lemma MissingDataFails(p: Payload)
    requires p.data.None? && p.mimeType.Some? && !IsImage(p.mimeType.value)
    ensures DecodeBase64Asset(p) == Failure(DecodeFailure)
  {
    Base64.AtobRejectsUndefined();
  }

  /** `result.error || fallback` */
  function LoadError(error: Option<string>, fallback: string): (message: string)
    ensures error.Some? && error.value != "" ==> message == error.value
    ensures error.None? || error.value == "" ==> message == fallback
    ensures fallback != "" ==> message != ""
  {
    if error.Some? && error.value != "" then error.value else fallback
  }

  function AssetsUrl(path: string): string
  {
    "/api/protected-assets/" + path
  }

  /** `fetchProtectedAsset(assetPath)`; `readJson` is `response.json()`. */
  function FetchProtectedAsset(path: string, fetch: string -> AssetService.FetchOutcome,
                               readJson: seq<byte> -> Option<Payload>): (r: Result<string, AssetService.Error>)
    ensures fetch(AssetsUrl(path)).Received? && !AssetService.Ok(fetch(AssetsUrl(path)).status) ==>
      r == Failure(AssetService.Message("Failed to fetch protected asset: " + Decimal(fetch(AssetsUrl(path)).status)))
    ensures r.Success? ==>
      var response := fetch(AssetsUrl(path));
      response.Received? && AssetService.Ok(response.status) && readJson(response.body).Some? &&
      readJson(response.body).value.success && DecodeBase64Asset(readJson(response.body).value) == Success(r.value)
    ensures var response := fetch(AssetsUrl(path));
      response.Received? && AssetService.Ok(response.status) && readJson(response.body).Some? &&
      readJson(response.body).value.success ==>
        r == match DecodeBase64Asset(readJson(response.body).value)
             case Success(v) => Success(v)
             case Failure(e) => Failure(AssetService.Message(e))
    ensures r.Failure? && r.error.Message? ==> r.error.text != ""
  {
    match fetch(AssetsUrl(path))
    case NetworkError => Failure(AssetService.RuntimeError)
    case Received(status, body) =>
      if !AssetService.Ok(status) then
        Failure(AssetService.Message("Failed to fetch protected asset: " + Decimal(status)))
      else
        match readJson(body)
        case None => Failure(AssetService.RuntimeError)
        case Some(p) =>
          if !p.success then Failure(AssetService.Message(LoadError(p.error, "Failed to load asset")))
          else
            match DecodeBase64Asset(p)
            case Failure(e) => Failure(AssetService.Message(e))
            case Success(v) => Success(v)
  }

  /** A result with `success: false` is reported with the server's own message when it
      gives one. */
  lemma UnsuccessfulAsset(path: string, fetch: string -> AssetService.FetchOutcome,
                          readJson: seq<byte> -> Option<Payload>, p: Payload)
    requires fetch(AssetsUrl(path)).Received? && AssetService.Ok(fetch(AssetsUrl(path)).status)
    requires readJson(fetch(AssetsUrl(path)).body) == Some(p) && !p.success
    ensures p.error.Some? && p.error.value != "" ==>
      FetchProtectedAsset(path, fetch, readJson) == Failure(AssetService.Message(p.error.value))
    ensures p.error.None? || p.error.value == "" ==>
      FetchProtectedAsset(path, fetch, readJson) == Failure(AssetService.Message("Failed to load asset"))
  {
  }

  /** An ok response carrying base64 bytes of a non-image type yields those bytes as text. */
  lemma AssetBytesArrive(path: string, fetch: string -> AssetService.FetchOutcome,
                         readJson: seq<byte> -> Option<Payload>, error: Option<string>, bytes: seq<byte>, m: string)
    requires fetch(AssetsUrl(path)).Received? && AssetService.Ok(fetch(AssetsUrl(path)).status)
    requires readJson(fetch(AssetsUrl(path)).body) == Some(Payload(true, error, Some(Base64.Encode(bytes)), Some(m)))
    requires !IsImage(m)
    ensures FetchProtectedAsset(path, fetch, readJson) == Success(Base64.Latin1(bytes))
  {
    DecodesEncodedBytes(true, error, bytes, m);
  }

  /** An ok response carrying an image asset yields its `data:` URL, whatever its `data`. */
  lemma ImageArrives(path: string, fetch: string -> AssetService.FetchOutcome,
                     readJson: seq<byte> -> Option<Payload>, error: Option<string>, data: string, m: string)
    requires fetch(AssetsUrl(path)).Received? && AssetService.Ok(fetch(AssetsUrl(path)).status)
    requires readJson(fetch(AssetsUrl(path)).body) == Some(Payload(true, error, Some(data), Some(m)))
    requires IsImage(m)
    ensures FetchProtectedAsset(path, fetch, readJson) == Success("data:" + m + ";base64," + data)
  {
    var r := DecodeBase64Asset(Payload(true, error, Some(data), Some(m)));
    var prefix := "data:" + m + ";base64,";
    assert r.Success? && prefix <= r.value && r.value[|prefix|..] == data;
    assert r.value == r.value[..|prefix|] + r.value[|prefix|..];
  }

  /** `fetchProtectedJSON(jsonPath)`: as above, then `JSON.parse` (`parseJson`) of the
      decoded text. */
  function FetchProtectedJson<J>(path: string, fetch: string -> AssetService.FetchOutcome,
                                 readJson: seq<byte> -> Option<Payload>, parseJson: string -> Option<J>)
    : (r: Result<J, AssetService.Error>)
    ensures fetch(AssetsUrl(path)).Received? && !AssetService.Ok(fetch(AssetsUrl(path)).status) ==>
      r == Failure(AssetService.Message("Failed to fetch protected JSON: " + Decimal(fetch(AssetsUrl(path)).status)))
    ensures r.Success? ==>
      var response := fetch(AssetsUrl(path));
      response.Received? && AssetService.Ok(response.status) && readJson(response.body).Some? &&
      readJson(response.body).value.success &&
      exists text :: DecodeBase64Asset(readJson(response.body).value) == Success(text) && parseJson(text) == Some(r.value)
    ensures var response := fetch(AssetsUrl(path));
      response.Received? && AssetService.Ok(response.status) && readJson(response.body).Some? &&
      readJson(response.body).value.success ==>
        r == match DecodeBase64Asset(readJson(response.body).value)
             case Failure(e) => Failure(AssetService.Message(e))
             case Success(text) =>
               (match parseJson(text)
                case Some(v) => Success(v)
                case None => Failure(AssetService.RuntimeError))
    ensures r.Failure? && r.error.Message? ==> r.error.text != ""
  {
    match fetch(AssetsUrl(path))
    case NetworkError => Failure(AssetService.RuntimeError)
    case Received(status, body) =>
      if !AssetService.Ok(status) then
        Failure(AssetService.Message("Failed to fetch protected JSON: " + Decimal(status)))
      else
        match readJson(body)
        case None => Failure(AssetService.RuntimeError)
        case Some(p) =>
          if !p.success then Failure(AssetService.Message(LoadError(p.error, "Failed to load JSON")))
          else
            match DecodeBase64Asset(p)
            case Failure(e) => Failure(AssetService.Message(e))
            case Success(text) =>
              match parseJson(text)
              case None => Failure(AssetService.RuntimeError)
              case Some(v) => Success(v)
  }

  /** A JSON result with `success: false` is reported with the server's own message when it
      gives one, else with "Failed to load JSON". */
  lemma UnsuccessfulJson<J>(path: string, fetch: string -> AssetService.FetchOutcome,
                            readJson: seq<byte> -> Option<Payload>, parseJson: string -> Option<J>, p: Payload)
    requires fetch(AssetsUrl(path)).Received? && AssetService.Ok(fetch(AssetsUrl(path)).status)
    requires readJson(fetch(AssetsUrl(path)).body) == Some(p) && !p.success
    ensures p.error.Some? && p.error.value != "" ==>
      FetchProtectedJson(path, fetch, readJson, parseJson) == Failure(AssetService.Message(p.error.value))
    ensures p.error.None? || p.error.value == "" ==>
      FetchProtectedJson(path, fetch, readJson, parseJson) == Failure(AssetService.Message("Failed to load JSON"))
  {
  }

  /** JSON whose base64 text the server sent parses as that text does. */
  lemma JsonArrives<J>(path: string, fetch: string -> AssetService.FetchOutcome,
                       readJson: seq<byte> -> Option<Payload>, parseJson: string -> Option<J>,
                       error: Option<string>, bytes: seq<byte>, v: J)
    requires fetch(AssetsUrl(path)).Received? && AssetService.Ok(fetch(AssetsUrl(path)).status)
    requires readJson(fetch(AssetsUrl(path)).body) == Some(Payload(true, error, Some(Base64.Encode(bytes)), Some("application/json")))
    requires parseJson(Base64.Latin1(bytes)) == Some(v)
    ensures FetchProtectedJson(path, fetch, readJson, parseJson) == Success(v)
  {
    JsonIsNotImage();
    DecodesEncodedBytes(true, error, bytes, "application/json");
  }
}
