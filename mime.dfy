/** The extension-to-MIME tables of the three file-serving handlers. Each handler looks up
    the lower-cased extension (with its dot) and falls back to a default when it is absent. */
module Mime {

  /** The table of api/protected-asset.js. */
  const AssetTypes: map<string, string> := map[
    ".png" := "image/png",
    ".jpg" := "image/jpeg",
    ".jpeg" := "image/jpeg",
    ".gif" := "image/gif",
    ".webp" := "image/webp",
    ".svg" := "image/svg+xml",
    ".json" := "application/json",
    ".js" := "application/javascript",
    ".glsl" := "text/plain",
    ".obj" := "application/octet-stream",
    ".mp3" := "audio/mpeg",
    ".wav" := "audio/wav"
  ]

  /** The table of api/pa.js. */
  const LegacyTypes: map<string, string> := map[
    ".png" := "image/png",
    ".jpg" := "image/jpeg",
    ".json" := "application/json",
    ".js" := "application/javascript"
  ]

  /** The table of api/serveImage.js. */
  const ImageTypes: map<string, string> := map[
    ".jpg" := "image/jpeg",
    ".jpeg" := "image/jpeg",
    ".png" := "image/png",
    ".gif" := "image/gif",
    ".webp" := "image/webp"
  ]

  function AssetContentType(ext: string): (t: string)
    ensures ext in AssetTypes ==> t == AssetTypes[ext]
    ensures ext !in AssetTypes ==> t == "application/octet-stream"
  {
    if ext in AssetTypes then AssetTypes[ext] else "application/octet-stream"
  }

  function LegacyContentType(ext: string): (t: string)
    ensures ext in LegacyTypes ==> t == LegacyTypes[ext]
    ensures ext !in LegacyTypes ==> t == "application/octet-stream"
  {
    if ext in LegacyTypes then LegacyTypes[ext] else "application/octet-stream"
  }

  function ImageContentType(ext: string): (t: string)
    ensures ext in ImageTypes ==> t == ImageTypes[ext]
    ensures ext !in ImageTypes ==> t == "image/jpeg"
  {
    if ext in ImageTypes then ImageTypes[ext] else "image/jpeg"
  }

  /** The older and the image tables are sub-tables of the main one: where an extension is
      known to both, the copies agree on its type. */
  lemma TablesAgree(ext: string)
    ensures ext in LegacyTypes ==> ext in AssetTypes && LegacyContentType(ext) == AssetContentType(ext)
    ensures ext in ImageTypes ==> ext in AssetTypes && ImageContentType(ext) == AssetContentType(ext)
  {
  }

  /** Every type in the image table is an `image/` type, and so is the image fallback. */
  lemma ImageTypesAreImages(ext: string)
    ensures "image/" <= ImageContentType(ext)
  {
  }

  /** Drift between the copies: `.jpeg`, `.gif`, `.webp`, `.svg`, `.glsl`, `.mp3` and `.wav`
      are known to the main table only, so the older handler serves them as
      `application/octet-stream`. */
  lemma LegacyTableIsSmaller()
    ensures LegacyTypes.Keys < AssetTypes.Keys
    ensures LegacyContentType(".jpeg") == "application/octet-stream" && AssetContentType(".jpeg") == "image/jpeg"
    ensures LegacyContentType(".svg") == "application/octet-stream" && AssetContentType(".svg") == "image/svg+xml"
  {
    assert ".jpeg" in AssetTypes.Keys && ".jpeg" !in LegacyTypes.Keys;
  }
}
