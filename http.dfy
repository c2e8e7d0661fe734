/** What the serverless handlers see of their environment — the working directory and a
    read-only filesystem — and the single response each request produces. */
module Http {
  import opened Wrappers
  import opened Octets
  import opened PosixPath

  /** What is at a path: a regular file (its bytes, and whether reading it succeeds, since a
      file can exist and still fail to read), or a directory. */
  datatype Node = File(bytes: seq<byte>, readable: bool) | Dir

  /** The filesystem, keyed by normalised absolute paths given as their segments. */
  type FileSystem = map<seq<string>, Node>

  /** The process a handler runs in: `process.cwd()` as segments, and the filesystem. */
  datatype Host = Host(cwd: seq<string>, fs: FileSystem)
  {
    /** `process.cwd()` is a normalised absolute path. */
    predicate Valid()
    {
      AllNames(cwd)
    }

    /** `process.cwd()` as a string. */
    function Cwd(): (s: string)
      ensures |s| > 0 && s[0] == '/'
    {
      Render(Abs(cwd, false))
    }
  }

  /** `fs.existsSync(p)`: a path written with a trailing separator only names a directory. */
  predicate Exists(fs: FileSystem, p: Abs)
  {
    p.segs in fs && (p.trailing ==> fs[p.segs].Dir?)
  }

  /** `fs.readFile(p)` / `fs.readFileSync(p)`: the bytes, or `None` when the call throws
      (nothing there, a directory, or a file that cannot be read). */
  function ReadFile(fs: FileSystem, p: Abs): (r: Option<seq<byte>>)
    ensures r.Some? <==> Exists(fs, p) && fs[p.segs].File? && fs[p.segs].readable
    ensures r.Some? ==> r.value == fs[p.segs].bytes
  {
    if Exists(fs, p) && fs[p.segs].File? && fs[p.segs].readable then Some(fs[p.segs].bytes) else None
  }

  /** A field of a JSON error object: a literal string, or the message of the exception the
      handler caught (which comes from the runtime and is not modelled). */
  datatype Value = Str(text: string) | Thrown

  datatype Body =
    | NoBody                                  // res.end()
    | Bytes(bytes: seq<byte>)                 // res.send(buffer)
    | Text(text: string)                      // res.send(string)
    | JsonValue(serialized: string)           // res.json(value), the value given by its serialisation
    | Object(fields: seq<(string, Value)>)    // res.json({ ... }) with string fields

  /** A response: the status and the headers the handler sets explicitly, and the body. */
  datatype Response = Response(
    status: nat,
    contentType: Option<string>,
    contentLength: Option<nat>,
    cacheControl: Option<string>,
    body: Body)

  /** `res.status(status).json({ error: message })` */
  function ErrorJson(status: nat, message: string): Response
  {
    Response(status, None, None, None, Object([("error", Str(message))]))
  }

  /** `res.status(status).end()` */
  function Bare(status: nat): Response
  {
    Response(status, None, None, None, NoBody)
  }
}
