/**
 * `process_image_endpoint`, the POST /api/process-image handler.
 *
 * An upload whose content type does not start with "image/" is refused with
 * HTTP 400 before anything else happens. Otherwise the bytes are written to
 * a new temporary file (created with delete=False), `main` runs on its path,
 * and on success the file is unlinked and `{"success": True, "event_link":
 * link}` returned. Any exception from processing becomes HTTP 500 whose
 * detail is the exception's message, and the temporary file stays behind.
 */
module Endpoint {
  import opened Wrappers
  import Credentials
  import Pipeline

  /** The multipart upload: its declared content type (the header may be absent), name and bytes. */
  datatype Upload = Upload(contentType: Option<string>, filename: string, contents: seq<bv8>)

  /**
   * What the client receives: the success body, an `HTTPException` with its
   * status and detail, or an exception that escaped the handler (the
   * framework's own 500 response).
   */
  datatype Response =
    | Success(eventLink: Option<string>)
    | HttpError(status: nat, detail: string)
    | Unhandled

  predicate StartsWith(s: string, prefix: string)
  {
    |prefix| <= |s| && s[..|prefix|] == prefix
  }

  /**
   * The check before the `try`: the response when the upload is refused, or
   * None when processing goes ahead. A missing content type makes
   * `.startswith` raise AttributeError outside the `try`.
   */
  function ContentTypeGate(contentType: Option<string>): (r: Option<Response>)
    ensures r.None? <==> contentType.Some? && StartsWith(contentType.value, "image/")
    ensures r.Some? && contentType.Some? ==> r == Some(HttpError(400, "File must be an image"))
    ensures contentType.None? ==> r == Some(Unhandled)
  {
    match contentType
    case None => Some(Unhandled)
    case Some(ct) => if StartsWith(ct, "image/") then None else Some(HttpError(400, "File must be an image"))
  }

  /** The `try` block's answer for the outcome of processing. */
  function Respond(result: Result<Option<string>, string>): (r: Response)
    ensures result.Ok? <==> r.Success?
    ensures result.Ok? ==> r.eventLink == result.value
    ensures result.Err? ==> r == HttpError(500, result.error)
  {
    match result
    case Ok(link) => Success(link)
    case Err(m) => HttpError(500, m)
  }

  /**
   * Acceptance depends on the "image/" prefix alone: every subtype, however
   * unusual, goes through, and nothing else does; the gate never sees the
   * bytes, so no size limit applies.
   */
  lemma ImagePrefixDecides(subtype: string, other: string)
    requires !StartsWith(other, "image/")
    ensures ContentTypeGate(Some("image/" + subtype)).None?
    ensures ContentTypeGate(Some(other)) == Some(HttpError(400, "File must be an image"))
  {
    assert ("image/" + subtype)[..6] == "image/";
  }

  /** What the client gets: the gate's refusal, or the `try` block's answer for processing's outcome. */
  function Answer(contentType: Option<string>, result: Result<Option<string>, string>): Response
  {
    match ContentTypeGate(contentType)
    case Some(refused) => refused
    case None => Respond(result)
  }

  /**
   * The gate's 400 is outside the `try`, so it is never turned into a 500,
   * and a 500 comes only from an exception in processing.
   */
  lemma StatusCodesDisjoint(contentType: Option<string>, result: Result<Option<string>, string>)
    ensures var a := Answer(contentType, result);
      && (a.HttpError? && a.status == 400 <==> contentType.Some? && !StartsWith(contentType.value, "image/"))
      && (a.HttpError? && a.status == 500 <==> ContentTypeGate(contentType).None? && result.Err?)
  {
  }

  /**
   * The handler: gate, temporary file, processing, clean-up on success, and
   * the mapping of exceptions. `tempName` is the fresh path the operating
   * system hands `NamedTemporaryFile`.
   */
  method ProcessImageEndpoint(fs: Pipeline.FileSystem, store: Credentials.CredentialStore, w: Pipeline.World,
                              upload: Upload, tempName: string)
    returns (resp: Response, stages: seq<Pipeline.Stage>)
    requires tempName !in fs.files
    modifies fs, store
    ensures resp == Answer(upload.contentType, Pipeline.Run(old(store.tokenFile), w, tempName, true).result)
    ensures ContentTypeGate(upload.contentType).Some? ==>
      && resp == ContentTypeGate(upload.contentType).value && stages == []
      && fs.files == old(fs.files)
      && store.tokenFile == old(store.tokenFile) && store.actions == old(store.actions)
    ensures ContentTypeGate(upload.contentType).None? ==>
      var o := Pipeline.Run(old(store.tokenFile), w, tempName, true);
      && resp == Respond(o.result) && stages == o.stages
      && store.tokenFile == o.stored && store.actions == old(store.actions) + o.authActions
      && fs.files == (if o.result.Ok? then old(fs.files) else old(fs.files)[tempName := upload.contents])
  {
    var gate := ContentTypeGate(upload.contentType);
    if gate.Some? {
      return gate.value, [];
    }
    // NamedTemporaryFile(delete=False): create the file and write the upload to it.
    var before := fs.files;
    fs.files := fs.files[tempName := upload.contents];
    var result;
    result, stages := Pipeline.ProcessImage(fs, store, w, tempName);
    if result.Err? {
      return HttpError(500, result.error), stages;
    }
    // os.unlink(temp_file.name)
    fs.files := Unlink(fs.files, tempName);
    UnlinkCreated(before, tempName, upload.contents);
    resp := Success(result.value);
  }

  /** The files left after `os.unlink(path)`. */
  function Unlink(files: map<string, seq<bv8>>, path: string): (r: map<string, seq<bv8>>)
    ensures path !in r
    ensures forall p :: p != path ==> (p in r <==> p in files)
    ensures forall p :: p in r ==> r[p] == files[p]
  {
    map p | p in files && p != path :: files[p]
  }

  /** Unlinking a file just created restores the files there were before. */
  lemma UnlinkCreated(files: map<string, seq<bv8>>, path: string, contents: seq<bv8>)
    requires path !in files
    ensures Unlink(files[path := contents], path) == files
  {
  }
}
