/**
 * `main(image_path)`: the stages of one image-to-calendar run, in order,
 * each one starting only when the one before it succeeded:
 *
 *   1. the image file must exist (FileNotFoundError otherwise);
 *   2. the vision model's reply is fence-stripped and decoded (`extract_event_details`);
 *   3. the decoded record is validated (`validate_event_details`);
 *   4. a calendar credential is obtained (`setup_google_credentials`);
 *   5. the event is inserted and its `htmlLink` returned (`create_calendar_event`).
 *
 * Any exception ends the run and is re-raised unchanged. The remote calls
 * (the vision model, `json.loads`, OAuth refresh and consent, the calendar
 * insert) are external: `World` gives what each would return.
 */
module Pipeline {
  import opened Wrappers
  import opened JsonValues
  import FenceStripping
  import EventValidation
  import Credentials

  /** The outcomes of the external calls one run may make. */
  datatype World = World(
    visionReply: Result<string, string>,              // the reply text, or the exception's message
    jsonLoads: string -> Result<Json, string>,         // `json.loads`
    refresh: Result<Credentials.Credential, string>,   // `creds.refresh(Request())`
    consent: Result<Credentials.Credential, string>,   // `flow.run_local_server(port=0)`
    insert: (Credentials.Credential, Json) -> Result<Option<string>, string>)  // `events().insert(...).execute().get('htmlLink')`

  datatype Stage = CheckImage | Extract | Validate | Authorize | Insert

  /** The stages of a run that gets all the way through. */
  const AllStages: seq<Stage> := [CheckImage, Extract, Validate, Authorize, Insert]

  /**
   * The result of a run (the event link, which the insert may lack, or the
   * message of the exception raised), the stages entered, what token.json
   * then holds and the credential actions taken.
   */
  datatype RunOutcome = RunOutcome(
    result: Result<Option<string>, string>,
    stages: seq<Stage>,
    stored: Option<Credentials.Credential>,
    authActions: seq<Credentials.AuthAction>)

  /** The whole effect of `main(path)` when the image exists iff `imageExists`. */
  function Run(stored: Option<Credentials.Credential>, w: World, path: string, imageExists: bool): RunOutcome
  {
    if !imageExists then
      RunOutcome(Err("Image file not found: " + path), [CheckImage], stored, [])
    else
      match Extracted(w)
      case Err(m) => RunOutcome(Err(m), [CheckImage, Extract], stored, [])
      case Ok(details) =>
        match EventValidation.ValidateEventDetails(details)
        case Err(e) => RunOutcome(Err(EventValidation.Message(e)), [CheckImage, Extract, Validate], stored, [])
        case Ok(validated) => AuthorizeAndInsert(stored, w, validated)
  }

  /** The last two stages, for a record that passed validation. */
  function AuthorizeAndInsert(stored: Option<Credentials.Credential>, w: World, validated: Json): RunOutcome
  {
    var auth := Credentials.Setup(stored, w.refresh, w.consent);
    match auth.result
    case Err(m) => RunOutcome(Err(m), AllStages[..4], auth.stored, auth.actions)
    case Ok(creds) =>
      match w.insert(creds, validated)
      case Err(m) => RunOutcome(Err(m), AllStages, auth.stored, auth.actions)
      case Ok(link) => RunOutcome(Ok(link), AllStages, auth.stored, auth.actions)
  }

  /** The details a run reaches validation with, when it gets that far. */
  function Extracted(w: World): Result<Json, string>
  {
    FenceStripping.ExtractEventDetails(w.visionReply, w.jsonLoads)
  }

  /**
   * Stages run in order and stop at the first failure: a run enters a prefix
   * of `AllStages`, and a run that succeeds has entered all of them.
   */
  lemma StagesInOrder(stored: Option<Credentials.Credential>, w: World, path: string, imageExists: bool)
    ensures var o := Run(stored, w, path, imageExists);
      && 1 <= |o.stages| <= |AllStages| && o.stages == AllStages[..|o.stages|]
      && (o.result.Ok? ==> o.stages == AllStages)
  {
    var o := Run(stored, w, path, imageExists);
    if !imageExists {
      assert o.stages == AllStages[..1];
    } else if Extracted(w).Err? {
      assert o.stages == AllStages[..2];
    } else if EventValidation.ValidateEventDetails(Extracted(w).value).Err? {
      assert o.stages == AllStages[..3];
    } else {
      LastStagesInOrder(stored, w, Extracted(w).value);
    }
  }

  /** After validation a run enters Authorize, and Insert only once credentials are set up. */
  lemma LastStagesInOrder(stored: Option<Credentials.Credential>, w: World, validated: Json)
    ensures var o := AuthorizeAndInsert(stored, w, validated);
      (o.stages == AllStages[..4] && o.result.Err?) || o.stages == AllStages
  {
  }

  /** A missing image fails first, before any remote call or credential action. */
  lemma MissingImageFailsFirst(stored: Option<Credentials.Credential>, w: World, path: string)
    ensures Run(stored, w, path, false) == RunOutcome(Err("Image file not found: " + path), [CheckImage], stored, [])
  {
  }

  /**
   * Credentials are set up (and so OAuth may run and token.json be written)
   * exactly when the extracted details passed validation.
   */
  lemma AuthorizeOnlyAfterValidation(stored: Option<Credentials.Credential>, w: World, path: string, imageExists: bool)
    ensures var o := Run(stored, w, path, imageExists);
      Authorize in o.stages <==>
        imageExists && Extracted(w).Ok? && EventValidation.IsEventDetails(Extracted(w).value)
    ensures var o := Run(stored, w, path, imageExists);
      Authorize !in o.stages ==> o.stored == stored && o.authActions == [] && Insert !in o.stages
  {
    var o := Run(stored, w, path, imageExists);
    if imageExists && Extracted(w).Ok? {
      EventValidation.ValidateAcceptsExactly(Extracted(w).value);
    }
    assert AllStages[..4] == [CheckImage, Extract, Validate, Authorize];
  }

  /**
   * Once credential setup has run, token.json and the credential actions are
   * the ones setup left, whether or not the insert then succeeds.
   */
  lemma CredentialEffectsKept(stored: Option<Credentials.Credential>, w: World, path: string, imageExists: bool)
    requires Authorize in Run(stored, w, path, imageExists).stages
    ensures var o := Run(stored, w, path, imageExists);
      var auth := Credentials.Setup(stored, w.refresh, w.consent);
      o.stored == auth.stored && o.authActions == auth.actions
  {
    assert imageExists && Extracted(w).Ok?;
    var validated := EventValidation.ValidateEventDetails(Extracted(w).value);
    assert validated.Ok?;
    assert Run(stored, w, path, imageExists) == AuthorizeAndInsert(stored, w, validated.value);
  }

  /**
   * A successful run returns exactly the link the insert returned, for the
   * extracted record itself (validation passes it on unchanged) and the
   * credential the setup produced.
   */
  lemma LinkIsInsertLink(stored: Option<Credentials.Credential>, w: World, path: string, imageExists: bool)
    requires Run(stored, w, path, imageExists).result.Ok?
    ensures imageExists && Extracted(w).Ok?
    ensures var auth := Credentials.Setup(stored, w.refresh, w.consent);
      && auth.result.Ok?
      && w.insert(auth.result.value, Extracted(w).value) == Ok(Run(stored, w, path, imageExists).result.value)
  {
  }

  /**
   * A failed run raises the exception of the stage it stopped at, unchanged:
   * the missing file, the remote call or `json.loads`, validation, credential
   * setup, or the insert.
   */
  lemma FailureIsLastStageError(stored: Option<Credentials.Credential>, w: World, path: string, imageExists: bool)
    requires Run(stored, w, path, imageExists).result.Err?
    ensures var o := Run(stored, w, path, imageExists);
      var auth := Credentials.Setup(stored, w.refresh, w.consent);
      && (o.stages == [CheckImage] ==> o.result.error == "Image file not found: " + path)
      && (o.stages == [CheckImage, Extract] ==> Extracted(w) == Err(o.result.error))
      && (o.stages == [CheckImage, Extract, Validate] ==>
            Extracted(w).Ok? && EventValidation.ValidateEventDetails(Extracted(w).value).Err?
            && o.result.error == EventValidation.Message(EventValidation.ValidateEventDetails(Extracted(w).value).error))
      && (o.stages == AllStages[..4] ==> auth.result == Err(o.result.error))
      && (o.stages == AllStages ==>
            Extracted(w).Ok? && auth.result.Ok? && w.insert(auth.result.value, Extracted(w).value) == Err(o.result.error))
  {
  }

  /** The files the process can see, by path. */
  class FileSystem {
    var files: map<string, seq<bv8>>

    constructor (initial: map<string, seq<bv8>>)
      ensures files == initial
    {
      files := initial;
    }
  }

  /** `main(image_path)`, which the endpoint calls as `process_image`: runs the stages in order and stops at the first exception. */
  method ProcessImage(fs: FileSystem, store: Credentials.CredentialStore, w: World, imagePath: string)
    returns (r: Result<Option<string>, string>, stages: seq<Stage>)
    modifies store
    ensures var o := Run(old(store.tokenFile), w, imagePath, imagePath in fs.files);
      && r == o.result && stages == o.stages
      && store.tokenFile == o.stored && store.actions == old(store.actions) + o.authActions
  {
    ghost var stored := store.tokenFile;
    stages := [CheckImage];
    if imagePath !in fs.files {
      return Err("Image file not found: " + imagePath), stages;
    }
    stages := stages + [Extract];
    var details := Extracted(w);
    if details.Err? {
      assert Run(stored, w, imagePath, true) == RunOutcome(Err(details.error), stages, stored, []);
      return Err(details.error), stages;
    }
    stages := stages + [Validate];
    var validated := EventValidation.ValidateEventDetails(details.value);
    if validated.Err? {
      assert Run(stored, w, imagePath, true)
          == RunOutcome(Err(EventValidation.Message(validated.error)), stages, stored, []);
      return Err(EventValidation.Message(validated.error)), stages;
    }
    assert Run(stored, w, imagePath, true) == AuthorizeAndInsert(stored, w, validated.value);
    var rest;
    r, rest := CreateEvent(store, w, validated.value);
    stages := stages + rest;
  }

  /**
   * `setup_google_credentials()` followed by `create_calendar_event`: the
   * stages after validation, for the validated record.
   */
  method CreateEvent(store: Credentials.CredentialStore, w: World, validated: Json)
    returns (r: Result<Option<string>, string>, stages: seq<Stage>)
    modifies store
    ensures var o := AuthorizeAndInsert(old(store.tokenFile), w, validated);
      && r == o.result && [CheckImage, Extract, Validate] + stages == o.stages
      && store.tokenFile == o.stored && store.actions == old(store.actions) + o.authActions
  {
    stages := [Authorize];
    var creds := store.SetupGoogleCredentials(w.refresh, w.consent);
    if creds.Err? {
      assert [CheckImage, Extract, Validate] + stages == AllStages[..4];
      return Err(creds.error), stages;
    }
    stages := stages + [Insert];
    var link := w.insert(creds.value, validated);
    if link.Err? {
      return Err(link.error), stages;
    }
    r := Ok(link.value);
  }
}
