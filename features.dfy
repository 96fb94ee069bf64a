/** The feature controller: `createFeature` runs the upload step (up to ten
    images or videos under "files", kept on disk), answers 400 with the
    upload error's message when it fails, and otherwise builds a Feature from
    the body's title, notes and category and the stored files' paths, saves
    it, and answers 201 with it, or 500 when saving fails. */
module FeatureController {
  import opened Text
  import opened NodePath
  import opened Upload
  import opened Filters

  const FilesField: string := "files"
  const MaxFeatureFiles: nat := 10

  /** The text fields of the form; a field the client did not send is None. */
  datatype FeatureBody = FeatureBody(title: Option<string>, notes: Option<string>, category: Option<string>)

  /** The Feature document as built by the controller. */
  datatype Feature = Feature(title: Option<string>, notes: Option<string>, category: Option<string>, files: seq<string>)

  datatype ResponseBody =
    | MessageOnly(message: string)
    | FeatureCreated(message: string, feature: Feature)
    | ServerError(message: string, error: string)

  datatype Response = Response(status: nat, body: ResponseBody)

  /** The response, and the Feature written to the store if any. */
  datatype Outcome = Outcome(response: Response, saved: Option<Feature>)

  /** The message of the TypeError `req.files.map` raises when multer left
      `req.files` unset. */
  const FilesUnsetMessage: string := "Cannot read properties of undefined (reading 'map')"

  /** The upload's checks pass: at most ten files, each under "files" and
      an image or a video. */
  predicate FeatureFilesAdmitted(files: seq<IncomingFile>) {
    |files| <= MaxFeatureFiles
      && forall i :: 0 <= i < |files| ==> files[i].fieldname == FilesField && ImageOrVideo(files[i]) == Accept
  }

  /** Multer admits the files of a feature request exactly when the
      upload's checks pass. */
  lemma FeatureAdmission(files: seq<IncomingFile>)
    ensures Admit(files, FilesField, MaxFeatureFiles, ImageOrVideo, None).Ok? <==> FeatureFilesAdmitted(files)
  {
    AdmitAcceptsExactly(files, FilesField, MaxFeatureFiles, ImageOrVideo, None);
  }

  /** `upload.array('files', 10)` over the feature storage and filter;
      `storageFailure` is the message of the error writing the files to
      disk raises, None when every write succeeds. A request without files
      writes nothing, so for it `storageFailure` is None. */
  function FeatureUpload(files: seq<IncomingFile>, entropy: seq<Entropy>, storageFailure: Option<string>)
    : (r: Result<seq<StoredFile>>)
    requires |entropy| == |files|
    ensures r.Ok? <==> FeatureFilesAdmitted(files) && storageFailure.None?
    ensures FeatureFilesAdmitted(files) && storageFailure.Some? ==> r == Err(StorageError(storageFailure.value))
    ensures r.Err? && !r.error.StorageError? ==> !FeatureFilesAdmitted(files)
    ensures !FeatureFilesAdmitted(files) ==>
      var a := Admit(files, FilesField, MaxFeatureFiles, ImageOrVideo, None);
      a.Err? && r == Err(a.error)
    ensures r.Err? && !r.error.StorageError? ==>
      ErrorMessage(r.error) == "Unexpected field" || ErrorMessage(r.error) == "Only image and video files are allowed!"
    ensures r.Ok? ==> |r.value| == |files| && forall i :: 0 <= i < |files| ==>
      r.value[i].file == files[i] && r.value[i].path == DiskPath(UniqueFileName(files[i], entropy[i]))
  {
    FeatureAdmission(files);
    match Admit(files, FilesField, MaxFeatureFiles, ImageOrVideo, None)
    case Err(e) => Err(e)
    case Ok(admitted) =>
      match storageFailure
      case Some(m) => Err(StorageError(m))
      case None => Ok(StoreOnDisk(admitted, entropy, UniqueFileName))
  }

  /** What multer hands the callback: for a request that is not multipart it
      calls it at once with no error and leaves `req.files` unset. */
  datatype UploadStep = NotMultipart | Parsed(result: Result<seq<StoredFile>>)

  /** `req.files.map(file => file.path)`. */
  function Paths(stored: seq<StoredFile>): (paths: seq<string>)
    ensures |paths| == |stored| && forall i :: 0 <= i < |stored| ==> paths[i] == stored[i].path
  {
    seq(|stored|, i requires 0 <= i < |stored| => stored[i].path)
  }

  /** The handler given the upload step; `saveError` is the message of the
      error `feature.save()` raises, None when it succeeds. */
  function CreateFeature(step: UploadStep, body: FeatureBody, saveError: Option<string>): (o: Outcome)
    ensures step.NotMultipart? ==>
      o == Outcome(Response(500, ServerError("Error creating feature", FilesUnsetMessage)), None)
    ensures step.Parsed? && step.result.Err? ==>
      o == Outcome(Response(400, MessageOnly(ErrorMessage(step.result.error))), None)
    ensures step.Parsed? && step.result.Ok? && saveError.Some? ==>
      o == Outcome(Response(500, ServerError("Error creating feature", saveError.value)), None)
    ensures step.Parsed? && step.result.Ok? && saveError.None? ==>
      var upload := step.result;
      && o.response.status == 201
      && o.response.body.FeatureCreated?
      && o.response.body.message == "Feature created successfully"
      && o.saved == Some(o.response.body.feature)
      && var feature := o.response.body.feature;
      && feature.title == body.title && feature.notes == body.notes && feature.category == body.category
      && |feature.files| == |upload.value|
      && forall i :: 0 <= i < |upload.value| ==> feature.files[i] == upload.value[i].path
  {
    match step
    case NotMultipart => Outcome(Response(500, ServerError("Error creating feature", FilesUnsetMessage)), None)
    case Parsed(Err(e)) => Outcome(Response(400, MessageOnly(ErrorMessage(e))), None)
    case Parsed(Ok(stored)) =>
      var feature := Feature(body.title, body.notes, body.category, Paths(stored));
      match saveError
      case Some(m) => Outcome(Response(500, ServerError("Error creating feature", m)), None)
      case None => Outcome(Response(201, FeatureCreated("Feature created successfully", feature)), Some(feature))
  }

  /** `POST /features/create` from the request's kind, files and body, the
      storage's and the store's failures: 201 exactly when a multipart
      request's files are admitted, written and saved; 400 exactly when the
      upload step fails; 500 otherwise. Only a 201 saves a Feature. */
  function CreateFeatureRequest(multipart: bool, files: seq<IncomingFile>, entropy: seq<Entropy>,
                                storageFailure: Option<string>, body: FeatureBody,
                                saveError: Option<string>): (o: Outcome)
    requires |entropy| == |files|
    ensures o.response.status == 201 <==>
      multipart && FeatureFilesAdmitted(files) && storageFailure.None? && saveError.None?
    ensures o.response.status == 400 <==>
      multipart && !(FeatureFilesAdmitted(files) && storageFailure.None?)
    ensures o.response.status in {201, 400, 500}
    ensures o.saved.Some? <==> o.response.status == 201
  {
    var step := if multipart then Parsed(FeatureUpload(files, entropy, storageFailure)) else NotMultipart;
    CreateFeature(step, body, saveError)
  }

  lemma FilesPathPrefix()
    ensures UploadDir + (FilesField + "-") == "uploads/files-"
  {
  }

  /** A created Feature holds at most ten paths, one per uploaded file in
      request order, each in "uploads/" under a name starting "files-", and
      every uploaded file was an image or a video. */
  lemma CreatedFeatureFiles(files: seq<IncomingFile>, entropy: seq<Entropy>, body: FeatureBody)
    requires |entropy| == |files|
    requires CreateFeatureRequest(true, files, entropy, None, body, None).response.status == 201
    ensures var feature := CreateFeatureRequest(true, files, entropy, None, body, None).response.body.feature;
      && |feature.files| == |files| <= MaxFeatureFiles
      && forall i :: 0 <= i < |files| ==>
        && (StartsWith(files[i].mimetype, "image/") || StartsWith(files[i].mimetype, "video/"))
        && StartsWith(feature.files[i], "uploads/files-")
  {
    var upload := FeatureUpload(files, entropy, None);
    assert upload.Ok?;
    var feature := CreateFeatureRequest(true, files, entropy, None, body, None).response.body.feature;
    forall i | 0 <= i < |files|
      ensures StartsWith(feature.files[i], "uploads/files-")
    {
      assert files[i].fieldname == FilesField;
      assert feature.files[i] == DiskPath(UniqueFileName(files[i], entropy[i]));
      UniqueFilePathPrefix(files[i], entropy[i]);
      assert StartsWith(feature.files[i], UploadDir + (FilesField + "-"));
      FilesPathPrefix();
    }
  }

  /** A multipart request with a file that is neither an image nor a video
      answers 400 with "Unexpected field" or the filter's message, and saves
      nothing, whatever the storage, the body and the store would have
      done. */
  lemma RefusedUploadSavesNothing(files: seq<IncomingFile>, entropy: seq<Entropy>, storageFailure: Option<string>,
                                  body: FeatureBody, saveError: Option<string>)
    requires |entropy| == |files|
    requires exists i :: 0 <= i < |files| && !StartsWith(files[i].mimetype, "image/") && !StartsWith(files[i].mimetype, "video/")
    ensures CreateFeatureRequest(true, files, entropy, storageFailure, body, saveError).response.status == 400
    ensures CreateFeatureRequest(true, files, entropy, storageFailure, body, saveError).saved == None
    ensures CreateFeatureRequest(true, files, entropy, storageFailure, body, saveError).response.body
      in {MessageOnly("Unexpected field"), MessageOnly("Only image and video files are allowed!")}
  {
    var i :| 0 <= i < |files| && !StartsWith(files[i].mimetype, "image/") && !StartsWith(files[i].mimetype, "video/");
    assert ImageOrVideo(files[i]) != Accept;
  }

  /** When every file is under "files" and there are at most ten, the file
      that is neither an image nor a video is what the request fails on: the
      answer is 400 with the filter's message. */
  lemma RefusedMediaGetsFilterMessage(files: seq<IncomingFile>, entropy: seq<Entropy>,
                                      storageFailure: Option<string>, body: FeatureBody,
                                      saveError: Option<string>)
    requires |entropy| == |files| && |files| <= MaxFeatureFiles
    requires forall i :: 0 <= i < |files| ==> files[i].fieldname == FilesField
    requires exists i :: 0 <= i < |files| && !StartsWith(files[i].mimetype, "image/") && !StartsWith(files[i].mimetype, "video/")
    ensures CreateFeatureRequest(true, files, entropy, storageFailure, body, saveError).response
      == Response(400, MessageOnly("Only image and video files are allowed!"))
  {
    var i :| 0 <= i < |files| && !StartsWith(files[i].mimetype, "image/") && !StartsWith(files[i].mimetype, "video/");
    assert ImageOrVideo(files[i]) != Accept;
    var r := Admit(files, FilesField, MaxFeatureFiles, ImageOrVideo, None);
    assert r.Err?;
    var k :| 0 <= k < |files| && CheckFile(files[k], k, FilesField, MaxFeatureFiles, ImageOrVideo, None) == Some(r.error);
    assert r.error == FilterError(ImageOrVideoMessage);
  }
}
