/** The course routes: `POST /create` and `PUT /:id/update` both take up to
    five images under the field "images", keep them on disk under "uploads/"
    and name each `images-<time>-<draw><extension>`. */
module CourseRoutes {
  import opened Text
  import opened NodePath
  import opened Upload
  import opened Filters

  const ImagesField: string := "images"
  const MaxCourseImages: nat := 5

  /** The upload step shared by course creation and course update. */
  function CourseImagesUpload(files: seq<IncomingFile>, entropy: seq<Entropy>): (r: Result<seq<StoredFile>>)
    requires |entropy| == |files|
    ensures r.Ok? <==> (|files| <= MaxCourseImages
      && forall i :: 0 <= i < |files| ==> files[i].fieldname == ImagesField && StartsWith(files[i].mimetype, "image/"))
    ensures r.Ok? ==> |r.value| == |files| && forall i :: 0 <= i < |files| ==>
      r.value[i].file == files[i] && r.value[i].path == DiskPath(UniqueFileName(files[i], entropy[i]))
    ensures r.Err? ==> ErrorMessage(r.error) == "Unexpected field" || ErrorMessage(r.error) == "Only image files are allowed!"
    ensures r.Err? ==> var a := Admit(files, ImagesField, MaxCourseImages, ImageOnly, None); a.Err? && r.error == a.error
  {
    AdmitAcceptsExactly(files, ImagesField, MaxCourseImages, ImageOnly, None);
    match Admit(files, ImagesField, MaxCourseImages, ImageOnly, None)
    case Err(e) => Err(e)
    case Ok(admitted) => Ok(StoreOnDisk(admitted, entropy, UniqueFileName))
  }

  lemma ImagesPathPrefix()
    ensures UploadDir + (ImagesField + "-") == "uploads/images-"
  {
  }

  /** Every stored course image lives in "uploads/" under a name that starts
      with "images-". */
  lemma CourseImagePathsShape(files: seq<IncomingFile>, entropy: seq<Entropy>, i: nat)
    requires |entropy| == |files| && CourseImagesUpload(files, entropy).Ok?
    requires i < |files|
    ensures StartsWith(CourseImagesUpload(files, entropy).value[i].path, "uploads/images-")
  {
    var path := CourseImagesUpload(files, entropy).value[i].path;
    assert files[i].fieldname == ImagesField;
    assert path == DiskPath(UniqueFileName(files[i], entropy[i]));
    UniqueFilePathPrefix(files[i], entropy[i]);
    assert StartsWith(path, UploadDir + (ImagesField + "-"));
    ImagesPathPrefix();
  }

  /** Two images of one request whose clock readings or draws differ, and
      whose original names have the same extension, are stored at different
      paths. */
  lemma CourseImagePathsDistinct(files: seq<IncomingFile>, entropy: seq<Entropy>, i: nat, j: nat)
    requires |entropy| == |files| && CourseImagesUpload(files, entropy).Ok?
    requires i < |files| && j < |files|
    requires entropy[i] != entropy[j] && ExtName(files[i].originalname) == ExtName(files[j].originalname)
    ensures CourseImagesUpload(files, entropy).value[i].path != CourseImagesUpload(files, entropy).value[j].path
  {
    UniqueFileNameInjective(files[i], files[j], entropy[i], entropy[j]);
  }
}
