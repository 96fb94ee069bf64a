/** The shop routes: item images and item videos are uploaded to Cloudinary.
    Images go to folder "shop-items" converted to PNG, at most five per
    request under "images"; a video goes to folder "shop-videos" as a video
    resource converted to MP4, one per request under "file", of at most
    50 MiB. Both name the upload `<fieldname>-<time>`, with no random part.

    Cloudinary itself is a parameter: `cloudUrl` gives the URL it reports
    for an upload with the given parameters, which multer-storage-cloudinary
    hands on as `file.path`. */
module VideoRoutes {
  import opened Text
  import opened Upload
  import opened Filters

  const ImagesField: string := "images"
  const MaxShopImages: nat := 5
  const VideoField: string := "file"
  const MaxVideoBytes: nat := 50 * 1024 * 1024

  const ImageFolder: string := "shop-items"
  const ImageFormat: string := "png"
  const VideoFolder: string := "shop-videos"
  const VideoFormat: string := "mp4"
  const VideoResourceType: string := "video"

  const VideoUploadedMessage: string := "Video uploaded successfully"

  /** The upload parameters the storage hands to Cloudinary for one file;
      `resourceType` is None where the configuration leaves it unset. */
  datatype CloudParams = CloudParams(folder: string, resourceType: Option<string>, format: string, publicId: string)

  /** A file multer stored through Cloudinary. */
  datatype CloudFile = CloudFile(file: IncomingFile, params: CloudParams, path: string)

  /** `${file.fieldname}-${Date.now()}`. */
  function PublicId(f: IncomingFile, now: nat): (id: string)
    ensures StartsWith(id, f.fieldname + "-")
    ensures id[|f.fieldname| + 1..] == NatToString(now)
    ensures AllDigits(id[|f.fieldname| + 1..])
  {
    NatToStringRoundTrip(now);
    assert (f.fieldname + "-" + NatToString(now))[|f.fieldname| + 1..] == NatToString(now);
    f.fieldname + "-" + NatToString(now)
  }

  /** The public id is determined by, and determines, the field name and the
      clock reading: two uploads under one field collide exactly when they
      happen in the same millisecond, since there is no random part. */
  lemma PublicIdCollision(f: IncomingFile, g: IncomingFile, t1: nat, t2: nat)
    ensures PublicId(f, t1) == PublicId(g, t2) <==> f.fieldname == g.fieldname && t1 == t2
  {
    if PublicId(f, t1) == PublicId(g, t2) {
      NatToStringHasNo(t1, '-');
      NatToStringHasNo(t2, '-');
      SplitAtLastSeparator(f.fieldname, NatToString(t1), g.fieldname, NatToString(t2), '-');
      NatToStringInjective(t1, t2);
    }
  }

  /** The parameters of an image upload. */
  function ImageParams(f: IncomingFile, now: nat): (p: CloudParams)
    ensures p.folder == "shop-items" && p.format == "png" && p.resourceType == None
    ensures p.publicId == PublicId(f, now)
  {
    CloudParams(ImageFolder, None, ImageFormat, PublicId(f, now))
  }

  /** The parameters of a video upload. */
  function VideoParams(f: IncomingFile, now: nat): (p: CloudParams)
    ensures p.folder == "shop-videos" && p.format == "mp4" && p.resourceType == Some("video")
    ensures p.publicId == PublicId(f, now)
  {
    CloudParams(VideoFolder, Some(VideoResourceType), VideoFormat, PublicId(f, now))
  }

  /** Storing admitted files through Cloudinary, one clock reading per file. */
  function StoreInCloud(files: seq<IncomingFile>, clock: seq<nat>, params: (IncomingFile, nat) -> CloudParams,
                        cloudUrl: CloudParams -> string): (r: seq<CloudFile>)
    requires |clock| == |files|
    ensures |r| == |files|
    ensures forall i :: 0 <= i < |r| ==>
      r[i].file == files[i] && r[i].params == params(files[i], clock[i]) && r[i].path == cloudUrl(r[i].params)
  {
    seq(|files|, i requires 0 <= i < |files| =>
      var p := params(files[i], clock[i]); CloudFile(files[i], p, cloudUrl(p)))
  }

  /** The upload step of `POST /add` and `PUT /:id/update`. */
  function ShopImagesUpload(files: seq<IncomingFile>, clock: seq<nat>, cloudUrl: CloudParams -> string)
    : (r: Result<seq<CloudFile>>)
    requires |clock| == |files|
    ensures r.Ok? <==> (|files| <= MaxShopImages
      && forall i :: 0 <= i < |files| ==> files[i].fieldname == ImagesField && StartsWith(files[i].mimetype, "image/"))
    ensures r.Ok? ==> |r.value| == |files| && forall i :: 0 <= i < |files| ==>
      && r.value[i].file == files[i]
      && r.value[i].params == ImageParams(files[i], clock[i])
      && r.value[i].path == cloudUrl(ImageParams(files[i], clock[i]))
    ensures r.Err? ==> ErrorMessage(r.error) == "Unexpected field" || ErrorMessage(r.error) == "Only image files are allowed!"
    ensures r.Err? ==> var a := Admit(files, ImagesField, MaxShopImages, ImageOnly, None); a.Err? && r.error == a.error
  {
    AdmitAcceptsExactly(files, ImagesField, MaxShopImages, ImageOnly, None);
    match Admit(files, ImagesField, MaxShopImages, ImageOnly, None)
    case Err(e) => Err(e)
    case Ok(admitted) => Ok(StoreInCloud(admitted, clock, ImageParams, cloudUrl))
  }

  /** What `POST /:id/video` ends with: the upload error passed on to the
      next error handler, the handler failing because no file came (it reads
      `req.file.path` with `req.file` unset), or the JSON answer. */
  datatype VideoOutcome =
    | UploadFailed(error: UploadError)
    | NoFileReceived
    | Uploaded(message: string, url: string)

  /** `POST /:id/video`: `upload.single('file')` with the video filter and
      the 50 MiB limit, then the answer carrying the stored file's path. */
  function VideoRoute(files: seq<IncomingFile>, now: nat, cloudUrl: CloudParams -> string): (o: VideoOutcome)
    ensures o.Uploaded? <==> (|files| == 1 && files[0].fieldname == "file"
      && StartsWith(files[0].mimetype, "video/") && files[0].size <= 52428800)
    ensures o.Uploaded? ==> o.message == "Video uploaded successfully" && o.url == cloudUrl(VideoParams(files[0], now))
    ensures o.NoFileReceived? <==> |files| == 0
    ensures o.UploadFailed? ==> ErrorMessage(o.error) in {"Unexpected field", "Only video files are allowed!", "File too large"}
    ensures o.UploadFailed? ==> Admit(files, VideoField, 1, VideoOnly, Some(MaxVideoBytes)) == Err(o.error)
  {
    AdmitAcceptsExactly(files, VideoField, 1, VideoOnly, Some(MaxVideoBytes));
    match Admit(files, VideoField, 1, VideoOnly, Some(MaxVideoBytes))
    case Err(e) => UploadFailed(e)
    case Ok(admitted) =>
      if |admitted| == 0 then NoFileReceived
      else
        var stored := StoreInCloud(admitted, [now], VideoParams, cloudUrl);
        Uploaded(VideoUploadedMessage, stored[0].path)
  }

  /** A lone file under "file" that is not a video is refused by the video
      filter, whatever its size. */
  lemma LoneNonVideoRefused(f: IncomingFile, now: nat, cloudUrl: CloudParams -> string)
    requires f.fieldname == "file" && !StartsWith(f.mimetype, "video/")
    ensures VideoRoute([f], now, cloudUrl) == UploadFailed(FilterError("Only video files are allowed!"))
  {
    var a := Admit([f], VideoField, 1, VideoOnly, Some(MaxVideoBytes));
    assert VideoOnly(f) == Reject(VideoOnlyMessage);
    assert a.Err?;
    var k :| 0 <= k < 1 && CheckFile([f][k], k, VideoField, 1, VideoOnly, Some(MaxVideoBytes)) == Some(a.error);
  }

  /** The size ceiling is inclusive: a video of exactly 50 MiB is taken and
      one a byte longer is refused with "File too large". This is the
      behaviour of a busboy that trips the limit only when a byte beyond
      `fileSize` arrives; `size` is the length of the file as sent. */
  lemma VideoSizeBoundary(name: string, mimetype: string, now: nat, cloudUrl: CloudParams -> string)
    requires StartsWith(mimetype, "video/")
    ensures VideoRoute([IncomingFile("file", name, mimetype, 52428800)], now, cloudUrl).Uploaded?
    ensures VideoRoute([IncomingFile("file", name, mimetype, 52428801)], now, cloudUrl) == UploadFailed(FileTooLarge("file"))
  {
    var big := IncomingFile("file", name, mimetype, 52428801);
    assert CheckFile(big, 0, VideoField, 1, VideoOnly, Some(MaxVideoBytes)) == Some(FileTooLarge("file"));
  }

  /** A second file aborts the request with "Unexpected field", even when
      both are small videos. */
  lemma SecondVideoRefused(files: seq<IncomingFile>, now: nat, cloudUrl: CloudParams -> string)
    requires |files| >= 2
    requires forall i :: 0 <= i < |files| ==>
      (files[i].fieldname == "file" && StartsWith(files[i].mimetype, "video/") && files[i].size <= 52428800)
    ensures VideoRoute(files, now, cloudUrl) == UploadFailed(UnexpectedField("file"))
  {
    assert CheckFile(files[0], 0, VideoField, 1, VideoOnly, Some(MaxVideoBytes)).None?;
    assert CheckFile(files[1], 1, VideoField, 1, VideoOnly, Some(MaxVideoBytes)) == Some(UnexpectedField("file"));
  }
}
