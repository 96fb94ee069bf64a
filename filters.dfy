/** The media-type filters of the course routes, the shop routes and the
    feature controller. Each is a case-sensitive `startsWith` test on the
    declared mimetype; a rejection carries a fixed message. */
module Filters {
  import opened Text
  import opened Upload

  const ImagePrefix: string := "image/"
  const VideoPrefix: string := "video/"

  const ImageOnlyMessage: string := "Only image files are allowed!"
  const VideoOnlyMessage: string := "Only video files are allowed!"
  const ImageOrVideoMessage: string := "Only image and video files are allowed!"

  /** The image filter of the course routes and of the shop image routes. */
  function ImageOnly(f: IncomingFile): (v: Verdict)
    ensures v == Accept <==> StartsWith(f.mimetype, "image/")
    ensures v != Accept ==> v == Reject("Only image files are allowed!")
  {
    if StartsWith(f.mimetype, ImagePrefix) then Accept else Reject(ImageOnlyMessage)
  }

  /** The video filter of the shop video route. */
  function VideoOnly(f: IncomingFile): (v: Verdict)
    ensures v == Accept <==> StartsWith(f.mimetype, "video/")
    ensures v != Accept ==> v == Reject("Only video files are allowed!")
  {
    if StartsWith(f.mimetype, VideoPrefix) then Accept else Reject(VideoOnlyMessage)
  }

  /** The filter of the feature controller. */
  function ImageOrVideo(f: IncomingFile): (v: Verdict)
    ensures v == Accept <==> StartsWith(f.mimetype, "image/") || StartsWith(f.mimetype, "video/")
    ensures v != Accept ==> v == Reject("Only image and video files are allowed!")
  {
    if StartsWith(f.mimetype, ImagePrefix) || StartsWith(f.mimetype, VideoPrefix) then Accept
    else Reject(ImageOrVideoMessage)
  }

  /** No mimetype passes both the image filter and the video filter. */
  lemma ImageAndVideoDisjoint(f: IncomingFile)
    ensures !(ImageOnly(f) == Accept && VideoOnly(f) == Accept)
  {
    if StartsWith(f.mimetype, ImagePrefix) {
      assert f.mimetype[0] == 'i';
    }
  }

  /** The feature filter accepts exactly what one of the two single-kind
      filters accepts. */
  lemma ImageOrVideoIsUnion(f: IncomingFile)
    ensures ImageOrVideo(f) == Accept <==> ImageOnly(f) == Accept || VideoOnly(f) == Accept
  {
  }

  /** The prefix test is case-sensitive and anchored at the start: the
      filters refuse an upper-case image type, a document and a type that
      merely mentions "image/" further in. Busboy lower-cases the mimetype
      it reports, so the upper-case case is a property of the filter alone
      and does not arise through multer. */
  lemma PrefixFilterExamples(size: nat)
    ensures ImageOnly(IncomingFile("images", "a.png", "image/png", size)) == Accept
    ensures ImageOnly(IncomingFile("images", "a.png", "IMAGE/PNG", size)) == Reject(ImageOnlyMessage)
    ensures ImageOnly(IncomingFile("images", "a.mp4", "video/mp4", size)) == Reject(ImageOnlyMessage)
    ensures VideoOnly(IncomingFile("file", "a.png", "x-image/video/", size)) == Reject(VideoOnlyMessage)
    ensures ImageOrVideo(IncomingFile("files", "a.pdf", "application/pdf", size)) == Reject(ImageOrVideoMessage)
  {
    assert "IMAGE/PNG"[..6] != ImagePrefix by { assert "IMAGE/PNG"[0] != 'i'; }
    assert "video/mp4"[..6] != ImagePrefix by { assert "video/mp4"[0] != 'i'; }
    assert "x-image/video/"[..6] != VideoPrefix by { assert "x-image/video/"[0] != 'v'; }
    assert "application/pdf"[..6] != ImagePrefix by { assert "application/pdf"[0] != 'i'; }
    assert "application/pdf"[..6] != VideoPrefix by { assert "application/pdf"[0] != 'v'; }
  }
}
