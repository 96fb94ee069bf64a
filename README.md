# ficedu upload admission and naming, in Dafny

This project models the part of the ficedu education backend that decides
which uploaded files a request may carry and what each stored file is
called:

- the per-endpoint file filters:
  - the document allow-list of the question routes;
  - the `image/` and `video/` prefix tests of the course, shop and feature
    uploads;
- the upload limits on each route: 10 question documents, 5 course or shop
  images, 10 feature files, and one video of at most 50 MiB;
- the generated stored names:
  - `<field>-<ms>-<draw><extension>` on disk for courses and features;
  - `<ms>-<original name>` on disk for questions;
  - Cloudinary public ids `<field>-<ms>` for the shop, with their fixed
    folders and formats;
- how the feature controller turns an accepted upload into a Feature (400,
  201 or 500);
- two pieces of client code: the feature feed's search/category filter and
  its date label.

All of this code is pure, so the model is made of datatypes, functions and
lemmas. The modules are:

- `Text`: ASCII lower-casing, `startsWith`, substring search, and decimal
  rendering of numbers with its round trip.
- `NodePath`: Node's posix `path.extname`.
- `Upload`: multer's admission decision and its disk storage.
- `Filters`: the three prefix filters.
- `QuestionRoutes`, `CourseRoutes`, `FeatureController`, `VideoRoutes`:
  one module per core file.
- `FeatureFeed`: the client feed.

Multer's decision for `upload.array(field, maxCount)` is modelled as follows
(`upload.single(field)` is the case `maxCount == 1`):

- The files are the file parts that carry a file name, in the order they
  appear in the body; each is checked in turn.
- A file under another field name, or beyond `maxCount`, fails with
  "Unexpected field".
- Next the route's `fileFilter` runs; a rejection fails with the filter's
  own message.
- Next a configured `fileSize` limit applies; a file longer than the limit
  fails with "File too large", and a file of exactly the limit passes.
- The first failure aborts the whole request.
- The mimetype a filter sees is the one busboy reports, which is
  lower-cased. The case-sensitivity results below are properties of the
  filter functions.

Disk storage sets `file.path` to `uploads/` followed by the generated name.
The clock (`Date.now()`) and the random draw (`Math.round(Math.random() *
1E9)`) are inputs: an `Entropy` value per stored file. Cloudinary is also an
input: a function from the upload parameters to the URL the storage reports.

Facts of the code worth knowing:

- The random part of a disk name is `Math.round` of a value below 1e9, so
  it ranges over 0 to 1e9 inclusive.
- Question documents are named `<ms>-<original name>`; only courses and
  features use the field/time/random generator.
- The video route has no error callback of its own: multer's error goes to
  the next error handler.
- On success the video route answers only a message and the URL; it
  creates no Video document.
- The document filter applies the unanchored `pdf|docx|xlsx|txt` to the
  mimetype as well as to the extension, and the mimetype is not
  lower-cased. The registered types of Word, Excel and plain-text files
  (`application/msword`, the `vnd.openxmlformats` spreadsheet and document
  types, `text/plain`) contain none of those words, so the filter refuses
  them whatever the extension (`MimetypeRefusalExamples`).
- `createFeature` answers 500 "Error creating feature" for a request that
  is not multipart: multer then leaves `req.files` unset and
  `req.files.map` throws.

## Model

| member | source | states |
|---|---|---|
| Text.Lower | frontend/app/features.js:42 | lower-casing keeps the length and maps each character through ASCII `toLowerCase` |
| Text.LowerIdempotent | frontend/app/features.js:42 | lower-casing twice is lower-casing once |
| Text.ContainsIffOccurs | backend/Routes/questions.js:20-22 | the unanchored substring test holds exactly when the word starts at some position of the string |
| Text.NotContainsWithoutPair | backend/Routes/questions.js:20-22 | a string missing some adjacent pair of letters of a word does not contain that word |
| Text.NatToStringRoundTrip | backend/Routes/courses.js:14 | a number's decimal text is non-empty, all digits, has no leading zero, and parses back to the number |
| Text.NatToStringInjective | backend/Routes/courses.js:14 | different numbers have different decimal texts |
| Text.NatToString | backend/Controllers/features.js:11 | a number's text is non-empty, all digits, and has no leading zero |
| Text.IntToString | frontend/app/features.js:21 | a year's text starts with '-' iff the year is negative, is digits otherwise, and those digits read back as the year's magnitude |
| Text.IntToStringInjective | frontend/app/features.js:21 | different years (negative ones included) render differently |
| Text.SplitAtSeparator | backend/Routes/questions.js:14 | joins at a separator absent from the heads give back the heads and the tails |
| Text.SplitAtLastSeparator | backend/Routes/video.js:17 | joins at a separator absent from the tails give back the heads and the tails |
| NodePath.LastIndexOf | backend/Routes/questions.js:21 | the result is -1 or an index holding the character, with no later occurrence |
| NodePath.TrimTrailingSlashes | backend/Routes/courses.js:15 | the result is a prefix of the path without a trailing '/' |
| NodePath.TrimDropsOnlySlashes | backend/Routes/courses.js:15 | only '/' characters are dropped from the end |
| NodePath.LastComponent | backend/Routes/courses.js:15 | the base name holds no '/' and is the end of the trimmed path, preceded there by '/' or by nothing |
| NodePath.ComponentExtension | backend/Routes/courses.js:15 | a component's extension is empty or a '.' (not the component's first character) followed by no other '.', and ends the component; it is empty exactly when the component is ".." or holds no '.' after its first character |
| NodePath.ComponentExtensionAt | backend/Routes/courses.js:15 | a component other than ".." whose last '.' is at a position after the first has the extension from that '.' on, whatever its first character |
| NodePath.DotLeadingExamples | backend/Routes/courses.js:15 | ".env.local" has ".local", "..a" has ".a", "..." has ".", and ".." has none |
| NodePath.ExtName | backend/Routes/courses.js:15 | `path.extname` is empty or begins with '.' |
| NodePath.ExtNameEmptyIff | backend/Routes/courses.js:15 | `path.extname` is empty exactly when the last component is ".." or holds no '.' after its first character |
| NodePath.ExtNameShape | backend/Routes/courses.js:15 | `path.extname` holds no '/' and no '.' after its first character, and ends the base name |
| NodePath.ExtNameOfStemAndExtension | backend/Routes/questions.js:21 | a name made of a stem (not starting with '.') and a dotted extension has exactly that extension |
| NodePath.ExtNameWithoutDot | backend/Routes/questions.js:21 | a base name without a dot has an empty extension |
| NodePath.ExtNameOfDotFile | backend/Routes/questions.js:21 | a dot-file such as ".pdf" with no other dot has an empty extension |
| Upload.ErrorMessage | backend/Controllers/features.js:31-33 | the message answered is "Unexpected field", "File too large", or the message the filter or the storage raised |
| Upload.CheckFile | backend/Routes/video.js:43-53 | a file passes iff it is within the count, under the field, accepted by the filter and within the size limit; a filter refusal carries the filter's message, a size refusal comes only after the filter accepted |
| Upload.AdmitFrom | backend/Routes/questions.js:37 | the rest of the request is admitted iff every remaining file passes its checks; otherwise the error is the first failing file's |
| Upload.Admit | backend/Routes/courses.js:30 | admitted iff every file passes the field/count, filter and size checks; the handler then sees every file in order, otherwise the first failure's error |
| Upload.AdmitAcceptsExactly | backend/Controllers/features.js:30 | a request is admitted iff it holds at most `maxCount` files and each is under the field, accepted by the filter and within the size limit |
| Upload.UniqueSuffix | backend/Controllers/features.js:11 | the suffix is the clock reading's digits, '-', then the draw's digits |
| Upload.UniqueSuffixInjective | backend/Routes/courses.js:14 | the suffix `<ms>-<draw>` gives back the clock reading and the draw |
| Upload.UniqueFileName | backend/Controllers/features.js:12 | the name starts with the field name and '-' and ends with the original name's extension |
| Upload.UniqueFileNameShape | backend/Routes/courses.js:13-16 | the disk name is `field-`, then `<ms>-<draw>`, then the original extension |
| Upload.UniqueFileNameInjective | backend/Controllers/features.js:10-13 | same field and extension but a different (clock, draw) pair gives a different disk name |
| Upload.DiskPath | backend/Routes/courses.js:10-12 | every stored path starts with "uploads/" and continues with the file name |
| Upload.UniqueFilePathPrefix | backend/Routes/courses.js:10-15 | a generated path starts with "uploads/" followed by the field name and '-' |
| Upload.StoreOnDisk | backend/Controllers/features.js:6-14 | storage keeps the files and their order; file i gets its generated name and the path "uploads/" + name |
| Filters.ImageOnly | backend/Routes/courses.js:21-27 | accepted iff the mimetype starts with "image/"; otherwise rejected with "Only image files are allowed!" |
| Filters.VideoOnly | backend/Routes/video.js:46-52 | accepted iff the mimetype starts with "video/"; otherwise rejected with "Only video files are allowed!" |
| Filters.ImageOrVideo | backend/Controllers/features.js:19-25 | accepted iff the mimetype starts with "image/" or "video/"; otherwise rejected with "Only image and video files are allowed!" |
| Filters.ImageAndVideoDisjoint | backend/Routes/video.js:21-53 | no file passes both the image filter and the video filter |
| Filters.ImageOrVideoIsUnion | backend/Controllers/features.js:20 | the feature filter accepts exactly what the image filter or the video filter accepts |
| Filters.PrefixFilterExamples | backend/Routes/video.js:23-29 | the prefix test is case-sensitive and anchored: "IMAGE/PNG" and "x-image/video/" are refused |
| QuestionRoutes.MatchesAllowedTypesOccurs | backend/Routes/questions.js:20 | the pattern test holds iff one of pdf, docx, xlsx, txt begins at some position of the string |
| QuestionRoutes.DocumentFilter | backend/Routes/questions.js:19-29 | accepted iff both the lower-cased extension and the mimetype (not lower-cased) contain pdf, docx, xlsx or txt; otherwise rejected with the fixed message |
| QuestionRoutes.EitherTestRejects | backend/Routes/questions.js:24-27 | a failing extension test or a failing mimetype test rejects the file whatever the other says |
| QuestionRoutes.ExtensionTestIgnoresCase | backend/Routes/questions.js:21 | extensions equal up to case get the same verdict |
| QuestionRoutes.ExtensionAcceptanceExamples | backend/Routes/questions.js:20-21 | "Report.PDF" and "notes.pdfx" sent as application/pdf are accepted |
| QuestionRoutes.NoMatchWithoutWordPairs | backend/Routes/questions.js:20 | a string without any of the pairs pd, cx, xl, tx fails the pattern |
| QuestionRoutes.RegisteredTypesAvoidPair | backend/Routes/questions.js:22 | the registered text, Word and Excel types and "APPLICATION/PDF" hold none of those pairs |
| QuestionRoutes.MimetypeRefusalExamples | backend/Routes/questions.js:22-27 | "APPLICATION/PDF", text/plain and the Word and Excel media types are refused with the fixed message |
| QuestionRoutes.QuestionFileName | backend/Routes/questions.js:13-15 | the stored name ends with the original name, preceded by the time's digits and '-' |
| QuestionRoutes.QuestionFileNameInjective | backend/Routes/questions.js:14 | equal stored names mean the same millisecond and the same original name |
| QuestionRoutes.AddQuestionUpload | backend/Routes/questions.js:37 | `/add` succeeds iff at most 10 files, all under "files" and accepted by the document filter; file i is then stored at "uploads/<ms>-<original name>"; a refusal carries multer's error for the first failing file, "Unexpected field" or the document message |
| CourseRoutes.CourseImagesUpload | backend/Routes/courses.js:30-33 | create and update succeed iff at most 5 files, all under "images" with an image mimetype; each is stored under its generated name; a refusal carries multer's error for the first failing file, "Unexpected field" or the image message |
| CourseRoutes.CourseImagePathsShape | backend/Routes/courses.js:10-15 | every stored course image path starts with "uploads/images-" |
| CourseRoutes.CourseImagePathsDistinct | backend/Routes/courses.js:14-15 | two images with different (clock, draw) pairs and the same extension get different paths |
| FeatureController.FeatureAdmission | backend/Controllers/features.js:17-30 | multer admits a feature request iff at most 10 files, all under "files" and image or video |
| FeatureController.FeatureUpload | backend/Controllers/features.js:30 | the upload succeeds iff the files are admitted and the disk writes succeed; a write failure gives its own error; a refused request gets multer's first error, which is "Unexpected field" or "Only image and video files are allowed!"; file i is stored under its generated name |
| FeatureController.Paths | backend/Controllers/features.js:37 | the path list has one entry per file, in order, each that file's path |
| FeatureController.CreateFeature | backend/Controllers/features.js:29-52 | a request that is not multipart gives 500 "Error creating feature" with the TypeError of `req.files.map`; an upload error gives 400 with its message and saves nothing; a save error gives 500 "Error creating feature"; otherwise 201 with the saved Feature, whose title, notes and category are the body's and whose files are the paths in order |
| FeatureController.CreateFeatureRequest | backend/Controllers/features.js:29-52 | 201 iff the request is multipart, its files are admitted and written, and the save succeeds; 400 iff it is multipart and the upload step fails; 500 otherwise; a Feature is saved iff 201 |
| FeatureController.CreatedFeatureFiles | backend/Controllers/features.js:30-47 | a created Feature has one path per uploaded file (at most 10), each under "uploads/files-", and every file was an image or a video |
| FeatureController.RefusedUploadSavesNothing | backend/Controllers/features.js:31-33 | a multipart request with a file that is neither image nor video answers 400 with "Unexpected field" or "Only image and video files are allowed!" and saves nothing, whatever the storage and the store do |
| FeatureController.RefusedMediaGetsFilterMessage | backend/Controllers/features.js:31-33 | with at most 10 files, all under "files", a file that is neither image nor video makes the answer 400 with "Only image and video files are allowed!" |
| VideoRoutes.PublicId | backend/Routes/video.js:17 | the public id (for images here and for videos on line 39) is the field name, '-', then exactly the clock reading's digits |
| VideoRoutes.PublicIdCollision | backend/Routes/video.js:17 | two public ids are equal iff the field names and the milliseconds are equal, since there is no random part |
| VideoRoutes.ImageParams | backend/Routes/video.js:12-19 | image uploads always go to "shop-items" as PNG, with no resource type set |
| VideoRoutes.VideoParams | backend/Routes/video.js:33-41 | video uploads always go to "shop-videos" as an MP4 video resource |
| VideoRoutes.StoreInCloud | backend/Routes/video.js:12-19 | cloud storage keeps the files in order; each gets its parameters and the URL Cloudinary reports for them |
| VideoRoutes.ShopImagesUpload | backend/Routes/video.js:56-65 | add and update succeed iff at most 5 files, all under "images" with an image mimetype; each gets the image parameters; a refusal carries multer's error for the first failing file, "Unexpected field" or the image message |
| VideoRoutes.VideoRoute | backend/Routes/video.js:43-73 | the route answers "Video uploaded successfully" with the stored file's URL iff exactly one file under "file" is a video of at most 52428800 bytes; no file means the handler fails; a refusal carries multer's error for the first failing file |
| VideoRoutes.LoneNonVideoRefused | backend/Routes/video.js:47-50 | a single file under "file" that is not a video fails with "Only video files are allowed!", whatever its size |
| VideoRoutes.VideoSizeBoundary | backend/Routes/video.js:45 | 52428800 bytes is accepted; 52428801 fails with "File too large" (the limit trips only on a byte beyond it) |
| VideoRoutes.SecondVideoRefused | backend/Routes/video.js:71 | a second file aborts with "Unexpected field" |
| FeatureFeed.KeptIffOccurs | frontend/app/features.js:42-43 | an item is kept iff the lower-cased term begins at some position of the lower-cased notes and, when a category is selected, the item has it |
| FeatureFeed.FilterFeatures | frontend/app/features.js:41-44 | the shown list is an order-preserving subsequence, holds only items that match, and holds every item that matches as many times as the fetched list does |
| FeatureFeed.EmptyQueryKeepsAll | frontend/app/features.js:41-44 | an empty term and no category show every feature |
| FeatureFeed.FilterKeepsKept | frontend/app/features.js:41-44 | a list whose items all match is left unchanged |
| FeatureFeed.FilterIdempotent | frontend/app/features.js:41-44 | filtering twice with the same query changes nothing |
| FeatureFeed.SearchIgnoresCase | frontend/app/features.js:42 | the search term's case does not matter |
| FeatureFeed.FilterComposes | frontend/app/features.js:42-43 | filtering by term and category is filtering by term, then by category |
| FeatureFeed.MonthNamesDistinct | frontend/app/features.js:17-19 | the twelve month names are distinct |
| FeatureFeed.EditDate | frontend/app/features.js:16-22 | the label is the day's digits, a space, the month's name, " ," and the year, each part found at its position |
| FeatureFeed.EditDateInjective | frontend/app/features.js:21 | the label determines the day, the month and the year |

## Left out

- Multer's streaming: the model decides on whole files. A file is streamed to its storage while it arrives, so on the video route part of a file may reach Cloudinary before the size limit trips, and on abort multer removes the files already stored. The model keeps neither the partial transfer nor the clean-up.
- `Upload.Admit`: file parts sent without a file name are skipped by multer before any check; the model's input lists only the parts that carry one.
- `VideoRoutes.VideoSizeBoundary`: assumes a busboy that trips `fileSize` only when a byte beyond the limit arrives, so a file of exactly the limit passes; busboy versions have differed on this boundary.
- `FeatureController.FeatureUpload`: a disk write failure is decided after all files pass their checks; in multer a write can fail while later files are still to be checked, so which error comes first may differ.
- `CourseRoutes.CourseImagesUpload`: a failing disk write is not modelled here; only the feature controller takes it as an input (`storageFailure`). The same holds for `QuestionRoutes.AddQuestionUpload`.
- `FeatureController.CreateFeature`: assumes `req.body` is set for a request that is not multipart; the message of the 500 answer then names `req.files.map`.
- Busboy parse errors, and multer's other limits (field count, part count), which these routes do not configure.
- Express routing and authentication middleware (`authenticateUser`). The controllers `addQuestion`, `createCourse`, `updateCourse`, `addItem`, `updateItem`, and the other shop and question controllers, are not part of this model.
- `feature.save()`: its failure is an input (`saveError`). The saved document's `_id` and timestamps are not modelled; the Feature answered is the one built.
- The Express default error handler: `VideoRoutes.VideoRoute` ends in `UploadFailed` or `NoFileReceived` rather than an HTTP status.
- Cloudinary's upload and its PNG/MP4 re-encoding: the URL it reports is the `cloudUrl` input.
- `VideoRoutes.ShopImagesUpload` and `VideoRoutes.VideoRoute`: a failing Cloudinary upload is not modelled; the only errors they report are multer's admission errors.
- The float arithmetic of `Math.round(Math.random() * 1E9)`: the draw is a natural number from 0 to 1e9.
- `Text.Lower`: lower-cases ASCII letters only, where JavaScript's `toLowerCase` also maps other Unicode letters.
- `Upload.DiskPath`: plain concatenation of "uploads/" and the name. busboy keeps only the base name of the client's file name, so no stored name holds '/', and every stored name begins with a field name or digits; for such names `path.join` gives the same string, so its normalisation is not modelled.
- `FeatureFeed.EditDate`: starts from the day, month index and year; parsing `createdAt` into a `Date` (time-zone dependent) is left out, and so is the "NaN undefined ,NaN" label of an invalid date.
- `FeatureFeed.FilterFeatures`: assumes every fetched feature has a `notes` string; a feature without notes makes the client's filter throw.
- React state, effects, fetching and rendering of the feed.
- `backend/Routes/index.js` (router mounting) and `backend/Models/Ai.js` (a schema with no logic).
