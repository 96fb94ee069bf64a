/** The decisions multer makes for a multipart upload, stated over the files
    a request carries, in the order they appear in its body.

    For `upload.array(field, maxCount)` (and `upload.single(field)`, which is
    `maxCount == 1`) every file is checked in turn: a file under another
    field, or one beyond `maxCount`, aborts with "Unexpected field"; then the
    route's `fileFilter` runs, and a rejection aborts with the filter's
    message; then a configured `fileSize` limit aborts with "File too large"
    when the file is longer. The first failure aborts the whole request and
    the handler sees no files; otherwise the handler sees all of them.

    Disk storage places every accepted file under one destination directory;
    `file.path` is the destination followed by the generated file name. */
module Upload {
  import opened Text
  import opened NodePath

  /** What multer knows of a file part when it decides on it. Parts sent
      without a file name are skipped before any check and are not listed;
      the mimetype is the one busboy reports, lower-cased. */
  datatype IncomingFile = IncomingFile(fieldname: string, originalname: string, mimetype: string, size: nat)

  /** The outcome a `fileFilter` reports through its callback:
      `cb(null, true)` or `cb(new Error(message), false)`. */
  datatype Verdict = Accept | Reject(message: string)

  datatype UploadError =
    | UnexpectedField(field: string)   // LIMIT_UNEXPECTED_FILE
    | FilterError(message: string)     // the Error a fileFilter passed to its callback
    | FileTooLarge(field: string)      // LIMIT_FILE_SIZE
    | StorageError(message: string)    // the Error the storage engine reported while writing

  datatype Result<T> = Ok(value: T) | Err(error: UploadError)

  datatype Option<T> = None | Some(value: T)

  /** The `message` of the error handed to the route. */
  function ErrorMessage(e: UploadError): (m: string)
    ensures e.UnexpectedField? ==> m == "Unexpected field"
    ensures e.FileTooLarge? ==> m == "File too large"
    ensures e.FilterError? || e.StorageError? ==> m == e.message
  {
    match e
    case UnexpectedField(_) => "Unexpected field"
    case FilterError(m) => m
    case FileTooLarge(_) => "File too large"
    case StorageError(m) => m
  }

  /** Every file passes its own checks: it is under `field`, the filter
      accepts it and it is within the size limit. */
  predicate FilePasses(f: IncomingFile, field: string, filter: IncomingFile -> Verdict, sizeLimit: Option<nat>) {
    f.fieldname == field && filter(f) == Accept && (sizeLimit.Some? ==> f.size <= sizeLimit.value)
  }

  /** The checks on the file at `position` (0-based) of the request, in
      multer's order; None when the file passes all of them. */
  function CheckFile(f: IncomingFile, position: nat, field: string, maxCount: nat,
                     filter: IncomingFile -> Verdict, sizeLimit: Option<nat>): (r: Option<UploadError>)
    ensures r.None? <==> position < maxCount && FilePasses(f, field, filter, sizeLimit)
    ensures r.Some? && r.value.UnexpectedField? <==> f.fieldname != field || position >= maxCount
    ensures r.Some? && r.value.FilterError? ==> filter(f) == Reject(r.value.message)
    ensures r.Some? && r.value.FileTooLarge? ==>
      filter(f) == Accept && sizeLimit.Some? && f.size > sizeLimit.value
    ensures r.Some? ==> !r.value.StorageError?
  {
    if f.fieldname != field || position >= maxCount then Some(UnexpectedField(f.fieldname))
    else if filter(f).Reject? then Some(FilterError(filter(f).message))
    else if sizeLimit.Some? && f.size > sizeLimit.value then Some(FileTooLarge(f.fieldname))
    else None
  }

  /** Admission of `files[from..]`, `from` files having been admitted already. */
  function AdmitFrom(files: seq<IncomingFile>, from: nat, field: string, maxCount: nat,
                     filter: IncomingFile -> Verdict, sizeLimit: Option<nat>): (r: Result<seq<IncomingFile>>)
    requires from <= |files|
    ensures r.Ok? <==> forall k :: from <= k < |files| ==> CheckFile(files[k], k, field, maxCount, filter, sizeLimit).None?
    ensures r.Ok? ==> r.value == files[from..]
    ensures r.Err? ==>
      (exists k :: from <= k < |files|
        && CheckFile(files[k], k, field, maxCount, filter, sizeLimit) == Some(r.error)
        && forall j :: from <= j < k ==> CheckFile(files[j], j, field, maxCount, filter, sizeLimit).None?)
    decreases |files| - from
  {
    if from == |files| then Ok([])
    else
      match CheckFile(files[from], from, field, maxCount, filter, sizeLimit)
      case Some(e) => Err(e)
      case None =>
        match AdmitFrom(files, from + 1, field, maxCount, filter, sizeLimit)
        case Err(e) => Err(e)
        case Ok(rest) => Ok([files[from]] + rest)
  }

  /** `upload.array(field, maxCount)` with the given filter and size limit:
      the request is admitted exactly when every file passes its checks, and
      then the handler sees every file, in order; otherwise the error is the
      one of the first file that fails. */
  function Admit(files: seq<IncomingFile>, field: string, maxCount: nat,
                 filter: IncomingFile -> Verdict, sizeLimit: Option<nat>): (r: Result<seq<IncomingFile>>)
    ensures r.Ok? <==> forall k :: 0 <= k < |files| ==> CheckFile(files[k], k, field, maxCount, filter, sizeLimit).None?
    ensures r.Ok? ==> r.value == files
    ensures r.Err? ==>
      (exists k :: 0 <= k < |files|
        && CheckFile(files[k], k, field, maxCount, filter, sizeLimit) == Some(r.error)
        && forall j :: 0 <= j < k ==> CheckFile(files[j], j, field, maxCount, filter, sizeLimit).None?)
  {
    AdmitFrom(files, 0, field, maxCount, filter, sizeLimit)
  }

  /** A request is admitted exactly when it holds at most `maxCount` files
      and every one of them passes its own checks. */
  lemma AdmitAcceptsExactly(files: seq<IncomingFile>, field: string, maxCount: nat,
                            filter: IncomingFile -> Verdict, sizeLimit: Option<nat>)
    ensures Admit(files, field, maxCount, filter, sizeLimit).Ok? <==>
      |files| <= maxCount && forall k :: 0 <= k < |files| ==> FilePasses(files[k], field, filter, sizeLimit)
  {
    if Admit(files, field, maxCount, filter, sizeLimit).Ok? {
      if |files| > 0 {
        var last := |files| - 1;
        assert CheckFile(files[last], last, field, maxCount, filter, sizeLimit).None?;
      }
      forall k | 0 <= k < |files|
        ensures FilePasses(files[k], field, filter, sizeLimit)
      {
        assert CheckFile(files[k], k, field, maxCount, filter, sizeLimit).None?;
      }
    }
  }

  // ---------------------------------------------------------------------
  // Disk storage

  /** The destination every disk-stored upload is written to. */
  const UploadDir: string := "uploads/"

  /** `Math.round(Math.random() * 1E9)`: an integer from 0 to 1e9 inclusive. */
  type Draw = r: nat | r <= 1_000_000_000

  /** The clock reading (`Date.now()`, milliseconds) and random draw taken
      while one file is stored. */
  datatype Entropy = Entropy(now: nat, draw: Draw)

  /** What multer reports for a file it stored on disk. */
  datatype StoredFile = StoredFile(file: IncomingFile, filename: string, path: string)

  /** `Date.now() + '-' + Math.round(Math.random() * 1E9)`. */
  function UniqueSuffix(e: Entropy): (s: string)
    ensures var k := |NatToString(e.now)|;
      |s| > k && s[..k] == NatToString(e.now) && s[k] == '-' && s[k + 1..] == NatToString(e.draw)
  {
    NatToString(e.now) + "-" + NatToString(e.draw)
  }

  /** The suffix gives back the clock reading and the draw. */
  lemma UniqueSuffixInjective(e1: Entropy, e2: Entropy)
    requires UniqueSuffix(e1) == UniqueSuffix(e2)
    ensures e1 == e2
  {
    NatToStringHasNo(e1.now, '-');
    NatToStringHasNo(e2.now, '-');
    SplitAtSeparator(NatToString(e1.now), NatToString(e1.draw), NatToString(e2.now), NatToString(e2.draw), '-');
    NatToStringInjective(e1.now, e2.now);
    NatToStringInjective(e1.draw, e2.draw);
  }

  /** `${file.fieldname}-${uniqueSuffix}${path.extname(file.originalname)}`:
      the generated name used by the course routes and the feature controller. */
  function UniqueFileName(f: IncomingFile, e: Entropy): (n: string)
    ensures StartsWith(n, f.fieldname + "-")
    ensures |n| == |f.fieldname| + 1 + |UniqueSuffix(e)| + |ExtName(f.originalname)|
    ensures n[|n| - |ExtName(f.originalname)|..] == ExtName(f.originalname)
  {
    var head, middle, ext := f.fieldname + "-", UniqueSuffix(e), ExtName(f.originalname);
    JoinParts(head, middle, ext);
    head + middle + ext
  }

  /** The generated name begins with the field name and a '-', ends with the
      original name's extension, and between them holds the clock reading and
      the draw separated by '-'. */
  lemma UniqueFileNameShape(f: IncomingFile, e: Entropy)
    ensures var n := UniqueFileName(f, e);
      && StartsWith(n, f.fieldname + "-")
      && |n| == |f.fieldname| + 1 + |UniqueSuffix(e)| + |ExtName(f.originalname)|
      && n[|f.fieldname| + 1..|n| - |ExtName(f.originalname)|] == NatToString(e.now) + "-" + NatToString(e.draw)
      && n[|n| - |ExtName(f.originalname)|..] == ExtName(f.originalname)
  {
    var head, middle, ext := f.fieldname + "-", UniqueSuffix(e), ExtName(f.originalname);
    JoinParts(head, middle, ext);
  }

  /** The three parts of a join of three strings, found back by position. */
  lemma JoinParts(a: string, b: string, c: string)
    ensures var x := a + b + c;
      && |x| == |a| + |b| + |c| && StartsWith(x, a)
      && x[|a|..|x| - |c|] == b && x[|x| - |c|..] == c
  {
    var x := a + b + c;
    assert x[..|a|] == a;
  }

  /** Two files under the same field with the same extension get different
      names whenever their (clock reading, draw) pairs differ. */
  lemma UniqueFileNameInjective(f: IncomingFile, g: IncomingFile, e1: Entropy, e2: Entropy)
    requires f.fieldname == g.fieldname && ExtName(f.originalname) == ExtName(g.originalname)
    requires e1 != e2
    ensures UniqueFileName(f, e1) != UniqueFileName(g, e2)
  {
    var head, ext := f.fieldname + "-", ExtName(f.originalname);
    var m1, m2 := UniqueSuffix(e1), UniqueSuffix(e2);
    if head + m1 + ext == head + m2 + ext {
      CancelHeadAndTail(head, m1, m2, ext);
      UniqueSuffixInjective(e1, e2);
    }
  }

  /** Multer's `file.path` for a disk-stored file: the destination joined
      with the generated name. */
  function DiskPath(filename: string): (p: string)
    ensures StartsWith(p, UploadDir) && p[|UploadDir|..] == filename
  {
    UploadDir + filename
  }

  /** A disk-stored file named by UniqueFileName lives in the destination
      under a name that starts with its field name and '-'. */
  lemma UniqueFilePathPrefix(f: IncomingFile, e: Entropy)
    ensures StartsWith(DiskPath(UniqueFileName(f, e)), UploadDir + (f.fieldname + "-"))
  {
    UniqueFileNameShape(f, e);
    StartsWithJoin(DiskPath(UniqueFileName(f, e)), UploadDir, f.fieldname + "-");
  }

  /** Storing admitted files on disk, one clock reading and draw per file,
      naming each with `name`. The result keeps the files and their order. */
  function StoreOnDisk(files: seq<IncomingFile>, entropy: seq<Entropy>,
                       name: (IncomingFile, Entropy) -> string): (r: seq<StoredFile>)
    requires |entropy| == |files|
    ensures |r| == |files|
    ensures forall i :: 0 <= i < |r| ==>
      r[i].file == files[i] && r[i].filename == name(files[i], entropy[i]) && r[i].path == DiskPath(r[i].filename)
  {
    seq(|files|, i requires 0 <= i < |files| =>
      var n := name(files[i], entropy[i]); StoredFile(files[i], n, DiskPath(n)))
  }
}
