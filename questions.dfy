/** The question routes: documents uploaded with a question are kept on disk
    under "uploads/", named after the upload time and their original name,
    and admitted by a document filter that applies the unanchored pattern
    pdf|docx|xlsx|txt to the lower-cased extension and to the mimetype as
    reported, without lower-casing it. */
module QuestionRoutes {
  import opened Text
  import opened NodePath
  import opened Upload

  /** `POST /add` takes up to 10 files under the field "files". */
  const FilesField: string := "files"
  const MaxQuestionFiles: nat := 10

  const DocumentMessage: string := "Only PDF, DOCX, XLSX, and TXT files are allowed!"

  /** The test `/pdf|docx|xlsx|txt/.test(s)`: no anchors, so it holds when any
      of the four words occurs anywhere in `s`. */
  predicate MatchesAllowedTypes(s: string) {
    Contains(s, "pdf") || Contains(s, "docx") || Contains(s, "xlsx") || Contains(s, "txt")
  }

  /** The test holds exactly when one of the four words begins at some
      position of `s`, which is what an unanchored alternation matches. */
  lemma MatchesAllowedTypesOccurs(s: string)
    ensures MatchesAllowedTypes(s) <==>
      (exists i :: 0 <= i <= |s| &&
        (StartsWith(s[i..], "pdf") || StartsWith(s[i..], "docx") || StartsWith(s[i..], "xlsx") || StartsWith(s[i..], "txt")))
  {
    ContainsIffOccurs(s, "pdf");
    ContainsIffOccurs(s, "docx");
    ContainsIffOccurs(s, "xlsx");
    ContainsIffOccurs(s, "txt");
  }

  /** The document filter. */
  function DocumentFilter(f: IncomingFile): (v: Verdict)
    ensures v == Accept <==>
      MatchesAllowedTypes(Lower(ExtName(f.originalname))) && MatchesAllowedTypes(f.mimetype)
    ensures v != Accept ==> v == Reject("Only PDF, DOCX, XLSX, and TXT files are allowed!")
  {
    var extOk := MatchesAllowedTypes(Lower(ExtName(f.originalname)));
    var mimeOk := MatchesAllowedTypes(f.mimetype);
    if extOk && mimeOk then Accept else Reject(DocumentMessage)
  }

  /** Either test failing alone rejects the file, whatever the other one says. */
  lemma EitherTestRejects(f: IncomingFile)
    requires !MatchesAllowedTypes(Lower(ExtName(f.originalname))) || !MatchesAllowedTypes(f.mimetype)
    ensures DocumentFilter(f) == Reject(DocumentMessage)
  {
  }

  /** The extension test ignores case: two names whose extensions agree up to
      case get the same verdict for the same mimetype. */
  lemma ExtensionTestIgnoresCase(f: IncomingFile, g: IncomingFile)
    requires Lower(ExtName(f.originalname)) == Lower(ExtName(g.originalname))
    requires f.mimetype == g.mimetype
    ensures DocumentFilter(f) == DocumentFilter(g)
  {
  }

  lemma ApplicationPdfMatches()
    ensures MatchesAllowedTypes("application/pdf")
  {
    ContainsInConcat("application/", "pdf", "pdf");
    assert "application/" + "pdf" == "application/pdf";
  }

  /** "Report.PDF" is the stem "Report" and the extension ".PDF". */
  lemma ReportPdfParts()
    ensures "Report" + ".PDF" == "Report.PDF"
    ensures '/' !in "Report" && forall i :: 1 <= i < |".PDF"| ==> ".PDF"[i] != '.' && ".PDF"[i] != '/'
  {
  }

  lemma ReportPdfExtension()
    ensures ExtName("Report.PDF") == ".PDF"
  {
    ReportPdfParts();
    ExtNameOfStemAndExtension("Report", ".PDF");
  }

  /** "notes.pdfx" is the stem "notes" and the extension ".pdfx". */
  lemma NotesPdfxParts()
    ensures "notes" + ".pdfx" == "notes.pdfx"
    ensures '/' !in "notes" && forall i :: 1 <= i < |".pdfx"| ==> ".pdfx"[i] != '.' && ".pdfx"[i] != '/'
  {
  }

  lemma NotesPdfxExtension()
    ensures ExtName("notes.pdfx") == ".pdfx"
  {
    NotesPdfxParts();
    ExtNameOfStemAndExtension("notes", ".pdfx");
  }

  lemma DotPdfMatches()
    ensures Lower(".PDF") == ".pdf" && Contains(".pdf", "pdf")
  {
    assert StartsWith(".pdf"[1..], "pdf");
  }

  lemma DotPdfxMatches()
    ensures Lower(".pdfx") == ".pdfx" && Contains(".pdfx", "pdf")
  {
    assert StartsWith(".pdfx"[1..], "pdf");
  }

  /** The extension is lower-cased before the test, and the test is
      unanchored: "Report.PDF" and "notes.pdfx" sent as "application/pdf"
      are both accepted. */
  lemma ExtensionAcceptanceExamples(size: nat)
    ensures DocumentFilter(IncomingFile(FilesField, "Report.PDF", "application/pdf", size)) == Accept
    ensures DocumentFilter(IncomingFile(FilesField, "notes.pdfx", "application/pdf", size)) == Accept
  {
    ApplicationPdfMatches();
    ReportPdfExtension();
    DotPdfMatches();
    NotesPdfxExtension();
    DotPdfxMatches();
  }

  /** The registered media types of Word and Excel documents. */
  const WordMimetype: string :=
    "application/vnd.openxml" + "formats-officedocument." + "wordprocessingml." + "document"
  const SheetMimetype: string :=
    "application/vnd.openxml" + "formats-officedocument." + "spreadsheetml.sheet"

  /** Each of the four words holds one of these adjacent pairs of letters. */
  predicate IsWordPair(a: char, b: char) {
    (a, b) == ('p', 'd') || (a, b) == ('c', 'x') || (a, b) == ('x', 'l') || (a, b) == ('t', 'x')
  }

  predicate AvoidsWordPairs(s: string) {
    PairFree(s, 'p', 'd') && PairFree(s, 'c', 'x') && PairFree(s, 'x', 'l') && PairFree(s, 't', 'x')
  }

  /** A string in which none of "pd", "cx", "xl", "tx" occurs fails the test. */
  lemma NoMatchWithoutWordPairs(s: string)
    requires AvoidsWordPairs(s)
    ensures !MatchesAllowedTypes(s)
  {
    NotContainsWithoutPair(s, "pdf", 0);
    NotContainsWithoutPair(s, "docx", 2);
    NotContainsWithoutPair(s, "xlsx", 0);
    NotContainsWithoutPair(s, "txt", 0);
  }

  lemma ShortTypesAvoidPair(a: char, b: char)
    requires IsWordPair(a, b)
    ensures PairFree("text/plain", a, b) && PairFree("APPLICATION/PDF", a, b)
  {
  }

  lemma CommonPrefixAvoidsPair(a: char, b: char)
    requires IsWordPair(a, b)
    ensures PairFree("application/vnd.openxml" + "formats-officedocument.", a, b)
  {
    var c1, c2 := "application/vnd.openxml", "formats-officedocument.";
    assert PairFree(c1, a, b);
    assert PairFree(c2, a, b);
    PairFreeConcat(c1, c2, a, b);
  }

  lemma WordTypeAvoidsPair(a: char, b: char)
    requires IsWordPair(a, b)
    ensures PairFree(WordMimetype, a, b)
  {
    var c := "application/vnd.openxml" + "formats-officedocument.";
    var w3, w4 := "wordprocessingml.", "document";
    CommonPrefixAvoidsPair(a, b);
    assert PairFree(w3, a, b);
    assert PairFree(w4, a, b);
    PairFreeConcat(c, w3, a, b);
    PairFreeConcat(c + w3, w4, a, b);
  }

  lemma SheetTypeAvoidsPair(a: char, b: char)
    requires IsWordPair(a, b)
    ensures PairFree(SheetMimetype, a, b)
  {
    var c := "application/vnd.openxml" + "formats-officedocument.";
    var s3 := "spreadsheetml.sheet";
    CommonPrefixAvoidsPair(a, b);
    assert PairFree(s3, a, b);
    PairFreeConcat(c, s3, a, b);
  }

  /** The registered types of text, Word and Excel files, and the upper-case
      PDF type, hold none of the letter pairs of the four words. */
  lemma RegisteredTypesAvoidPair(a: char, b: char)
    requires IsWordPair(a, b)
    ensures PairFree("text/plain", a, b) && PairFree("APPLICATION/PDF", a, b)
    ensures PairFree(WordMimetype, a, b) && PairFree(SheetMimetype, a, b)
  {
    ShortTypesAvoidPair(a, b);
    WordTypeAvoidsPair(a, b);
    SheetTypeAvoidsPair(a, b);
  }

  /** The filter does not lower-case the mimetype, so it refuses an
      upper-case "APPLICATION/PDF"; busboy lower-cases the mimetype it
      reports, so that case is a property of the filter alone and does not
      arise through multer. The registered types of text, Word and Excel
      files hold none of the four words, so .txt, .docx and .xlsx files sent
      with them are refused although the message names those formats. */
  lemma MimetypeRefusalExamples(size: nat)
    ensures DocumentFilter(IncomingFile(FilesField, "report.pdf", "APPLICATION/PDF", size)) == Reject(DocumentMessage)
    ensures DocumentFilter(IncomingFile(FilesField, "notes.txt", "text/plain", size)) == Reject(DocumentMessage)
    ensures DocumentFilter(IncomingFile(FilesField, "essay.docx", WordMimetype, size)) == Reject(DocumentMessage)
    ensures DocumentFilter(IncomingFile(FilesField, "marks.xlsx", SheetMimetype, size)) == Reject(DocumentMessage)
  {
    RegisteredTypesAvoidPair('p', 'd');
    RegisteredTypesAvoidPair('c', 'x');
    RegisteredTypesAvoidPair('x', 'l');
    RegisteredTypesAvoidPair('t', 'x');
    NoMatchWithoutWordPairs("APPLICATION/PDF");
    NoMatchWithoutWordPairs("text/plain");
    NoMatchWithoutWordPairs(WordMimetype);
    NoMatchWithoutWordPairs(SheetMimetype);
  }

  /** `${Date.now()}-${file.originalname}`. */
  function QuestionFileName(f: IncomingFile, e: Entropy): (name: string)
    ensures |name| > |f.originalname| && name[|name| - |f.originalname|..] == f.originalname
    ensures name[..|name| - |f.originalname|] == NatToString(e.now) + "-"
  {
    NatToString(e.now) + "-" + f.originalname
  }

  /** The stored name determines both the upload time and the original name:
      two uploads collide only when they share the millisecond and the name. */
  lemma QuestionFileNameInjective(f: IncomingFile, g: IncomingFile, e1: Entropy, e2: Entropy)
    requires QuestionFileName(f, e1) == QuestionFileName(g, e2)
    ensures e1.now == e2.now && f.originalname == g.originalname
  {
    NatToStringHasNo(e1.now, '-');
    NatToStringHasNo(e2.now, '-');
    SplitAtSeparator(NatToString(e1.now), f.originalname, NatToString(e2.now), g.originalname, '-');
    NatToStringInjective(e1.now, e2.now);
  }

  /** The upload step of `POST /add`: admission of up to 10 documents under
      "files", then disk storage under "uploads/<time>-<original name>". */
  function AddQuestionUpload(files: seq<IncomingFile>, entropy: seq<Entropy>): (r: Result<seq<StoredFile>>)
    requires |entropy| == |files|
    ensures r.Ok? <==> (|files| <= MaxQuestionFiles
      && forall i :: 0 <= i < |files| ==> files[i].fieldname == FilesField && DocumentFilter(files[i]) == Accept)
    ensures r.Ok? ==> |r.value| == |files| && forall i :: 0 <= i < |files| ==>
      r.value[i].file == files[i] && r.value[i].path == DiskPath(QuestionFileName(files[i], entropy[i]))
    ensures r.Err? ==> var a := Admit(files, FilesField, MaxQuestionFiles, DocumentFilter, None); a.Err? && r.error == a.error
    ensures r.Err? ==>
      (ErrorMessage(r.error) == "Unexpected field"
       || ErrorMessage(r.error) == "Only PDF, DOCX, XLSX, and TXT files are allowed!")
  {
    AdmitAcceptsExactly(files, FilesField, MaxQuestionFiles, DocumentFilter, None);
    match Admit(files, FilesField, MaxQuestionFiles, DocumentFilter, None)
    case Err(e) => Err(e)
    case Ok(admitted) => Ok(StoreOnDisk(admitted, entropy, QuestionFileName))
  }
}
