/**
 * The `upload_and_process` request handler: it checks the upload, picks the text extractor by
 * the suffix of the sanitised file name, runs the extractors over the text and assembles the
 * record it returns as JSON.
 *
 * What the handler cannot compute itself comes in as inputs: `secure` is the file-name
 * sanitiser, `nameOf` the name recogniser, and `FileViews` what the PDF, DOCX and OCR libraries
 * make of the uploaded bytes.
 */
module App {
  import opened Wrappers
  import opened Text
  import opened Upload
  import opened Pdf
  import opened TextExtraction
  import opened Contact
  import opened Email
  import opened Skills
  import opened Education
  import opened Address

  /**
   * What each library makes of the uploaded file: the PDF library's view of it, whether saving
   * the preprocessed copy succeeds, the DOCX paragraphs (`None` when it cannot be read) and the
   * OCR text (`None` when the image cannot be read).
   */
  datatype FileViews = FileViews(pdf: PdfFile, preprocessSaves: bool, docx: Option<seq<string>>, ocr: Option<string>)

  /** A request with or without a 'file' part; the part carries the client's file name. */
  datatype Request = NoFilePart | FilePart(filename: string, views: FileViews)

  datatype ResumeRecord = ResumeRecord(
    name: Option<string>,
    contactNumber: Option<string>,
    email: Option<string>,
    skills: set<string>,
    education: seq<string>,
    workExperience: seq<string>,
    address: AddressResult)

  /**
   * The handler's reply: an error with its status, the record with status 200, or the failure
   * when `text` was never assigned (the PDF preprocessing failed) and reading it raises.
   */
  datatype Response = Rejected(status: int, error: string) | Processed(status: int, record: ResumeRecord) | TextUnbound

  /** The text the handler obtains, that it never obtains one, or that the suffix is not supported. */
  datatype TextOutcome = Extracted(text: string) | Unbound | Unsupported

  /** `extract_work_experience`: a placeholder that finds nothing. */
  function ExtractWorkExperience(text: string): (r: seq<string>)
    ensures r == []
  {
    []
  }

  predicate IsImageName(lowered: string) {
    EndsWith(lowered, ".jpg") || EndsWith(lowered, ".jpeg") || EndsWith(lowered, ".png")
  }

  /** The text the handler works on, chosen by the lower-cased suffix of the sanitised name `name`. */
  function ResumeText(name: string, views: FileViews): TextOutcome {
    var lowered := Lower(name);
    if EndsWith(lowered, ".pdf") then
      if views.pdf.Unreadable? || !views.preprocessSaves then Unbound
      else Extracted(PdfText(Pdf(Painted(views.pdf.pages))))
    else if EndsWith(lowered, ".docx") then Extracted(DocxText(views.docx))
    else if IsImageName(lowered) then Extracted(ImageText(views.ocr))
    else Unsupported
  }

  /** The record for the text `text`. */
  function RecordOf(text: string, nameOf: string -> Option<string>): ResumeRecord {
    ResumeRecord(
      nameOf(text), ExtractContactNumber(text), ExtractEmail(text), SkillSet(text),
      EducationLines(Split(text, '\n')), ExtractWorkExperience(text), ExtractAddress(text))
  }

  /** The reply to `req`. */
  function Respond(req: Request, secure: string -> string, nameOf: string -> Option<string>): Response {
    if req.NoFilePart? then Rejected(400, "No file part")
    else if req.filename == "" then Rejected(400, "No selected file")
    else if !AllowedFile(req.filename) then Rejected(400, "Invalid file")
    else
      match ResumeText(secure(req.filename), req.views)
      case Unsupported => Rejected(400, "Unsupported file format")
      case Unbound => TextUnbound
      case Extracted(text) => Processed(200, RecordOf(text, nameOf))
  }

  /** `upload_and_process` */
  method UploadAndProcess(req: Request, secure: string -> string, nameOf: string -> Option<string>)
    returns (resp: Response)
    ensures resp == Respond(req, secure, nameOf)
  {
    if req.NoFilePart? {
      return Rejected(400, "No file part");
    }
    if req.filename == "" {
      return Rejected(400, "No selected file");
    }
    if !AllowedFile(req.filename) {
      return Rejected(400, "Invalid file");
    }
    var filename := secure(req.filename);
    var lowered := Lower(filename);
    var views := req.views;
    // `None` while the variable `text` is unassigned.
    var text: Option<string> := None;
    if EndsWith(lowered, ".pdf") {
      var preprocessed := PreprocessPdf(views.pdf, views.preprocessSaves);
      if preprocessed.Some? {
        var t := ExtractTextFromPdf(Pdf(preprocessed.value));
        text := Some(t);
      }
    } else if EndsWith(lowered, ".docx") {
      text := Some(DocxText(views.docx));
    } else if IsImageName(lowered) {
      text := Some(ImageText(views.ocr));
    } else {
      return Rejected(400, "Unsupported file format");
    }
    if text.None? {
      return TextUnbound;
    }
    var t := text.value;
    var name := nameOf(t);
    var contactNumber := ExtractContactNumber(t);
    var email := ExtractEmail(t);
    var skills := ExtractSkills(t);
    var education := ExtractEducation(t);
    var workExperience := ExtractWorkExperience(t);
    var address := ExtractAddress(t);
    resp := Processed(200, ResumeRecord(name, contactNumber, email, skills, education, workExperience, address));
  }

  /**
   * The three checks on the upload, in order: a missing part, an empty file name and a name
   * `allowed_file` refuses each give status 400 with their message; every other request gets
   * past them.
   */
  lemma UploadChecks(req: Request, secure: string -> string, nameOf: string -> Option<string>)
    ensures var r := Respond(req, secure, nameOf);
            (r == Rejected(400, "No file part") <==> req.NoFilePart?)
            && (r == Rejected(400, "No selected file") <==> req.FilePart? && req.filename == "")
            && (r == Rejected(400, "Invalid file") <==> req.FilePart? && req.filename != "" && !AllowedFile(req.filename))
  {
  }

  /** Every reply is an error with status 400, the record with status 200, or the unassigned-text failure. */
  lemma StatusCodes(req: Request, secure: string -> string, nameOf: string -> Option<string>)
    ensures var r := Respond(req, secure, nameOf);
            (r.Rejected? ==> r.status == 400) && (r.Processed? ==> r.status == 200)
            && (r.TextUnbound? <==>
                  req.FilePart? && req.filename != "" && AllowedFile(req.filename)
                  && ResumeText(secure(req.filename), req.views).Unbound?)
  {
  }

  /**
   * When the PDF cannot be opened or the preprocessed copy cannot be saved, the handler does not
   * fall back to the original file: `text` stays unassigned.
   */
  lemma PreprocessFailureLeavesTextUnbound(req: Request, secure: string -> string, nameOf: string -> Option<string>)
    requires req.FilePart? && req.filename != "" && AllowedFile(req.filename)
    requires EndsWith(Lower(secure(req.filename)), ".pdf")
    requires req.views.pdf.Unreadable? || !req.views.preprocessSaves
    ensures Respond(req, secure, nameOf) == TextUnbound
  {
  }

  /**
   * A PDF is read from the painted copy, and painting bands changes no text: the record is
   * that of the text of the original pages.
   */
  lemma PdfRecordFromOriginalText(req: Request, secure: string -> string, nameOf: string -> Option<string>)
    requires req.FilePart? && req.filename != "" && AllowedFile(req.filename)
    requires EndsWith(Lower(secure(req.filename)), ".pdf")
    requires req.views.pdf.Pdf? && req.views.preprocessSaves
    ensures Respond(req, secure, nameOf) == Processed(200, RecordOf(PdfText(req.views.pdf), nameOf))
  {
    PaintedText(req.views.pdf.pages);
  }

  /** The work experience in every record is empty. */
  lemma WorkExperienceAlwaysEmpty(req: Request, secure: string -> string, nameOf: string -> Option<string>)
    ensures Respond(req, secure, nameOf).Processed? ==> Respond(req, secure, nameOf).record.workExperience == []
  {
  }

  /** An accepted name that the sanitiser leaves alone always reaches one of the extractors. */
  lemma AllowedNameIsSupported(req: Request, secure: string -> string, nameOf: string -> Option<string>)
    requires req.FilePart? && secure(req.filename) == req.filename
    ensures Respond(req, secure, nameOf) != Rejected(400, "Unsupported file format")
  {
    if req.filename != "" && AllowedFile(req.filename) {
      AllowedFileHasKnownSuffix(req.filename);
    }
  }

  /**
   * The suffix is tested on the sanitised name, not on the name `allowed_file` accepted: a
   * sanitiser that drops the leading dot of ".pdf" (as werkzeug's does) turns an accepted upload
   * into "Unsupported file format".
   */
  lemma SanitisedNameCanBeUnsupported(views: FileViews, nameOf: string -> Option<string>)
    ensures var secure := (f: string) => if f == ".pdf" then "pdf" else f;
            AllowedFile(".pdf")
            && Respond(FilePart(".pdf", views), secure, nameOf) == Rejected(400, "Unsupported file format")
  {
    assert ".pdf" == "" + "." + "pdf";
    AllowedFileForms("", "pdf");
    assert Lower("pdf") == "pdf";
  }
}
