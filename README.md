# Resume upload and extraction pipeline, modelled in Dafny

This project models the resume pipeline in `OCR_test_Rp.py`, a Flask service. A client uploads a resume as a PDF, DOCX or image file. The service does the following:

- checks the file name;
- for a PDF, paints white bands over the header and footer of every page, saves the painted copy and reads its text (native text, or OCR of the page images);
- for a DOCX file, joins the paragraph texts; for an image, runs OCR on it;
- runs a fixed sequence of field extractors over that text: name, contact number, email, skills, education, work experience and address;
- returns the results as one JSON record.

The libraries (PyMuPDF, Tesseract, python-docx, spaCy, werkzeug) are outside the model. What they would produce is supplied as inputs:

- a PDF is a sequence of pages, each with its native text and, for each embedded image, the OCR result or a failure;
- a DOCX file is its paragraph texts, or `None` when it cannot be read;
- an image is its OCR text, or `None`;
- the file-name sanitiser and the name recogniser are function parameters.

The regular expressions are modelled with Python `re` semantics, restricted to ASCII. Each pattern has two parts:

- a declarative predicate saying which substrings match;
- an "engine" function that picks what `re.search` picks.

For each pattern, lemmas prove the engine finds a match exactly when there is one, that its match is the leftmost, and that it makes the same choice the backtracking engine makes when several matches start at the same index.

Modules, in dependency order:

- `Wrappers`: Option.
- `Text`: ASCII character classes, `lower`, `strip`, `split`, `join`, substring test.
- `Regex`: `\b`, greedy runs, and the scans of `re.search` and `re.findall`.
- `Upload`: `allowed_file`.
- `Pdf`: pages and band painting.
- `TextExtraction`: the PDF, DOCX and image text.
- `Contact`, `Email`, `Skills`, `Education`, `Address`: the field extractors.
- `App`: the `upload_and_process` handler.

## Model

| member | source | states |
|---|---|---|
| Upload.AllowedFile | OCR_test_Rp.py:22-24 | `allowed_file`. Its contract is stated by `Upload.AllowedFileIff` and `Upload.AllowedFileForms`. |
| Upload.AllowedFileIff | OCR_test_Rp.py:22-24 | A name is accepted iff it has a '.' and the lower-cased text after its last '.' is in the extension set. |
| Upload.AllowedFileForms | OCR_test_Rp.py:16-24 | For an extension without '.', `base.ext` is accepted iff `ext` lower-cased is one of pdf, docx, jpg, jpeg, png. |
| Upload.AllowedFileExamples | OCR_test_Rp.py:22-24 | "a.", "pdf" and "x.txt" are refused; "CV.PDF" is accepted. |
| Upload.AllowedFileHasKnownSuffix | OCR_test_Rp.py:22-24 | An accepted name, lower-cased, ends in ".pdf", ".docx", ".jpg", ".jpeg" or ".png". |
| Upload.Extension | OCR_test_Rp.py:24 | `rsplit('.', 1)[1]`: the result is the '.'-free suffix that follows the last '.'. |
| Pdf.WithBandsShape | OCR_test_Rp.py:30-35 | Painting keeps a page's size, text and images, and adds a header rectangle, then a footer one: each is full width and 50 high, at the top and at the bottom. |
| Pdf.BandsCover | OCR_test_Rp.py:32-35 | A point of the page is under a band iff it lies within 50 of the top or of the bottom edge. |
| Pdf.ShortPageFullyMasked | OCR_test_Rp.py:32-35 | A page at most 100 high is masked completely. |
| Pdf.PaintBands | OCR_test_Rp.py:30-35 | The loop over the pages leaves every page with both bands added and nothing else changed. |
| Pdf.PreprocessPdf | OCR_test_Rp.py:26-42 | No copy when the PDF cannot be opened or saved; otherwise the copy has every page painted. |
| TextExtraction.PdfText | OCR_test_Rp.py:44-63 | `extract_text_from_pdf` as a value. `TextExtraction.ExtractTextFromPdf` is proved to compute it; `PagesSucceed`, `PagesTextAppend` and `SinglePageText` state its properties. |
| TextExtraction.ExtractTextFromPdf | OCR_test_Rp.py:44-63 | The nested loops over pages and images compute the document text function `PdfText`. |
| TextExtraction.PagesTextAppend | OCR_test_Rp.py:49-59 | Page texts concatenate in document order: the text of `a + b` joins the texts of `a` and `b`, failing if either fails. |
| TextExtraction.ImagesTextAppend | OCR_test_Rp.py:53-59 | A page's image OCR texts concatenate in image order. |
| TextExtraction.SinglePageText | OCR_test_Rp.py:50-59 | A page with native text gives that text. A page without text or images gives "". A page whose images all succeed gives their OCR texts. |
| TextExtraction.PagesSucceed | OCR_test_Rp.py:47-63 | The document succeeds iff every page does; otherwise the whole result is "". |
| TextExtraction.ImagesSucceed | OCR_test_Rp.py:53-59 | A page without native text succeeds iff all of its images do. |
| TextExtraction.FailingImageFailsDocument | OCR_test_Rp.py:52-63 | One failing image on a page without native text loses the whole document's text. |
| TextExtraction.PaintedText | OCR_test_Rp.py:33-35 | Painting bands does not change the text read from the pages. |
| TextExtraction.DocxText | OCR_test_Rp.py:65-73 | `extract_text_from_docx`: the paragraphs joined with '\n', or "" when the file cannot be read. `TextExtraction.DocxRoundTrip` states what it keeps. |
| TextExtraction.DocxRoundTrip | OCR_test_Rp.py:69-70 | For at least one paragraph, none holding '\n', splitting the DOCX text on '\n' gives the paragraphs back. |
| TextExtraction.DocxExample | OCR_test_Rp.py:69-70 | ["Jane Doe", "Engineer"] gives "Jane Doe\nEngineer". |
| TextExtraction.ImageText | OCR_test_Rp.py:75-83 | `extract_text_from_image`: what OCR recognises, or "" on failure. `TextExtraction.ImageTextAsScannedPage` relates it to the PDF reader. |
| TextExtraction.ImageTextAsScannedPage | OCR_test_Rp.py:53-83 | An uploaded image gives the same text as a one-page PDF without selectable text holding only that image. Both give "" when OCR fails. |
| Text.JoinSplit | OCR_test_Rp.py:70 | Joining the pieces of a split on a character gives the text back. |
| Text.SplitJoin | OCR_test_Rp.py:116 | Splitting what was joined gives back exactly the original pieces, when there is at least one and none contains the separator. |
| Text.Strip | OCR_test_Rp.py:121 | `strip()` returns a slice that neither starts nor ends with whitespace; everything cut off is whitespace. |
| Contact.ExtractContactNumber | OCR_test_Rp.py:85-88 | `extract_contact_number_from_resume`. Its contract is stated by `Contact.ContactNumberAbsent` and `Contact.ContactNumberIsLeftmostMatch`. |
| Contact.ForcedChoice | OCR_test_Rp.py:86 | In any phone match, each optional character is used exactly when it is present, so a match is fixed by its country-code digit count. |
| Contact.PhoneAtCorrect | OCR_test_Rp.py:86-87 | The engine at an index succeeds iff the pattern matches there. Its match has the most country-code digits (3, 2, 1, then none). |
| Contact.MatchBelowBest | OCR_test_Rp.py:86 | Any phone match at an index uses no more country-code digits than the engine's choice there, so the engine succeeds wherever a match exists. |
| Contact.ContactNumberAbsent | OCR_test_Rp.py:85-88 | No contact number iff the pattern matches nowhere in the text. |
| Contact.ContactNumberIsLeftmostMatch | OCR_test_Rp.py:85-88 | A contact number is a substring that matches, starting at the leftmost index where the pattern matches; it is the preferred match there. |
| Contact.NoPhoneAt | OCR_test_Rp.py:86 | A match can start only at a digit, a '+' or a '('; the engine fails anywhere else. |
| Contact.ContactNumberExample | OCR_test_Rp.py:85-88 | In "Contact: 123-456-7890" the label positions do not match, and "123-456-7890" is returned. |
| Email.ExtractEmail | OCR_test_Rp.py:90-93 | `extract_email_from_resume`. Its contract is stated by `Email.EmailAbsent` and `Email.EmailIsLeftmostMatch`. |
| Email.EmailAtCorrect | OCR_test_Rp.py:91-92 | The engine at an index succeeds iff the pattern matches there. Of the matches there, it reports the one whose last dot is rightmost. |
| Email.DotFrom | OCR_test_Rp.py:91 | The backtracking over the domain tries dot positions from right to left, and reports the rightmost one that a top-level domain of two or more letters and a `\b` can follow. |
| Email.EmailTryComplete | OCR_test_Rp.py:91 | Whenever the pattern matches at an index, the engine there succeeds, with its dot at or right of the match's dot. |
| Email.EmailAbsent | OCR_test_Rp.py:90-93 | No email iff the pattern matches nowhere in the text. |
| Email.EmailIsLeftmostMatch | OCR_test_Rp.py:90-93 | An email is a substring that matches, starting at the leftmost index where the pattern matches; its dot is rightmost among the matches there. |
| Email.EmailShape | OCR_test_Rp.py:91 | A match has a non-empty local part and exactly one '@'. It ends in a '.' followed by two or more letters. |
| Email.NoEmailInRun | OCR_test_Rp.py:91 | No match starts inside a run of local-part characters that is followed by neither '@' nor another such character. |
| Email.EmailExample | OCR_test_Rp.py:90-93 | In "email me at a.b@test.org please" the words before the address do not match, and "a.b@test.org" is returned. |
| Email.ShortDomainExample | OCR_test_Rp.py:91 | "x@y.c" has no match at its start: a one-letter top-level domain is refused. |
| Regex.Search | OCR_test_Rp.py:87 | `re.search` reports the leftmost index where the engine matches, with the engine's end there; no match means no index matches. |
| Regex.ScanCovers | OCR_test_Rp.py:105 | The scan of `re.findall` misses no index where the pattern matches: each such index lies inside a reported match. |
| Regex.Scan | OCR_test_Rp.py:105 | The reported matches are in order, do not overlap, and each is the engine's match at its start. |
| Skills.FindAll | OCR_test_Rp.py:104-105 | `re.findall`: the texts of the scan's matches, in order. `Regex.Scan`, `Regex.ScanCovers` and `Skills.NoSkillsIffNoMatch` state its contract. |
| Skills.SkillSet | OCR_test_Rp.py:105-108 | What `extract_skills_from_resume` returns, the set of lower-cased matches. `Skills.SkillsAreTerms` and `Skills.SkillsExample` state its properties. |
| Skills.ExtractSkills | OCR_test_Rp.py:105-108 | The set built in the loop is exactly `SkillSet`, the set of lower-cased matches. |
| Skills.SkillsAreTerms | OCR_test_Rp.py:97-107 | Every reported skill is one of the 20 terms, lower-cased. |
| Skills.NoSkillsIffNoMatch | OCR_test_Rp.py:104-108 | There are no skills iff the pattern matches at no index. |
| Skills.CppNeedsWordCharAfter | OCR_test_Rp.py:97-104 | "C++" is reported only when a word character directly follows it. |
| Skills.TermFrom | OCR_test_Rp.py:104 | The alternatives are tried in list order; the first one followed by `\b` is taken. |
| Skills.NoTermAt | OCR_test_Rp.py:97-104 | Every term starts with a letter, so no term matches at a non-letter or at the end of the text. |
| Skills.SkillsExample | OCR_test_Rp.py:104-108 | "Python", "python" and "PYTHON" on three lines are each found, and they collapse to the single skill "python". |
| Education.EducationLines | OCR_test_Rp.py:116-123 | `extract_education_from_resume` as a value: the stripped lines that mention a keyword. `Education.ExtractEducation` is proved to compute it; `Education.EducationIndices` states which lines it keeps. |
| Education.ExtractEducation | OCR_test_Rp.py:116-123 | The loop over the lines computes `EducationLines` of the '\n'-split text. |
| Education.FindQualification | OCR_test_Rp.py:119-122 | The keyword loop, left at the first hit, succeeds iff the line mentions some keyword, ignoring case. |
| Education.EducationIndices | OCR_test_Rp.py:116-123 | The result is the stripped lines at an increasing list of indices, which holds exactly the lines that mention a keyword. |
| Education.EducationLinesAppend | OCR_test_Rp.py:118-122 | The result is computed line by line: appending lines appends their entries, repeated lines included. |
| Education.EducationLinesBound | OCR_test_Rp.py:118-122 | There are no more entries than lines. |
| Education.MentionsIgnoresCase | OCR_test_Rp.py:120 | Whether a line is kept does not depend on its case. |
| Education.ShortLineDropped | OCR_test_Rp.py:111-120 | A line shorter than 3 characters never matches a keyword. |
| Education.EducationExample | OCR_test_Rp.py:116-123 | " Bachelor's Degree in CS, XYZ University " is kept, stripped; "hi" is dropped. |
| Address.City | OCR_test_Rp.py:147-155 | The city: group 1 of the first city match. `Address.CityIsLeftmostMatch` and `Address.CityShape` state its contract. |
| Address.Pincode | OCR_test_Rp.py:148-156 | The pincode: the first pincode match. `Address.PincodeIsLeftmostMatch` states its contract. |
| Address.AddressSpan | OCR_test_Rp.py:149-157 | The address span: the first span match, stripped. `Address.AddressSpanIsLeftmostMatch` states its contract. |
| Address.ExtractAddress | OCR_test_Rp.py:146-161 | `extract_address_from_resume`. `Address.FormattedAddressIff` states its contract. |
| Address.CityAtCorrect | OCR_test_Rp.py:147-151 | The city engine at an index finds exactly the city match there, and there is at most one. |
| Address.CityIsLeftmostMatch | OCR_test_Rp.py:151-155 | No city iff the pattern matches nowhere; otherwise the city is group 1 of the leftmost match. |
| Address.CityShape | OCR_test_Rp.py:147-155 | A city starts with a capital and otherwise holds only letters and whitespace, so it contains no ','. |
| Address.PincodeIsLeftmostMatch | OCR_test_Rp.py:148-156 | No pincode iff no six-digit run stands alone; otherwise it is the leftmost such run, with no word character on either side. |
| Address.SpanFrom | OCR_test_Rp.py:149 | The backtracking of the span tries ends from right to left and stops at the rightmost whitespace that the lookahead accepts. |
| Address.AddressAtComplete | OCR_test_Rp.py:149 | Whenever the span pattern matches at an index, the engine there succeeds with an end no shorter. |
| Address.AddressAtCorrect | OCR_test_Rp.py:149-153 | The span engine at an index succeeds iff the pattern matches there, and reports the longest match. |
| Address.AddressSpanIsLeftmostMatch | OCR_test_Rp.py:153-157 | No span iff the pattern matches nowhere; otherwise the span is the stripped longest match at the leftmost matching index. |
| Address.Formatted | OCR_test_Rp.py:159 | A formatted address exists iff the city, the pincode and the span are all present and non-empty. |
| Address.FormattedAddressIff | OCR_test_Rp.py:146-161 | The record keeps the city and the pincode found. The address exists iff a city, a pincode and a non-empty stripped span are all found; it is then "city, pincode, span". |
| Address.FormattedAddressStartsWithCity | OCR_test_Rp.py:155-159 | The city is recoverable from the formatted address: it is the text before its first ','. |
| App.Respond | OCR_test_Rp.py:163-201 | The handler's reply as a value. `App.UploadAndProcess` is proved to compute it; `App.UploadChecks` and `App.StatusCodes` state its contract. |
| App.ExtractWorkExperience | OCR_test_Rp.py:125-127 | `extract_work_experience`, a placeholder. It always returns []. |
| App.UploadAndProcess | OCR_test_Rp.py:163-201 | The handler's reply is `Respond`: its checks, its dispatch and its extractors called in order. |
| App.UploadChecks | OCR_test_Rp.py:165-201 | "No file part", "No selected file" and "Invalid file" (400) are each returned exactly under their condition, with no extraction. |
| App.StatusCodes | OCR_test_Rp.py:163-201 | Errors carry 400 and records 200. The unassigned-text failure happens exactly when the PDF branch gets no preprocessed copy. |
| App.PreprocessFailureLeavesTextUnbound | OCR_test_Rp.py:178-191 | When a PDF cannot be opened or saved, `text` is never assigned; there is no fallback to the original file. |
| App.PdfRecordFromOriginalText | OCR_test_Rp.py:178-197 | A PDF's record comes from the painted copy and equals the record of the original pages' text. |
| App.WorkExperienceAlwaysEmpty | OCR_test_Rp.py:125-127 | Every record's work experience is []. |
| App.AllowedNameIsSupported | OCR_test_Rp.py:172-187 | An accepted name that the sanitiser leaves unchanged never reaches "Unsupported file format". |
| App.SanitisedNameCanBeUnsupported | OCR_test_Rp.py:172-187 | The suffix is tested on the sanitised name. A sanitiser that maps ".pdf" to "pdf" turns the accepted ".pdf" into "Unsupported file format". |

## Left out

- Flask routing, `request.files`, `jsonify`, `file.save` and the uploads directory: HTTP and file-system plumbing. A request is either "no file part" or a file name plus what the libraries make of the file.
- `secure_filename`: a function parameter `secure`.
- `extract_name` (OCR_test_Rp.py:129-144): its result depends on spaCy's model, tagger and matcher order, so it is a function parameter `nameOf`.
- PyMuPDF, Tesseract/PIL and python-docx are inputs: page sizes, page texts, per-image OCR results, paragraph texts and image OCR text.
- A PDF's text comes from the painted pages, not from the file saved on disk. It is assumed the saved copy reads back as the painted pages. Painting adds a rectangle to a page's drawings and never hides its text or images, as PyMuPDF's `draw_rect` does.
- The shared file name `preprocessed.pdf` under concurrent requests is not modelled.
- `print` logging on errors.
- Unicode: character classes, `lower()`, `strip()` and `re.IGNORECASE` are ASCII only. Python's full case folding (for example, the Kelvin sign matching 'k') is not modelled.
- Skills: `list(set)` ordering is hash order, so the result is modelled as a set.
- The failure outcome (`TextUnbound`) stands for the `UnboundLocalError` raised at the first use of `text`. The HTTP status Flask then sends is not modelled.
- `Langchain_model_parser.py` and `extract name.py` are not part of this model.
- A failed PDF preprocessing: `upload_and_process` has no fallback to raw extraction from the original file, so `text` stays unassigned. The model follows the code (`App.PreprocessFailureLeavesTextUnbound`).
- `file` truthiness at OCR_test_Rp.py:172: the model takes a non-empty file name to mean the part is present, as werkzeug's `FileStorage` does. A `None` filename is not modelled.
