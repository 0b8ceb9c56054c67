/** Upload validation: an ordered chain of checks on an uploaded file (size, MIME type,
    CSV row count, PDF page count) that reports the first failure. */
module Validation {
  import opened Wrappers
  import opened Text
  import opened CsvIngestion
  import opened PdfIngestion

  const MaxFileSize: nat := 10 * 1024 * 1024

  const MaxPdfPages: nat := 30

  const AllowedTypes: seq<string> := ["application/pdf", "text/csv", "application/vnd.ms-excel", "text/plain"]

  /** An uploaded file: its size, its MIME type, and what the parsers make of its bytes. */
  datatype UploadedFile = UploadedFile(size: nat, mimeType: string, csv: CsvParserOutcome, pdf: PdfExtraction)

  datatype ValidationResult = Valid | Invalid(error: string)

  const FileTooLargeMessage: string := "File too large. Maximum size is " + NatToString(MaxFileSize / 1024 / 1024) + "MB."

  const InvalidTypeMessage: string := "Invalid file type. Only PDF and CSV files are supported."

  /** The entity name `parseCSV` uses when none is given. */
  const DefaultEntity: string := "record"

  function ValidateFileSize(file: UploadedFile): (r: ValidationResult)
    ensures r.Valid? <==> file.size <= MaxFileSize
    ensures r.Invalid? ==> r.error == FileTooLargeMessage
  {
    if file.size > MaxFileSize then Invalid(FileTooLargeMessage) else Valid
  }

  function ValidateFileType(file: UploadedFile): (r: ValidationResult)
    ensures r.Valid? <==> exists k :: 0 <= k < |AllowedTypes| && AllowedTypes[k] == file.mimeType
    ensures r.Invalid? ==> r.error == InvalidTypeMessage
  {
    if file.mimeType !in AllowedTypes then Invalid(InvalidTypeMessage) else Valid
  }

  /** The synchronous-processing limit message, for a count and a unit. */
  function TooLargeMessage(count: string, unit: string, max: nat): string {
    "Document too large for synchronous processing: " + count + " " + unit + " (max " + NatToString(max) + ")"
  }

  /** `validateCSVRows`: files whose type does not mention "csv" pass unparsed; otherwise a
      parse failure is reported with the parser's own message. */
  function ValidateCsvRows(file: UploadedFile): ValidationResult {
    if !Contains(file.mimeType, "csv") then Valid
    else
      match ParseCsv(file.csv, DefaultEntity)
      case Err(message) => Invalid(message)
      case Ok(parsed) =>
        var found := NatToString(|parsed.rows|);
        if |parsed.rows| > MaxCsvRows then Invalid(TooLargeMessage(found, "rows", MaxCsvRows))
        else Valid
  }

  /** The CSV check fails exactly when the type mentions "csv" and parsing fails, and then
      it carries the parser's message: its own row-limit branch can never be taken,
      because parsing already enforces the same limit. */
  lemma ValidateCsvRowsSpec(file: UploadedFile)
    ensures ValidateCsvRows(file).Valid? <==>
      !Contains(file.mimeType, "csv") || ParseCsv(file.csv, DefaultEntity).Ok?
    ensures ValidateCsvRows(file).Invalid? ==>
      ValidateCsvRows(file).error == ParseCsv(file.csv, DefaultEntity).error
  {
  }

  /** A CSV upload with more records than the limit is rejected with the parser's
      row-limit message; one with exactly the limit passes. */
  lemma ValidateCsvRowsLimit(file: UploadedFile)
    requires Contains(file.mimeType, "csv") && file.csv.Records? && file.csv.records != []
    requires file.csv.records[0] != []
    ensures |file.csv.records| > MaxCsvRows ==>
      ValidateCsvRows(file) == Invalid(RowLimitMessage(|file.csv.records|))
    ensures |file.csv.records| == MaxCsvRows ==> ValidateCsvRows(file) == Valid
  {
    ValidateCsvRowsSpec(file);
  }

  /** `validatePDFPages`: files whose type does not mention "pdf" pass unparsed; otherwise
      a parse failure is reported with its message, and more than 30 pages is too many. */
  function ValidatePdfPages(file: UploadedFile): (r: ValidationResult)
    ensures r.Valid? <==>
      !Contains(file.mimeType, "pdf")
      || (ParsePdf(file.pdf).Success? && |ParsePdf(file.pdf).value.pages| <= MaxPdfPages)
  {
    if !Contains(file.mimeType, "pdf") then Valid
    else
      match ParsePdf(file.pdf)
      case Failure(e) => Invalid(e.message)
      case Success(parsed) =>
        if |parsed.pages| > MaxPdfPages then Invalid(TooLargeMessage(NatToString(|parsed.pages|), "pages", MaxPdfPages))
        else Valid
  }

  /** `validateDocument`: the four checks in order; the first failure is the result. */
  function ValidateDocument(file: UploadedFile): ValidationResult {
    var size := ValidateFileSize(file);
    if size.Invalid? then size
    else
      var kind := ValidateFileType(file);
      if kind.Invalid? then kind
      else
        var rows := ValidateCsvRows(file);
        if rows.Invalid? then rows
        else
          var pages := ValidatePdfPages(file);
          if pages.Invalid? then pages
          else Valid
  }

  /** A file is valid exactly when it passes every check. */
  lemma ValidateDocumentAll(file: UploadedFile)
    ensures ValidateDocument(file).Valid? <==>
      ValidateFileSize(file).Valid? && ValidateFileType(file).Valid?
      && ValidateCsvRows(file).Valid? && ValidatePdfPages(file).Valid?
  {
  }

  /** The result is the failure of the earliest failing check: a size failure hides every
      later one, a type failure hides the content checks. */
  lemma ValidateDocumentFirstFailure(file: UploadedFile)
    ensures ValidateFileSize(file).Invalid? ==> ValidateDocument(file) == ValidateFileSize(file)
    ensures ValidateFileSize(file).Valid? && ValidateFileType(file).Invalid? ==>
      ValidateDocument(file) == ValidateFileType(file)
    ensures ValidateFileSize(file).Valid? && ValidateFileType(file).Valid? && ValidateCsvRows(file).Invalid? ==>
      ValidateDocument(file) == ValidateCsvRows(file)
  {
  }

  /** `sub` is not mentioned by `s` when its character `c` does not occur in `s`. */
  lemma NotMentioned(s: string, sub: string, c: char)
    requires c in sub && c !in s
    ensures !Contains(s, sub)
  {
    ContainedCharsOccur(s, sub);
  }

  /** A PDF upload is not parsed as CSV. */
  lemma PdfSkipsCsvCheck(file: UploadedFile)
    requires file.mimeType == "application/pdf"
    ensures ValidateCsvRows(file) == Valid
  {
    NotMentioned("application/pdf", "csv", 'v');
  }

  /** A CSV, Excel or plain-text upload is not parsed as PDF. */
  lemma CsvSkipsPdfCheck(file: UploadedFile)
    requires file.mimeType == "text/csv" || file.mimeType == "application/vnd.ms-excel" || file.mimeType == "text/plain"
    ensures ValidatePdfPages(file) == Valid
  {
    if file.mimeType == "text/csv" {
      NotMentioned("text/csv", "pdf", 'p');
    } else if file.mimeType == "text/plain" {
      NotMentioned("text/plain", "pdf", 'd');
    } else {
      NotMentioned("application/vnd.ms-excel", "pdf", 'f');
    }
    assert !Contains(file.mimeType, "pdf");
  }

  /** Every failure carries a non-empty message. */
  lemma InvalidHasMessage(file: UploadedFile)
    ensures ValidateDocument(file).Invalid? ==> ValidateDocument(file).error != ""
  {
    ParseCsvErrorNonEmpty(file.csv, DefaultEntity);
    ParsePdfErrorNonEmpty(file.pdf);
  }
}
