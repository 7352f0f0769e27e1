/**
 * The browser-side gate of `middleware/fileValidation.js`: a file passes when its
 * MIME type is one of thirteen listed types and its size is at most 10 MiB.
 */
module MimeGate {
  import opened Wrappers

  const SupportedFormats: seq<string> := [
    "image/png",
    "image/jpeg",
    "image/jpg",
    "image/gif",
    "image/webp",
    "video/mp4",
    "video/webm",
    "audio/mpeg",
    "audio/mp3",
    "application/pdf",
    "application/zip",
    "application/x-zip-compressed",
    "text/plain"
  ]

  /** MAX_FILE_SIZE: 10 MiB. */
  const MaxFileSize: nat := 10 * 1024 * 1024

  const UnsupportedFormatMessage: string := "Unsupported file format."
  const TooLargeMessage: string := "File size exceeds 10MB limit."

  /** The parts of a browser `File` the gate sees; `name` is carried but never read. */
  datatype BrowserFile = BrowserFile(name: string, mimeType: string, size: nat)

  datatype GateResult = GateResult(valid: bool, error: Option<string>)

  /** `validateFile(file)`: the type test first, then the size test. */
  function ValidateFile(file: BrowserFile): (r: GateResult)
    ensures r.valid <==> file.mimeType in SupportedFormats && file.size <= MaxFileSize
    ensures r.valid <==> r.error.None?
    ensures file.mimeType !in SupportedFormats ==> r.error == Some(UnsupportedFormatMessage)
    ensures file.mimeType in SupportedFormats && file.size > MaxFileSize ==> r.error == Some(TooLargeMessage)
  {
    if file.mimeType !in SupportedFormats then GateResult(false, Some(UnsupportedFormatMessage))
    else if file.size > MaxFileSize then GateResult(false, Some(TooLargeMessage))
    else GateResult(true, None)
  }

  /** The verdict depends on the type and the size alone. */
  lemma GateIgnoresName(f1: BrowserFile, f2: BrowserFile)
    requires f1.mimeType == f2.mimeType && f1.size == f2.size
    ensures ValidateFile(f1) == ValidateFile(f2)
  {
  }

  /** The size bound is inclusive: 10485760 bytes pass, one byte more does not. */
  lemma GateSizeBoundary(name: string)
    ensures ValidateFile(BrowserFile(name, "image/png", 10485760)).valid
    ensures ValidateFile(BrowserFile(name, "image/png", 10485761)) == GateResult(false, Some(TooLargeMessage))
  {
  }

  /** An oversize file of an unlisted type gets the format error, not the size error. */
  lemma GateTypeBeforeSize(name: string, size: nat)
    requires size > MaxFileSize
    ensures ValidateFile(BrowserFile(name, "image/svg+xml", size)).error == Some(UnsupportedFormatMessage)
  {
    assert "image/svg+xml" !in SupportedFormats;
  }
}
