/**
 * The upload type classifier: three ordered tiers (content sniffing, magic-byte
 * signatures, filename extension) that either name an allowed MIME type or reject.
 * The sniffing library and the extension guesser are oracles passed in.
 */
module FileValidator {
  import opened Http
  import opened Uploads
  import opened Text
  import Paths

  const PDF_MIME := "application/pdf"
  const DOCX_MIME := "application/vnd.openxmlformats-officedocument.wordprocessingml.document"
  const TEXT_MIME := "text/plain"
  const OCTET_STREAM := "application/octet-stream"

  const ALLOWED_MIME_TYPES: seq<string> := [PDF_MIME, DOCX_MIME, TEXT_MIME]
  const ALLOWED_EXTENSIONS: seq<string> := [".pdf", ".docx", ".txt"]
  const CHUNK_SIZE_FOR_VALIDATION: nat := 2048

  /** `%PDF` */
  const PDF_SIGNATURE: seq<Byte> := [0x25, 0x50, 0x44, 0x46]
  /** `PK\x03\x04`, the local-file header every ZIP container starts with */
  const ZIP_SIGNATURE: seq<Byte> := [0x50, 0x4B, 0x03, 0x04]

  /** The signature table, in the dictionary's iteration order. */
  const FILE_SIGNATURES: seq<(seq<Byte>, string)> := [(PDF_SIGNATURE, PDF_MIME), (ZIP_SIGNATURE, DOCX_MIME)]

  /** The last-resort table of the extension tier. */
  const EXTENSION_TO_MIME: map<string, string> := map[".pdf" := PDF_MIME, ".docx" := DOCX_MIME, ".txt" := TEXT_MIME]

  const INVALID_EXTENSION := HttpError(BAD_REQUEST, "Invalid file type. Allowed file types: " + Join(ALLOWED_EXTENSIONS, ", "))

  /** The 400 the first tier builds for a detection outside the allowed list. */
  function DetectionRejected(mime: string): HttpError
  {
    HttpError(BAD_REQUEST, "Invalid file type: " + mime + ". Allowed types: " + Join(ALLOWED_MIME_TYPES, ", "))
  }

  /** What one call of `magic.from_buffer(chunk, mime=True)` does. */
  datatype FromBuffer = Raises | Returns(mime: string)

  /** The sniffing library: not importable, or importable with its detector. */
  datatype Detector = Missing | Loaded(fromBuffer: seq<Byte> -> FromBuffer)

  /** What the first tier observed. */
  datatype MagicOutcome = Unavailable | Failed | Detected(mime: string)

  /** `mimetypes.guess_type(filename)[0]`. */
  type Guesser = string -> Option<string>

  /** A classification and the stream as the classifier leaves it. */
  datatype Validation = Validation(result: Result<string>, stream: Stream)

  predicate Allowed(mime: string)
  {
    mime in ALLOWED_MIME_TYPES
  }

  /** The first tier accepts only a detection in the allowed list. */
  predicate MagicAccepts(o: MagicOutcome)
  {
    o.Detected? && Allowed(o.mime)
  }

  /** The extension the third tier tests: the suffix, lower-cased. */
  function GateExtension(filename: string): (r: string)
    ensures |r| == |Paths.Suffix(filename)|
    ensures r == "" || (2 <= |r| && r[0] == '.' && '.' !in r[1..])
  {
    Lower(Paths.Suffix(filename))
  }

  /**
   * Tier 1: sniff the first chunk read from the current position, then rewind.
   * A raising detector also ends with a rewind, in the exception handler.
   */
  function Sniff(detector: Detector, s: Stream): (r: (MagicOutcome, Stream))
    ensures r.0.Unavailable? <==> detector.Missing?
    ensures detector.Missing? ==> r.1 == s
    ensures detector.Loaded? ==> r.1 == Rewind(s)
    ensures detector.Loaded? ==>
              var v := detector.fromBuffer(Read(s, CHUNK_SIZE_FOR_VALIDATION).0);
              r.0 == (if v.Raises? then Failed else Detected(v.mime))
  {
    match detector
    case Missing => (Unavailable, s)
    case Loaded(fromBuffer) =>
      var read := Read(s, CHUNK_SIZE_FOR_VALIDATION);
      match fromBuffer(read.0)
      case Raises => (Failed, Rewind(read.1))
      case Returns(mime) => (Detected(mime), Rewind(read.1))
  }

  /**
   * Tier 2 scan: the MIME type of the first entry, in table order, whose signature
   * starts `chunk` and whose type is allowed.
   */
  function MatchSignature(table: seq<(seq<Byte>, string)>, chunk: seq<Byte>): (r: Option<string>)
    ensures r.Some? ==> Allowed(r.value)
    ensures r.Some? <==> exists k :: 0 <= k < |table| && StartsWith(chunk, table[k].0) && Allowed(table[k].1)
    ensures r.Some? ==> exists k :: 0 <= k < |table| && StartsWith(chunk, table[k].0) && table[k].1 == r.value
  {
    if |table| == 0 then None
    else if StartsWith(chunk, table[0].0) && Allowed(table[0].1) then Some(table[0].1)
    else
      var rest := MatchSignature(table[1..], chunk);
      assert forall k :: 1 <= k < |table| ==> table[k] == table[1..][k - 1];
      rest
  }

  /** The bytes tier 2 inspects: one chunk read after tier 1, from where tier 1 left the stream. */
  function SignatureChunk(detector: Detector, s: Stream): seq<Byte>
  {
    Read(Sniff(detector, s).1, CHUNK_SIZE_FOR_VALIDATION).0
  }

  /**
   * Tier 3. A missing filename makes `Path(None)` raise, which FastAPI turns into a 500.
   * Otherwise the lower-cased suffix must be allowed; the declared content type, or when it
   * is empty the guess, is kept when allowed, and the extension table decides the rest.
   */
  function ExtensionTier(filename: Option<string>, contentType: Option<string>, guess: Guesser): (r: Result<string>)
    ensures filename.None? ==> r == Err(UNHANDLED)
    ensures filename.Some? && GateExtension(filename.value) !in ALLOWED_EXTENSIONS ==> r == Err(INVALID_EXTENSION)
    ensures filename.Some? && GateExtension(filename.value) in ALLOWED_EXTENSIONS ==> r.Ok? && Allowed(r.value)
  {
    match filename
    case None => Err(UNHANDLED)
    case Some(name) =>
      var ext := GateExtension(name);
      if ext !in ALLOWED_EXTENSIONS then Err(INVALID_EXTENSION)
      else
        var mime := if Truthy(contentType) then contentType else guess(name);
        if Truthy(mime) && Allowed(mime.value) then Ok(mime.value)
        else Ok(if ext in EXTENSION_TO_MIME then EXTENSION_TO_MIME[ext] else OCTET_STREAM)
  }

  /** `validate_file_type`: the three tiers in order; the stream always ends rewound. */
  function ValidateFileType(detector: Detector, file: UploadFile, guess: Guesser): (r: Validation)
    ensures r.stream == Rewind(file.stream)
    ensures r.result.Ok? ==> Allowed(r.result.value)
    ensures r.result.Err? ==> r.result.error == INVALID_EXTENSION || r.result.error == UNHANDLED
  {
    var sniffed := Sniff(detector, file.stream);
    if MagicAccepts(sniffed.0) then Validation(Ok(sniffed.0.mime), sniffed.1)
    else
      var read := Read(sniffed.1, CHUNK_SIZE_FOR_VALIDATION);
      var rewound := Rewind(read.1);
      match MatchSignature(FILE_SIGNATURES, read.0)
      case Some(mime) => Validation(Ok(mime), rewound)
      case None => Validation(ExtensionTier(file.filename, file.contentType, guess), rewound)
  }

  /**
   * The classifier as its documentation describes it: a detection outside the allowed
   * list rejects the upload with the first tier's own 400 instead of falling through.
   * Every other outcome is the one of `ValidateFileType`.
   */
  function StrictValidateFileType(detector: Detector, file: UploadFile, guess: Guesser): (r: Validation)
    ensures r.stream == Rewind(file.stream)
    ensures r.result.Ok? ==> Allowed(r.result.value)
    ensures r.result.Err? ==>
              r.result.error == INVALID_EXTENSION || r.result.error == UNHANDLED
              || exists mime :: r.result.error == DetectionRejected(mime)
  {
    var sniffed := Sniff(detector, file.stream);
    if sniffed.0.Detected? && !Allowed(sniffed.0.mime) then
      Validation(Err(DetectionRejected(sniffed.0.mime)), sniffed.1)
    else ValidateFileType(detector, file, guess)
  }
}
