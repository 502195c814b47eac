/** What the classifier promises, stated across calls and inputs. */
module FileValidatorProperties {
  import opened Http
  import opened Uploads
  import opened Text
  import Paths
  import opened FileValidator

  /**
   * A disallowed detection is swallowed by the tier's own exception handler, exactly
   * like a raising detector: the outcome is the one of a deployment without the library,
   * handed the rewound stream (the same stream when the upload starts at byte 0).
   */
  lemma MagicRejectionFallsThrough(fromBuffer: seq<Byte> -> FromBuffer, file: UploadFile, guess: Guesser)
    requires var sniffed := fromBuffer(Read(file.stream, CHUNK_SIZE_FOR_VALIDATION).0);
      sniffed.Raises? || !Allowed(sniffed.mime)
    ensures ValidateFileType(Loaded(fromBuffer), file, guess)
         == ValidateFileType(Missing, file.(stream := Rewind(file.stream)), guess)
    ensures file.stream.pos == 0 ==>
              ValidateFileType(Loaded(fromBuffer), file, guess) == ValidateFileType(Missing, file, guess)
  {
    var withMagic := file.stream;
    var without := Rewind(file.stream);
    assert Sniff(Loaded(fromBuffer), withMagic).1 == Sniff(Missing, without).1;
    assert !MagicAccepts(Sniff(Loaded(fromBuffer), withMagic).0);
    if file.stream.pos == 0 {
      assert file.(stream := Rewind(file.stream)) == file;
    }
  }

  /** An allowed detection is the classifier's answer, whatever the later tiers would say. */
  lemma MagicAcceptedIsReturned(fromBuffer: seq<Byte> -> FromBuffer, file: UploadFile, guess: Guesser)
    requires var o := fromBuffer(Read(file.stream, CHUNK_SIZE_FOR_VALIDATION).0);
      o.Returns? && Allowed(o.mime)
    ensures ValidateFileType(Loaded(fromBuffer), file, guess)
         == Validation(Ok(fromBuffer(Read(file.stream, CHUNK_SIZE_FOR_VALIDATION).0).mime), Rewind(file.stream))
  {
  }

  /**
   * As written, a detection outside the allowed list does not reject: an upload whose
   * name passes the extension gate is accepted whatever the library detected.
   */
  lemma RefusedDetectionAccepted(fromBuffer: seq<Byte> -> FromBuffer, file: UploadFile, guess: Guesser)
    requires var o := fromBuffer(Read(file.stream, CHUNK_SIZE_FOR_VALIDATION).0);
      o.Returns? && !Allowed(o.mime)
    requires file.filename.Some? && GateExtension(file.filename.value) in ALLOWED_EXTENSIONS
    ensures ValidateFileType(Loaded(fromBuffer), file, guess).result.Ok?
  {
  }

  /**
   * The documented classifier rejects exactly the refused detections the code lets
   * through, with the first tier's 400, and agrees with the code on every other upload.
   */
  lemma StrictRejectsRefusedDetection(detector: Detector, file: UploadFile, guess: Guesser)
    ensures var o := Sniff(detector, file.stream).0;
      o.Detected? && !Allowed(o.mime) ==>
        StrictValidateFileType(detector, file, guess).result == Err(DetectionRejected(o.mime))
    ensures var o := Sniff(detector, file.stream).0;
      !(o.Detected? && !Allowed(o.mime)) ==>
        StrictValidateFileType(detector, file, guess) == ValidateFileType(detector, file, guess)
  {
  }

  /** When tier 2 reads from byte 0, its chunk is the first 2048 bytes of the upload. */
  lemma SignatureChunkIsPrefix(detector: Detector, s: Stream)
    requires s.pos == 0 || detector.Loaded?
    ensures SignatureChunk(detector, s) == Prefix(s.data, CHUNK_SIZE_FOR_VALIDATION)
  {
  }

  lemma StartsWithPrefix(data: seq<Byte>, sig: seq<Byte>, n: nat)
    requires |sig| <= n
    ensures StartsWith(Prefix(data, n), sig) <==> StartsWith(data, sig)
  {
    var p := Prefix(data, n);
    if |sig| <= |p| {
      assert p[..|sig|] == data[..|sig|];
    }
  }

  /**
   * Unless the sniffer accepted, content beginning `%PDF` is a PDF and content beginning
   * `PK\x03\x04` is a Word document, whatever the filename or declared type say.
   */
  lemma SignatureOverridesFilename(detector: Detector, file: UploadFile, guess: Guesser)
    requires !MagicAccepts(Sniff(detector, file.stream).0)
    requires file.stream.pos == 0 || detector.Loaded?
    ensures StartsWith(file.stream.data, PDF_SIGNATURE) ==> ValidateFileType(detector, file, guess).result == Ok(PDF_MIME)
    ensures StartsWith(file.stream.data, ZIP_SIGNATURE) ==> ValidateFileType(detector, file, guess).result == Ok(DOCX_MIME)
  {
    var chunk := SignatureChunk(detector, file.stream);
    SignatureChunkIsPrefix(detector, file.stream);
    StartsWithPrefix(file.stream.data, PDF_SIGNATURE, CHUNK_SIZE_FOR_VALIDATION);
    StartsWithPrefix(file.stream.data, ZIP_SIGNATURE, CHUNK_SIZE_FOR_VALIDATION);
    if StartsWith(file.stream.data, PDF_SIGNATURE) {
      PdfSignatureMatches(chunk);
    }
    if StartsWith(file.stream.data, ZIP_SIGNATURE) {
      ZipSignatureMatches(chunk);
    }
  }

  lemma PdfSignatureMatches(chunk: seq<Byte>)
    requires StartsWith(chunk, PDF_SIGNATURE)
    ensures MatchSignature(FILE_SIGNATURES, chunk) == Some(PDF_MIME)
  {
    assert FILE_SIGNATURES[0] == (PDF_SIGNATURE, PDF_MIME);
  }

  lemma ZipSignatureMatches(chunk: seq<Byte>)
    requires StartsWith(chunk, ZIP_SIGNATURE)
    ensures MatchSignature(FILE_SIGNATURES, chunk) == Some(DOCX_MIME)
  {
    assert chunk[0] == ZIP_SIGNATURE[0] != PDF_SIGNATURE[0];
    assert !StartsWith(chunk, PDF_SIGNATURE);
    var rest := FILE_SIGNATURES[1..];
    assert rest == [(ZIP_SIGNATURE, DOCX_MIME)];
    assert MatchSignature(rest, chunk) == Some(DOCX_MIME);
  }

  /**
   * The classifier rejects exactly when no tier accepts: the sniffer did not accept, no
   * signature matched, and the filename is missing (a 500) or its lower-cased suffix is
   * not an allowed extension (a 400).
   */
  lemma RejectionIffNoTierAccepts(detector: Detector, file: UploadFile, guess: Guesser)
    ensures ValidateFileType(detector, file, guess).result.Err? <==>
              && !MagicAccepts(Sniff(detector, file.stream).0)
              && MatchSignature(FILE_SIGNATURES, SignatureChunk(detector, file.stream)).None?
              && (file.filename.None? || GateExtension(file.filename.value) !in ALLOWED_EXTENSIONS)
    ensures ValidateFileType(detector, file, guess).result == Err(INVALID_EXTENSION) <==>
              && !MagicAccepts(Sniff(detector, file.stream).0)
              && MatchSignature(FILE_SIGNATURES, SignatureChunk(detector, file.stream)).None?
              && file.filename.Some? && GateExtension(file.filename.value) !in ALLOWED_EXTENSIONS
  {
    assert INVALID_EXTENSION != UNHANDLED;
  }

  /** Two filenames equal up to letter case meet the extension gate with the same extension. */
  lemma GateIgnoresCase(a: string, b: string)
    requires Lower(a) == Lower(b)
    ensures GateExtension(a) == GateExtension(b)
  {
    Paths.SuffixLower(a);
    Paths.SuffixLower(b);
  }

  /** Renaming an upload to a different letter case never changes whether it is rejected. */
  lemma RejectionIgnoresFilenameCase(detector: Detector, file: UploadFile, other: string, guess: Guesser)
    requires file.filename.Some? && Lower(file.filename.value) == Lower(other)
    ensures ValidateFileType(detector, file, guess).result.Err?
        <==> ValidateFileType(detector, file.(filename := Some(other)), guess).result.Err?
  {
    GateIgnoresCase(file.filename.value, other);
    RejectionIffNoTierAccepts(detector, file, guess);
    RejectionIffNoTierAccepts(detector, file.(filename := Some(other)), guess);
  }

  /** A name ending `.TXT` passes the gate exactly as the same name ending `.txt`: both are gated as `.txt`. */
  lemma UpperCaseTextFilePassesGate(stem: string)
    requires stem != "" && '/' !in stem
    ensures GateExtension(stem + "." + "TXT") == ".txt" == GateExtension(stem + "." + "txt")
    ensures ".txt" in ALLOWED_EXTENSIONS
  {
    Paths.SuffixOfFileName(stem, "TXT");
    Paths.SuffixOfFileName(stem, "txt");
    LowerTxt();
  }

  lemma LowerTxt()
    ensures Lower("." + "TXT") == ".txt" == Lower("." + "txt")
  {
  }

  /**
   * Once the extension tier is reached with an allowed extension, a non-empty declared
   * content type is used instead of the guess: the guess never matters, and a declared
   * type outside the allowed list is replaced by the extension table's entry.
   */
  lemma DeclaredTypeTakesPrecedence(detector: Detector, file: UploadFile, guess1: Guesser, guess2: Guesser)
    requires !MagicAccepts(Sniff(detector, file.stream).0)
    requires MatchSignature(FILE_SIGNATURES, SignatureChunk(detector, file.stream)).None?
    requires file.filename.Some? && GateExtension(file.filename.value) in ALLOWED_EXTENSIONS
    requires Truthy(file.contentType)
    ensures ValidateFileType(detector, file, guess1).result == ValidateFileType(detector, file, guess2).result
    ensures ValidateFileType(detector, file, guess1).result
         == Ok(if Allowed(file.contentType.value) then file.contentType.value
               else EXTENSION_TO_MIME[GateExtension(file.filename.value)])
  {
  }

  /** Without a declared type, the guess is used when allowed and the extension table otherwise. */
  lemma GuessUsedWithoutDeclaredType(detector: Detector, file: UploadFile, guess: Guesser)
    requires !MagicAccepts(Sniff(detector, file.stream).0)
    requires MatchSignature(FILE_SIGNATURES, SignatureChunk(detector, file.stream)).None?
    requires file.filename.Some? && GateExtension(file.filename.value) in ALLOWED_EXTENSIONS
    requires !Truthy(file.contentType)
    ensures var g := guess(file.filename.value);
      ValidateFileType(detector, file, guess).result
        == Ok(if Truthy(g) && Allowed(g.value) then g.value else EXTENSION_TO_MIME[GateExtension(file.filename.value)])
  {
  }

  /**
   * The extension table has an entry for exactly the allowed extensions, each an allowed
   * type, so the `application/octet-stream` default behind the gate is never returned.
   */
  lemma OctetStreamUnreachable(detector: Detector, file: UploadFile, guess: Guesser)
    ensures forall ext :: ext in EXTENSION_TO_MIME <==> ext in ALLOWED_EXTENSIONS
    ensures forall ext :: ext in EXTENSION_TO_MIME ==> Allowed(EXTENSION_TO_MIME[ext])
    ensures ValidateFileType(detector, file, guess).result != Ok(OCTET_STREAM)
  {
    assert !Allowed(OCTET_STREAM);
  }

  /**
   * For uploads handed over at byte 0 the classification depends on nothing past the
   * first 2048 bytes: uploads that agree there, and in their metadata, classify alike.
   */
  lemma ClassificationReadsOnlyPrefix(detector: Detector, a: UploadFile, b: UploadFile, guess: Guesser)
    requires a.stream.pos == 0 && b.stream.pos == 0
    requires a.filename == b.filename && a.contentType == b.contentType
    requires Prefix(a.stream.data, CHUNK_SIZE_FOR_VALIDATION) == Prefix(b.stream.data, CHUNK_SIZE_FOR_VALIDATION)
    ensures ValidateFileType(detector, a, guess).result == ValidateFileType(detector, b, guess).result
  {
    assert Read(a.stream, CHUNK_SIZE_FOR_VALIDATION).0 == Read(b.stream, CHUNK_SIZE_FOR_VALIDATION).0;
    assert Sniff(detector, a.stream).0 == Sniff(detector, b.stream).0;
    SignatureChunkIsPrefix(detector, a.stream);
    SignatureChunkIsPrefix(detector, b.stream);
  }
}
