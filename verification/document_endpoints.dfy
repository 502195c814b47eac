/**
 * The upload endpoint: where an upload is stored and what record describes it.
 * The classifier is not consulted; the record's type is the client's claim.
 */
module DocumentEndpoints {
  import opened Http
  import opened Uploads
  import opened Records
  import Paths
  import Text
  import FileValidator

  /** The upload directory, relative to the working directory. */
  const UPLOAD_DIR := "uploads"

  const NO_FILENAME := HttpError(BAD_REQUEST, "No filename provided")
  const PENDING := "pending"

  /** `str(UPLOAD_DIR / str(user) / f"{file_id}{suffix}")`. */
  function StoredPath(user: Uuid, fileId: Uuid, suffix: string): string
  {
    UPLOAD_DIR + "/" + user + "/" + fileId + suffix
  }

  /** Reads a stored path back into the owner, the file id and the suffix, when it has that shape. */
  function ParseStoredPath(path: string): (r: Option<(Uuid, Uuid, string)>)
    ensures r.Some? ==> StoredPath(r.value.0, r.value.1, r.value.2) == path
  {
    if |path| >= 81 && path[..8] == UPLOAD_DIR + "/" && path[44] == '/'
       && IsUuidText(path[8..44]) && IsUuidText(path[45..81])
    then
      assert path == path[..8] + path[8..44] + [path[44]] + path[45..81] + path[81..];
      Some((path[8..44], path[45..81], path[81..]))
    else None
  }

  /** A stored path names its owner, its file id and its suffix, and nothing else does. */
  lemma StoredPathRoundTrip(user: Uuid, fileId: Uuid, suffix: string)
    ensures ParseStoredPath(StoredPath(user, fileId, suffix)) == Some((user, fileId, suffix))
  {
    var p := StoredPath(user, fileId, suffix);
    assert p[..8] == UPLOAD_DIR + "/";
    assert p[8..44] == user;
    assert p[44] == '/';
    assert p[45..81] == fileId;
    assert p[81..] == suffix;
  }

  /** Uploads with different owners or file ids are never stored at the same path. */
  lemma DistinctUploadsDistinctPaths(u1: Uuid, f1: Uuid, s1: string, u2: Uuid, f2: Uuid, s2: string)
    requires u1 != u2 || f1 != f2
    ensures StoredPath(u1, f1, s1) != StoredPath(u2, f2, s2)
  {
    StoredPathRoundTrip(u1, f1, s1);
    StoredPathRoundTrip(u2, f2, s2);
  }

  /**
   * `upload_document`: refuse a missing or empty filename before touching storage; otherwise
   * write the whole remaining stream to `uploads/<user>/<file id><suffix>` (the suffix as the
   * client cased it) and record it as pending, typed as declared or as a generic binary.
   */
  function UploadDocument(db: Db, current: Uuid, file: UploadFile, categoryId: Option<Uuid>, fileId: Uuid, docId: Uuid): (r: Result<(Db, Document)>)
    requires docId !in db.documents
    ensures r.Err? <==> !Truthy(file.filename)
    ensures r.Err? ==> r.error == NO_FILENAME
    ensures r.Ok? ==>
      var db' := r.value.0;
      var doc := r.value.1;
      && doc.filePath == StoredPath(current, fileId, Paths.Suffix(file.filename.value))
      && db'.files == db.files[doc.filePath := ReadAll(file.stream).0]
      && db'.documents == db.documents[docId := doc]
      && db'.users == db.users && db'.categories == db.categories
  {
    if !Truthy(file.filename) then Err(NO_FILENAME)
    else
      var name := file.filename.value;
      var suffix := Paths.Suffix(name);
      var path := StoredPath(current, fileId, suffix);
      var content := ReadAll(file.stream).0;
      var doc := Document(
        current, categoryId, name, path, |content|,
        if Truthy(file.contentType) then file.contentType.value else FileValidator.OCTET_STREAM,
        PENDING);
      Ok((db.(files := db.files[path := content], documents := db.documents[docId := doc]), doc))
  }

  /**
   * A stored upload adds or replaces one file and leaves every other file alone.
   * Its record's size is the number of bytes stored (the whole upload when it starts
   * at byte 0), its type is the declared one or a generic binary, its status is
   * pending, and it names the caller, the given category and the client's filename.
   */
  lemma UploadRecordFields(db: Db, current: Uuid, file: UploadFile, categoryId: Option<Uuid>, fileId: Uuid, docId: Uuid)
    requires docId !in db.documents
    requires UploadDocument(db, current, file, categoryId, fileId, docId).Ok?
    ensures var (db', doc) := UploadDocument(db, current, file, categoryId, fileId, docId).value;
      && db'.files.Keys == db.files.Keys + {doc.filePath}
      && (forall p :: p in db.files && p != doc.filePath ==> db'.files[p] == db.files[p])
      && doc.fileSize == |db'.files[doc.filePath]|
      && (file.stream.pos == 0 ==> db'.files[doc.filePath] == file.stream.data)
      && doc.mimeType == (if Truthy(file.contentType) then file.contentType.value else FileValidator.OCTET_STREAM)
      && doc.status == PENDING
      && doc.userId == current && doc.categoryId == categoryId && doc.originalFilename == file.filename.value
  {
  }

  /**
   * The stored path keeps the suffix as the client cased it, where the classifier's gate
   * lower-cases: a name ending `.PDF` is stored with `.PDF` and would be gated as `.pdf`.
   */
  lemma StoredSuffixKeepsCase(db: Db, current: Uuid, file: UploadFile, categoryId: Option<Uuid>, fileId: Uuid, docId: Uuid, stem: string)
    requires docId !in db.documents
    requires stem != "" && '/' !in stem
    requires file.filename == Some(stem + "." + "PDF")
    ensures UploadDocument(db, current, file, categoryId, fileId, docId).Ok?
    ensures UploadDocument(db, current, file, categoryId, fileId, docId).value.1.filePath == StoredPath(current, fileId, ".PDF")
    ensures FileValidator.GateExtension(stem + "." + "PDF") == ".pdf"
  {
    var name := stem + "." + "PDF";
    PdfSuffix(stem);
    assert name != "";
    assert Paths.Suffix(file.filename.value) == ".PDF";
  }

  lemma PdfSuffix(stem: string)
    requires stem != "" && '/' !in stem
    ensures Paths.Suffix(stem + "." + "PDF") == ".PDF"
    ensures FileValidator.GateExtension(stem + "." + "PDF") == ".pdf"
  {
    Paths.SuffixOfFileName(stem, "PDF");
    DotPdf();
  }

  lemma DotPdf()
    ensures "." + "PDF" == ".PDF"
    ensures Text.Lower(".PDF") == ".pdf"
  {
  }

  /**
   * Nothing classifies an upload before it is stored: an empty `.exe` file with no declared
   * type, which the classifier rejects, is stored and recorded as a generic binary.
   */
  lemma UploadSkipsClassifier(db: Db, current: Uuid, categoryId: Option<Uuid>, fileId: Uuid, docId: Uuid, guess: FileValidator.Guesser, stem: string)
    requires docId !in db.documents
    requires stem != "" && '/' !in stem
    ensures var file := UploadFile(Some(stem + "." + "exe"), None, Stream([], 0));
      && FileValidator.ValidateFileType(FileValidator.Missing, file, guess).result == Err(FileValidator.INVALID_EXTENSION)
      && UploadDocument(db, current, file, categoryId, fileId, docId).Ok?
      && UploadDocument(db, current, file, categoryId, fileId, docId).value.1.mimeType == FileValidator.OCTET_STREAM
  {
    ExeRejected(guess, stem);
  }

  lemma ExeRejected(guess: FileValidator.Guesser, stem: string)
    requires stem != "" && '/' !in stem
    ensures var file := UploadFile(Some(stem + "." + "exe"), None, Stream([], 0));
      FileValidator.ValidateFileType(FileValidator.Missing, file, guess).result == Err(FileValidator.INVALID_EXTENSION)
  {
    var file := UploadFile(Some(stem + "." + "exe"), None, Stream([], 0));
    EmptyChunkMatchesNoSignature();
    ExeGate(stem);
    assert Read(file.stream, FileValidator.CHUNK_SIZE_FOR_VALIDATION).0 == [];
  }

  lemma EmptyChunkMatchesNoSignature()
    ensures FileValidator.MatchSignature(FileValidator.FILE_SIGNATURES, []).None?
  {
    var empty: seq<Byte> := [];
    forall k | 0 <= k < |FileValidator.FILE_SIGNATURES|
      ensures !Text.StartsWith(empty, FileValidator.FILE_SIGNATURES[k].0)
    {
      assert |FileValidator.FILE_SIGNATURES[k].0| == 4;
    }
  }

  lemma ExeGate(stem: string)
    requires stem != "" && '/' !in stem
    ensures FileValidator.GateExtension(stem + "." + "exe") !in FileValidator.ALLOWED_EXTENSIONS
  {
    Paths.SuffixOfFileName(stem, "exe");
    LowerDotExe();
  }

  lemma LowerDotExe()
    ensures Text.Lower("." + "exe") == ".exe"
  {
  }
}
