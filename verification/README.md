# Upload classification and record bookkeeping of the AI Document Analyzer backend

This project models two parts of the document-analyzer API in Dafny and proves properties about them.

1. **The upload type classifier** (`validate_file_type`). It takes an upload and tries three tiers in order:
   - the `python-magic` content sniffer, on the first 2048 bytes;
   - a table of magic-byte signatures (`%PDF` is a PDF, `PK\x03\x04` is a Word document);
   - the lower-cased filename extension, gated on `.pdf`, `.docx` and `.txt`.

   The result is an allowed MIME type or a 400 rejection. The sniffer (`magic.from_buffer`) and `mimetypes.guess_type` are oracles passed in. The library's availability is part of the `Detector` value. The upload is a byte stream with a read position, so the model can state where the classifier leaves the stream and which bytes it reads.
2. **The bookkeeping of users, categories and upload records.** The database is an abstract state: maps of users, categories, document records and stored files. Each endpoint is a function. It either returns an HTTP error and changes nothing, or returns the new state and its response. The proved rules are:
   - email uniqueness, preserved by registration and by profile update;
   - username uniqueness, preserved by profile update but not by registration;
   - per-user uniqueness of active category names, preserved by create, update and delete;
   - soft deletion hides a category from the next lookup on, and no endpoint reactivates a deleted category;
   - the upload path is `uploads/<user id>/<fresh uuid><suffix>`, and the record's size, type and status are as stated.

The classifier reproduces one quirk of the code on purpose. At `Backend/utils/file_validator.py:70` the "not allowed" exception is raised inside the `try` whose `except Exception` catches it. So a sniffer detection outside the allowed list does not reject the upload. The classifier carries on as if the library were missing, on the rewound stream (`MagicRejectionFallsThrough`). This contradicts the function's own docstring (`Backend/utils/file_validator.py:50-51`, which promises an `HTTPException` for a type that is not allowed) and the `raise` at `:70-73`; see "## Findings". The signature tier maps every ZIP container to the Word type, so a plain ZIP named `x.pdf` is accepted as a Word document. The model follows the code.

`upload_document` never calls the classifier. It records the client's declared content type, or `application/octet-stream` when there is none (`UploadSkipsClassifier`). It stores the file under the suffix as the client cased it (`StoredSuffixKeepsCase`). The category id is recorded as given, with no ownership check.

`Path(...).suffix` is a standard-library rule. `Paths.Suffix` states it as follows: take the last path component after dropping trailing `/`, find its last `.` at index `i`, and return `name[i:]` when `0 < i < len(name) - 1`, otherwise `""`.

Modules:
- `Http`: error and result types.
- `Uploads`: the byte stream and `UploadFile`.
- `Text`: `rfind`, ASCII `lower`, `join`, `startswith`.
- `Paths`: the suffix rule.
- `FileValidator`, with its properties in `FileValidatorProperties`.
- `Records`: the database state.
- `UserEndpoints`, `CategoryEndpoints`, `DocumentEndpoints`.

## Model

| member | source | states |
|---|---|---|
| Uploads.Read | Backend/utils/file_validator.py:58 | `read(n)` returns at most `n` bytes, exactly the bytes from the current position up to `n` or the end, and advances the position past them over unchanged data. The same call is made at `:83`. |
| Uploads.ReadAll | Backend/main.py:360 | `read()` returns every byte from the current position to the end (the whole upload from byte 0) and leaves the position at the end. |
| Uploads.Rewind | Backend/utils/file_validator.py:64 | `seek(0)` keeps the data and sets the position to 0. The same call is made at `:79` and `:84`. |
| FileValidator.GateExtension | Backend/utils/file_validator.py:94 | The extension the gate tests has the length of the path's suffix, and is empty or a dot followed by at least one character with no further dot. Its case-insensitivity is stated by `GateIgnoresCase`. |
| FileValidator.Sniff | Backend/utils/file_validator.py:55-79 | Tier 1 reports "unavailable" exactly when the library is missing. In that case the stream is untouched. Otherwise it runs the detector on the at most 2048 bytes read from the current position, reports "failed" exactly when the detector raises and the detected type exactly when it returns one, and leaves the stream rewound either way. |
| FileValidator.MatchSignature | Backend/utils/file_validator.py:83-90 | The signature scan returns a type only when some table entry's signature starts the chunk and its type is allowed. It returns one whenever such an entry exists, and the type it returns is that of a matching entry. |
| FileValidator.ExtensionTier | Backend/utils/file_validator.py:92-117 | A missing filename gives a 500. A lower-cased suffix outside `.pdf/.docx/.txt` gives the 400 "Invalid file type" error. An allowed suffix always yields an allowed MIME type. |
| FileValidator.ValidateFileType | Backend/utils/file_validator.py:35-117 | Every accepted type is one of the three allowed MIME types. Every rejection is the 400 extension error or the 500 for a missing filename. The stream is left at position 0 with its contents unchanged. |
| FileValidatorProperties.MagicRejectionFallsThrough | Backend/utils/file_validator.py:66-79 | A raising detector, or a detection outside the allowed list, gives the same outcome and final stream as a deployment without the library handed the rewound stream. For an upload at byte 0 this is exactly the outcome without the library. |
| FileValidatorProperties.MagicAcceptedIsReturned | Backend/utils/file_validator.py:58-68 | When the loaded library detects an allowed type in the first chunk, that detected type is the result and the stream ends rewound, whatever the content, filename or declared type. |
| FileValidatorProperties.RefusedDetectionAccepted | Backend/utils/file_validator.py:66-79 | As written, a detection outside the allowed list never rejects by itself: an upload whose lower-cased suffix is allowed is accepted. |
| FileValidator.StrictValidateFileType | Backend/utils/file_validator.py:50-51 | The classifier as documented. Accepted types are allowed, the stream ends rewound, and a rejection is the extension 400, the missing-filename 500 or the first tier's "Invalid file type: <type>" 400. |
| FileValidatorProperties.StrictRejectsRefusedDetection | Backend/utils/file_validator.py:66-73 | The documented classifier rejects every detection outside the allowed list with the first tier's 400 naming the detected type, and agrees with the code's classifier on every other upload. |
| FileValidatorProperties.SignatureChunkIsPrefix | Backend/utils/file_validator.py:79-84 | Tier 2 inspects the first 2048 bytes of the upload whenever it reads from byte 0 (library loaded, or upload handed over at position 0). |
| FileValidatorProperties.SignatureOverridesFilename | Backend/utils/file_validator.py:83-90 | For uploads handed over at byte 0, or with the library loaded, and unless the sniffer accepted, content starting `%PDF` is classified `application/pdf` and content starting `PK\x03\x04` is classified as the .docx type, whatever the filename and declared type. |
| FileValidatorProperties.RejectionIffNoTierAccepts | Backend/utils/file_validator.py:94-101 | The classifier rejects if and only if the sniffer did not accept, no signature matched, and the filename is missing or its lower-cased suffix is not allowed. The 400 error occurs if and only if the filename is present and its suffix is refused. |
| FileValidatorProperties.GateIgnoresCase | Backend/utils/file_validator.py:94-97 | Filenames that are equal up to letter case reach the gate with the same extension. |
| FileValidatorProperties.RejectionIgnoresFilenameCase | Backend/utils/file_validator.py:94-101 | Changing only the letter case of the filename never changes whether the upload is rejected. |
| FileValidatorProperties.UpperCaseTextFilePassesGate | Backend/utils/file_validator.py:94-97 | For any plain stem (such as `REPORT`), the name ending `.TXT` and the name ending `.txt` both reach the gate as `.txt`, an allowed extension. |
| FileValidatorProperties.DeclaredTypeTakesPrecedence | Backend/utils/file_validator.py:103-117 | At the extension tier, a non-empty declared type makes the guesser irrelevant. The result is the declared type when it is allowed, and otherwise the extension table's entry. |
| FileValidatorProperties.GuessUsedWithoutDeclaredType | Backend/utils/file_validator.py:103-117 | With no declared type, or an empty one, the guess is used when it is allowed, and otherwise the extension table's entry. |
| FileValidatorProperties.OctetStreamUnreachable | Backend/utils/file_validator.py:109-117 | The extension table's keys are exactly the allowed extensions, and each maps to an allowed type. The classifier never returns `application/octet-stream`. |
| FileValidatorProperties.ClassificationReadsOnlyPrefix | Backend/utils/file_validator.py:54-90 | For uploads handed over at byte 0, the classification depends only on the first 2048 bytes and the metadata. |
| Paths.Name | Backend/utils/file_validator.py:94 | `PurePath.name` has no `/` and is a trailing part of the path once trailing slashes are dropped. `NameOfLastComponent` pins it to the last component. |
| Paths.Suffix | Backend/utils/file_validator.py:94 | The suffix is empty, or it is a dot followed by at least one character that is not a dot, with no `/`. It ends the last path component after a non-empty stem. |
| Paths.SuffixOfFileName | Backend/main.py:349 | A bare filename made of a non-empty stem, a dot and a dot-free extension has `.` + that extension as its suffix. |
| Paths.SuffixOfDottedName | Backend/main.py:349 | For any directory prefix, a name made of a non-empty stem, a dot and a dot-free extension has `.` + that extension as its suffix. |
| Paths.SuffixLower | Backend/utils/file_validator.py:94 | The suffix of the lower-cased filename is the lower-cased suffix. |
| UserEndpoints.CreateUser | Backend/main.py:93-120 | Registration fails with 400 "Email already registered" if and only if some user has that email. Otherwise it adds exactly the new user, changes nothing else, and preserves email uniqueness. |
| UserEndpoints.UpdateUserMe | Backend/main.py:151-184 | The update fails if and only if a given username or email is held by another user; the username is checked first. On success only the caller's record changes, and only in the given fields. Email and username uniqueness are both preserved. |
| UserEndpoints.CreateUserAllowsDuplicateUsername | Backend/main.py:102-114 | Registration does not check usernames. A new user may take an existing user's username, which breaks username uniqueness. |
| CategoryEndpoints.CreateCategory | Backend/main.py:192-225 | Creation fails with 400 if and only if the caller already has an active category with that name; deleted categories and other users' categories do not block it. On success it adds exactly the new active category and preserves active-name uniqueness. |
| CategoryEndpoints.ReadCategories | Backend/main.py:228-238 | The listing holds exactly the caller's categories whose `deleted_at` is unset, with their stored values. |
| CategoryEndpoints.UpdateCategory | Backend/main.py:241-293 | The update gives 404 unless the category is the caller's and active. It gives 400 if and only if the new name differs from the current name and another active category of the caller has it. The name changes only when given, the colour only when given, and nothing else changes. Active-name uniqueness is preserved. |
| CategoryEndpoints.DeleteCategory | Backend/main.py:296-322 | Deletion succeeds if and only if the category is the caller's and active, and otherwise gives 404. It sets only that category's `deleted_at` and preserves active-name uniqueness. |
| CategoryEndpoints.DeleteTwiceNotFound | Backend/main.py:303-316 | After a delete, deleting or updating the same id gives 404. |
| CategoryEndpoints.CreatedCategoryIsListed | Backend/main.py:200-237 | A created category appears in its owner's listing, and no other user's listing changes. |
| CategoryEndpoints.DeletedCategoryIsHidden | Backend/main.py:303-319 | A deleted category drops out of every listing; nothing else in any listing changes. |
| CategoryEndpoints.DeletedNameCanBeReused | Backend/main.py:200-214 | Under the invariant, after a delete the owner can create a new category with the deleted one's name. |
| CategoryEndpoints.ListedNamesDistinct | Backend/main.py:233-237 | Under the invariant, no listing shows two categories with the same name. |
| DocumentEndpoints.StoredPath | Backend/main.py:352-355 | The stored path `uploads/<user>/<file id><suffix>`. It has no contract of its own. Its meaning is stated by `StoredPathRoundTrip` (the owner, the file id and the suffix can all be read back) and `DistinctUploadsDistinctPaths`. |
| DocumentEndpoints.ParseStoredPath | Backend/main.py:352-355 | The source never parses paths. This is the inverse of the path construction, used to prove `StoredPathRoundTrip` and `DistinctUploadsDistinctPaths`. Every successful parse returns an owner, a file id and a suffix that rebuild exactly the parsed path. |
| DocumentEndpoints.StoredPathRoundTrip | Backend/main.py:352-355 | Parsing a stored path returns the owner, file id and suffix it was built from. |
| DocumentEndpoints.DistinctUploadsDistinctPaths | Backend/main.py:348-355 | Uploads with different owners or file ids never share a stored path. |
| DocumentEndpoints.UploadDocument | Backend/main.py:330-380 | The upload fails with 400 if and only if the filename is missing or empty, and then nothing is written. On success it stores the remaining stream at `uploads/<user>/<file id><suffix>`, using the suffix as the client cased it. It adds exactly one record and leaves users and categories alone. |
| DocumentEndpoints.UploadRecordFields | Backend/main.py:357-374 | A stored upload adds or replaces one file and leaves every other file alone. The record's size is the number of bytes stored, which is the whole upload when it starts at byte 0. Its type is the declared type or `application/octet-stream`, its status is `pending`, and it names the caller, the given category id and the client's filename. |
| DocumentEndpoints.StoredSuffixKeepsCase | Backend/main.py:349-355 | A name ending `.PDF` (such as `Report.PDF`) is stored under `.PDF`, while the classifier's gate sees `.pdf`. |
| DocumentEndpoints.UploadSkipsClassifier | Backend/main.py:343-374 | An empty `.exe` upload with no declared type (such as `tool.exe`) is rejected by the classifier without the sniffing library, but the upload endpoint stores it and records it as `application/octet-stream`. |

## Left out

- Stream I/O failures (a raising `read` or `seek`) and file-write failures (the 500 "Could not save file"). These are I/O. Reads are total, and writes always succeed in the model.
- Directory creation (`mkdir`), the SQLAlchemy session mechanics, the lifespan hook, and the root and `/test-db` endpoints. These are plumbing with no decision logic.
- Login, token issuance, `get_current_user` and password hashing. These are foreign cryptography. The authenticated user arrives as an id that is in the user table. The password hash arrives as a value.
- Database-level constraints, such as foreign keys and column lengths (`String(7)` colour, `String(100)` name and type). They are declared in the ORM models, which are not part of this model. An over-long field or a dangling category id is accepted in the model.
- Generated identifiers and the deletion time. They are parameters: the fresh id must not already be a key, and the deletion time is given.
- The document columns `preview_text`, `storage_provider` (default `"local"`) and `deleted_at` (`Backend/models/document.py:26`, `:30`, `:37`). The upload endpoint never sets them, and no modelled endpoint reads them.
- The `created_at` and `updated_at` columns (`Backend/models/category.py:18-21`, `Backend/models/document.py:33-36`). They are dropped: the records carry neither, so the model says nothing about the database refreshing `updated_at` when a category is renamed, recoloured or deleted.
- Races between a uniqueness check and the insert under concurrent requests.
- The internals of `python-magic` and `mimetypes`. Both are oracles.
- The `UserUpdate` schema. `Backend/schemas/user.py` defines only `UserCreate` and `UserResponse`, while `Backend/main.py:20` and `Backend/schemas/__init__.py:1` import `UserUpdate` from it, so as written that import fails. The model assumes the fields the handler reads: an optional username and an optional email.
- Paths.Suffix: does not model path normalisation beyond dropping trailing `/`, such as `.` components or Windows separators, because uploads are named by clients and the server is POSIX.
- FileValidator.GateExtension: does not model Unicode lower-casing, only ASCII letters, because no non-ASCII character lower-cases to a letter of `.pdf`, `.docx` or `.txt`.
- A streaming store with a size ceiling and cleanup of partial files. The code has neither: the whole upload is read in one call and written.

## Findings

| source | as written | input that shows it | evidently intended | confidence | as-written member | corrected member |
|---|---|---|---|---|---|---|
| Backend/utils/file_validator.py:66-79 | The `HTTPException` for a detected type outside the allowed list is raised inside the `try` whose `except Exception` catches it, so the upload goes on to the signature and extension tiers. | A Windows executable named `setup.txt`: the library detects `application/x-dosexec`, no signature matches its `MZ` header, `.txt` passes the gate, and the upload is accepted (as `text/plain` when no allowed type is declared). | Reject the upload with the 400 "Invalid file type: <type>", as the docstring at `:50-51` promises. | medium, not executed | FileValidatorProperties.RefusedDetectionAccepted | FileValidatorProperties.StrictRejectsRefusedDetection |

No other part of the model calls the classifier, because `upload_document` does not. `FileValidator.ValidateFileType` keeps the behaviour as written, since its properties describe what the server does. `FileValidator.StrictValidateFileType` is the corrected classifier.
