# File-sharing backend: request-handling core

This project models the request-handling core of a small file-sharing
service (`app.py`). Clients upload a file with a bearer API key and get back a
24-character file id. Anyone who holds the id can view the file inline or
download it as an attachment.

The model covers:

- **the credential scan**: `api_key_auth` gates uploads, and
  `get_user_by_key` names the uploader. Both fetch every row of the users
  table and test the key against the stored hashes in order, stopping at the
  first hash that accepts it (module `Credentials`).
- **the id generator** `generate_fid`, with its retry loop (module `FileIds`).
- **the two read paths** `view` and `download`: the id is cut at its first `.`,
  looked up by exact match, and answered with a 404 body or with the stored
  bytes (module `Files`).
- **the upload handler** over a files table held in a `FileStore` object,
  whose only write is a single INSERT (module `Uploads`).
- **the Python string operations** these paths rely on: `split(".")[0]`,
  `lstrip` and `removeprefix` (module `Text`).

Modelling choices:

- `pbkdf2_sha256.verify` is a parameter `verify: (string, string) -> bool`.
  Every result about credentials holds for every verifier.
- Randomness is a supplied stream `rng: nat -> nat`. Draw number `k` of
  `random.choices` reads stream entries `24k … 24k+23`, each taken modulo 62
  as an index into the alphabet.
- The files table is a sequence of rows, and INSERT appends one row. The
  schema is not part of this model, so no uniqueness constraint on `file_id`
  is assumed. A lookup returns the first row, in table order, with the exact
  id. The query has no ORDER BY, so this scan order is an assumption of the
  model (see Left out).
- The Python membership test at app.py:67 is modelled on Python values: a list
  of characters never equals an asyncpg Record. This makes the test false for
  every table.
- `if not uploader` follows Python truthiness: both `None` and the empty
  username give the 500 answer.
- The framework hands `api_key_auth` the key that follows the bearer scheme in
  the Authorization header (`token`). The handler strips the raw header itself
  (`authorization`). The model takes both as inputs, because the two can
  differ.

The code departs from what the handlers evidently intend in these places. The
model follows the code:

- The id generator does not check the new id against the stored ids, although
  its `check_existing` flag and retry loop exist only to do so.
- `view` sends `Content-Disposition: filename="…"` with no disposition type.
  Its route is meant to show the file in the browser, and `inline;` is the
  type for that.
- Upload always resolves an uploader and fails with 500 when it cannot, even
  though the auth dependency has already accepted the key. Its own error text
  calls this case unexpected.
- An oversized upload is answered with status 404, although nothing is
  missing. 413 is the usual status for a request body over the limit.

`FileStore.UploadCorrected`, `FileIds.GenerateFreshFid` and `Text.RemovePrefix`
give the intended behaviour next to the as-written one (see Findings).

## Model

| member | source | states |
|---|---|---|
| Credentials.ApiKeyAuth | app.py:44-58 | An empty users table gives 401 "Forbidden". Otherwise the request passes exactly when some stored hash accepts the key. Every rejection is 401 "Forbidden". |
| Credentials.UserByKey | app.py:75-81 | Returns None exactly when no row's hash accepts the key. Otherwise returns the username of the first accepting row in scan order. |
| Credentials.FirstMatchUnique | app.py:77-81 | There is at most one first accepting row, so the uploader name is determined. |
| Credentials.AuthorizedIffUserFound | app.py:50-81 | A key passes api_key_auth exactly when get_user_by_key finds a user for that same key, and the user found is the first accepting row. |
| FileIds.RandomChoices | app.py:62 | random.choices yields exactly k characters, each taken from the population. |
| FileIds.Candidate | app.py:62 | Every drawn candidate is a 24-character string of ASCII letters and digits. |
| FileIds.AlphabetIsAlnum | app.py:62 | Every character of ascii_letters + digits is in [A-Za-z0-9]. |
| FileIds.FidHasNoDot | app.py:62 | No generated id contains '.'. |
| FileIds.PyEquals | app.py:67 | Python `==` on the two kinds of value that meet in the test coincides with structural equality: a character list never equals a Record. |
| FileIds.AsWrittenNeverCollides | app.py:65-67 | The test `file_id in entries` compares a character list with Records and is false for every table and every candidate. |
| FileIds.ZerosCandidate | app.py:62 | With a stream of zeros, the first candidate is 24 'a's. |
| FileIds.AsWrittenMissesDuplicate | app.py:65-70 | When the first candidate is already a stored id, the intended test fires and the as-written test does not. |
| FileIds.RetryDraw | app.py:66-70 | The retry loop returns the first draw that does not collide, numbered by `attempts`. Every earlier draw collided. |
| FileIds.GenerateFid | app.py:61-72 | As written, with or without check_existing, the result is the first draw. It is a well-formed id and is not checked against the table. |
| FileIds.GenerateFreshFid | app.py:61-72 | With the intended test, the result is a well-formed id that is not stored. It is the first draw that is not stored. |
| Text.CutAtDot | app.py:91 | `split(".")[0]` is a prefix of the input that contains no '.'. The prefix is followed by '.' or ends the input. |
| Text.CutAtDotUnique | app.py:91 | These three properties determine the cut. |
| Text.CutAtDotIgnoresSuffix | app.py:120 | For a dot-free x, both `x + "." + ext` and x cut to x. |
| Text.LStrip | app.py:156 | `str.lstrip(chars)`. Its own contract only bounds the result's length; Text.LStripSpec states what it returns. |
| Text.LStripSpec | app.py:156 | `lstrip(chars)` returns a suffix of its input. Every removed character is in chars. The kept part is empty or starts outside chars. |
| Text.LStripSkipsRun | app.py:156 | A leading run of characters from chars is removed, whatever follows it. |
| Text.LStripKeepsRestIff | app.py:156 | After such a run, lstrip returns exactly the rest if and only if the rest is empty or starts outside chars. |
| Text.RemovePrefix | app.py:156 | removeprefix: when p is a prefix of s, p followed by the result is s. Otherwise s is returned unchanged. |
| Text.RemovePrefixUndoesPrepend | app.py:156 | Removing p from p + t gives t, for every t. |
| Files.Ids | app.py:65 | `SELECT file_id FROM files`: one id per row, and an id is listed exactly when some row has it. |
| Files.Lookup | app.py:93 | Returns None exactly when no row has the id. Otherwise returns the first row, in table order, with exactly that id. |
| Files.LookupFindsUniqueRow | app.py:93 | When ids are unique, looking up a stored id returns that row. |
| Files.LookupAfterAppend | app.py:173-180 | After a row with a new id is appended, that id finds the new row and every other id finds what it found before. |
| Files.View | app.py:89-115 | Returns 404 with the not-found message for the cut id exactly when no row has the cut id. Otherwise streams a matching row's bytes and content type with header `filename="…"`. |
| Files.Download | app.py:118-141 | Same lookup as View. On a hit it sends the row's bytes and content type whole, with header `attachment; filename="…"`. |
| Files.ReadsIgnoreExtension | app.py:91-122 | For a dot-free id, "X", "X.png" and "X.tar.gz" get the same answer from view and from download. |
| Files.ViewAndDownloadAgree | app.py:95-141 | The two read paths return the same status, the same 404 body, bytes, media type and Content-Type. The download disposition is "attachment; " followed by the view disposition. |
| Files.ReadAfterAppend | app.py:104-141 | A newly appended row with a new, dot-free id can be read back with or without an extension. Both paths, view and download, return exactly its bytes, content type and filename. |
| Uploads.HeaderKeyKeptIff | app.py:156 | `("Bearer " + key).lstrip("Bearer ")` gives back the key if and only if the key is empty or does not start with B, e, a, r or a space. |
| Uploads.LStripLosesUploader | app.py:156-171 | The key "abc" passes authentication, but lstrip turns the header "Bearer abc" into "bc" and the uploader lookup finds nobody. |
| Uploads.CorrectedKeyFindsUploader | app.py:156-160 | Once the prefix is removed, the uploader lookup gets the key that was authenticated. It finds a user exactly when that key passes api_key_auth. |
| Uploads.AppendKeepsWellFormed | app.py:173-180 | Appending a well-formed row keeps every row well formed: a valid id and a named uploader. |
| Uploads.AppendKeepsUniqueIds | app.py:173-180 | Appending a row whose id is new keeps the ids unique. |
| Uploads.FileStore.Insert | app.py:173-180 | INSERT adds exactly the one row at the end and changes nothing else. |
| Uploads.FileStore.Commit | app.py:160-182 | A false uploader gives 500 and no write. Otherwise exactly one row `(file_id, filename, data, content_type, uploader)` is appended and its id is returned. The table invariants are kept. |
| Uploads.FileStore.Upload | app.py:144-182 | A rejected key gives 401 and no write. More than 500,000,000 bytes gives the 404 size error and no write. Exactly 500,000,000 bytes passes. The uploader is looked up with the lstripped header, and a false uploader gives 500 and no write. Otherwise exactly one row with the first candidate id is appended, and it can be read back when that id was new. |
| Uploads.FileStore.UploadCorrected | app.py:144-182 | Same failure exits, with the key taken by prefix removal and a fresh id. On success the id is well formed and was not stored. The one new row reads back byte-identical, and unique ids stay unique. |

## Left out

- Process startup is not modelled: pool creation, `schema.sql`, the DEBUG flag and `uvicorn.run` (app.py:17-41, 185-186). They are bootstrap code with no decisions in them.
- The `GET /` route is not modelled: it returns a fixed text and nothing else.
- manage.py is not part of this model. It is an interactive console made of I/O.
- pbkdf2 hashing is not modelled, and neither is timing. `verify` is an arbitrary total predicate, so constant-time comparison cannot be expressed. A malformed stored hash, on which passlib raises, is not modelled.
- The randomness of `random.choices` is not modelled: uniformity and collision probability are outside a functional model. The model reduces an arbitrary supplied integer modulo 62 in place of `floor(random() * 62)`.
- FileIds.RetryDraw: requires the random stream to produce a non-colliding draw at some point, because otherwise the source loops forever. As written, the first draw never collides, so GenerateFid needs no such precondition.
- FileIds.GenerateFreshFid: requires the random stream to produce a draw that is not yet stored at some point, for the same reason.
- Uploads.FileStore.UploadCorrected: requires the same thing of the random stream.
- Files.Lookup: fixes the scan order to table order and returns the first matching row. The SQL query has no ORDER BY, so when several rows share an id the database may return any of them, and two requests for the same id need not see the same row. Files.ReadsIgnoreExtension, Files.ViewAndDownloadAgree and the second clause of Files.LookupAfterAppend rely on this fixed order when ids repeat. With unique ids the row is determined whatever the order (Files.LookupFindsUniqueRow).
- Files.View, Files.Download, Files.ReadAfterAppend: answer 200 for every stored row. The framework encodes response header values as Latin-1, so a filename or content type with a character above U+00FF makes the request fail with 500 instead. The model does not capture that failure, and the read-back clause of Uploads.Stored inherits the same gap.
- Concurrency is not modelled: the race between generating an id and the INSERT, and asyncio interleaving. A uniqueness constraint in the database schema is not part of this model.
- Storage failures are not modelled: lost connections and constraint violations raised by INSERT.
- `humanize.naturalsize` is represented only by its value for the one limit used, "500.0 MB".
- The framework's handling of the Authorization header is not modelled: the bearer-scheme parsing, a missing header (401 from the framework) and dependency injection. The model keeps only the fact that authentication runs before the handler.
- Streaming through `BytesIO`/`StreamingResponse` is reduced to a `streamed` flag on the response.
- The filename and content type of an uploaded file are modelled as strings. The framework's `None` values for them are not modelled.

## Findings

| source | as written | input that shows it | evidently intended | confidence | as-written member | corrected member |
|---|---|---|---|---|---|---|
| app.py:67 | `file_id in entries` compares the list of drawn characters with asyncpg Records, so it is never true and a stored id can be issued again | a random stream of zeros, whose first candidate is "aaaaaaaaaaaaaaaaaaaaaaaa", and a table that already holds "aaaaaaaaaaaaaaaaaaaaaaaa" | redraw while the joined candidate string is one of the stored id strings | high; not executed | FileIds.AsWrittenMissesDuplicate | FileIds.GenerateFreshFid |
| app.py:156 | `lstrip("Bearer ")` removes every leading B, e, a, r and space, so an API key starting with one of these letters loses characters | users [("alice", key "abc")] and header "Bearer abc": authentication passes, the uploader lookup receives "bc" and upload answers 500 | remove the literal prefix "Bearer " | high; not executed | Uploads.LStripLosesUploader | Uploads.CorrectedKeyFindsUploader |
