/**
 * POST /upload of app.py over a files table held in a FileStore object. The
 * steps run in the source's order: the auth dependency, the size ceiling,
 * token extraction, id generation and uploader lookup, and finally a single
 * INSERT. Every exit before the INSERT leaves the table as it was.
 */
module Uploads {

  import opened Wrappers
  import opened Http
  import opened Text
  import opened Credentials
  import opened FileIds
  import opened Files

  /** `filesize_limit`, in bytes. */
  const SizeLimit: nat := 500_000_000

  /** The `error` text of the 500 answer when no uploader is found. */
  const UploaderMissingText: string := "get_user_by_key function unexpectedly returned NoneType, please report this or try again"

  /** `humanize.naturalsize(filesize_limit)` for this limit. */
  const LimitText: string := "500.0 MB"

  /** The argument of `lstrip`: read as the set of characters B, e, a, r and space. */
  const BearerChars: string := "Bearer "

  /** The scheme prefix of an Authorization header. */
  const BearerPrefix: string := "Bearer "

  /** The uploaded multipart file: its name, its declared type and its bytes. */
  datatype UploadFile = UploadFile(filename: string, contentType: string, data: seq<byte>)

  /** The 401 answer of the auth dependency. */
  function Forbidden(): Response {
    JsonResponse(401, DetailBody("Forbidden"))
  }

  /** The answer to an upload over the size ceiling (sent with status 404). */
  function TooLarge(): Response {
    JsonResponse(404, ErrorBody("Filesize can't be over " + LimitText + "."))
  }

  /** The 500 answer when no uploader is found for the extracted key. */
  function UploaderMissing(): Response {
    JsonResponse(500, ErrorBody(UploaderMissingText))
  }

  /** The success answer. */
  function Uploaded(fileId: string): Response {
    JsonResponse(200, FileIdBody(fileId))
  }

  /** Python truthiness of `uploader`: None and the empty name are both false. */
  predicate Truthy(uploader: Option<string>) {
    uploader.Some? && uploader.value != ""
  }

  /** The row INSERT writes for an upload. */
  function NewRow(fileId: string, file: UploadFile, uploader: Option<string>): FileRow {
    FileRow(fileId, file.filename, file.data, file.contentType, uploader)
  }

  /**
   * `request.headers.get("Authorization").lstrip("Bearer ")` on a header
   * `"Bearer " + key` gives back the key exactly when the key is empty or does
   * not start with B, e, a, r or a space.
   */
  lemma HeaderKeyKeptIff(key: string)
    ensures LStrip(BearerPrefix + key, BearerChars) == key <==> (key == [] || key[0] !in BearerChars)
  {
    LStripKeepsRestIff(BearerPrefix, key, BearerChars);
  }

  /** The plaintext stand-in verifier used by the counterexample below. */
  function PlainVerify(key: string, hash: string): bool {
    key == hash
  }

  /**
   * A key that starts with 'a' authorizes the request but is cut by lstrip:
   * with the single user ("alice", hash of "abc"), the header "Bearer abc"
   * passes the auth dependency, yet the uploader lookup runs on "bc" and finds
   * nobody, so Upload answers 500.
   */
  lemma LStripLosesUploader()
    ensures KeyAccepted("abc", [UserRow("alice", "abc")], PlainVerify)
    ensures LStrip(BearerPrefix + "abc", BearerChars) == "bc"
    ensures UserByKey(LStrip(BearerPrefix + "abc", BearerChars), [UserRow("alice", "abc")], PlainVerify) == None
  {
    var users := [UserRow("alice", "abc")];
    assert PlainVerify("abc", users[0].apiKey);
    var h := BearerPrefix + "abc";
    assert h == "Bearer abc";
    LStripSkipsRun("Bearer a", "bc", BearerChars);
    assert "Bearer a" + "bc" == h;
    assert LStrip("bc", BearerChars) == "bc";
  }

  /**
   * With the prefix removed instead of stripped, the key an authorized request
   * presented is exactly the key the uploader lookup receives, so the lookup
   * finds a user whenever the auth dependency let the request through.
   */
  lemma CorrectedKeyFindsUploader(key: string, users: seq<UserRow>, verify: Verifier)
    ensures RemovePrefix(BearerPrefix + key, BearerPrefix) == key
    ensures KeyAccepted(key, users, verify) <==>
      UserByKey(RemovePrefix(BearerPrefix + key, BearerPrefix), users, verify).Some?
  {
  }

  /** A row as Upload writes it: a well-formed id and a named uploader. */
  ghost predicate WellFormed(row: FileRow) {
    IsFid(row.fileId) && Truthy(row.uploader)
  }

  /** Every row is well formed. */
  ghost predicate AllWellFormed(rows: seq<FileRow>) {
    forall i :: 0 <= i < |rows| ==> WellFormed(rows[i])
  }

  /** Appending a well-formed row keeps every row well formed. */
  lemma AppendKeepsWellFormed(rows: seq<FileRow>, row: FileRow)
    requires WellFormed(row)
    ensures AllWellFormed(rows) ==> AllWellFormed(rows + [row])
  {
  }

  /** Appending a row whose id is new keeps the ids unique. */
  lemma AppendKeepsUniqueIds(rows: seq<FileRow>, row: FileRow)
    requires !HasFile(rows, row.fileId)
    ensures UniqueIds(rows) ==> UniqueIds(rows + [row])
  {
  }

  /**
   * What the tail of the handler leaves behind, from the table `before` to the
   * table `after`: with a false uploader, the 500 answer and no write;
   * otherwise exactly one new row `(file_id, filename, data, content_type,
   * uploader)` at the end, answered with its id and readable through view
   * whenever that id was not stored before.
   */
  ghost predicate Stored(before: seq<FileRow>, after: seq<FileRow>, resp: Response,
                         file: UploadFile, uploader: Option<string>, fileId: string)
  {
    if Truthy(uploader) then
      && resp == Uploaded(fileId)
      && after == before + [NewRow(fileId, file, uploader)]
      && (!HasFile(before, fileId) ==>
            View(after, fileId) == FileResponse(true, file.data, file.contentType,
              FileHeaders(InlineDisposition(file.filename), file.contentType)))
    else
      resp == UploaderMissing() && after == before
  }

  /** The files table, updated only by INSERT. */
  class FileStore {
    var rows: seq<FileRow>

    /** Every row of the table has a well-formed id and a named uploader. */
    ghost predicate RowsWellFormed()
      reads this
    {
      AllWellFormed(rows)
    }

    /** A store over a table that already holds `rows`. */
    constructor (rows: seq<FileRow>)
      ensures this.rows == rows
    {
      this.rows := rows;
    }

    /** `INSERT INTO files (...) VALUES (...)`: one row more, at the end. */
    method Insert(row: FileRow)
      modifies this
      ensures rows == old(rows) + [row]
    {
      rows := rows + [row];
    }

    /**
     * The tail of the handler: look the uploader up by `apiKey`, answer 500
     * without a write when Python finds the result false, and otherwise
     * insert the one new row and answer with its id.
     */
    method Commit(fileId: string, apiKey: string, file: UploadFile,
                  users: seq<UserRow>, verify: Verifier) returns (resp: Response)
      modifies this
      ensures var uploader := UserByKey(apiKey, users, verify);
        if Truthy(uploader) then
          resp == Uploaded(fileId) && rows == old(rows) + [NewRow(fileId, file, uploader)]
        else
          resp == UploaderMissing() && rows == old(rows)
      ensures IsFid(fileId) && old(RowsWellFormed()) ==> RowsWellFormed()
      ensures !HasFile(old(rows), fileId) && old(UniqueIds(rows)) ==> UniqueIds(rows)
      ensures resp == Uploaded(fileId) && !HasFile(old(rows), fileId) && IsFid(fileId) ==>
        View(rows, fileId) == FileResponse(true, file.data, file.contentType,
          FileHeaders(InlineDisposition(file.filename), file.contentType))
    {
      var uploader := UserByKey(apiKey, users, verify);
      if !Truthy(uploader) {
        return UploaderMissing();
      }
      var row := NewRow(fileId, file, uploader);
      if IsFid(fileId) {
        AppendKeepsWellFormed(rows, row);
      }
      if !HasFile(rows, fileId) {
        AppendKeepsUniqueIds(rows, row);
        if IsFid(fileId) {
          FidHasNoDot(fileId);
          ReadAfterAppend(rows, row, "");
        }
      }
      Insert(row);
      resp := Uploaded(fileId);
    }

    /**
     * POST /upload as written. `token` is the key the framework's bearer
     * scheme hands to `api_key_auth`; `authorization` is the raw header the
     * handler strips itself. The id is always the first draw.
     */
    method Upload(token: string, authorization: string, file: UploadFile,
                  users: seq<UserRow>, verify: Verifier, rng: nat -> nat) returns (resp: Response)
      modifies this
      ensures !KeyAccepted(token, users, verify) ==> resp == Forbidden() && rows == old(rows)
      ensures KeyAccepted(token, users, verify) && |file.data| > SizeLimit ==>
        resp == TooLarge() && rows == old(rows)
      ensures KeyAccepted(token, users, verify) && |file.data| <= SizeLimit ==>
        Stored(old(rows), rows, resp, file,
          UserByKey(LStrip(authorization, BearerChars), users, verify), Candidate(rng, 0))
      ensures old(RowsWellFormed()) ==> RowsWellFormed()
    {
      var auth := ApiKeyAuth(token, users, verify);
      if auth.Raise? {
        return JsonResponse(auth.status, DetailBody(auth.detail));
      }
      var filesize := |file.data|;
      if filesize > SizeLimit {
        return TooLarge();
      }
      var apiKey := LStrip(authorization, BearerChars);
      var fileId := GenerateFid(true, Ids(rows), rng);
      resp := Commit(fileId, apiKey, file, users, verify);
    }

    /**
     * POST /upload with both defects repaired: the key is the header without
     * its "Bearer " prefix, and the new id is checked against the stored ids.
     * The random stream must eventually yield an id not yet stored.
     */
    method UploadCorrected(token: string, authorization: string, file: UploadFile,
                           users: seq<UserRow>, verify: Verifier, rng: nat -> nat) returns (resp: Response)
      requires exists k: nat :: Candidate(rng, k) !in Ids(rows)
      modifies this
      ensures !KeyAccepted(token, users, verify) ==> resp == Forbidden() && rows == old(rows)
      ensures KeyAccepted(token, users, verify) && |file.data| > SizeLimit ==>
        resp == TooLarge() && rows == old(rows)
      ensures KeyAccepted(token, users, verify) && |file.data| <= SizeLimit ==>
        exists fileId ::
          && IsFid(fileId) && !HasFile(old(rows), fileId)
          && Stored(old(rows), rows, resp, file,
               UserByKey(RemovePrefix(authorization, BearerPrefix), users, verify), fileId)
      ensures old(RowsWellFormed()) ==> RowsWellFormed()
      ensures old(UniqueIds(rows)) ==> UniqueIds(rows)
    {
      var auth := ApiKeyAuth(token, users, verify);
      if auth.Raise? {
        return JsonResponse(auth.status, DetailBody(auth.detail));
      }
      var filesize := |file.data|;
      if filesize > SizeLimit {
        return TooLarge();
      }
      var apiKey := RemovePrefix(authorization, BearerPrefix);
      var fileId := GenerateFreshFid(Ids(rows), rng);
      assert !HasFile(rows, fileId);
      resp := Commit(fileId, apiKey, file, users, verify);
    }
  }
}
