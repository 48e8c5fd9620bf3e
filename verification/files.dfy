/**
 * The files table and the two public read paths of app.py, `view` and
 * `download`: cut the path id at its first '.', look the row up by exact id,
 * and answer 404 or the stored bytes with a Content-Disposition header.
 */
module Files {

  import opened Wrappers
  import opened Http
  import Text

  /** A row of the files table; `uploader` is a nullable column. */
  datatype FileRow = FileRow(
    fileId: string,
    filename: string,
    data: seq<byte>,
    contentType: string,
    uploader: Option<string>)

  /** The `file_id` column, in table order: an id is listed exactly when some row has it. */
  function Ids(rows: seq<FileRow>): (ids: seq<string>)
    ensures |ids| == |rows|
    ensures forall id :: id in ids <==> HasFile(rows, id)
  {
    var ids := seq(|rows|, i requires 0 <= i < |rows| => rows[i].fileId);
    assert forall id :: HasFile(rows, id) ==> id in ids by {
      forall id | HasFile(rows, id) ensures id in ids {
        var i :| 0 <= i < |rows| && rows[i].fileId == id;
        assert ids[i] == id;
      }
    }
    ids
  }

  /** Some row has exactly this id. */
  predicate HasFile(rows: seq<FileRow>, id: string) {
    exists i :: 0 <= i < |rows| && rows[i].fileId == id
  }

  /** No two rows share an id. */
  predicate UniqueIds(rows: seq<FileRow>) {
    forall i, j :: 0 <= i < j < |rows| ==> rows[i].fileId != rows[j].fileId
  }

  /**
   * `fetchrow("SELECT * FROM files WHERE file_id = $1", id)`: the first row, in
   * table order, whose id is exactly `id`, or None when there is none. The
   * query has no ORDER BY; the model fixes the scan order to table order.
   */
  function Lookup(rows: seq<FileRow>, id: string): (r: Option<FileRow>)
    ensures r.None? <==> !HasFile(rows, id)
    ensures r.Some? ==> r.value.fileId == id
    ensures r.Some? ==>
      exists i :: 0 <= i < |rows| && rows[i] == r.value && (forall j :: 0 <= j < i ==> rows[j].fileId != id)
  {
    if rows == [] then None
    else if rows[0].fileId == id then Some(rows[0])
    else
      assert forall i :: 0 <= i < |rows| - 1 ==> rows[1..][i] == rows[i + 1];
      Lookup(rows[1..], id)
  }

  /** With unique ids, the lookup of a stored id finds exactly that row. */
  lemma LookupFindsUniqueRow(rows: seq<FileRow>, i: int)
    requires UniqueIds(rows) && 0 <= i < |rows|
    ensures Lookup(rows, rows[i].fileId) == Some(rows[i])
  {
  }

  /**
   * Appending a row with a new id: that id now finds the new row, and every
   * other id finds what it found before.
   */
  lemma {:induction false} LookupAfterAppend(rows: seq<FileRow>, row: FileRow, id: string)
    requires !HasFile(rows, row.fileId)
    ensures id == row.fileId ==> Lookup(rows + [row], id) == Some(row)
    ensures id != row.fileId ==> Lookup(rows + [row], id) == Lookup(rows, id)
  {
    if rows == [] {
      assert rows + [row] == [row];
    } else {
      assert (rows + [row])[0] == rows[0];
      assert (rows + [row])[1..] == rows[1..] + [row];
      assert !HasFile(rows[1..], row.fileId) by {
        forall i | 0 <= i < |rows| - 1 ensures rows[1..][i].fileId != row.fileId {
          assert rows[1..][i] == rows[i + 1];
        }
      }
      LookupAfterAppend(rows[1..], row, id);
    }
  }

  /** The 404 answer of both read paths, naming the id after the cut. */
  function NotFound(id: string): Response {
    JsonResponse(404, ErrorBody("There is no file with the entry \"" + id + "\"."))
  }

  /** The Content-Disposition value of `view`: bare `filename="…"`. */
  function InlineDisposition(filename: string): string {
    "filename=\"" + filename + "\""
  }

  /** The Content-Disposition value of `download`: `attachment; filename="…"`. */
  function AttachmentDisposition(filename: string): string {
    "attachment; filename=\"" + filename + "\""
  }

  /** The two headers both read paths set. */
  function FileHeaders(disposition: string, contentType: string): map<string, string> {
    map["Content-Disposition" := disposition, "Content-Type" := contentType]
  }

  /** GET /view/{fileId}: the stored bytes, streamed, shown inline. */
  function View(rows: seq<FileRow>, fileId: string): (r: Response)
    ensures r.JsonResponse? <==> !HasFile(rows, Text.CutAtDot(fileId))
    ensures r.JsonResponse? ==> r == NotFound(Text.CutAtDot(fileId))
    ensures r.FileResponse? ==>
      exists i :: 0 <= i < |rows| && rows[i].fileId == Text.CutAtDot(fileId) &&
        r == FileResponse(true, rows[i].data, rows[i].contentType,
                          FileHeaders(InlineDisposition(rows[i].filename), rows[i].contentType))
  {
    var id := Text.CutAtDot(fileId);
    match Lookup(rows, id)
    case None => NotFound(id)
    case Some(row) =>
      FileResponse(true, row.data, row.contentType,
                   FileHeaders(InlineDisposition(row.filename), row.contentType))
  }

  /** GET /download/{fileId}: the stored bytes, sent whole, as an attachment. */
  function Download(rows: seq<FileRow>, fileId: string): (r: Response)
    ensures r.JsonResponse? <==> !HasFile(rows, Text.CutAtDot(fileId))
    ensures r.JsonResponse? ==> r == NotFound(Text.CutAtDot(fileId))
    ensures r.FileResponse? ==>
      exists i :: 0 <= i < |rows| && rows[i].fileId == Text.CutAtDot(fileId) &&
        r == FileResponse(false, rows[i].data, rows[i].contentType,
                          FileHeaders(AttachmentDisposition(rows[i].filename), rows[i].contentType))
  {
    var id := Text.CutAtDot(fileId);
    match Lookup(rows, id)
    case None => NotFound(id)
    case Some(row) =>
      FileResponse(false, row.data, row.contentType,
                   FileHeaders(AttachmentDisposition(row.filename), row.contentType))
  }

  /**
   * A fake extension is ignored: for an id without '.', "X", "X.png" and
   * "X.tar.gz" all give the same answer, on both read paths.
   */
  lemma ReadsIgnoreExtension(rows: seq<FileRow>, id: string, ext: string)
    requires '.' !in id
    ensures View(rows, id + "." + ext) == View(rows, id)
    ensures Download(rows, id + "." + ext) == Download(rows, id)
  {
    Text.CutAtDotIgnoresSuffix(id, ext);
  }

  /**
   * The read paths agree: same status, same 404 body, and on a hit the same
   * bytes, media type and Content-Type; they differ only in streaming and in
   * the "attachment; " in front of the disposition.
   */
  lemma ViewAndDownloadAgree(rows: seq<FileRow>, fileId: string)
    ensures View(rows, fileId).Status() == Download(rows, fileId).Status()
    ensures View(rows, fileId).JsonResponse? ==> View(rows, fileId) == Download(rows, fileId)
    ensures View(rows, fileId).FileResponse? ==>
      var v, d := View(rows, fileId), Download(rows, fileId);
      && v.streamed && !d.streamed
      && v.data == d.data && v.mediaType == d.mediaType
      && v.headers["Content-Type"] == d.headers["Content-Type"]
      && d.headers["Content-Disposition"] == "attachment; " + v.headers["Content-Disposition"]
  {
  }

  /**
   * Reading back a freshly appended row: its id, with or without an
   * extension, returns exactly the stored bytes, content type and filename.
   */
  lemma ReadAfterAppend(rows: seq<FileRow>, row: FileRow, ext: string)
    requires !HasFile(rows, row.fileId) && '.' !in row.fileId
    ensures View(rows + [row], row.fileId) ==
      FileResponse(true, row.data, row.contentType, FileHeaders(InlineDisposition(row.filename), row.contentType))
    ensures View(rows + [row], row.fileId + "." + ext) ==
      FileResponse(true, row.data, row.contentType, FileHeaders(InlineDisposition(row.filename), row.contentType))
    ensures Download(rows + [row], row.fileId) ==
      FileResponse(false, row.data, row.contentType, FileHeaders(AttachmentDisposition(row.filename), row.contentType))
    ensures Download(rows + [row], row.fileId + "." + ext) ==
      FileResponse(false, row.data, row.contentType, FileHeaders(AttachmentDisposition(row.filename), row.contentType))
  {
    Text.CutAtDotIgnoresSuffix(row.fileId, ext);
    LookupAfterAppend(rows, row, row.fileId);
  }
}
