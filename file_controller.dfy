/**
 * `FileController`: the owner-scoped file registry. Every action first
 * resolves the caller from the "uid" claim; every lookup is filtered by record
 * id and owner together, so another user's record looks exactly like a
 * missing one.
 */
module FileController {

  import opened Wrappers
  import opened Models
  import Text
  import Paths
  import Seqs
  import Claims
  import Data

  const AllowedExtensions: seq<string> := [".pdf", ".png", ".jpg", ".jpeg"]

  const MissingTokenMessage: string := "Invalid or missing user token."
  const NoFileMessage: string := "No file uploaded."
  const UnsupportedTypeMessage: string := "Unsupported file type."

  /** The route of `GetFile`, `api/File/{id}`, below the request's origin. */
  const FileRoute: string := "/api/File/"

  /** `Path.GetExtension(fileName).ToLower()`. */
  function ExtensionOf(fileName: string): (r: string)
    ensures r == [] || (2 <= |r| && r[0] == '.')
    ensures Paths.Separator !in r && forall k :: 1 <= k < |r| ==> r[k] != '.'
    ensures forall k :: 0 <= k < |r| ==> !Text.IsUpper(r[k])
  {
    Text.Lower(Paths.GetExtension(fileName))
  }

  /** `file != null && file.Length != 0`. */
  predicate HasContent(file: Option<FormFile>)
  {
    file.Some? && |file.value.content| > 0
  }

  /** The request gets past the controller's checks: a caller, a non-empty file, an allowed extension. */
  predicate UploadAccepted(claims: seq<Claim>, model: FileUploadDto)
  {
    Claims.Authenticated(claims) && HasContent(model.file) && ExtensionOf(model.file.value.fileName) in AllowedExtensions
  }

  /** The on-disk name of an upload: the fresh Guid and the lower-cased extension, nothing the user typed. */
  function StoredFileName(guid: string, file: FormFile): (r: string)
    ensures |r| == |guid| + |ExtensionOf(file.fileName)|
    ensures r[..|guid|] == guid
    ensures Text.IsGuidText(guid) && ExtensionOf(file.fileName) in AllowedExtensions ==>
      Paths.Separator !in r && Paths.GetExtension(r) == ExtensionOf(file.fileName)
  {
    var ext := ExtensionOf(file.fileName);
    if Text.IsGuidText(guid) && ext in AllowedExtensions then
      Text.GuidHasNoPunctuation(guid);
      Paths.ExtensionOfName(guid, ext);
      guid + ext
    else
      guid + ext
  }

  /**
   * A stored name is a bare file name directly inside the upload directory,
   * and it keeps the (lower-cased) extension the upload was accepted for.
   */
  lemma StoredNameStaysInUploads(dir: string, guid: string, file: FormFile)
    requires Text.IsGuidText(guid) && ExtensionOf(file.fileName) in AllowedExtensions
    ensures var path := Paths.Combine(dir, StoredFileName(guid, file));
      && |dir| <= |path| && path[..|dir|] == dir
      && Paths.GetFileName(path) == StoredFileName(guid, file)
  {
    var name := StoredFileName(guid, file);
    assert name[0] == guid[0];
    Paths.FileNameOfCombine(dir, name);
  }

  /** The record `MedicalFiles.FirstOrDefault(f => f.Id == id && f.UserId == uid)`. */
  function OwnedFile(files: seq<MedicalFile>, id: int, uid: int): (r: Option<MedicalFile>)
    ensures r.Some? ==> r.value in files && r.value.id == id && r.value.userId == uid
    ensures r.None? <==> forall k :: 0 <= k < |files| ==> !(files[k].id == id && files[k].userId == uid)
    ensures forall k :: 0 <= k < |files| && files[k].id == id && files[k].userId == uid &&
                        (forall j :: 0 <= j < k ==> !(files[j].id == id && files[j].userId == uid))
                        ==> r == Some(files[k])
  {
    Seqs.FirstWhere(files, (f: MedicalFile) => f.id == id && f.userId == uid)
  }

  /** `OrderByDescending(f => f.UploadedAt)` holds of `s`. */
  predicate NewestFirst(s: seq<MedicalFile>)
  {
    forall i, j :: 0 <= i < j < |s| ==> s[i].uploadedAt >= s[j].uploadedAt
  }

  function InsertNewestFirst(f: MedicalFile, s: seq<MedicalFile>): (r: seq<MedicalFile>)
    requires NewestFirst(s)
    ensures NewestFirst(r)
    ensures multiset(r) == multiset(s) + multiset{f}
  {
    if s == [] || f.uploadedAt >= s[0].uploadedAt then
      [f] + s
    else
      var tail := InsertNewestFirst(f, s[1..]);
      BoundedByHead(s, f, tail);
      assert s == [s[0]] + s[1..];
      [s[0]] + tail
  }

  /** Everything inserted behind the head of a newest-first sequence is no newer than that head. */
  lemma BoundedByHead(s: seq<MedicalFile>, f: MedicalFile, tail: seq<MedicalFile>)
    requires NewestFirst(s) && s != [] && f.uploadedAt < s[0].uploadedAt
    requires multiset(tail) == multiset(s[1..]) + multiset{f}
    ensures forall k :: 0 <= k < |tail| ==> tail[k].uploadedAt <= s[0].uploadedAt
  {
    forall k | 0 <= k < |tail|
      ensures tail[k].uploadedAt <= s[0].uploadedAt
    {
      assert tail[k] in multiset(tail);
      if tail[k] != f {
        assert tail[k] in multiset(s[1..]);
        var i :| 0 <= i < |s[1..]| && s[1..][i] == tail[k];
        assert s[i + 1] == tail[k];
      }
    }
  }

  /** The records of `s` ordered newest first. */
  function SortNewestFirst(s: seq<MedicalFile>): (r: seq<MedicalFile>)
    ensures NewestFirst(r)
    ensures multiset(r) == multiset(s)
  {
    if s == [] then []
    else
      assert s == [s[0]] + s[1..];
      InsertNewestFirst(s[0], SortNewestFirst(s[1..]))
  }

  /** The caller's records, newest first: the query behind the listing. */
  function MyFilesNewestFirst(files: seq<MedicalFile>, uid: int): (r: seq<MedicalFile>)
    ensures NewestFirst(r)
    ensures multiset(r) == multiset(Data.FilesOf(files, uid))
  {
    SortNewestFirst(Data.FilesOf(files, uid))
  }

  /** `Url.Action("GetFile", "File", new { id }, scheme)` under the route `api/File/{id}`. */
  function FileUrl(origin: string, id: int): (r: string)
    ensures |origin + FileRoute| < |r| && r[..|origin + FileRoute|] == origin + FileRoute
    ensures Text.MinInt32 <= id <= Text.MaxInt32 ==> Text.ParseInt32(r[|origin + FileRoute|..]) == Some(id)
  {
    var r := origin + FileRoute + Text.IntToString(id);
    assert r[|origin + FileRoute|..] == Text.IntToString(id);
    if Text.MinInt32 <= id <= Text.MaxInt32 then
      Text.ParseIntToString(id);
      r
    else
      r
  }

  function EntryOf(f: MedicalFile, origin: string): FileEntry
  {
    FileEntry(f.id, f.fileName, f.fileType, FileUrl(origin, f.id))
  }

  /** The `Select` of the listing: per record, its id, names and the URL that downloads it. */
  function Entries(s: seq<MedicalFile>, origin: string): (r: seq<FileEntry>)
    ensures |r| == |s|
    ensures forall i :: 0 <= i < |s| ==>
      && r[i].id == s[i].id && r[i].fileName == s[i].fileName && r[i].fileType == s[i].fileType
      && |origin + FileRoute| < |r[i].url| && r[i].url[..|origin + FileRoute|] == origin + FileRoute
      && (Text.MinInt32 <= s[i].id <= Text.MaxInt32 ==> Text.ParseInt32(r[i].url[|origin + FileRoute|..]) == Some(s[i].id))
  {
    seq(|s|, i requires 0 <= i < |s| => EntryOf(s[i], origin))
  }

  /** `ListMyFiles`: the caller's records, newest first, as listing entries. */
  function ListMyFiles(claims: seq<Claim>, files: seq<MedicalFile>, origin: string): (r: Response<seq<FileEntry>>)
    ensures Claims.UserIdFromClaims(claims).None? ==> r == InternalError
    ensures Claims.UserIdFromClaims(claims) == Some(0) ==> r == Unauthorized("")
    ensures r.Ok? <==> Claims.Authenticated(claims)
    ensures r.Ok? ==>
      exists s :: NewestFirst(s) && multiset(s) == multiset(Data.FilesOf(files, Claims.CallerId(claims)))
                  && r.body == Entries(s, origin)
  {
    match Claims.UserIdFromClaims(claims)
    case None => InternalError
    case Some(uid) =>
      if uid == 0 then Unauthorized("")
      else
        var s := MyFilesNewestFirst(files, uid);
        assert NewestFirst(s) && multiset(s) == multiset(Data.FilesOf(files, uid));
        Ok(Entries(s, origin))
  }

  /** The listing holds an entry for each of the caller's records and for nothing else. */
  lemma ListingIsExactlyMine(claims: seq<Claim>, files: seq<MedicalFile>, origin: string)
    requires Claims.Authenticated(claims)
    ensures var listing := ListMyFiles(claims, files, origin).body;
      && (forall i :: 0 <= i < |listing| ==>
            exists k :: 0 <= k < |files| && files[k].userId == Claims.CallerId(claims) && listing[i] == EntryOf(files[k], origin))
      && (forall k :: 0 <= k < |files| && files[k].userId == Claims.CallerId(claims) ==> EntryOf(files[k], origin) in listing)
      && |listing| == |Data.FilesOf(files, Claims.CallerId(claims))|
  {
    var uid := Claims.CallerId(claims);
    var s := MyFilesNewestFirst(files, uid);
    assert ListMyFiles(claims, files, origin) == Ok(Entries(s, origin));
    EntriesOfMine(files, uid, s, origin);
  }

  lemma EntriesOfMine(files: seq<MedicalFile>, uid: int, s: seq<MedicalFile>, origin: string)
    requires multiset(s) == multiset(Data.FilesOf(files, uid))
    ensures var listing := Entries(s, origin);
      && (forall i :: 0 <= i < |listing| ==>
            exists k :: 0 <= k < |files| && files[k].userId == uid && listing[i] == EntryOf(files[k], origin))
      && (forall k :: 0 <= k < |files| && files[k].userId == uid ==> EntryOf(files[k], origin) in listing)
      && |listing| == |Data.FilesOf(files, uid)|
  {
    var mine := Data.FilesOf(files, uid);
    var listing := Entries(s, origin);
    assert |s| == |mine| by {
      assert |multiset(s)| == |multiset(mine)|;
    }
    forall i | 0 <= i < |listing|
      ensures exists k :: 0 <= k < |files| && files[k].userId == uid && listing[i] == EntryOf(files[k], origin)
    {
      assert s[i] in multiset(mine);
      assert s[i] in mine;
      var k :| 0 <= k < |files| && files[k] == s[i];
    }
    forall k | 0 <= k < |files| && files[k].userId == uid
      ensures EntryOf(files[k], origin) in listing
    {
      assert files[k] in mine;
      assert files[k] in multiset(s);
      var i :| 0 <= i < |s| && s[i] == files[k];
      assert listing[i] == EntryOf(files[k], origin);
    }
  }

  /** `GetFile`: the bytes of the caller's record `id`, with its MIME type and stored name. */
  function GetFile(claims: seq<Claim>, id: int, files: seq<MedicalFile>, blobs: map<string, seq<byte>>): (r: Response<Download>)
    ensures Claims.UserIdFromClaims(claims).None? ==> r == InternalError
    ensures Claims.UserIdFromClaims(claims) == Some(0) ==> r == Unauthorized("")
    ensures Claims.Authenticated(claims) ==>
      (r == NotFound <==> forall k :: 0 <= k < |files| ==> !(files[k].id == id && files[k].userId == Claims.CallerId(claims)))
    ensures r.Ok? ==>
      && Claims.Authenticated(claims)
      && exists k :: 0 <= k < |files| && files[k].id == id && files[k].userId == Claims.CallerId(claims)
                     && files[k].filePath in blobs
                     && r.body == Download(blobs[files[k].filePath], files[k].contentType, files[k].storedFileName)
    ensures Claims.Authenticated(claims) ==>
      forall k :: 0 <= k < |files| && files[k].id == id && files[k].userId == Claims.CallerId(claims) &&
                  (forall j :: 0 <= j < k ==> !(files[j].id == id && files[j].userId == Claims.CallerId(claims)))
                  ==> r == if files[k].filePath in blobs
                           then Ok(Download(blobs[files[k].filePath], files[k].contentType, files[k].storedFileName))
                           else InternalError
    ensures Claims.Authenticated(claims)
            && (exists k :: 0 <= k < |files| && files[k].id == id && files[k].userId == Claims.CallerId(claims))
            && (forall k :: 0 <= k < |files| && files[k].id == id && files[k].userId == Claims.CallerId(claims)
                  ==> files[k].filePath in blobs)
            ==> r.Ok?
  {
    match Claims.UserIdFromClaims(claims)
    case None => InternalError
    case Some(uid) =>
      if uid == 0 then Unauthorized("")
      else match OwnedFile(files, id, uid)
        case None => NotFound
        case Some(f) =>
          if f.filePath in blobs then Ok(Download(blobs[f.filePath], f.contentType, f.storedFileName))
          else InternalError
  }

  /**
   * Other users' records have no influence on what `GetFile` answers: the
   * caller sees the same result as if only their own records existed.
   */
  lemma OtherOwnersInvisible(claims: seq<Claim>, id: int, files: seq<MedicalFile>, blobs: map<string, seq<byte>>)
    requires Claims.Authenticated(claims)
    ensures GetFile(claims, id, files, blobs) == GetFile(claims, id, Data.FilesOf(files, Claims.CallerId(claims)), blobs)
  {
    var uid := Claims.CallerId(claims);
    Seqs.FirstWhereOfFilter(files, (f: MedicalFile) => f.id == id && f.userId == uid, (f: MedicalFile) => f.userId == uid);
    assert OwnedFile(files, id, uid) == OwnedFile(Data.FilesOf(files, uid), id, uid);
  }

  /** After appending a record stamped later than all others, it heads its owner's listing. */
  lemma LatestHeadsListing(files: seq<MedicalFile>, rec: MedicalFile)
    requires forall k :: 0 <= k < |files| ==> files[k].uploadedAt < rec.uploadedAt
    ensures var s := MyFilesNewestFirst(files + [rec], rec.userId); |s| > 0 && s[0] == rec
  {
    var all := files + [rec];
    var mine := Data.FilesOf(all, rec.userId);
    var s := MyFilesNewestFirst(all, rec.userId);
    assert all[|files|] == rec;
    assert rec in multiset(s);
    var j :| 0 <= j < |s| && s[j] == rec;
    forall x | x in mine
      ensures x == rec || x.uploadedAt < rec.uploadedAt
    {
      var i :| 0 <= i < |all| && all[i] == x;
      if i < |files| {
        assert x == files[i];
      }
    }
    assert s[0] in multiset(mine);
    assert s[0].uploadedAt >= s[j].uploadedAt;
  }

  /** Appending a record with a fresh id makes it the one `OwnedFile` finds for that id. */
  lemma OwnedFileAfterAppend(files: seq<MedicalFile>, rec: MedicalFile)
    requires forall k :: 0 <= k < |files| ==> files[k].id < rec.id
    ensures OwnedFile(files + [rec], rec.id, rec.userId) == Some(rec)
  {
    Seqs.FirstWhereAfter(files, rec, (f: MedicalFile) => f.id == rec.id && f.userId == rec.userId);
    assert (files + [rec])[|files|] == rec;
  }

  /**
   * `Upload`: checks the caller, the file and its extension, writes the bytes
   * under a fresh name in the upload directory, then inserts the record.
   * `guid` is the value of `Guid.NewGuid()`; `diskOk` says whether writing the
   * file succeeds.
   */
  method Upload(db: Data.Store, claims: seq<Claim>, model: FileUploadDto, guid: string, diskOk: bool)
    returns (r: Response<int>)
    requires db.Valid()
    modifies db
    ensures db.Valid()
    ensures Claims.UserIdFromClaims(claims).None? ==> r == InternalError && unchanged(db)
    ensures Claims.UserIdFromClaims(claims) == Some(0) ==> r == Unauthorized(MissingTokenMessage) && unchanged(db)
    ensures Claims.Authenticated(claims) && !HasContent(model.file) ==> r == BadRequest(NoFileMessage) && unchanged(db)
    ensures Claims.Authenticated(claims) && HasContent(model.file) && ExtensionOf(model.file.value.fileName) !in AllowedExtensions
            ==> r == BadRequest(UnsupportedTypeMessage) && unchanged(db)
    ensures UploadAccepted(claims, model) && !diskOk ==> r == InternalError && unchanged(db)
    ensures UploadAccepted(claims, model) && diskOk ==>
      var file := model.file.value;
      var uid := Claims.CallerId(claims);
      var path := Paths.Combine(db.uploadsDir, StoredFileName(guid, file));
      && db.blobs == old(db.blobs)[path := file.content]
      && db.users == old(db.users) && db.nextUserId == old(db.nextUserId)
      && if Data.HasUser(old(db.users), uid) && old(db.nextFileId) <= Text.MaxInt32 then
           && r == Ok(old(db.nextFileId))
           && db.medicalFiles == old(db.medicalFiles) + [MedicalFile(old(db.nextFileId), model.fileType, model.fileName,
                StoredFileName(guid, file), path, file.contentType, uid, old(db.clock))]
           && db.nextFileId == old(db.nextFileId) + 1 && db.clock == old(db.clock) + 1
         else
           && r == InternalError
           && db.medicalFiles == old(db.medicalFiles)
           && db.nextFileId == old(db.nextFileId) && db.clock == old(db.clock)
    ensures r.Ok? ==> UploadAccepted(claims, model) && diskOk
    ensures r.Ok? ==>
      GetFile(claims, r.body, db.medicalFiles, db.blobs)
        == Ok(Download(model.file.value.content, model.file.value.contentType, StoredFileName(guid, model.file.value)))
    ensures r.Ok? ==>
      var listed := MyFilesNewestFirst(db.medicalFiles, Claims.CallerId(claims)); |listed| > 0 && listed[0].id == r.body
  {
    var caller := Claims.UserIdFromClaims(claims);
    if caller.None? {
      return InternalError;
    }
    var userId := caller.value;
    if userId == 0 {
      return Unauthorized(MissingTokenMessage);
    }
    var file := model.file;
    if file.None? || |file.value.content| == 0 {
      return BadRequest(NoFileMessage);
    }
    var ext := ExtensionOf(file.value.fileName);
    if ext !in AllowedExtensions {
      return BadRequest(UnsupportedTypeMessage);
    }
    var storedFileName := guid + ext;
    var filePath := Paths.Combine(db.uploadsDir, storedFileName);
    if !diskOk {
      return InternalError;
    }
    db.WriteBlob(filePath, file.value.content);
    ghost var before := db.medicalFiles;
    var inserted := db.InsertFile(model.fileType, model.fileName, storedFileName, filePath, file.value.contentType, userId);
    if inserted.None? {
      return InternalError;
    }
    var record := db.medicalFiles[|before|];
    assert db.medicalFiles == before + [record];
    OwnedFileAfterAppend(before, record);
    LatestHeadsListing(before, record);
    r := Ok(inserted.value);
  }

  /**
   * `DeleteFile`: removes the caller's record `id` and tries to delete its
   * file; `diskOk` says whether that deletion succeeds. A failed deletion is
   * swallowed and the record is removed all the same.
   */
  method DeleteFile(db: Data.Store, claims: seq<Claim>, id: int, diskOk: bool) returns (r: Response<()>)
    requires db.Valid()
    modifies db
    ensures db.Valid()
    ensures Claims.UserIdFromClaims(claims).None? ==> r == InternalError && unchanged(db)
    ensures Claims.UserIdFromClaims(claims) == Some(0) ==> r == Unauthorized("") && unchanged(db)
    ensures Claims.Authenticated(claims) ==>
      match OwnedFile(old(db.medicalFiles), id, Claims.CallerId(claims))
      case None => r == NotFound && unchanged(db)
      case Some(f) =>
        && r == Ok(())
        && db.medicalFiles == Data.WithoutFile(old(db.medicalFiles), id)
        && db.blobs == (if diskOk then old(db.blobs) - {f.filePath} else old(db.blobs))
        && db.users == old(db.users) && db.clock == old(db.clock)
        && db.nextUserId == old(db.nextUserId) && db.nextFileId == old(db.nextFileId)
    ensures r.Ok? ==>
      && Claims.Authenticated(claims)
      && exists k :: 0 <= k < |old(db.medicalFiles)| && old(db.medicalFiles)[k].id == id
                     && old(db.medicalFiles)[k].userId == Claims.CallerId(claims)
                     && db.medicalFiles == old(db.medicalFiles)[..k] + old(db.medicalFiles)[k + 1..]
    ensures r.Ok? ==> GetFile(claims, id, db.medicalFiles, db.blobs) == NotFound
  {
    var caller := Claims.UserIdFromClaims(claims);
    if caller.None? {
      return InternalError;
    }
    var userId := caller.value;
    if userId == 0 {
      return Unauthorized("");
    }
    var found := OwnedFile(db.medicalFiles, id, userId);
    if found.None? {
      return NotFound;
    }
    var file := found.value;
    if diskOk {
      db.DeleteBlob(file.filePath);
    }
    var k :| 0 <= k < |db.medicalFiles| && db.medicalFiles[k] == file;
    Data.WithoutFileRemovesOne(db.medicalFiles, db.nextFileId, k);
    db.DeleteFileRow(k);
    r := Ok(());
  }
}
