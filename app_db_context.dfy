/**
 * The state the controllers share: the `Users` and `MedicalFiles` tables of
 * `AppDbContext`, the identity seeds of their keys, the server clock and the
 * `Uploads` directory. The schema that `OnModelCreating` declares (unique
 * `Email` index, `UserId` foreign key, cascade delete) is the store invariant.
 */
module Data {

  import opened Wrappers
  import opened Models
  import Seqs
  import Text
  import Paths

  /** The unique index on `Users.Email`: no two rows carry the same email. */
  predicate EmailIndexHolds(users: seq<User>)
  {
    forall i, j :: 0 <= i < j < |users| ==> users[i].email != users[j].email
  }

  /** The stronger rule the sign-up and profile actions keep: emails differ even ignoring case. */
  predicate EmailsDistinctIgnoringCase(users: seq<User>)
  {
    forall i, j :: 0 <= i < j < |users| ==> !Text.EqualsIgnoreCase(users[i].email, users[j].email)
  }

  /** Identity keys of users: positive, ascending in table order, below the next one to hand out. */
  predicate UserKeys(users: seq<User>, next: int)
  {
    && (forall i :: 0 <= i < |users| ==> 0 < users[i].id < next)
    && (forall i, j :: 0 <= i < j < |users| ==> users[i].id < users[j].id)
  }

  /** Identity keys of file records, as for users. */
  predicate FileKeys(files: seq<MedicalFile>, next: int)
  {
    && (forall i :: 0 <= i < |files| ==> 0 < files[i].id < next)
    && (forall i, j :: 0 <= i < j < |files| ==> files[i].id < files[j].id)
  }

  predicate HasUser(users: seq<User>, id: int)
  {
    exists i :: 0 <= i < |users| && users[i].id == id
  }

  /** The foreign key `MedicalFiles.UserId` -> `Users.Id`. */
  predicate OwnersExist(users: seq<User>, files: seq<MedicalFile>)
  {
    forall k :: 0 <= k < |files| ==> HasUser(users, files[k].userId)
  }

  /** `Users.FirstOrDefault(u => u.Id == id)`, by position. */
  function UserIndex(users: seq<User>, id: int): (r: Option<nat>)
    ensures r.Some? ==> r.value < |users| && users[r.value].id == id
    ensures r.None? <==> !HasUser(users, id)
  {
    Seqs.IndexWhere(users, (u: User) => u.id == id)
  }

  /** `MedicalFiles.Where(f => f.UserId == uid)`. */
  function FilesOf(files: seq<MedicalFile>, uid: int): (r: seq<MedicalFile>)
    ensures forall i :: 0 <= i < |r| ==> r[i] in files && r[i].userId == uid
    ensures forall i :: 0 <= i < |files| && files[i].userId == uid ==> files[i] in r
  {
    Seqs.Filter(files, (f: MedicalFile) => f.userId == uid)
  }

  /** A user's listing holds each of their records exactly as often as the table does, and nothing else. */
  lemma FilesOfCounts(files: seq<MedicalFile>, uid: int)
    ensures forall i :: 0 <= i < |files| ==>
      multiset(FilesOf(files, uid))[files[i]] == if files[i].userId == uid then multiset(files)[files[i]] else 0
    ensures forall f :: f !in files ==> multiset(FilesOf(files, uid))[f] == 0
  {
    Seqs.FilterCounts(files, (f: MedicalFile) => f.userId == uid);
  }

  /** The file records that survive deleting user `uid`. */
  function WithoutFilesOf(files: seq<MedicalFile>, uid: int): (r: seq<MedicalFile>)
    ensures forall i :: 0 <= i < |r| ==> r[i] in files && r[i].userId != uid
    ensures forall i :: 0 <= i < |files| && files[i].userId != uid ==> files[i] in r
  {
    Seqs.Filter(files, (f: MedicalFile) => f.userId != uid)
  }

  /** The file records that survive deleting record `id`. */
  function WithoutFile(files: seq<MedicalFile>, id: int): (r: seq<MedicalFile>)
    ensures forall i :: 0 <= i < |r| ==> r[i] in files && r[i].id != id
    ensures forall i :: 0 <= i < |files| && files[i].id != id ==> files[i] in r
  {
    Seqs.Filter(files, (f: MedicalFile) => f.id != id)
  }

  /** Under unique keys, deleting record `files[k].id` takes out exactly position `k`. */
  lemma WithoutFileRemovesOne(files: seq<MedicalFile>, next: int, k: nat)
    requires FileKeys(files, next) && k < |files|
    ensures WithoutFile(files, files[k].id) == files[..k] + files[k + 1..]
  {
    Seqs.FilterRemovesOnly(files, (f: MedicalFile) => f.id != files[k].id, k);
  }

  /** The user rows that survive deleting user `id`. */
  function WithoutUser(users: seq<User>, id: int): (r: seq<User>)
    ensures forall i :: 0 <= i < |r| ==> r[i] in users && r[i].id != id
    ensures forall i :: 0 <= i < |users| && users[i].id != id ==> users[i] in r
  {
    Seqs.Filter(users, (u: User) => u.id != id)
  }

  /** Case-insensitive distinctness is at least what the unique index demands. */
  lemma DistinctIgnoringCaseKeepsIndex(users: seq<User>)
    requires EmailsDistinctIgnoringCase(users)
    ensures EmailIndexHolds(users)
  {
  }

  /** Under the keys and the foreign key, every file record has exactly one owning user row. */
  lemma ExactlyOneOwner(users: seq<User>, next: int, files: seq<MedicalFile>, k: nat)
    requires UserKeys(users, next) && OwnersExist(users, files) && k < |files|
    ensures exists i :: 0 <= i < |users| && users[i].id == files[k].userId
    ensures forall i, j ::
              (0 <= i < |users| && 0 <= j < |users| && users[i].id == files[k].userId && users[j].id == files[k].userId)
              ==> i == j
  {
    assert HasUser(users, files[k].userId);
  }

  /** Deleting user `uid` leaves no file record owned by `uid`. */
  lemma CascadeRemovesOwned(files: seq<MedicalFile>, uid: int)
    ensures FilesOf(WithoutFilesOf(files, uid), uid) == []
  {
    Seqs.FilterNone(WithoutFilesOf(files, uid), (f: MedicalFile) => f.userId == uid);
  }

  /** Deleting user `uid` leaves every other user's file records exactly as they were, in order. */
  lemma CascadeKeepsOthers(files: seq<MedicalFile>, uid: int, other: int)
    requires other != uid
    ensures FilesOf(WithoutFilesOf(files, uid), other) == FilesOf(files, other)
  {
    Seqs.FilterOfFilter(files, (f: MedicalFile) => f.userId == other, (f: MedicalFile) => f.userId != uid);
  }

  /**
   * The schema of `OnModelCreating` plus the identity columns and the clock, on
   * table values. Both key columns are `int`, so the next key to hand out never
   * passes `int.MaxValue + 1`.
   */
  predicate Consistent(users: seq<User>, files: seq<MedicalFile>, nextUserId: int, nextFileId: int, clock: int)
  {
    && 0 < nextUserId <= Text.MaxInt32 + 1
    && 0 < nextFileId <= Text.MaxInt32 + 1
    && UserKeys(users, nextUserId)
    && EmailIndexHolds(users)
    && FileKeys(files, nextFileId)
    && OwnersExist(users, files)
    && forall k :: 0 <= k < |files| ==> files[k].uploadedAt < clock
  }

  /** Removing a user row keeps the user keys and the email index. */
  lemma WithoutUserKeepsKeys(users: seq<User>, nextUserId: int, id: int)
    requires UserKeys(users, nextUserId) && EmailIndexHolds(users)
    ensures UserKeys(WithoutUser(users, id), nextUserId) && EmailIndexHolds(WithoutUser(users, id))
  {
    var kept := WithoutUser(users, id);
    Seqs.FilterPairwise(users, (u: User) => u.id != id, (a: User, b: User) => a.id < b.id);
    Seqs.FilterPairwise(users, (u: User) => u.id != id, (a: User, b: User) => a.email != b.email);
    forall k | 0 <= k < |kept|
      ensures 0 < kept[k].id < nextUserId
    {
      var j :| 0 <= j < |users| && users[j] == kept[k];
    }
  }

  /** Removing a user's file records keeps the file keys and the clock bound. */
  lemma WithoutFilesOfKeepsKeys(files: seq<MedicalFile>, nextFileId: int, clock: int, id: int)
    requires FileKeys(files, nextFileId) && forall k :: 0 <= k < |files| ==> files[k].uploadedAt < clock
    ensures var kept := WithoutFilesOf(files, id);
      FileKeys(kept, nextFileId) && forall k :: 0 <= k < |kept| ==> kept[k].uploadedAt < clock
  {
    var kept := WithoutFilesOf(files, id);
    Seqs.FilterPairwise(files, (f: MedicalFile) => f.userId != id, (a: MedicalFile, b: MedicalFile) => a.id < b.id);
    forall k | 0 <= k < |kept|
      ensures 0 < kept[k].id < nextFileId && kept[k].uploadedAt < clock
    {
      var j :| 0 <= j < |files| && files[j] == kept[k];
    }
  }

  /** The cascade keeps the foreign key: no surviving record points at the removed user. */
  lemma CascadeKeepsOwners(users: seq<User>, files: seq<MedicalFile>, id: int)
    requires OwnersExist(users, files)
    ensures OwnersExist(WithoutUser(users, id), WithoutFilesOf(files, id))
  {
    var keptUsers := WithoutUser(users, id);
    var keptFiles := WithoutFilesOf(files, id);
    forall k | 0 <= k < |keptFiles|
      ensures HasUser(keptUsers, keptFiles[k].userId)
    {
      var f := keptFiles[k];
      var j :| 0 <= j < |files| && files[j] == f;
      assert HasUser(users, files[j].userId);
      var i :| 0 <= i < |users| && users[i].id == f.userId;
      assert users[i] in keptUsers;
      var i' :| 0 <= i' < |keptUsers| && keptUsers[i'] == users[i];
    }
  }

  /** Deleting a user together with its file records keeps the schema. */
  lemma CascadeKeepsSchema(users: seq<User>, files: seq<MedicalFile>, nextUserId: int, nextFileId: int, clock: int,
                           id: int)
    requires Consistent(users, files, nextUserId, nextFileId, clock)
    ensures Consistent(WithoutUser(users, id), WithoutFilesOf(files, id), nextUserId, nextFileId, clock)
  {
    WithoutUserKeepsKeys(users, nextUserId, id);
    WithoutFilesOfKeepsKeys(files, nextFileId, clock, id);
    CascadeKeepsOwners(users, files, id);
  }

  /** Taking one record out of the file table keeps the schema. */
  lemma RemovalKeepsSchema(users: seq<User>, files: seq<MedicalFile>, nextUserId: int, nextFileId: int, clock: int, k: nat)
    requires Consistent(users, files, nextUserId, nextFileId, clock) && k < |files|
    ensures Consistent(users, files[..k] + files[k + 1..], nextUserId, nextFileId, clock)
  {
    var kept := files[..k] + files[k + 1..];
    assert forall i :: 0 <= i < |kept| ==> kept[i] == files[if i < k then i else i + 1];
  }

  /** Appending a record with the next key and the current clock reading, owned by an existing user, keeps the schema. */
  lemma AppendKeepsSchema(users: seq<User>, files: seq<MedicalFile>, nextUserId: int, nextFileId: int, clock: int,
                          rec: MedicalFile)
    requires Consistent(users, files, nextUserId, nextFileId, clock)
    requires nextFileId <= Text.MaxInt32
    requires rec.id == nextFileId && rec.uploadedAt == clock && HasUser(users, rec.userId)
    ensures Consistent(users, files + [rec], nextUserId, nextFileId + 1, clock + 1)
  {
    var all := files + [rec];
    assert forall k :: 0 <= k < |files| ==> all[k] == files[k];
  }

  /** No row but possibly row `k` carries exactly `email`. */
  predicate EmailFreeExcept(users: seq<User>, k: int, email: string)
  {
    forall j :: 0 <= j < |users| && j != k ==> users[j].email != email
  }

  /** Appending a user with the next key and an email no row carries keeps the schema. */
  lemma AppendUserKeepsSchema(users: seq<User>, files: seq<MedicalFile>, nextUserId: int, nextFileId: int, clock: int,
                              u: User)
    requires Consistent(users, files, nextUserId, nextFileId, clock)
    requires nextUserId <= Text.MaxInt32 && u.id == nextUserId && EmailFreeExcept(users, -1, u.email)
    ensures Consistent(users + [u], files, nextUserId + 1, nextFileId, clock)
  {
    var all := users + [u];
    assert forall k :: 0 <= k < |users| ==> all[k] == users[k];
    forall k | 0 <= k < |files|
      ensures HasUser(all, files[k].userId)
    {
      var i :| 0 <= i < |users| && users[i].id == files[k].userId;
      assert all[i] == users[i];
    }
  }

  /** Rewriting the columns of row `k`, key kept and email not clashing with another row, keeps the schema. */
  lemma ReplaceUserKeepsSchema(users: seq<User>, files: seq<MedicalFile>, nextUserId: int, nextFileId: int, clock: int,
                               k: nat, u: User)
    requires Consistent(users, files, nextUserId, nextFileId, clock)
    requires k < |users| && u.id == users[k].id && EmailFreeExcept(users, k, u.email)
    ensures Consistent(users[k := u], files, nextUserId, nextFileId, clock)
  {
    var all := users[k := u];
    forall m | 0 <= m < |files|
      ensures HasUser(all, files[m].userId)
    {
      var i :| 0 <= i < |users| && users[i].id == files[m].userId;
      assert all[i].id == users[i].id;
    }
  }

  /** Case-insensitive distinctness survives appending an email that matches no row even ignoring case. */
  lemma AppendKeepsDistinct(users: seq<User>, u: User)
    requires EmailsDistinctIgnoringCase(users)
    requires forall i :: 0 <= i < |users| ==> !Text.EqualsIgnoreCase(users[i].email, u.email)
    ensures EmailsDistinctIgnoringCase(users + [u])
  {
    var all := users + [u];
    assert forall k :: 0 <= k < |users| ==> all[k] == users[k];
  }

  /**
   * Case-insensitive distinctness survives rewriting row `k` when the new email
   * equals the old one ignoring case, or matches no other row ignoring case.
   */
  lemma ReplaceKeepsDistinct(users: seq<User>, k: nat, u: User)
    requires EmailsDistinctIgnoringCase(users) && k < |users|
    requires || Text.EqualsIgnoreCase(users[k].email, u.email)
             || forall j :: 0 <= j < |users| && j != k ==> !Text.EqualsIgnoreCase(users[j].email, u.email)
    ensures EmailsDistinctIgnoringCase(users[k := u])
  {
    var all := users[k := u];
    forall i, j | 0 <= i < j < |all|
      ensures !Text.EqualsIgnoreCase(all[i].email, all[j].email)
    {
      if i == k {
        assert !Text.EqualsIgnoreCase(users[k].email, users[j].email);
      } else if j == k {
        assert !Text.EqualsIgnoreCase(users[i].email, users[k].email);
      }
    }
  }

  class Store {
    /** `Path.Combine(Directory.GetCurrentDirectory(), "Uploads")`. */
    const uploadsDir: string
    var users: seq<User>
    var medicalFiles: seq<MedicalFile>
    var nextUserId: int
    var nextFileId: int
    /** The next reading of `DateTime.UtcNow`. */
    var clock: int
    /** The files on disk, by path. */
    var blobs: map<string, seq<byte>>

    /** The store invariant: the schema holds of the current tables. */
    ghost predicate Valid()
      reads this
    {
      Consistent(users, medicalFiles, nextUserId, nextFileId, clock)
    }

    /** An empty database and an empty upload directory under `currentDirectory`. */
    constructor (currentDirectory: string, now: int)
      ensures Valid()
      ensures uploadsDir == Paths.Combine(currentDirectory, "Uploads")
      ensures users == [] && medicalFiles == [] && blobs == map[] && clock == now
    {
      uploadsDir := Paths.Combine(currentDirectory, "Uploads");
      users, medicalFiles := [], [];
      nextUserId, nextFileId := 1, 1;
      clock := now;
      blobs := map[];
    }

    /** Writing a file into the upload directory (`FileMode.Create` replaces an existing one). */
    method WriteBlob(path: string, content: seq<byte>)
      requires Valid()
      modifies this
      ensures Valid()
      ensures blobs == old(blobs)[path := content]
      ensures users == old(users) && medicalFiles == old(medicalFiles)
      ensures nextUserId == old(nextUserId) && nextFileId == old(nextFileId) && clock == old(clock)
    {
      blobs := blobs[path := content];
    }

    /** `File.Delete(path)` when the file exists. */
    method DeleteBlob(path: string)
      requires Valid()
      modifies this
      ensures Valid()
      ensures blobs == old(blobs) - {path}
      ensures users == old(users) && medicalFiles == old(medicalFiles)
      ensures nextUserId == old(nextUserId) && nextFileId == old(nextFileId) && clock == old(clock)
    {
      blobs := blobs - {path};
    }

    /**
     * `MedicalFiles.Add` then `SaveChanges`: the row gets the next identity key
     * and the current clock reading, unless the foreign key rejects it because
     * no user row has `userId` or the `int` key column is exhausted; then `id`
     * is `None` and nothing changes.
     */
    method InsertFile(fileType: string, fileName: string, storedFileName: string, filePath: string,
                      contentType: string, userId: int) returns (id: Option<int>)
      requires Valid()
      modifies this
      ensures Valid()
      ensures id.Some? <==> HasUser(old(users), userId) && old(nextFileId) <= Text.MaxInt32
      ensures id.Some? ==>
        && id.value == old(nextFileId)
        && medicalFiles == old(medicalFiles)
             + [MedicalFile(old(nextFileId), fileType, fileName, storedFileName, filePath, contentType, userId, old(clock))]
        && nextFileId == old(nextFileId) + 1 && clock == old(clock) + 1
      ensures id.None? ==> medicalFiles == old(medicalFiles) && nextFileId == old(nextFileId) && clock == old(clock)
      ensures users == old(users) && blobs == old(blobs) && nextUserId == old(nextUserId)
    {
      if UserIndex(users, userId).None? || nextFileId > Text.MaxInt32 {
        return None;
      }
      var record := MedicalFile(nextFileId, fileType, fileName, storedFileName, filePath, contentType, userId, clock);
      AppendKeepsSchema(users, medicalFiles, nextUserId, nextFileId, clock, record);
      medicalFiles := medicalFiles + [record];
      nextFileId := nextFileId + 1;
      clock := clock + 1;
      id := Some(record.id);
    }

    /**
     * `Users.Add` then `SaveChanges`: the row gets the next identity key and no
     * profile image, unless the unique email index or the exhausted `int` key
     * column rejects it; then `id` is `None` and nothing changes.
     */
    method InsertUser(fullName: string, email: string, gender: Option<string>, phone: Option<string>,
                      passwordHash: string) returns (id: Option<int>)
      requires Valid()
      modifies this
      ensures Valid()
      ensures id.Some? <==> EmailFreeExcept(old(users), -1, email) && old(nextUserId) <= Text.MaxInt32
      ensures id.Some? ==>
        && id.value == old(nextUserId)
        && users == old(users) + [User(old(nextUserId), fullName, email, gender, phone, passwordHash, None)]
        && nextUserId == old(nextUserId) + 1
      ensures id.None? ==> users == old(users) && nextUserId == old(nextUserId)
      ensures medicalFiles == old(medicalFiles) && blobs == old(blobs)
      ensures nextFileId == old(nextFileId) && clock == old(clock)
    {
      if nextUserId > Text.MaxInt32 {
        return None;
      }
      var taken := Seqs.IndexWhere(users, (u: User) => u.email == email);
      if taken.Some? {
        return None;
      }
      var row := User(nextUserId, fullName, email, gender, phone, passwordHash, None);
      AppendUserKeepsSchema(users, medicalFiles, nextUserId, nextFileId, clock, row);
      users := users + [row];
      nextUserId := nextUserId + 1;
      id := Some(row.id);
    }

    /**
     * Saving the tracked row at position `k` with new column values `u` (its
     * key unchanged); the unique email index rejects the save when another row
     * carries exactly `u.email`, and then nothing changes.
     */
    method UpdateUser(k: nat, u: User) returns (saved: bool)
      requires Valid() && k < |users| && u.id == users[k].id
      modifies this
      ensures Valid()
      ensures saved <==> EmailFreeExcept(old(users), k, u.email)
      ensures u.email == old(users)[k].email ==> saved
      ensures users == if saved then old(users)[k := u] else old(users)
      ensures medicalFiles == old(medicalFiles) && blobs == old(blobs)
      ensures nextUserId == old(nextUserId) && nextFileId == old(nextFileId) && clock == old(clock)
    {
      var clash := Seqs.IndexWhere(users, (v: User) => v.email == u.email && v.id != u.id);
      if clash.Some? {
        return false;
      }
      assert EmailFreeExcept(users, k, u.email) by {
        forall j | 0 <= j < |users| && j != k
          ensures users[j].email != u.email
        {
          assert users[j].id != users[k].id;
        }
      }
      ReplaceUserKeepsSchema(users, medicalFiles, nextUserId, nextFileId, clock, k, u);
      users := users[k := u];
      saved := true;
    }

    /** `MedicalFiles.Remove` of the row at position `k`, then `SaveChanges`. */
    method DeleteFileRow(k: nat)
      requires Valid() && k < |medicalFiles|
      modifies this
      ensures Valid()
      ensures medicalFiles == old(medicalFiles)[..k] + old(medicalFiles)[k + 1..]
      ensures users == old(users) && blobs == old(blobs)
      ensures nextUserId == old(nextUserId) && nextFileId == old(nextFileId) && clock == old(clock)
    {
      RemovalKeepsSchema(users, medicalFiles, nextUserId, nextFileId, clock, k);
      medicalFiles := medicalFiles[..k] + medicalFiles[k + 1..];
    }

    /**
     * Removing a user row: the foreign key's cascade removes that user's file
     * records with it. `removed` says whether there was such a row.
     */
    method RemoveUser(id: int) returns (removed: bool)
      requires Valid()
      modifies this
      ensures Valid()
      ensures removed == HasUser(old(users), id)
      ensures users == WithoutUser(old(users), id)
      ensures medicalFiles == WithoutFilesOf(old(medicalFiles), id)
      ensures blobs == old(blobs) && clock == old(clock)
      ensures nextUserId == old(nextUserId) && nextFileId == old(nextFileId)
    {
      removed := UserIndex(users, id).Some?;
      CascadeKeepsSchema(users, medicalFiles, nextUserId, nextFileId, clock, id);
      users, medicalFiles := WithoutUser(users, id), WithoutFilesOf(medicalFiles, id);
    }
  }
}
