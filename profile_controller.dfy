/**
 * `ProfileController`: the caller reads and edits their own user row and
 * uploads a profile picture. Every action identifies the caller by the "uid"
 * claim only.
 */
module ProfileController {

  import opened Wrappers
  import opened Models
  import Text
  import Paths
  import Seqs
  import Claims
  import Data
  import FileController

  const ImageExtensions: seq<string> := [".png", ".jpg", ".jpeg"]
  const NoImageMessage: string := "No image uploaded."
  const UnsupportedImageMessage: string := "Only jpg/png allowed."
  const EmailInUseMessage: string := "Email already in use."
  const ProfileUpdatedMessage: string := "Profile updated."
  /** The application-relative URL prefix of the upload directory, left unresolved. */
  const UploadsUrlPrefix: string := "~/Uploads/"

  /**
   * The public URL of a stored profile image: nothing when no path is stored
   * (or it is empty), otherwise the upload URL prefix followed by the last
   * segment of the stored path.
   */
  function ProfileImageUrl(path: Option<string>): (r: Option<string>)
    ensures r.None? <==> path.None? || path.value == []
    ensures r.Some? ==> r.value == UploadsUrlPrefix + Paths.GetFileName(path.value)
    ensures r.Some? ==>
      && |UploadsUrlPrefix| <= |r.value| && r.value[..|UploadsUrlPrefix|] == UploadsUrlPrefix
      && var name := r.value[|UploadsUrlPrefix|..];
         Paths.Separator !in name && |name| <= |path.value| && name == path.value[|path.value| - |name|..]
  {
    if path.None? || path.value == [] then None
    else
      var name := Paths.GetFileName(path.value);
      assert (UploadsUrlPrefix + name)[|UploadsUrlPrefix|..] == name;
      Some(UploadsUrlPrefix + name)
  }

  /** The profile a user row shows. */
  function ProfileOf(u: User): ProfileDto
  {
    ProfileDto(u.id, u.fullName, u.email, u.gender, u.phone, ProfileImageUrl(u.profileImagePath))
  }

  /** `GetMyProfile`: the caller's own row, read without tracking. */
  function GetMyProfile(claims: seq<Claim>, users: seq<User>): (r: Response<ProfileDto>)
    ensures Claims.UserIdFromClaims(claims).None? ==> r == InternalError
    ensures Claims.UserIdFromClaims(claims) == Some(0) ==> r == Unauthorized("")
    ensures Claims.Authenticated(claims) ==>
      (r.Ok? <==> Data.HasUser(users, Claims.CallerId(claims))) && (r.Ok? || r == NotFound)
    ensures r.Ok? ==>
      && Claims.Authenticated(claims)
      && exists i :: 0 <= i < |users| && users[i].id == Claims.CallerId(claims) && r.body == ProfileOf(users[i])
  {
    match Claims.UserIdFromClaims(claims)
    case None => InternalError
    case Some(userId) =>
      if userId == 0 then Unauthorized("")
      else match Data.UserIndex(users, userId)
        case None => NotFound
        case Some(i) => Ok(ProfileOf(users[i]))
  }

  /** Under unique keys, the profile read is the one of the only row with the caller's id. */
  lemma ProfileIsTheCallersRow(claims: seq<Claim>, users: seq<User>, next: int, k: nat)
    requires Data.UserKeys(users, next) && Claims.Authenticated(claims)
    requires k < |users| && users[k].id == Claims.CallerId(claims)
    ensures GetMyProfile(claims, users) == Ok(ProfileOf(users[k]))
  {
    var r := GetMyProfile(claims, users);
    var i :| 0 <= i < |users| && users[i].id == Claims.CallerId(claims) && r.body == ProfileOf(users[i]);
    assert i == k;
  }

  /** `AnyAsync(u => u.Email.ToLower() == email.ToLower() && u.Id != uid)`. */
  function EmailTakenByOther(users: seq<User>, email: string, uid: int): (r: bool)
    ensures r <==> exists i :: 0 <= i < |users| && users[i].id != uid && Text.EqualsIgnoreCase(users[i].email, email)
  {
    Seqs.IndexWhere(users, (u: User) => Text.EqualsIgnoreCase(u.email, email) && u.id != uid).Some?
  }

  /**
   * The action's duplicate check passes: the email is the row's own one up to
   * case, or no other row has it up to case.
   */
  predicate EmailChangeAllowed(users: seq<User>, u: User, email: string)
  {
    Text.EqualsIgnoreCase(u.email, email) || !EmailTakenByOther(users, email, u.id)
  }

  /** The row after the edit: the four editable columns from the request, the rest kept. */
  function Edited(u: User, dto: UpdateProfileDto): (r: User)
    ensures r.fullName == dto.fullName && r.email == dto.email && r.gender == dto.gender && r.phone == dto.phone
    ensures r.id == u.id && r.passwordHash == u.passwordHash && r.profileImagePath == u.profileImagePath
  {
    u.(fullName := dto.fullName, email := dto.email, gender := dto.gender, phone := dto.phone)
  }

  /**
   * Under case-insensitive distinctness an edit the duplicate check lets
   * through can never be rejected by the exact unique index, and it keeps
   * distinctness.
   */
  lemma AllowedEditKeepsEmails(users: seq<User>, next: int, k: nat, dto: UpdateProfileDto)
    requires Data.UserKeys(users, next) && Data.EmailsDistinctIgnoringCase(users) && k < |users|
    requires EmailChangeAllowed(users, users[k], dto.email)
    ensures Data.EmailFreeExcept(users, k, dto.email)
    ensures Data.EmailsDistinctIgnoringCase(users[k := Edited(users[k], dto)])
  {
    forall j | 0 <= j < |users| && j != k
      ensures !Text.EqualsIgnoreCase(users[j].email, dto.email)
    {
      if Text.EqualsIgnoreCase(users[k].email, dto.email) {
        if j < k {
          assert !Text.EqualsIgnoreCase(users[j].email, users[k].email);
        } else {
          assert !Text.EqualsIgnoreCase(users[k].email, users[j].email);
        }
      } else {
        assert users[j].id != users[k].id by {
          if j < k {
            assert users[j].id < users[k].id;
          } else {
            assert users[k].id < users[j].id;
          }
        }
      }
    }
    Data.ReplaceKeepsDistinct(users, k, Edited(users[k], dto));
  }

  /**
   * What `UpdateProfile` answers and what the `Users` table becomes. Every
   * answer but `Ok` leaves the table as it was; `Ok` rewrites exactly the
   * caller's row with the four editable columns.
   */
  function UpdateProfileOn(claims: seq<Claim>, users: seq<User>, dto: UpdateProfileDto): (out: (Response<string>, seq<User>))
    ensures Claims.UserIdFromClaims(claims).None? ==> out.0 == InternalError
    ensures Claims.UserIdFromClaims(claims) == Some(0) ==> out.0 == Unauthorized("")
    ensures Claims.Authenticated(claims) && !Data.HasUser(users, Claims.CallerId(claims)) ==> out.0 == NotFound
    ensures !out.0.Ok? ==> out.1 == users
    ensures out.0.Ok? ==>
      && out.0 == Ok(ProfileUpdatedMessage) && Claims.Authenticated(claims)
      && exists k :: 0 <= k < |users| && users[k].id == Claims.CallerId(claims)
                     && EmailChangeAllowed(users, users[k], dto.email)
                     && out.1 == users[k := Edited(users[k], dto)]
    ensures out.0 == BadRequest(EmailInUseMessage) ==>
      && Claims.Authenticated(claims)
      && exists k :: 0 <= k < |users| && users[k].id == Claims.CallerId(claims)
                     && !EmailChangeAllowed(users, users[k], dto.email)
    ensures Claims.Authenticated(claims) && Data.HasUser(users, Claims.CallerId(claims)) ==>
      var k := Data.UserIndex(users, Claims.CallerId(claims)).value;
      && (out.0 == BadRequest(EmailInUseMessage) <==> !EmailChangeAllowed(users, users[k], dto.email))
      && (EmailChangeAllowed(users, users[k], dto.email) && Data.EmailFreeExcept(users, k, dto.email) ==>
            out.0 == Ok(ProfileUpdatedMessage))
      && (EmailChangeAllowed(users, users[k], dto.email) && !Data.EmailFreeExcept(users, k, dto.email) ==>
            out.0 == InternalError)
  {
    match Claims.UserIdFromClaims(claims)
    case None => (InternalError, users)
    case Some(userId) =>
      if userId == 0 then (Unauthorized(""), users)
      else match Data.UserIndex(users, userId)
        case None => (NotFound, users)
        case Some(k) =>
          if !EmailChangeAllowed(users, users[k], dto.email) then (BadRequest(EmailInUseMessage), users)
          else if !Data.EmailFreeExcept(users, k, dto.email) then (InternalError, users)
          else (Ok(ProfileUpdatedMessage), users[k := Edited(users[k], dto)])
  }

  /**
   * While emails are distinct up to case the edit keeps them so, and the save
   * never fails: the only 500 left is an unparsable "uid" claim.
   */
  lemma UpdateProfileKeepsEmailsDistinct(claims: seq<Claim>, users: seq<User>, next: int, dto: UpdateProfileDto)
    requires Data.UserKeys(users, next) && Data.EmailsDistinctIgnoringCase(users)
    ensures Data.EmailsDistinctIgnoringCase(UpdateProfileOn(claims, users, dto).1)
    ensures UpdateProfileOn(claims, users, dto).0 == InternalError ==> Claims.UserIdFromClaims(claims).None?
  {
    if Claims.Authenticated(claims) && Data.HasUser(users, Claims.CallerId(claims)) {
      var k := Data.UserIndex(users, Claims.CallerId(claims)).value;
      if EmailChangeAllowed(users, users[k], dto.email) {
        AllowedEditKeepsEmails(users, next, k, dto);
      }
    }
  }

  /** After a successful edit, reading the profile back shows the new values and the old image. */
  lemma UpdateProfileReadsBack(claims: seq<Claim>, users: seq<User>, next: int, dto: UpdateProfileDto)
    requires Data.UserKeys(users, next)
    requires UpdateProfileOn(claims, users, dto).0.Ok?
    ensures exists k :: 0 <= k < |users| && users[k].id == Claims.CallerId(claims)
                        && GetMyProfile(claims, UpdateProfileOn(claims, users, dto).1)
                           == Ok(ProfileDto(users[k].id, dto.fullName, dto.email, dto.gender, dto.phone,
                                            ProfileImageUrl(users[k].profileImagePath)))
  {
    var after := UpdateProfileOn(claims, users, dto).1;
    var k :| 0 <= k < |users| && users[k].id == Claims.CallerId(claims) && after == users[k := Edited(users[k], dto)];
    assert Data.UserKeys(after, next) by {
      assert forall i :: 0 <= i < |after| ==> after[i].id == users[i].id;
    }
    ProfileIsTheCallersRow(claims, after, next, k);
  }

  /**
   * `UpdateProfile`: overwrites the caller's name, email, gender and phone,
   * refusing an email another user already has up to case. The exact unique
   * index still guards the save (an exception, HTTP 500).
   */
  method UpdateProfile(db: Data.Store, claims: seq<Claim>, dto: UpdateProfileDto) returns (r: Response<string>)
    requires db.Valid()
    modifies db
    ensures db.Valid()
    ensures (r, db.users) == UpdateProfileOn(claims, old(db.users), dto)
    ensures db.medicalFiles == old(db.medicalFiles) && db.blobs == old(db.blobs)
    ensures db.nextUserId == old(db.nextUserId) && db.nextFileId == old(db.nextFileId) && db.clock == old(db.clock)
  {
    var caller := Claims.UserIdFromClaims(claims);
    if caller.None? {
      return InternalError;
    }
    var userId := caller.value;
    if userId == 0 {
      return Unauthorized("");
    }
    var found := Data.UserIndex(db.users, userId);
    if found.None? {
      return NotFound;
    }
    var k := found.value;
    var user := db.users[k];
    if !Text.EqualsIgnoreCase(user.email, dto.email) {
      var exists_ := EmailTakenByOther(db.users, dto.email, userId);
      if exists_ {
        return BadRequest(EmailInUseMessage);
      }
    }
    var saved := db.UpdateUser(k, Edited(user, dto));
    if !saved {
      return InternalError;
    }
    r := Ok(ProfileUpdatedMessage);
  }

  /** `profile_{uid}_{guid}{ext}`: the on-disk name of a profile image. */
  function ProfileImageName(uid: int, guid: string, ext: string): (r: string)
    ensures |r| == 9 + |Text.IntToString(uid)| + |guid| + |ext|
    ensures r[..8] == "profile_" && r[|r| - |ext| - |guid|..|r| - |ext|] == guid
    ensures Text.IsGuidText(guid) && ext in ImageExtensions ==>
      Paths.Separator !in r && Paths.GetExtension(r) == ext
  {
    var stem := "profile_" + Text.IntToString(uid) + "_" + guid;
    assert stem[..8] == "profile_";
    assert (stem + ext)[|stem| - |guid|..|stem|] == guid;
    if Text.IsGuidText(guid) && ext in ImageExtensions then
      Text.GuidHasNoPunctuation(guid);
      assert Paths.Separator !in stem;
      Paths.ExtensionOfName(stem, ext);
      stem + ext
    else
      stem + ext
  }

  /** The request gets past the image upload's checks. */
  predicate ImageAccepted(claims: seq<Claim>, image: Option<FormFile>)
  {
    && Claims.Authenticated(claims)
    && image.Some? && |image.value.content| > 0
    && FileController.ExtensionOf(image.value.fileName) in ImageExtensions
  }

  /**
   * A profile image name is a bare file name that stays directly inside the
   * upload directory and keeps the accepted extension.
   */
  lemma ProfileImageNameIsBare(dir: string, uid: int, guid: string, ext: string)
    requires Text.IsGuidText(guid) && ext in ImageExtensions
    ensures var path := Paths.Combine(dir, ProfileImageName(uid, guid, ext));
      && |dir| <= |path| && path[..|dir|] == dir
      && Paths.GetFileName(path) == ProfileImageName(uid, guid, ext)
    ensures Paths.GetExtension(ProfileImageName(uid, guid, ext)) == ext
  {
    Paths.FileNameOfCombine(dir, ProfileImageName(uid, guid, ext));
  }

  /**
   * Two users' profile images never share a file name, so one user's upload
   * (which replaces an existing file) cannot overwrite another user's image.
   */
  lemma {:induction false} ProfileImageNamesSeparateUsers(uid1: int, guid1: string, ext1: string,
                                                          uid2: int, guid2: string, ext2: string)
    requires Text.MinInt32 <= uid1 <= Text.MaxInt32 && Text.MinInt32 <= uid2 <= Text.MaxInt32
    requires Text.IsGuidText(guid1) && Text.IsGuidText(guid2)
    requires ProfileImageName(uid1, guid1, ext1) == ProfileImageName(uid2, guid2, ext2)
    ensures uid1 == uid2
  {
    var a, b := Text.IntToString(uid1), Text.IntToString(uid2);
    var n1, n2 := ProfileImageName(uid1, guid1, ext1), ProfileImageName(uid2, guid2, ext2);
    assert n1[8 + |a|] == '_' && n2[8 + |b|] == '_';
    assert forall i :: 0 <= i < |a| ==> n1[8 + i] == a[i];
    assert forall i :: 0 <= i < |b| ==> n2[8 + i] == b[i];
    assert |a| == |b|;
    assert a == n1[8..8 + |a|] == b;
    Text.ParseIntToString(uid1);
    Text.ParseIntToString(uid2);
  }

  /**
   * A medical file's stored name and a profile image's name never coincide:
   * the first starts with a hexadecimal digit of the Guid, the second with
   * "profile_".
   */
  lemma UploadNamesNeverCollide(guid1: string, file: FormFile, uid: int, guid2: string, ext: string)
    requires Text.IsGuidText(guid1)
    ensures FileController.StoredFileName(guid1, file) != ProfileImageName(uid, guid2, ext)
  {
    assert FileController.StoredFileName(guid1, file)[0] == guid1[0];
    assert ProfileImageName(uid, guid2, ext)[0] == 'p';
  }

  /**
   * What `UploadProfileImage` answers, what the `Users` table becomes and what
   * the upload directory `dir` holds afterwards. The file is written before
   * the row is looked up, so a caller without a row gets `NotFound` and leaves
   * the file behind. `guid` is the value of `Guid.NewGuid()`; `diskOk` says
   * whether writing the file succeeds.
   */
  function UploadProfileImageOn(claims: seq<Claim>, users: seq<User>, blobs: map<string, seq<byte>>, dir: string,
                                image: Option<FormFile>, guid: string, diskOk: bool)
    : (out: (Response<string>, seq<User>, map<string, seq<byte>>))
    ensures Claims.UserIdFromClaims(claims).None? ==> out.0 == InternalError
    ensures Claims.UserIdFromClaims(claims) == Some(0) ==> out.0 == Unauthorized("")
    ensures Claims.Authenticated(claims) && (image.None? || |image.value.content| == 0) ==> out.0 == BadRequest(NoImageMessage)
    ensures (Claims.Authenticated(claims) && image.Some? && |image.value.content| > 0
             && FileController.ExtensionOf(image.value.fileName) !in ImageExtensions) ==> out.0 == BadRequest(UnsupportedImageMessage)
    ensures ImageAccepted(claims, image) && !diskOk ==> out.0 == InternalError
    ensures !(ImageAccepted(claims, image) && diskOk) ==> out.1 == users && out.2 == blobs
    ensures ImageAccepted(claims, image) && diskOk ==>
      var name := ProfileImageName(Claims.CallerId(claims), guid, FileController.ExtensionOf(image.value.fileName));
      && out.2 == blobs[Paths.Combine(dir, name) := image.value.content]
      && (out.0.Ok? <==> Data.HasUser(users, Claims.CallerId(claims)))
      && (out.0.Ok? || (out.0 == NotFound && out.1 == users))
    ensures out.0.Ok? ==>
      var name := ProfileImageName(Claims.CallerId(claims), guid, FileController.ExtensionOf(image.value.fileName));
      && ImageAccepted(claims, image) && diskOk
      && out.0.body == UploadsUrlPrefix + name
      && exists k :: 0 <= k < |users| && users[k].id == Claims.CallerId(claims)
                     && out.1 == users[k := users[k].(profileImagePath := Some(Paths.Combine(dir, name)))]
  {
    match Claims.UserIdFromClaims(claims)
    case None => (InternalError, users, blobs)
    case Some(userId) =>
      if userId == 0 then (Unauthorized(""), users, blobs)
      else if image.None? || |image.value.content| == 0 then (BadRequest(NoImageMessage), users, blobs)
      else
        var ext := FileController.ExtensionOf(image.value.fileName);
        if ext !in ImageExtensions then (BadRequest(UnsupportedImageMessage), users, blobs)
        else if !diskOk then (InternalError, users, blobs)
        else
          var unique := ProfileImageName(userId, guid, ext);
          var path := Paths.Combine(dir, unique);
          var written := blobs[path := image.value.content];
          match Data.UserIndex(users, userId)
          case None => (NotFound, users, written)
          case Some(k) => (Ok(UploadsUrlPrefix + unique), users[k := users[k].(profileImagePath := Some(path))], written)
  }

  /** Pointing the caller's row at a stored image makes the profile show that image's URL. */
  lemma ImagePathReadsBack(claims: seq<Claim>, users: seq<User>, next: int, k: nat, path: string)
    requires Data.UserKeys(users, next) && Claims.Authenticated(claims)
    requires k < |users| && users[k].id == Claims.CallerId(claims) && path != []
    ensures var after := users[k := users[k].(profileImagePath := Some(path))];
      && GetMyProfile(claims, after).Ok?
      && GetMyProfile(claims, after).body.profileImageUrl == Some(UploadsUrlPrefix + Paths.GetFileName(path))
  {
    var after := users[k := users[k].(profileImagePath := Some(path))];
    assert Data.UserKeys(after, next) by {
      assert forall i :: 0 <= i < |after| ==> after[i].id == users[i].id;
    }
    ProfileIsTheCallersRow(claims, after, next, k);
  }

  /** After a successful image upload, reading the profile back shows the URL the upload answered. */
  lemma UploadProfileImageReadsBack(claims: seq<Claim>, users: seq<User>, next: int, blobs: map<string, seq<byte>>,
                                    dir: string, image: Option<FormFile>, guid: string, diskOk: bool)
    requires Data.UserKeys(users, next) && Text.IsGuidText(guid)
    requires UploadProfileImageOn(claims, users, blobs, dir, image, guid, diskOk).0.Ok?
    ensures var out := UploadProfileImageOn(claims, users, blobs, dir, image, guid, diskOk);
      GetMyProfile(claims, out.1).Ok? && GetMyProfile(claims, out.1).body.profileImageUrl == Some(out.0.body)
  {
    var out := UploadProfileImageOn(claims, users, blobs, dir, image, guid, diskOk);
    var ext := FileController.ExtensionOf(image.value.fileName);
    var name := ProfileImageName(Claims.CallerId(claims), guid, ext);
    var path := Paths.Combine(dir, name);
    var k :| 0 <= k < |users| && users[k].id == Claims.CallerId(claims)
             && out.1 == users[k := users[k].(profileImagePath := Some(path))];
    ProfileImageNameIsBare(dir, Claims.CallerId(claims), guid, ext);
    assert path != [] by {
      assert |Paths.GetFileName(path)| <= |path|;
    }
    ImagePathReadsBack(claims, users, next, k, path);
  }

  /** The URL a successful image upload answers names the file in the upload directory that holds the bytes. */
  lemma ProfileImageUrlNamesStoredFile(claims: seq<Claim>, users: seq<User>, blobs: map<string, seq<byte>>,
                                       dir: string, image: Option<FormFile>, guid: string, diskOk: bool)
    requires UploadProfileImageOn(claims, users, blobs, dir, image, guid, diskOk).0.Ok?
    ensures var out := UploadProfileImageOn(claims, users, blobs, dir, image, guid, diskOk);
      && |UploadsUrlPrefix| <= |out.0.body| && out.0.body[..|UploadsUrlPrefix|] == UploadsUrlPrefix
      && Paths.Combine(dir, out.0.body[|UploadsUrlPrefix|..]) in out.2
      && out.2[Paths.Combine(dir, out.0.body[|UploadsUrlPrefix|..])] == image.value.content
  {
    var out := UploadProfileImageOn(claims, users, blobs, dir, image, guid, diskOk);
    var name := ProfileImageName(Claims.CallerId(claims), guid, FileController.ExtensionOf(image.value.fileName));
    assert out.0.body[|UploadsUrlPrefix|..] == name;
  }

  /** `UploadProfileImage`, on the store. */
  method UploadProfileImage(db: Data.Store, claims: seq<Claim>, image: Option<FormFile>, guid: string, diskOk: bool)
    returns (r: Response<string>)
    requires db.Valid()
    modifies db
    ensures db.Valid()
    ensures (r, db.users, db.blobs) == UploadProfileImageOn(claims, old(db.users), old(db.blobs), db.uploadsDir, image, guid, diskOk)
    ensures db.medicalFiles == old(db.medicalFiles)
    ensures db.nextUserId == old(db.nextUserId) && db.nextFileId == old(db.nextFileId) && db.clock == old(db.clock)
  {
    var caller := Claims.UserIdFromClaims(claims);
    if caller.None? {
      return InternalError;
    }
    var userId := caller.value;
    if userId == 0 {
      return Unauthorized("");
    }
    if image.None? || |image.value.content| == 0 {
      return BadRequest(NoImageMessage);
    }
    var ext := FileController.ExtensionOf(image.value.fileName);
    if ext !in ImageExtensions {
      return BadRequest(UnsupportedImageMessage);
    }
    var unique := ProfileImageName(userId, guid, ext);
    var path := Paths.Combine(db.uploadsDir, unique);
    if !diskOk {
      return InternalError;
    }
    db.WriteBlob(path, image.value.content);
    var found := Data.UserIndex(db.users, userId);
    if found.None? {
      return NotFound;
    }
    var k := found.value;
    var updated := db.users[k].(profileImagePath := Some(path));
    var saved := db.UpdateUser(k, updated);
    r := Ok(UploadsUrlPrefix + unique);
  }
}
