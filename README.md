# MedicalReportDashboardAPI in Dafny

A verified model of the core of MedicalReportDashboardAPI. This ASP.NET Core web API lets a patient sign up and log in with a bearer token. The patient can then upload medical files (PDF and image reports), list them, download them and delete them, and can read and edit their own profile, including a profile picture.

The model covers:

- the four controller actions of `FileController`;
- the three of `ProfileController`;
- `SignUp`, `Login` and the token claims of `AuthController`;
- the schema `AppDbContext` declares.

The controllers share one piece of state, the class `Data.Store`. It holds:

- the `Users` and `MedicalFiles` tables;
- their identity seeds;
- the server clock;
- the `Uploads` directory, as a map from path to bytes.

The store invariant `Data.Store.Valid()` is the schema: a unique email index, positive increasing `int` keys, the `UserId` foreign key, and upload stamps older than the clock. Every action that changes state is a method that keeps this invariant. Each such action is also specified either by postconditions over the old state or by a pure function of the old tables (`UpdateProfileOn`, `UploadProfileImageOn`, `SignUpOn`). The properties the application promises are proved as lemmas about these functions:

- a user sees only their own records;
- an upload can be read back;
- a deleted record is gone;
- sign-up followed by login succeeds;
- emails stay distinct ignoring case;
- the token identifies its user.

Layout:

- `wrappers.dfy`: `Option`.
- `seqs.dfy`: the LINQ operators the actions use (`Where`, `FirstOrDefault`), with their lemmas.
- `text.dfy`: `ToLower`, `Int32.ToString` and `int.Parse`, and the text form of a Guid.
- `paths.dfy`: `Path.Combine`, `GetFileName` and `GetExtension`.
- `models.dfy`: the entities, request and response shapes, and action results.
- `claims.dfy`: `GetUserIdFromClaims`.
- `app_db_context.dfy`: the schema and the store.
- `file_controller.dfy`, `profile_controller.dfy`, `auth_controller.dfy`: the actions.

Conventions:

- An exception that escapes an action (HTTP 500) is the result `InternalError`. This covers an unparsable "uid" claim, a failed disk write, and a save the database rejects.
- A bare `Unauthorized()` is `Unauthorized("")`.
- A success body keeps only its payload: the new file id for `Upload`, nothing for `DeleteFile`, and the URL for `UploadProfileImage`. The fixed messages "Uploaded", "Deleted" and "Profile image uploaded." are dropped. `UpdateProfile`'s "Profile updated." is its whole body, so it is kept.
- What the environment decides is passed in as a parameter:
  - `guid` for `Guid.NewGuid()`;
  - `diskOk` for whether the disk operation succeeds;
  - `salt` for the randomness of BCrypt;
  - `origin` for the request's scheme and host.

## Model

| member | source | states |
|---|---|---|
| Claims.FindFirst | Controllers/FileController.cs:30 | the value of the first claim whose type matches ignoring case; none exactly when no claim's type matches |
| Claims.UserIdFromClaims | Controllers/FileController.cs:28-32 | 0 when no claim's type is "uid" ignoring case; otherwise the `int.Parse` of the first such claim, and an error when that claim is not integer text |
| Claims.UidTypeIgnoresCase | Controllers/FileController.cs:30-31 | a claim typed "UID" is read as the caller's id |
| Text.Lower | Controllers/FileController.cs:47 | lower-casing keeps the length, maps each upper-case ASCII letter to its lower-case letter and changes nothing else |
| Text.EqualsIgnoreCase | Controllers/ProfileController.cs:65 | two strings are equal ignoring case exactly when they have the same length and agree position by position after lower-casing |
| Text.IntToString | Controllers/ProfileController.cs:100 | the decimal text of an int is non-empty and holds no '/', '.' or '_' |
| Text.ParseInt32 | Controllers/FileController.cs:31 | a parsed value is a 32-bit int read from an optional sign and at least one digit; a negative value has a '-' sign; every such text of at most nine characters parses |
| Text.ParseIntToString | Controllers/AuthController.cs:77 | `int.Parse` of the text `ToString` writes gives back the same int, for every 32-bit value |
| Text.GuidHasNoPunctuation | Controllers/FileController.cs:54 | the text of a Guid holds no '/', '.' or '_' |
| Paths.Combine | Controllers/FileController.cs:55 | an empty part yields the other; a rooted second part replaces the first; otherwise the directory, then one separator unless it already ends with one, then the name |
| Paths.GetFileName | Controllers/ProfileController.cs:48 | the result is the longest suffix of the path without a separator |
| Paths.GetExtension | Controllers/FileController.cs:47 | the result is empty or a suffix of the path that starts with its only '.' and holds no separator |
| Paths.FileNameOfCombine | Controllers/FileController.cs:55 | the file name of a directory combined with a bare name is that name |
| Paths.ExtensionOfName | Controllers/FileController.cs:54 | the extension of a stem followed by an extension is that extension |
| Data.EmailIndexHolds | Data/AppDbContext.cs:15-17 | the unique index on `Email`: no two rows hold exactly the same email |
| Data.OwnersExist | Data/AppDbContext.cs:19-22 | the foreign key: every file record's `UserId` is the id of some user row |
| Data.UserIndex | Controllers/ProfileController.cs:36 | finds a row with the id, and finds none exactly when no row has it |
| Data.FilesOf | Controllers/FileController.cs:86 | exactly the records owned by the user |
| Data.FilesOfCounts | Controllers/FileController.cs:86 | each of the user's records occurs in the listing as often as in the table; other records never occur |
| Data.WithoutFile | Controllers/FileController.cs:133 | exactly the records with another id |
| Data.WithoutFilesOf | Data/AppDbContext.cs:19-23 | exactly the records of other owners (the cascade) |
| Data.WithoutUser | Data/AppDbContext.cs:19-23 | exactly the rows with another id |
| Data.WithoutFileRemovesOne | Controllers/FileController.cs:133-134 | with unique keys, removing a record by id removes exactly its position and keeps the order of the rest |
| Data.DistinctIgnoringCaseKeepsIndex | Data/AppDbContext.cs:15-17 | emails distinct ignoring case satisfy the exact unique index |
| Data.ExactlyOneOwner | Data/AppDbContext.cs:19-23 | every file record has exactly one owning user row |
| Data.CascadeRemovesOwned | Data/AppDbContext.cs:19-23 | after the cascade no record of the deleted user is left |
| Data.CascadeKeepsOthers | Data/AppDbContext.cs:19-23 | the cascade leaves every other user's records exactly as they were, in order |
| Data.WithoutUserKeepsKeys | Data/AppDbContext.cs:15-17 | deleting a user row keeps the user keys and the email index |
| Data.WithoutFilesOfKeepsKeys | Data/AppDbContext.cs:19-23 | the cascade keeps the file keys and the clock bound |
| Data.CascadeKeepsOwners | Data/AppDbContext.cs:19-23 | after the cascade every surviving record still has its owner |
| Data.CascadeKeepsSchema | Data/AppDbContext.cs:13-24 | deleting a user together with its records keeps the whole schema |
| Data.RemovalKeepsSchema | Data/AppDbContext.cs:13-24 | deleting one file record keeps the whole schema |
| Data.AppendKeepsSchema | Data/AppDbContext.cs:19-23 | inserting a record with the next key, the current time and an existing owner keeps the schema |
| Data.AppendUserKeepsSchema | Data/AppDbContext.cs:15-17 | inserting a user with the next key and an unused email keeps the schema |
| Data.ReplaceUserKeepsSchema | Data/AppDbContext.cs:15-17 | rewriting a user row with its key kept and no email clash keeps the schema |
| Data.AppendKeepsDistinct | Controllers/AuthController.cs:33-46 | adding an email that matches no row ignoring case keeps emails distinct ignoring case |
| Data.ReplaceKeepsDistinct | Controllers/ProfileController.cs:64-76 | an edit whose email equals the old one ignoring case, or matches no other row ignoring case, keeps distinctness |
| Data.Store.Valid | Data/AppDbContext.cs:13-24 | the schema on the store: key ranges, ascending positive keys, the email index, the foreign key, and stamps older than the clock |
| Data.Store.constructor | Data/AppDbContext.cs:8-11 | an empty database satisfying the schema, with uploads under the current directory |
| Data.Store.WriteBlob | Controllers/FileController.cs:57-60 | the file at the path now holds exactly the bytes (created or replaced); nothing else changes |
| Data.Store.DeleteBlob | Controllers/FileController.cs:125-126 | the file at the path is gone; nothing else changes |
| Data.Store.InsertFile | Controllers/FileController.cs:72-73 | the record gets the next key and the current time; the foreign key or an exhausted key rejects it and changes nothing |
| Data.Store.InsertUser | Controllers/AuthController.cs:45-46 | the row gets the next key; the exact unique index or an exhausted key rejects it and changes nothing |
| Data.Store.UpdateUser | Controllers/ProfileController.cs:71-76 | the row is replaced unless another row holds exactly the new email, in which case nothing changes |
| Data.Store.DeleteFileRow | Controllers/FileController.cs:133-134 | exactly the record at that position is removed; the schema holds |
| Data.Store.RemoveUser | Data/AppDbContext.cs:19-23 | deleting a user removes their records with them and keeps the schema |
| FileController.ExtensionOf | Controllers/FileController.cs:47 | the lower-cased extension is empty or a '.' followed by at least one character, with no other '.', no separator and no upper-case letter |
| FileController.HasContent | Controllers/FileController.cs:44 | a file part is present and holds at least one byte |
| FileController.StoredFileName | Controllers/FileController.cs:54 | the name starts with the Guid and is as long as the Guid and the lower-cased extension together; for a Guid and an allowed extension it holds no separator and ends in that extension, so it is exactly the Guid followed by the extension, with nothing from the client's file name |
| FileController.StoredNameStaysInUploads | Controllers/FileController.cs:47-55 | the stored path starts with the upload directory and its file name is the stored name |
| FileController.OwnedFile | Controllers/FileController.cs:106 | the first record with both the id and the owner; none exactly when no record has both |
| FileController.InsertNewestFirst | Controllers/FileController.cs:87 | inserting into a newest-first sequence keeps it newest first and adds exactly one element |
| FileController.SortNewestFirst | Controllers/FileController.cs:87 | the result is newest first and a permutation of the input |
| FileController.MyFilesNewestFirst | Controllers/FileController.cs:85-87 | the caller's records, newest first, as a permutation |
| FileController.FileUrl | Controllers/FileController.cs:93 | the origin and the `GetFile` route, followed by text that `int.Parse` reads back as the record id |
| FileController.Entries | Controllers/FileController.cs:88-94 | one entry per record, in the same order, with the record's id, file name and type, and a URL under the `GetFile` route that reads back as the record's id |
| FileController.ListMyFiles | Controllers/FileController.cs:80-97 | 401 without a "uid" claim; otherwise the entries of a newest-first permutation of exactly the caller's records |
| FileController.ListingIsExactlyMine | Controllers/FileController.cs:80-97 | every listed entry is one of the caller's records, every record of the caller is listed, and there are as many entries as records |
| FileController.GetFile | Controllers/FileController.cs:101-111 | 404 exactly when the caller owns no record with the id; otherwise the stored bytes, MIME type and stored name of the first such record, or 500 exactly when its file is missing; so an owned record whose file exists downloads |
| FileController.OtherOwnersInvisible | Controllers/FileController.cs:106-107 | what `GetFile` answers does not depend on other users' records |
| FileController.LatestHeadsListing | Controllers/FileController.cs:85-87 | a record stamped after all others comes first in its owner's listing |
| FileController.OwnedFileAfterAppend | Controllers/FileController.cs:106 | a record appended with a fresh id is the one found for its id and owner |
| FileController.Upload | Controllers/FileController.cs:37-76 | each refusal leaves the store unchanged; an accepted upload writes the bytes under the Guid name, then inserts the record or fails on the foreign key; the new id downloads the same bytes and heads the caller's listing |
| FileController.DeleteFile | Controllers/FileController.cs:115-137 | 404 and no change when the caller owns no such record; otherwise exactly that record is removed, its file too when the disk allows, and it then downloads as 404 |
| ProfileController.ProfileImageUrl | Controllers/ProfileController.cs:46-48 | no URL exactly when no path is stored or it is empty; otherwise the upload prefix followed by the path's file name, a separator-free suffix of the path |
| ProfileController.ProfileOf | Controllers/ProfileController.cs:39-48 | the profile of a row: its id, name, email, gender and phone, and the URL of its stored image |
| ProfileController.GetMyProfile | Controllers/ProfileController.cs:31-52 | 401 without a "uid" claim; 404 exactly when no row has the caller's id; otherwise the profile of such a row |
| ProfileController.ProfileIsTheCallersRow | Controllers/ProfileController.cs:36-51 | with unique keys the profile shown is the one of the caller's row |
| ProfileController.EmailTakenByOther | Controllers/ProfileController.cs:67 | true exactly when another user's email matches ignoring case |
| ProfileController.EmailChangeAllowed | Controllers/ProfileController.cs:65-68 | the duplicate check passes when the new email is the row's own ignoring case, or no other user has it ignoring case |
| ProfileController.Edited | Controllers/ProfileController.cs:71-74 | the edited row takes name, email, gender and phone from the request and keeps its id, hash and image |
| ProfileController.AllowedEditKeepsEmails | Controllers/ProfileController.cs:64-76 | an edit past the duplicate check never clashes on the exact index and keeps distinctness |
| ProfileController.UpdateProfileOn | Controllers/ProfileController.cs:56-79 | for the caller's row, 400 exactly when the new email differs ignoring case and another user has it ignoring case; past that check the edit is saved unless another row holds exactly the email (500); failures leave the table unchanged; success rewrites exactly the caller's row with the four edited columns |
| ProfileController.UpdateProfileKeepsEmailsDistinct | Controllers/ProfileController.cs:64-76 | distinct emails stay distinct, and the only remaining 500 is an unparsable claim |
| ProfileController.UpdateProfileReadsBack | Controllers/ProfileController.cs:56-79 | after a successful edit the profile shows the new values and the old image |
| ProfileController.UpdateProfile | Controllers/ProfileController.cs:56-79 | the store's answer and new user table are those of `UpdateProfileOn`; nothing else changes; the schema holds |
| ProfileController.ProfileImageName | Controllers/ProfileController.cs:100 | the name starts with "profile_" and has the Guid directly before the extension, and its length leaves room only for the id text and one character between them; for a Guid and an image extension it holds no separator and keeps the extension |
| ProfileController.ProfileImageNameIsBare | Controllers/ProfileController.cs:100-101 | the image path starts with the upload directory, its file name is the image name, and the name keeps the accepted extension |
| ProfileController.ProfileImageNamesSeparateUsers | Controllers/ProfileController.cs:100-104 | equal image names imply the same user, so one user's upload never replaces another user's image |
| ProfileController.UploadNamesNeverCollide | Controllers/ProfileController.cs:100 | a medical file's stored name never equals a profile image name |
| ProfileController.UploadProfileImageOn | Controllers/ProfileController.cs:83-117 | each refusal changes nothing; an accepted image is written before the lookup, so a missing row gives 404 and leaves the file; success points the caller's row at the file |
| ProfileController.UploadProfileImageReadsBack | Controllers/ProfileController.cs:109-115 | after a successful upload the profile shows the URL the upload answered |
| ProfileController.ProfileImageUrlNamesStoredFile | Controllers/ProfileController.cs:101-115 | the answered URL names the file that holds the uploaded bytes |
| ProfileController.UploadProfileImage | Controllers/ProfileController.cs:83-117 | the store's answer, users and files are those of `UploadProfileImageOn`; the schema holds |
| AuthController.TokenClaims | Controllers/AuthController.cs:74-79 | three claims: "sub" is the email, "name" the full name, and every "uid" claim is the user's id as text |
| AuthController.IssueToken | Controllers/AuthController.cs:68-89 | the first "uid" claim of the issued token is the user's id as text |
| AuthController.TokenIdentifiesUser | Controllers/AuthController.cs:74-79 | the token of a user with a positive int id authenticates exactly that id to the other controllers |
| AuthController.EmailTaken | Controllers/AuthController.cs:33 | true exactly when some email matches ignoring case |
| AuthController.NewUser | Controllers/AuthController.cs:36-43 | the new row takes name, email, gender and phone from the request, the given key and hash, and no image |
| AuthController.SignUpOn | Controllers/AuthController.cs:29-51 | 400 exactly when the email is registered ignoring case; success appends exactly the new row with the next id; failures change nothing |
| AuthController.FindByEmail | Controllers/AuthController.cs:58 | finds a row whose email matches ignoring case; none exactly when the email is not registered |
| AuthController.Login | Controllers/AuthController.cs:54-66 | every failure is the same 401 "Invalid credentials."; success is a token for a matching row whose hash verifies the password |
| AuthController.LoginIffPasswordVerifies | Controllers/AuthController.cs:58-62 | with distinct emails, login succeeds exactly when a matching row's hash verifies the password |
| AuthController.LoginTokenIdentifiesUser | Controllers/AuthController.cs:64-65 | the token a login answers authenticates the user id it reports |
| AuthController.SignUpThenLogin | Controllers/AuthController.cs:29-66 | with a sound hasher, logging in with the registered credentials returns the sign-up's answer |
| AuthController.SignUpKeepsEmailsDistinct | Controllers/AuthController.cs:33-46 | sign-up keeps emails distinct, and a second sign-up with the same email in any case is refused |
| AuthController.SignUp | Controllers/AuthController.cs:29-51 | the store's answer and new user table are those of `SignUpOn`, with the stored hash being the password's BCrypt hash; the schema holds |

## Left out

- The JWT is modelled as its claim list only. Signing, the key, issuer, audience and expiry, token validation, and the middleware that maps claim types (which can rename "sub") are left out, because they are external libraries.
- BCrypt is modelled only by two uninterpreted functions, `hash` and `verify`, and the property `Sound`. Its internals are cryptography.
- Model validation is not modelled. In `SignUp` and `Login` this is the `ModelState` check (`[Required]`, `[EmailAddress]`). In `Upload` and `UploadProfileImage`, `[ApiController]` answers 400 by itself when a `[Required]` field (`FileType`, `FileName`, `File`, `Image`) is missing. It is framework behaviour, and the requests are assumed to have bound. So the model stores an upload with an empty `FileType`, and answers "No file uploaded." where the framework would already have answered 400.
- `Directory.Exists`/`CreateDirectory`, partial writes, streams and file sizes are not modelled. So are `[RequestSizeLimit]`, `OpenRead` throwing for reasons other than a missing file, and logging. The file system is a map from path to bytes, and one `diskOk` flag per action.
- Asynchrony, concurrent requests and EF change tracking across requests are not modelled; each action runs alone.
- `Url.Content` is not resolved: the profile image URL keeps its "~/" prefix. `Url.Action` becomes `origin + "/api/File/" + id`, and routing is not modelled.
- `Program.cs` (service setup, CORS, static files) is not part of this model.
- `DTOs/ProfileDtos.cs` is not part of this model. The fields of `UpdateProfileDto` and `ProfileDto` follow their use in `ProfileController`.
- Text.Lower: lower-cases ASCII letters only, because culture-specific `ToLower` and SQL collation are not modelled.
- Text.ParseInt32: does not accept the leading and trailing white space that `int.Parse` allows.
- Paths.Combine: only '/' is a separator, and the platform's other separators and drive roots are not modelled.
- FileController.SortNewestFirst: the order among records with equal stamps is not the database's. The contract states only newest-first and a permutation, not the tie order.
- FileController.Upload: does not assume the Guid is fresh. A repeated Guid overwrites the earlier file.
- FileController.Upload: the store's clock strictly increases with every insert, while `DateTime.UtcNow` can repeat a value or step back. The promise that a new upload heads the caller's listing rests on this; with equal stamps the order is the database's.
- Paths.Combine: an argument that is null, or a name holding characters invalid in paths, is not modelled.
- `UploadProfileImage` is modelled as the code writes it. It writes the image before looking up the caller's row, so a caller without a row gets 404 and the file stays behind. A previous image is never deleted.
- Data.Store.InsertFile: a rejected insert (here and in `Data.Store.InsertUser`) leaves the identity counter unchanged, while SQL Server uses up the identity value, so real keys can have gaps. No action depends on keys being dense.
- Data.EmailIndexHolds: the unique `Email` index compares emails exactly, while the database collation is usually case-insensitive. The controllers' own checks ignore case, so the difference does not show through the actions.
- Deleting a user happens only through `Data.Store.RemoveUser`, the cascade the schema declares. No action of the core deletes users.

