/**
 * The two persisted entities (`Models/User.cs`, `Models/MedicalFile.cs`), the
 * request and response shapes of the controllers, and the action results.
 */
module Models {

  import opened Wrappers

  newtype byte = b: int | 0 <= b < 256

  /** A row of the `Users` table. Nullable columns are `Option`s. */
  datatype User = User(
    id: int,
    fullName: string,
    email: string,
    gender: Option<string>,
    phone: Option<string>,
    passwordHash: string,
    profileImagePath: Option<string>)

  /** A row of the `MedicalFiles` table; `uploadedAt` is a reading of the server clock. */
  datatype MedicalFile = MedicalFile(
    id: int,
    fileType: string,
    fileName: string,
    storedFileName: string,
    filePath: string,
    contentType: string,
    userId: int,
    uploadedAt: int)

  /** A claim of the authenticated principal, as found in its bearer token. */
  datatype Claim = Claim(claimType: string, value: string)

  /** The claim payload of an issued bearer token (signing and expiry are not modelled). */
  datatype Jwt = Jwt(claims: seq<Claim>)

  /** A multipart file part (`IFormFile`): its client file name, MIME type and bytes. */
  datatype FormFile = FormFile(fileName: string, contentType: string, content: seq<byte>)

  datatype FileUploadDto = FileUploadDto(fileType: string, fileName: string, file: Option<FormFile>)

  datatype SignUpDto = SignUpDto(
    fullName: string,
    email: string,
    gender: Option<string>,
    phone: Option<string>,
    password: string)

  datatype LoginDto = LoginDto(email: string, password: string)

  datatype UpdateProfileDto = UpdateProfileDto(
    fullName: string,
    email: string,
    gender: Option<string>,
    phone: Option<string>)

  datatype AuthResponse = AuthResponse(token: Jwt, userId: int)

  datatype ProfileDto = ProfileDto(
    id: int,
    fullName: string,
    email: string,
    gender: Option<string>,
    phone: Option<string>,
    profileImageUrl: Option<string>)

  /** One entry of the file listing: the record's id, title, category and retrieval URL. */
  datatype FileEntry = FileEntry(id: int, fileName: string, fileType: string, url: string)

  /** The body of a file download: the bytes, their MIME type and the suggested file name. */
  datatype Download = Download(content: seq<byte>, contentType: string, downloadName: string)

  /**
   * What an action answers. `Unauthorized` with an empty message is the bare
   * 401; `InternalError` is an exception escaping the action (HTTP 500).
   */
  datatype Response<T> =
    | Ok(body: T)
    | BadRequest(message: string)
    | Unauthorized(message: string)
    | NotFound
    | InternalError
}
