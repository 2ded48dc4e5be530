/**
 * `AuthController`: sign-up creates a user row with a hashed password and
 * answers with a bearer token; login checks the password of the row with the
 * given email (compared ignoring case) and answers with a token. The token's
 * claims are modelled; its signature, issuer, audience and expiry are not.
 */
module AuthController {

  import opened Wrappers
  import opened Models
  import Text
  import Seqs
  import Claims
  import Data

  const EmailRegisteredMessage: string := "Email already registered."
  const InvalidCredentialsMessage: string := "Invalid credentials."
  /** The registered "sub" claim name. */
  const SubClaim: string := "sub"
  const NameClaim: string := "name"

  /**
   * BCrypt as the actions use it: `hash(password, salt)` and
   * `verify(password, storedHash)`. The salt is the randomness of
   * `HashPassword`, passed in.
   */
  datatype PasswordHasher = PasswordHasher(hash: (string, string) -> string, verify: (string, string) -> bool)

  /** A password always verifies against a hash of itself. */
  ghost predicate Sound(h: PasswordHasher)
  {
    forall password, salt :: h.verify(password, h.hash(password, salt))
  }

  /** The claims `GenerateJwtToken` puts in a user's token: email, id as text, full name. */
  function TokenClaims(u: User): (r: seq<Claim>)
    ensures |r| == 3 && Claim(Claims.UidClaim, Text.IntToString(u.id)) in r
    ensures Claim(SubClaim, u.email) in r && Claim(NameClaim, u.fullName) in r
    ensures forall i :: 0 <= i < |r| && Text.EqualsIgnoreCase(r[i].claimType, Claims.UidClaim) ==>
      r[i].value == Text.IntToString(u.id)
  {
    assert Text.LowerChar(SubClaim[0]) != Text.LowerChar(Claims.UidClaim[0]);
    assert Text.LowerChar(NameClaim[0]) != Text.LowerChar(Claims.UidClaim[0]);
    [Claim(SubClaim, u.email), Claim(Claims.UidClaim, Text.IntToString(u.id)), Claim(NameClaim, u.fullName)]
  }

  /** The token `GenerateJwtToken` returns; its first "uid" claim is the user's id as text. */
  function IssueToken(u: User): (t: Jwt)
    ensures Claims.FindFirst(t.claims, Claims.UidClaim) == Some(Text.IntToString(u.id))
  {
    assert Text.LowerChar(SubClaim[0]) != Text.LowerChar(Claims.UidClaim[0]);
    Jwt(TokenClaims(u))
  }

  /**
   * A token issued for a user with a positive `int` id authenticates that
   * user to the file and profile actions.
   */
  lemma TokenIdentifiesUser(u: User)
    requires 0 < u.id <= Text.MaxInt32
    ensures Claims.UserIdFromClaims(IssueToken(u).claims) == Some(u.id)
    ensures Claims.Authenticated(IssueToken(u).claims) && Claims.CallerId(IssueToken(u).claims) == u.id
  {
    var claims := IssueToken(u).claims;
    Text.ParseIntToString(u.id);
    assert Claims.FindFirst(claims, Claims.UidClaim) == Some(Text.IntToString(u.id));
  }

  /** `Users.AnyAsync(u => u.Email.ToLower() == email.ToLower())`. */
  function EmailTaken(users: seq<User>, email: string): (r: bool)
    ensures r <==> exists i :: 0 <= i < |users| && Text.EqualsIgnoreCase(users[i].email, email)
  {
    Seqs.IndexWhere(users, (u: User) => Text.EqualsIgnoreCase(u.email, email)).Some?
  }

  /** The row a sign-up creates; its key is the next identity value. */
  function NewUser(id: int, dto: SignUpDto, passwordHash: string): (r: User)
    ensures r.id == id && r.passwordHash == passwordHash && r.profileImagePath.None?
    ensures r.fullName == dto.fullName && r.email == dto.email && r.gender == dto.gender && r.phone == dto.phone
  {
    User(id, dto.fullName, dto.email, dto.gender, dto.phone, passwordHash, None)
  }

  /**
   * What `SignUp` answers and what the `Users` table becomes, for the next
   * identity value `nextUserId` and the stored hash `passwordHash`. Every
   * answer but `Ok` leaves the table as it was.
   */
  function SignUpOn(users: seq<User>, nextUserId: int, dto: SignUpDto, passwordHash: string)
    : (out: (Response<AuthResponse>, seq<User>))
    ensures out.0 == BadRequest(EmailRegisteredMessage) <==> EmailTaken(users, dto.email)
    ensures !out.0.Ok? ==> out.1 == users
    ensures out.0.Ok? <==> !EmailTaken(users, dto.email) && nextUserId <= Text.MaxInt32
    ensures out.0.Ok? ==>
      && out.0.body.userId == nextUserId
      && out.1 == users + [NewUser(nextUserId, dto, passwordHash)]
  {
    if EmailTaken(users, dto.email) then (BadRequest(EmailRegisteredMessage), users)
    else if nextUserId > Text.MaxInt32 then (InternalError, users)
    else
      var u := NewUser(nextUserId, dto, passwordHash);
      (Ok(AuthResponse(IssueToken(u), u.id)), users + [u])
  }

  /** `Users.FirstOrDefaultAsync(u => u.Email.ToLower() == email.ToLower())`, by position. */
  function FindByEmail(users: seq<User>, email: string): (r: Option<nat>)
    ensures r.Some? ==> r.value < |users| && Text.EqualsIgnoreCase(users[r.value].email, email)
    ensures r.None? <==> !EmailTaken(users, email)
  {
    Seqs.IndexWhere(users, (u: User) => Text.EqualsIgnoreCase(u.email, email))
  }

  /** `Login`: every failure is the same 401, whether the email or the password was wrong. */
  function Login(users: seq<User>, dto: LoginDto, hasher: PasswordHasher): (r: Response<AuthResponse>)
    ensures !r.Ok? ==> r == Unauthorized(InvalidCredentialsMessage)
    ensures !EmailTaken(users, dto.email) ==> r == Unauthorized(InvalidCredentialsMessage)
    ensures r.Ok? ==>
      exists i :: 0 <= i < |users| && Text.EqualsIgnoreCase(users[i].email, dto.email)
                  && hasher.verify(dto.password, users[i].passwordHash)
                  && r.body == AuthResponse(IssueToken(users[i]), users[i].id)
  {
    match FindByEmail(users, dto.email)
    case None => Unauthorized(InvalidCredentialsMessage)
    case Some(i) =>
      if !hasher.verify(dto.password, users[i].passwordHash) then Unauthorized(InvalidCredentialsMessage)
      else Ok(AuthResponse(IssueToken(users[i]), users[i].id))
  }

  /**
   * While emails are distinct up to case, login succeeds exactly when some
   * row has the email up to case and the password verifies against its hash.
   */
  lemma LoginIffPasswordVerifies(users: seq<User>, dto: LoginDto, hasher: PasswordHasher)
    requires Data.EmailsDistinctIgnoringCase(users)
    ensures Login(users, dto, hasher).Ok? <==>
      exists i :: 0 <= i < |users| && Text.EqualsIgnoreCase(users[i].email, dto.email)
                  && hasher.verify(dto.password, users[i].passwordHash)
  {
    if i :| 0 <= i < |users| && Text.EqualsIgnoreCase(users[i].email, dto.email)
            && hasher.verify(dto.password, users[i].passwordHash) {
      var j := FindByEmail(users, dto.email).value;
      assert i == j;
    }
  }

  /** The token a successful login returns authenticates the user it names. */
  lemma LoginTokenIdentifiesUser(users: seq<User>, next: int, dto: LoginDto, hasher: PasswordHasher)
    requires Data.UserKeys(users, next) && next <= Text.MaxInt32 + 1
    requires Login(users, dto, hasher).Ok?
    ensures var body := Login(users, dto, hasher).body;
      Claims.Authenticated(body.token.claims) && Claims.CallerId(body.token.claims) == body.userId
  {
    var body := Login(users, dto, hasher).body;
    var i :| 0 <= i < |users| && body == AuthResponse(IssueToken(users[i]), users[i].id);
    TokenIdentifiesUser(users[i]);
  }

  /** With a sound hasher, the credentials a sign-up registered log in, with the same answer. */
  lemma SignUpThenLogin(users: seq<User>, nextUserId: int, dto: SignUpDto, hasher: PasswordHasher, salt: string)
    requires Sound(hasher)
    requires SignUpOn(users, nextUserId, dto, hasher.hash(dto.password, salt)).0.Ok?
    ensures var out := SignUpOn(users, nextUserId, dto, hasher.hash(dto.password, salt));
      Login(out.1, LoginDto(dto.email, dto.password), hasher) == out.0
  {
    var hash := hasher.hash(dto.password, salt);
    var u := NewUser(nextUserId, dto, hash);
    Seqs.FirstWhereAfter(users, u, (v: User) => Text.EqualsIgnoreCase(v.email, dto.email));
    assert (users + [u])[|users|] == u;
  }

  /** Sign-up keeps emails distinct up to case, and a second sign-up with the same email in any case is refused. */
  lemma SignUpKeepsEmailsDistinct(users: seq<User>, nextUserId: int, dto: SignUpDto, passwordHash: string,
                                  again: SignUpDto, nextHash: string)
    requires Data.EmailsDistinctIgnoringCase(users)
    requires Text.EqualsIgnoreCase(again.email, dto.email)
    ensures var out := SignUpOn(users, nextUserId, dto, passwordHash);
      && Data.EmailsDistinctIgnoringCase(out.1)
      && SignUpOn(out.1, nextUserId + 1, again, nextHash).0 == (if out.0.Ok? then BadRequest(EmailRegisteredMessage)
                                                               else SignUpOn(users, nextUserId + 1, again, nextHash).0)
  {
    var out := SignUpOn(users, nextUserId, dto, passwordHash);
    if out.0.Ok? {
      var u := NewUser(nextUserId, dto, passwordHash);
      Data.AppendKeepsDistinct(users, u);
      assert (users + [u])[|users|] == u;
    }
  }

  /**
   * `SignUp`: refuses an email that is registered up to case, otherwise
   * inserts a row with the BCrypt hash of the password and answers with a
   * token for it. `salt` is the randomness of `HashPassword`.
   */
  method SignUp(db: Data.Store, dto: SignUpDto, hasher: PasswordHasher, salt: string) returns (r: Response<AuthResponse>)
    requires db.Valid()
    modifies db
    ensures db.Valid()
    ensures (r, db.users) == SignUpOn(old(db.users), old(db.nextUserId), dto, hasher.hash(dto.password, salt))
    ensures db.nextUserId == if r.Ok? then old(db.nextUserId) + 1 else old(db.nextUserId)
    ensures db.medicalFiles == old(db.medicalFiles) && db.blobs == old(db.blobs)
    ensures db.nextFileId == old(db.nextFileId) && db.clock == old(db.clock)
  {
    var exists_ := EmailTaken(db.users, dto.email);
    if exists_ {
      return BadRequest(EmailRegisteredMessage);
    }
    assert Data.EmailFreeExcept(db.users, -1, dto.email);
    var id := db.InsertUser(dto.fullName, dto.email, dto.gender, dto.phone, hasher.hash(dto.password, salt));
    if id.None? {
      return InternalError;
    }
    var user := NewUser(id.value, dto, hasher.hash(dto.password, salt));
    r := Ok(AuthResponse(IssueToken(user), user.id));
  }
}
