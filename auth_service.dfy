/**
 * The authentication workflows of user/use_case/auth_service.go: register,
 * login, refresh and validate, over a user repository, the bcrypt calls and
 * the token manager.
 */
module UseCase {
  import opened Wrappers
  import opened GoInt
  import opened Claims
  import opened Jwt
  import opened TokenManager
  import opened Bcrypt
  import opened Repository

  /** The errors the service returns besides the token manager's own. */
  datatype ServiceError =
    | EmailAlreadyUsed
    | InvalidCredentials
    | Hashing(cause: HashError)

  /** Go's `(userID uint, err error)`. */
  datatype UserIdResult = UserIdResult(userId: nat, err: Option<Error>)

  class AuthService {
    const repo: UserRepository
    const tokenManager: Manager

    ghost predicate Valid()
      reads this, repo
    {
      repo.Valid()
    }

    /** NewAuthService. */
    constructor (repo: UserRepository, tokenManager: Manager)
      requires repo.Valid()
      ensures Valid()
      ensures this.repo == repo && this.tokenManager == tokenManager
    {
      this.repo := repo;
      this.tokenManager := tokenManager;
    }

    /**
     * Creates a user and returns a token pair for the id the repository gave
     * it. A taken e-mail address, or a password bcrypt refuses, leaves the
     * store as it was.
     */
    method Register(email: string, password: string, now: int)
      returns (accessToken: string, refreshToken: string, err: Option<ServiceError>)
      requires Valid()
      modifies repo
      ensures Valid()
      ensures old(HasEmail(repo.store, email)) ==>
                && err == Some(EmailAlreadyUsed) && accessToken == "" && refreshToken == ""
                && repo.store == old(repo.store) && repo.next == old(repo.next)
      ensures !old(HasEmail(repo.store, email)) && |password| > MaxPasswordLength ==>
                && err == Some(Hashing(PasswordTooLong)) && accessToken == "" && refreshToken == ""
                && repo.store == old(repo.store) && repo.next == old(repo.next)
      ensures !old(HasEmail(repo.store, email)) && |password| <= MaxPasswordLength ==>
                && err == None
                && repo.store == old(repo.store)[old(repo.next) := User(old(repo.next), email, Digest(password))]
                && repo.next == old(repo.next) + 1
                && TokenPair(accessToken, refreshToken, None) == tokenManager.NewTokens(Int32Of(old(repo.next)), now)
      ensures old(UniqueEmails(repo.store)) ==> UniqueEmails(repo.store)
    {
      var existing := repo.GetByEmail(email);
      if existing.Some? {
        return "", "", Some(EmailAlreadyUsed);
      }
      var hash := GenerateFromPassword(password);
      if hash.Failure? {
        return "", "", Some(Hashing(hash.error));
      }
      var user := repo.Create(User(0, email, hash.value));
      var pair := tokenManager.NewTokens(Int32Of(user.id), now);
      // NewTokens cannot fail, so its error (always nil) is passed on as no error.
      accessToken, refreshToken, err := pair.access, pair.refresh, None;
    }

    /**
     * A token pair for the stored user with this e-mail address when the
     * password verifies against its hash. An unknown address and a wrong
     * password give the same error.
     */
    method Login(email: string, password: string, now: int)
      returns (accessToken: string, refreshToken: string, err: Option<ServiceError>)
      requires Valid()
      ensures err.Some? ==> err == Some(InvalidCredentials) && accessToken == "" && refreshToken == ""
      ensures !HasEmail(repo.store, email) ==> err == Some(InvalidCredentials)
      ensures err.None? ==>
                exists id :: id in repo.store && repo.store[id].email == email
                             && CompareHashAndPassword(repo.store[id].passwordHash, password)
                             && TokenPair(accessToken, refreshToken, None) == tokenManager.NewTokens(Int32Of(id), now)
      ensures UniqueEmails(repo.store) ==>
                (err.None? <==> exists id :: id in repo.store && repo.store[id].email == email
                                             && CompareHashAndPassword(repo.store[id].passwordHash, password))
    {
      var user := repo.GetByEmail(email);
      if user.None? {
        return "", "", Some(InvalidCredentials);
      }
      if !CompareHashAndPassword(user.value.passwordHash, password) {
        return "", "", Some(InvalidCredentials);
      }
      var pair := tokenManager.NewTokens(Int32Of(user.value.id), now);
      // NewTokens cannot fail, so its error (always nil) is passed on as no error.
      accessToken, refreshToken, err := pair.access, pair.refresh, None;
    }

    /**
     * Rotation, passed straight to the token manager: an unexpired refresh
     * token signed with the refresh secret gives the pair NewTokens mints for
     * its user now; any failure gives two empty strings and the manager's error.
     */
    function Refresh(refreshToken: string, now: int): (r: TokenPair)
      ensures r == tokenManager.RefreshTokens(refreshToken, now)
      ensures forall c :: refreshToken == SignedString(c, tokenManager.refreshSecret) && now < c.expiresAt && c.kind == RefreshToken ==>
                 r == tokenManager.NewTokens(c.userId, now)
      ensures r.err.Some? ==> r.access == "" && r.refresh == ""
    {
      tokenManager.RefreshTokens(refreshToken, now)
    }

    /** The user id of a valid access token as a `uint`; 0 and the manager's error otherwise. */
    function Validate(accessToken: string, now: int): (r: UserIdResult)
      ensures r.err == tokenManager.ValidateAccessToken(accessToken, now).err
      ensures r.err.Some? ==> r.userId == 0
      ensures r.err.None? ==> r.userId == UintOf(tokenManager.ValidateAccessToken(accessToken, now).userId)
    {
      var v := tokenManager.ValidateAccessToken(accessToken, now);
      if v.err.Some? then UserIdResult(0, v.err) else UserIdResult(UintOf(v.userId), None)
    }
  }

  /**
   * The access token minted for a stored id validates back to that id while
   * it lives, as long as the id fits in an int32.
   */
  lemma ValidateIssuedId(svc: AuthService, id: nat, now: int, t: int)
    requires id < 0x8000_0000
    requires t < now + svc.tokenManager.accessTokenTtl
    ensures svc.Validate(svc.tokenManager.NewTokens(Int32Of(id), now).access, t) == UserIdResult(id, None)
  {
    AccessTokenLifetime(svc.tokenManager, Int32Of(id), now, t);
  }

  /** Registering a fresh address and then logging in with the same password succeeds. */
  method RegisterThenLogin(svc: AuthService, email: string, password: string, now: int, later: int)
    returns (id: nat, registerErr: Option<ServiceError>, loginErr: Option<ServiceError>,
             accessToken: string, refreshToken: string)
    requires svc.Valid() && UniqueEmails(svc.repo.store)
    requires !HasEmail(svc.repo.store, email) && |password| <= MaxPasswordLength
    modifies svc.repo
    ensures id == old(svc.repo.next)
    ensures registerErr == None && loginErr == None
    ensures TokenPair(accessToken, refreshToken, None) == svc.tokenManager.NewTokens(Int32Of(id), later)
  {
    id := svc.repo.next;
    var _, _, e := svc.Register(email, password, now);
    registerErr := e;
    assert svc.repo.store[id].email == email;
    accessToken, refreshToken, loginErr := svc.Login(email, password, later);
  }

  // -----------------------------------------------------------------------
  // The service's tests, each starting from an empty in-memory store
  // -----------------------------------------------------------------------

  /** Register then Login with the same credentials: both succeed with nonempty tokens. */
  method RegisterAndLoginScenario(m: Manager, now: int)
    returns (access: string, refresh: string, access2: string, refresh2: string,
             registerErr: Option<ServiceError>, loginErr: Option<ServiceError>)
    ensures registerErr == None && loginErr == None
    ensures access != "" && refresh != "" && access2 != "" && refresh2 != ""
  {
    var repo := new UserRepository();
    var svc := new AuthService(repo, m);
    access, refresh, registerErr := svc.Register("x@y.com", "pwd", now);
    assert repo.store[1].email == "x@y.com" && CompareHashAndPassword(repo.store[1].passwordHash, "pwd");
    access2, refresh2, loginErr := svc.Login("x@y.com", "pwd", now);
  }

  /** The first registered user has id 1, and a rotated access token validates to it. */
  method RefreshAndValidateScenario(m: Manager, registeredAt: int, refreshedAt: int, validatedAt: int)
    returns (uid: nat, refreshErr: Option<Error>, validateErr: Option<Error>)
    requires refreshedAt < registeredAt + m.refreshTokenTtl
    requires validatedAt < refreshedAt + m.accessTokenTtl
    ensures refreshErr == None && validateErr == None && uid == 1
  {
    var repo := new UserRepository();
    var svc := new AuthService(repo, m);
    var _, refresh, _ := svc.Register("a@b.c", "pwd", registeredAt);
    RotationKeepsSubject(m, 1, registeredAt, refreshedAt, validatedAt);
    var pair := svc.Refresh(refresh, refreshedAt);
    refreshErr := pair.err;
    var v := svc.Validate(pair.access, validatedAt);
    uid, validateErr := v.userId, v.err;
  }

  /** The stored hash is not the password and verifies against it. */
  method PasswordHashStoredScenario(m: Manager, now: int) returns (hash: string, err: Option<ServiceError>)
    ensures err == None
    ensures hash != "" && hash != "secret" && CompareHashAndPassword(hash, "secret")
  {
    var repo := new UserRepository();
    var svc := new AuthService(repo, m);
    var _, _, e := svc.Register("p@q.r", "secret", now);
    err := e;
    assert repo.store == map[1 := User(1, "p@q.r", Digest("secret"))];
    assert repo.store[1].email == "p@q.r";
    var u := repo.GetByEmail("p@q.r");
    assert u.value.id == 1;
    hash := u.value.passwordHash;
    assert hash == Digest("secret") && |hash| > |"secret"|;
  }

  /** A second registration with the same address fails with ErrEmailAlreadyUsed. */
  method DuplicateEmailScenario(m: Manager, now: int) returns (err: Option<ServiceError>)
    ensures err == Some(EmailAlreadyUsed)
  {
    var repo := new UserRepository();
    var svc := new AuthService(repo, m);
    var _, _, _ := svc.Register("dup@e.com", "pwd", now);
    assert repo.store[1].email == "dup@e.com";
    var _, _, e := svc.Register("dup@e.com", "pwd", now);
    err := e;
  }

  /** Logging in with a wrong password, or an unknown address, fails with ErrInvalidCredentials. */
  method WrongCredentialsScenario(m: Manager, now: int)
    returns (wrongPassword: Option<ServiceError>, unknownEmail: Option<ServiceError>)
    ensures wrongPassword == Some(InvalidCredentials) && unknownEmail == Some(InvalidCredentials)
  {
    var repo := new UserRepository();
    var svc := new AuthService(repo, m);
    var _, _, _ := svc.Register("a@b.com", "pw", now);
    if CompareHashAndPassword(Digest("pw"), "wrong") {
      OnlyOwnPassword("pw", "wrong");
    }
    var _, _, e1 := svc.Login("a@b.com", "wrong", now);
    var _, _, e2 := svc.Login("c@d.com", "pw", now);
    wrongPassword, unknownEmail := e1, e2;
  }
}
