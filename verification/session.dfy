/** The register and login routes. bcrypt and JWT signing are parameters: `hash` and
    `verify` with the one law the routes rely on, `verify(p, hash(p))`, and `sign`,
    which turns claims and a secret into a token. The environment's SECRET_KEY is an
    optional string; the clock is whole seconds. */
module Session {
  import opened Wrappers
  import Database

  const TokenLifetime: nat := 3600
  const DuplicateDetail: string := "User already exists or error creating user."
  const BadCredentialsDetail: string := "Invalid email or password."
  const RegisteredMessage: string :=
    "User registered successfully. Copy your API Key and keep it safe! IT WON'T BE SHOWN AGAIN."
  const WelcomeMessage: string := "Welcome back!"
  const BadRequest: nat := 400

  /** The JWT payload `{"sub": email, "exp": now + 3600}`. */
  datatype Claims = Claims(sub: string, exp: int)

  /** Both stores that registration writes to. */
  datatype Accounts = Accounts(users: Database.Users, registry: Database.Registry)

  datatype RegisterReply =
    | Registered(apiKey: string, accountType: string, message: string)
    | RegisterRejected(status: nat, detail: string)
      /** The key insert returned "" and indexing it raised: an unhandled server error. */
    | RegisterCrashed

  /** The law of the password hasher that login depends on. */
  ghost predicate HashVerifies(hash: string -> string, verify: (string, string) -> bool) {
    forall p :: verify(p, hash(p))
  }

  /** `register_user`: hash, create the user, then insert an API key for the email. */
  function Register(acc: Accounts, email: string, password: string, hash: string -> string,
                    freshKey: string, userDbOk: bool, keyDbOk: bool): (r: (RegisterReply, Accounts))
    ensures r.0.RegisterRejected? <==> !userDbOk || email in acc.users
    ensures r.0.RegisterRejected? ==> r.0 == RegisterRejected(BadRequest, DuplicateDetail) && r.1 == acc
    ensures !r.0.RegisterRejected? ==> r.1.users == acc.users[email := hash(password)]
    ensures r.0.Registered? <==> userDbOk && email !in acc.users && keyDbOk
    ensures r.0.Registered? ==>
              r.0 == Registered(freshKey, Database.AccountTypeFor(email), RegisteredMessage) &&
              r.1.registry == acc.registry + [Database.ApiKeyRow(freshKey, email, Some(Database.AccountTypeFor(email)))]
    ensures r.0.RegisterCrashed? ==> r.1.registry == acc.registry
  {
    var hashed := hash(password);
    var (created, users) := Database.CreateUser(acc.users, email, hashed, userDbOk);
    if !created then (RegisterRejected(BadRequest, DuplicateDetail), acc)
    else
      var (inserted, registry) := Database.InsertApiKey(acc.registry, email, freshKey, keyDbOk);
      match inserted
      case Inserted(apiKey, accountType) => (Registered(apiKey, accountType, RegisteredMessage), Accounts(users, registry))
      case InsertFailed => (RegisterCrashed, Accounts(users, registry))
  }

  /** `_verify_user_credentials`: an unknown email fails; otherwise the hasher decides. */
  function VerifyCredentials(users: Database.Users, email: string, password: string,
                             verify: (string, string) -> bool): (ok: bool)
    ensures ok <==> email in users && verify(password, users[email])
  {
    match Database.GetUserInfo(users, email)
    case None => false
    case Some(doc) => verify(password, doc.password)
  }

  /** `_generate_jwt_for_user`: refuse when SECRET_KEY is unset or empty, otherwise sign
      the claims. */
  function GenerateJwt(email: string, secret: Option<string>, now: int,
                       sign: (Claims, string) -> string): (r: Option<string>)
    ensures r.None? <==> secret.None? || secret.value == ""
    ensures r.Some? ==> r.value == sign(Claims(email, now + TokenLifetime), secret.value)
  {
    match secret
    case None => None
    case Some(key) => if key == "" then None else Some(sign(Claims(email, now + TokenLifetime), key))
  }

  datatype LoginReply =
    | LoggedIn(token: string, message: string)
    | LoginRejected(status: nat, detail: string)
      /** No SECRET_KEY: an error and no token. */
    | SigningFailed

  /** `login_user`: check credentials first, then sign. */
  function Login(users: Database.Users, email: string, password: string,
                 verify: (string, string) -> bool, secret: Option<string>, now: int,
                 sign: (Claims, string) -> string): (r: LoginReply)
    ensures r.LoginRejected? <==> !(email in users && verify(password, users[email]))
    ensures r.LoginRejected? ==> r == LoginRejected(BadRequest, BadCredentialsDetail)
    ensures r.SigningFailed? <==>
              email in users && verify(password, users[email]) && (secret.None? || secret.value == "")
    ensures r.LoggedIn? ==>
              secret.Some? && r.token == sign(Claims(email, now + TokenLifetime), secret.value) &&
              r.message == WelcomeMessage
  {
    if !VerifyCredentials(users, email, password, verify) then LoginRejected(BadRequest, BadCredentialsDetail)
    else
      match GenerateJwt(email, secret, now, sign)
      case None => SigningFailed
      case Some(token) => LoggedIn(token, WelcomeMessage)
  }

  /** Registration stores the hash of the password under the email, not the password. */
  lemma RegisterStoresHash(acc: Accounts, email: string, password: string, hash: string -> string,
                           freshKey: string, keyDbOk: bool)
    requires email !in acc.users
    ensures var r := Register(acc, email, password, hash, freshKey, true, keyDbOk);
            email in r.1.users && r.1.users[email] == hash(password)
  {
  }

  /** Registering an email that is already known is refused with 400, inserts no key and
      leaves both stores as they were. */
  lemma DuplicateRegistrationChangesNothing(acc: Accounts, email: string, password: string,
                                            hash: string -> string, freshKey: string,
                                            userDbOk: bool, keyDbOk: bool)
    requires email in acc.users
    ensures Register(acc, email, password, hash, freshKey, userDbOk, keyDbOk)
              == (RegisterRejected(BadRequest, DuplicateDetail), acc)
  {
  }

  /** Registering twice: the first call succeeds, the second is refused and the first
      call's user and key are kept. */
  lemma RegisterTwice(acc: Accounts, email: string, p1: string, p2: string, hash: string -> string,
                      key1: string, key2: string)
    requires email !in acc.users
    ensures var first := Register(acc, email, p1, hash, key1, true, true);
            var second := Register(first.1, email, p2, hash, key2, true, true);
            first.0.Registered? && first.0.apiKey == key1 &&
            second.0 == RegisterRejected(BadRequest, DuplicateDetail) && second.1 == first.1
  {
  }

  /** A failed key insert leaves the user stored without any key, and that email can no
      longer register. */
  lemma KeyFailureStrandsUser(acc: Accounts, email: string, password: string, hash: string -> string,
                              key1: string, key2: string, password2: string)
    requires email !in acc.users
    ensures var first := Register(acc, email, password, hash, key1, true, false);
            first.0 == RegisterCrashed && email in first.1.users && first.1.registry == acc.registry &&
            Register(first.1, email, password2, hash, key2, true, true).0.RegisterRejected?
  {
  }

  /** An unknown email and a wrong password get the same refusal, and no token. */
  lemma LoginDoesNotRevealAccounts(users: Database.Users, email: string, password: string,
                                   verify: (string, string) -> bool, secret: Option<string>, now: int,
                                   sign: (Claims, string) -> string, otherEmail: string)
    requires email in users && !verify(password, users[email])
    requires otherEmail !in users
    ensures Login(users, email, password, verify, secret, now, sign)
              == Login(users, otherEmail, password, verify, secret, now, sign)
  {
  }

  /** With a hasher that verifies its own hashes and a secret set, logging in with the
      password just registered yields a token for that email expiring an hour later. */
  lemma {:induction false} RegisterThenLogin(acc: Accounts, email: string, password: string,
                                             hash: string -> string, verify: (string, string) -> bool,
                                             freshKey: string, keyDbOk: bool, secret: string, now: int,
                                             sign: (Claims, string) -> string)
    requires HashVerifies(hash, verify)
    requires email !in acc.users
    requires secret != ""
    ensures var users := Register(acc, email, password, hash, freshKey, true, keyDbOk).1.users;
            Login(users, email, password, verify, Some(secret), now, sign)
              == LoggedIn(sign(Claims(email, now + TokenLifetime), secret), WelcomeMessage)
  {
    var users := Register(acc, email, password, hash, freshKey, true, keyDbOk).1.users;
    assert users[email] == hash(password);
    assert verify(password, hash(password));
  }
}
