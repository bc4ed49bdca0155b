/** The request handlers of the Express server, as pure step functions
    from the current user table and one request to a response and the
    next user table. bcrypt and jsonwebtoken are not modelled: they enter
    as function values (`PasswordHasher`, `TokenService`), and the bcrypt
    salt and the clock reading for `createdAt` enter as a per-request
    `Context`. */
module AuthServer {
  import opened Wrappers
  import opened JsString
  import opened CredentialStore

  /** A JSON request-body field: absent, or a string. */
  type Field = Option<string>

  /** JavaScript truthiness of a string field: present and non-empty. */
  predicate Present(f: Field) {
    f.Some? && |f.value| > 0
  }

  /** Minimum password `.length`, shared with the browser's validatePassword. */
  const MinPasswordLength: nat := 6

  /** bcrypt cost factor passed to `bcrypt.hash`. */
  const SaltRounds: nat := 10

  const MsgAllFieldsRequired := "All fields are required"
  const MsgPasswordTooShort := "Password must be at least 6 characters long"
  const MsgEmailTaken := "User with this email already exists"
  const MsgRegistered := "User registered successfully"
  const MsgCredentialsRequired := "Email and password are required"
  const MsgInvalidCredentials := "Invalid credentials"
  const MsgSignedIn := "Sign in successful"
  const MsgTokenRequired := "Access token required"
  const MsgTokenInvalid := "Invalid or expired token"
  const MsgUserNotFound := "User not found"

  /** bcrypt: `hash(password, rounds, salt)` and `compare(password, storedHash)`. */
  datatype PasswordHasher = PasswordHasher(hash: (string, nat, nat) -> string, compare: (string, string) -> bool)

  /** The one property of bcrypt the model relies on: a password matches any hash made from it. */
  ghost predicate Sound(h: PasswordHasher) {
    forall p, rounds, salt :: h.compare(p, h.hash(p, rounds, salt))
  }

  /** jsonwebtoken with the server secret, at the moment of the request:
      `sign(userId)` is `generateToken`, `verify(token)` is the userId
      claim of a token whose signature and expiry check out. */
  datatype TokenService = TokenService(sign: int -> string, verify: string -> Option<int>)

  /** A freshly issued token is non-empty, has no space in it (a JWT is
      base64url segments joined by dots) and verifies to its user id. */
  ghost predicate WellFormed(t: TokenService) {
    forall id :: |t.sign(id)| > 0 && ' ' !in t.sign(id) && t.verify(t.sign(id)) == Some(id)
  }

  datatype Services = Services(hasher: PasswordHasher, tokens: TokenService)

  /** What varies per request outside the model: the random bcrypt salt and `new Date().toISOString()`. */
  datatype Context = Context(salt: nat, now: string)

  /** JSON response bodies. */
  datatype Body =
    | Failure(message: string)                                 // { success: false, message }
    | Authenticated(message: string, user: PublicUser, token: string)
    | ProfileData(user: PublicUser, createdAt: string)

  datatype Response = Response(status: nat, body: Body)

  function Reject(status: nat, message: string): Response {
    Response(status, Failure(message))
  }

  datatype Request =
    | SignUp(name: Field, email: Field, password: Field)      // POST /api/auth/signup
    | SignIn(email: Field, password: Field)                   // POST /api/auth/signin
    | Profile(authorization: Option<string>)                  // GET /api/profile

  // ---------------------------------------------------------------------
  // POST /api/auth/signup
  // ---------------------------------------------------------------------

  /** The record a successful sign-up appends. */
  function NewUser(srv: Services, ctx: Context, users: Store, name: string, email: string, password: string): User {
    User(|users| + 1, name, email, srv.hasher.hash(password, SaltRounds, ctx.salt), ctx.now)
  }

  /** The three validation checks of sign-up, all passed. */
  predicate SignUpAcceptable(users: Store, name: Field, email: Field, password: Field) {
    && Present(name) && Present(email) && Present(password)
    && Utf16Length(password.value) >= MinPasswordLength
    && !HasEmail(users, email.value)
  }

  function HandleSignUp(srv: Services, ctx: Context, users: Store, name: Field, email: Field, password: Field): (out: (Response, Store))
    ensures out.0.status == 201 <==> SignUpAcceptable(users, name, email, password)
    ensures out.0.status != 201 ==> out.0.status == 400 && out.0.body.Failure? && out.1 == users
    ensures out.0.status == 201 ==>
              && |out.1| == |users| + 1 && out.1[..|users|] == users
              && out.1[|users|] == NewUser(srv, ctx, users, name.value, email.value, password.value)
              && out.0.body == Authenticated(MsgRegistered, PublicView(out.1[|users|]), srv.tokens.sign(|users| + 1))
  {
    if !Present(name) || !Present(email) || !Present(password) then
      (Reject(400, MsgAllFieldsRequired), users)
    else if Utf16Length(password.value) < MinPasswordLength then
      (Reject(400, MsgPasswordTooShort), users)
    else if FindByEmail(users, email.value).Some? then
      (Reject(400, MsgEmailTaken), users)
    else
      var user := NewUser(srv, ctx, users, name.value, email.value, password.value);
      var token := srv.tokens.sign(user.id);
      (Response(201, Authenticated(MsgRegistered, PublicView(user), token)), users + [user])
  }

  // ---------------------------------------------------------------------
  // POST /api/auth/signin
  // ---------------------------------------------------------------------

  /** Some record has this email and its hash matches the password. */
  predicate CredentialsMatch(srv: Services, users: Store, email: string, password: string) {
    exists k | 0 <= k < |users| :: users[k].email == email && srv.hasher.compare(password, users[k].passwordHash)
  }

  function HandleSignIn(srv: Services, users: Store, email: Field, password: Field): (resp: Response)
    ensures !Present(email) || !Present(password) ==> resp == Reject(400, MsgCredentialsRequired)
    ensures resp.status in {200, 400, 401}
    ensures resp.status == 200 ==>
              exists k | 0 <= k < |users| ::
                && users[k].email == email.value
                && srv.hasher.compare(password.value, users[k].passwordHash)
                && resp.body == Authenticated(MsgSignedIn, PublicView(users[k]), srv.tokens.sign(users[k].id))
  {
    if !Present(email) || !Present(password) then
      Reject(400, MsgCredentialsRequired)
    else
      match FindByEmail(users, email.value)
      case None => Reject(401, MsgInvalidCredentials)
      case Some(k) =>
        var user := users[k];
        if !srv.hasher.compare(password.value, user.passwordHash) then
          Reject(401, MsgInvalidCredentials)
        else
          Response(200, Authenticated(MsgSignedIn, PublicView(user), srv.tokens.sign(user.id)))
  }

  // ---------------------------------------------------------------------
  // authenticateToken middleware and GET /api/profile
  // ---------------------------------------------------------------------

  /** `authHeader && authHeader.split(' ')[1]`, with a falsy result (no
      header, an empty header, no second segment, an empty second
      segment) read as no token. The first segment is not inspected. */
  function BearerToken(header: Option<string>): (t: Option<string>)
    ensures t.Some? ==> |t.value| > 0 && ' ' !in t.value
  {
    match header
    case None => None
    case Some(h) =>
      if |h| == 0 then None
      else
        var parts := Split(h, ' ');
        if |parts| < 2 || |parts[1]| == 0 then None else Some(parts[1])
  }

  datatype AuthOutcome = Denied(response: Response) | Authorized(userId: int)

  function AuthenticateToken(tokens: TokenService, header: Option<string>): (a: AuthOutcome)
    ensures BearerToken(header).None? <==> a == Denied(Reject(401, MsgTokenRequired))
    ensures a.Authorized? <==> BearerToken(header).Some? && tokens.verify(BearerToken(header).value).Some?
    ensures a.Authorized? ==> Some(a.userId) == tokens.verify(BearerToken(header).value)
    ensures BearerToken(header).Some? && tokens.verify(BearerToken(header).value).None? ==>
              a == Denied(Reject(403, MsgTokenInvalid))
  {
    match BearerToken(header)
    case None => Denied(Reject(401, MsgTokenRequired))
    case Some(token) =>
      match tokens.verify(token)
      case None => Denied(Reject(403, MsgTokenInvalid))
      case Some(id) => Authorized(id)
  }

  function HandleProfile(srv: Services, users: Store, header: Option<string>): (resp: Response)
    ensures resp.status in {200, 401, 403, 404}
    ensures AuthenticateToken(srv.tokens, header).Denied? ==> resp == AuthenticateToken(srv.tokens, header).response
    ensures resp.status == 404 <==>
              && AuthenticateToken(srv.tokens, header).Authorized?
              && forall k | 0 <= k < |users| :: users[k].id != AuthenticateToken(srv.tokens, header).userId
    ensures resp.status == 200 <==>
              && AuthenticateToken(srv.tokens, header).Authorized?
              && exists k | 0 <= k < |users| :: users[k].id == AuthenticateToken(srv.tokens, header).userId
    ensures resp.status == 404 ==> resp == Reject(404, MsgUserNotFound)
    ensures resp.status == 200 ==>
              exists k | 0 <= k < |users| ::
                   && users[k].id == AuthenticateToken(srv.tokens, header).userId
                   && resp.body == ProfileData(PublicView(users[k]), users[k].createdAt)
  {
    match AuthenticateToken(srv.tokens, header)
    case Denied(r) => r
    case Authorized(id) =>
      match FindById(users, id)
      case None => Reject(404, MsgUserNotFound)
      case Some(k) => Response(200, ProfileData(PublicView(users[k]), users[k].createdAt))
  }

  // ---------------------------------------------------------------------
  // The server as a state machine over the user table
  // ---------------------------------------------------------------------

  function Step(srv: Services, ctx: Context, users: Store, req: Request): (out: (Response, Store))
    ensures users <= out.1 && |out.1| <= |users| + 1
    ensures out.1 != users ==> req.SignUp? && out.0.status == 201
  {
    match req
    case SignUp(name, email, password) => HandleSignUp(srv, ctx, users, name, email, password)
    case SignIn(email, password) => (HandleSignIn(srv, users, email, password), users)
    case Profile(header) => (HandleProfile(srv, users, header), users)
  }

  /** Requests handled one after another, each with its own context. */
  function Run(srv: Services, ctxs: seq<Context>, users: Store, reqs: seq<Request>): (out: (seq<Response>, Store))
    requires |ctxs| == |reqs|
    ensures |out.0| == |reqs|
    ensures users <= out.1 && |out.1| <= |users| + |reqs|
    decreases |reqs|
  {
    if |reqs| == 0 then ([], users)
    else
      var (resp, next) := Step(srv, ctxs[0], users, reqs[0]);
      var (rest, final) := Run(srv, ctxs[1..], next, reqs[1..]);
      ([resp] + rest, final)
  }
}
