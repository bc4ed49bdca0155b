/** What the server's handlers promise, stated over the step functions of
    `AuthServer`: the order of the sign-up checks, the store invariant,
    the uninformative sign-in failure, and the register / sign-in /
    profile round trips. */
module AuthServerProperties {
  import opened Wrappers
  import opened JsString
  import opened CredentialStore
  import opened AuthServer

  // ---------------------------------------------------------------------
  // Sign-up
  // ---------------------------------------------------------------------

  /** Sign-up rejects in a fixed order: a missing field first (whatever the
      password length or the store), then a short password (whether or not
      the email is taken), then a taken email (whatever the password).
      Every rejection leaves the store as it was. */
  lemma SignUpRejectionOrder(srv: Services, ctx: Context, users: Store, name: Field, email: Field, password: Field)
    ensures var (resp, next) := HandleSignUp(srv, ctx, users, name, email, password);
            && (!Present(name) || !Present(email) || !Present(password) ==>
                  resp == Reject(400, MsgAllFieldsRequired) && next == users)
            && (Present(name) && Present(email) && Present(password) && Utf16Length(password.value) < MinPasswordLength ==>
                  resp == Reject(400, MsgPasswordTooShort) && next == users)
            && (Present(name) && Present(email) && Present(password) && Utf16Length(password.value) >= MinPasswordLength
                && HasEmail(users, email.value) ==>
                  resp == Reject(400, MsgEmailTaken) && next == users)
  {
  }

  /** The length bound is inclusive: a six-unit password passes the length check. */
  lemma SixUnitPasswordAccepted(srv: Services, ctx: Context, users: Store, name: string, email: string, password: string)
    requires |name| > 0 && |email| > 0 && Utf16Length(password) == 6
    requires !HasEmail(users, email)
    ensures HandleSignUp(srv, ctx, users, Some(name), Some(email), Some(password)).0.status == 201
  {
  }

  /** A successful sign-up keeps ids equal to position + 1 and emails distinct. */
  lemma SignUpPreservesValid(srv: Services, ctx: Context, users: Store, name: Field, email: Field, password: Field)
    requires Valid(users)
    ensures Valid(HandleSignUp(srv, ctx, users, name, email, password).1)
  {
    if SignUpAcceptable(users, name, email, password) {
      AppendValid(users, NewUser(srv, ctx, users, name.value, email.value, password.value));
    }
  }

  /** Registering an email a second time fails with the duplicate message,
      whatever the (non-empty) second name and whatever second password of
      at least 6 code units, and changes nothing. */
  lemma SecondSignUpRejected(srv: Services, ctx: Context, ctx': Context, users: Store, name: string, email: string, password: string, name': string, password': string)
    requires |name| > 0 && |email| > 0 && |name'| > 0
    requires Utf16Length(password) >= MinPasswordLength && Utf16Length(password') >= MinPasswordLength
    requires !HasEmail(users, email)
    ensures var (_, after) := HandleSignUp(srv, ctx, users, Some(name), Some(email), Some(password));
            HandleSignUp(srv, ctx', after, Some(name'), Some(email), Some(password')) == (Reject(400, MsgEmailTaken), after)
  {
    var (_, after) := HandleSignUp(srv, ctx, users, Some(name), Some(email), Some(password));
    assert after[|users|].email == email;
  }

  // ---------------------------------------------------------------------
  // Sign-in
  // ---------------------------------------------------------------------

  /** On a valid store, sign-in with both fields present succeeds exactly
      when the record with that email accepts the password; every other
      outcome is the same 401 "Invalid credentials" response. */
  lemma SignInOutcome(srv: Services, users: Store, email: string, password: string)
    requires Valid(users)
    requires |email| > 0 && |password| > 0
    ensures var resp := HandleSignIn(srv, users, Some(email), Some(password));
            && (resp.status == 200 <==> CredentialsMatch(srv, users, email, password))
            && (resp.status != 200 ==> resp == Reject(401, MsgInvalidCredentials))
  {
    var resp := HandleSignIn(srv, users, Some(email), Some(password));
    if CredentialsMatch(srv, users, email, password) {
      var k :| 0 <= k < |users| && users[k].email == email && srv.hasher.compare(password, users[k].passwordHash);
      FindByEmailUnique(users, email, k);
    }
  }

  /** An unknown email and a known email with a wrong password cannot be
      told apart from the response. */
  lemma SignInHidesWhichPartFailed(srv: Services, users: Store, unknown: string, p1: string, k: nat, p2: string)
    requires Valid(users)
    requires |unknown| > 0 && |p1| > 0 && |p2| > 0
    requires !HasEmail(users, unknown)
    requires k < |users| && |users[k].email| > 0 && !srv.hasher.compare(p2, users[k].passwordHash)
    ensures HandleSignIn(srv, users, Some(unknown), Some(p1)) == HandleSignIn(srv, users, Some(users[k].email), Some(p2))
    ensures HandleSignIn(srv, users, Some(unknown), Some(p1)) == Reject(401, MsgInvalidCredentials)
  {
    FindByEmailUnique(users, users[k].email, k);
  }

  /** Registering and then signing in with the same email and password
      returns 200 and the id the registration assigned, given only that
      bcrypt accepts a password against a hash made from it. */
  lemma SignUpThenSignIn(srv: Services, ctx: Context, users: Store, name: string, email: string, password: string)
    requires Sound(srv.hasher)
    requires |name| > 0 && |email| > 0 && Utf16Length(password) >= MinPasswordLength
    requires !HasEmail(users, email)
    ensures var (created, after) := HandleSignUp(srv, ctx, users, Some(name), Some(email), Some(password));
            var signedIn := HandleSignIn(srv, after, Some(email), Some(password));
            && created.status == 201 && signedIn.status == 200
            && signedIn.body.user == created.body.user
            && signedIn.body.user.id == |users| + 1
  {
    var (created, after) := HandleSignUp(srv, ctx, users, Some(name), Some(email), Some(password));
    assert FindByEmail(after, email) == Some(|users|) by {
      assert after[|users|].email == email;
      forall k | 0 <= k < |users|
        ensures after[k].email != email
      {
        assert after[k] == users[k];
      }
    }
    assert srv.hasher.compare(password, srv.hasher.hash(password, SaltRounds, ctx.salt));
  }

  // ---------------------------------------------------------------------
  // Bearer token and profile
  // ---------------------------------------------------------------------

  /** The token is the second space-separated segment of the header,
      whatever the first segment says and whatever follows. */
  lemma BearerTokenIsSecondSegment(scheme: string, token: string, rest: seq<string>)
    requires ' ' !in scheme && ' ' !in token
    requires NoSeparator(rest, ' ')
    ensures BearerToken(Some(Join([scheme, token] + rest, ' '))) == if token == "" then None else Some(token)
  {
    var parts := [scheme, token] + rest;
    SplitJoin(parts, ' ');
  }

  /** `Authorization: Bearer <token>` yields exactly `<token>`. */
  lemma BearerHeader(token: string)
    requires |token| > 0 && ' ' !in token
    ensures BearerToken(Some("Bearer " + token)) == Some(token)
  {
    assert "Bearer " + token == Join(["Bearer", token] + [], ' ');
    BearerTokenIsSecondSegment("Bearer", token, []);
  }

  /** Without a second non-empty segment the request stops at 401 before
      any token verification: the response depends on nothing else. */
  lemma ProfileWithoutTokenIs401(srv: Services, users: Store, header: Option<string>)
    requires header.None? || ' ' !in header.value
    ensures BearerToken(header).None?
    ensures HandleProfile(srv, users, header) == Reject(401, MsgTokenRequired)
  {
    if header.Some? && |header.value| > 0 {
      SplitNoSeparator(header.value, ' ');
    }
  }

  /** A token sent with a trailing space but nothing after it ("Bearer ") is also missing. */
  lemma ProfileWithEmptySegmentIs401(srv: Services, users: Store, scheme: string)
    requires ' ' !in scheme
    ensures HandleProfile(srv, users, Some(scheme + " ")) == Reject(401, MsgTokenRequired)
  {
    assert scheme + " " == Join([scheme, ""] + [], ' ');
    BearerTokenIsSecondSegment(scheme, "", []);
  }

  /** Registering and then calling the profile route with the issued token
      returns the new record's public view and timestamp. */
  lemma SignUpThenProfile(srv: Services, ctx: Context, users: Store, name: string, email: string, password: string)
    requires WellFormed(srv.tokens) && Valid(users)
    requires |name| > 0 && |email| > 0 && Utf16Length(password) >= MinPasswordLength
    requires !HasEmail(users, email)
    ensures var (created, after) := HandleSignUp(srv, ctx, users, Some(name), Some(email), Some(password));
            HandleProfile(srv, after, Some("Bearer " + created.body.token))
              == Response(200, ProfileData(created.body.user, ctx.now))
  {
    var (created, after) := HandleSignUp(srv, ctx, users, Some(name), Some(email), Some(password));
    var id := |users| + 1;
    assert created.body.token == srv.tokens.sign(id);
    assert srv.tokens.verify(srv.tokens.sign(id)) == Some(id);
    BearerHeader(created.body.token);
    SignUpPreservesValid(srv, ctx, users, Some(name), Some(email), Some(password));
    FindByIdValid(after, id);
  }

  // ---------------------------------------------------------------------
  // The whole server
  // ---------------------------------------------------------------------

  lemma StepPreservesValid(srv: Services, ctx: Context, users: Store, req: Request)
    requires Valid(users)
    ensures Valid(Step(srv, ctx, users, req).1)
  {
    if req.SignUp? {
      SignUpPreservesValid(srv, ctx, users, req.name, req.email, req.password);
    }
  }

  /** Every store the server can reach from an empty one satisfies the invariant. */
  lemma {:induction false} RunPreservesValid(srv: Services, ctxs: seq<Context>, users: Store, reqs: seq<Request>)
    requires |ctxs| == |reqs| && Valid(users)
    ensures Valid(Run(srv, ctxs, users, reqs).1)
    decreases |reqs|
  {
    if |reqs| > 0 {
      StepPreservesValid(srv, ctxs[0], users, reqs[0]);
      RunPreservesValid(srv, ctxs[1..], Step(srv, ctxs[0], users, reqs[0]).1, reqs[1..]);
    }
  }

  /** An example session: Ann registers, signs in, fails with a wrong
      password, reads her profile, and is refused without a header. */
  lemma AnnScenario(srv: Services, ctx: Context)
    requires Sound(srv.hasher) && WellFormed(srv.tokens)
    requires !srv.hasher.compare("wrong", srv.hasher.hash("secret1", SaltRounds, ctx.salt))
    ensures var (created, users) := HandleSignUp(srv, ctx, [], Some("Ann"), Some("ann@x.com"), Some("secret1"));
            && created.status == 201 && created.body.user == PublicUser(1, "Ann", "ann@x.com")
            && HandleSignIn(srv, users, Some("ann@x.com"), Some("secret1")).status == 200
            && HandleSignIn(srv, users, Some("ann@x.com"), Some("secret1")).body.user.id == 1
            && HandleSignIn(srv, users, Some("ann@x.com"), Some("wrong")) == Reject(401, MsgInvalidCredentials)
            && HandleProfile(srv, users, Some("Bearer " + created.body.token)) == Response(200, ProfileData(PublicUser(1, "Ann", "ann@x.com"), ctx.now))
            && HandleProfile(srv, users, None) == Reject(401, MsgTokenRequired)
  {
    Utf16LengthOfBmp("secret1");
    SignUpThenSignIn(srv, ctx, [], "Ann", "ann@x.com", "secret1");
    SignUpThenProfile(srv, ctx, [], "Ann", "ann@x.com", "secret1");
  }
}
