/** How the browser's checks line up with the server's: whatever the
    forms let through passes the server's own field checks. */
module ClientServer {
  import opened Wrappers
  import opened JsString
  import opened CredentialStore
  import AuthServer
  import ClientValidation

  /** Both sides use the same password bound and the same message for it. */
  lemma PasswordRuleShared(p: string)
    ensures ClientValidation.MinPasswordLength == AuthServer.MinPasswordLength
    ensures ClientValidation.MsgShortPassword == AuthServer.MsgPasswordTooShort
    ensures ClientValidation.ValidatePassword(p) <==> Utf16Length(p) >= AuthServer.MinPasswordLength
  {
  }

  /** A body the sign-up form submits is never refused by the server for a
      missing field or a short password: it is either registered, or
      refused because the email is taken, and registered exactly when the
      email is new. */
  lemma SubmittedSignUpPassesServerChecks(srv: AuthServer.Services, ctx: AuthServer.Context, users: Store,
                                          nameInput: string, emailInput: string, password: string, confirm: string)
    ensures var form := ClientValidation.SignUpForm(nameInput, emailInput, password, confirm);
            form.Submit? ==>
              var (resp, _) := AuthServer.HandleSignUp(srv, ctx, users, Some(form.body.name), Some(form.body.email), Some(form.body.password));
              && (resp.status == 201 <==> !HasEmail(users, form.body.email))
              && (resp.status != 201 ==> resp == AuthServer.Reject(400, AuthServer.MsgEmailTaken))
  {
    var form := ClientValidation.SignUpForm(nameInput, emailInput, password, confirm);
    if form.Submit? {
      assert |form.body.email| > 0 && |form.body.password| > 0;
    }
  }

  /** A body the sign-in form submits is never refused for a missing field:
      the server answers 200 or 401. */
  lemma SubmittedSignInPassesServerChecks(srv: AuthServer.Services, users: Store, emailInput: string, password: string)
    ensures var form := ClientValidation.SignInForm(emailInput, password);
            form.Submit? ==> AuthServer.HandleSignIn(srv, users, Some(form.body.email), Some(form.body.password)).status in {200, 401}
  {
    var form := ClientValidation.SignInForm(emailInput, password);
    if form.Submit? {
      assert |form.body.email| > 0;
    }
  }
}
