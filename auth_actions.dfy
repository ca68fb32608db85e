/** The sign-in, sign-up and sign-out server actions. Each ends in exactly
    one redirect (the framework's `redirect` throws, so the first redirect
    ends the action); the identity service and the `members` table are
    represented by their answers, and the calls made to them are recorded in
    order. */
module AuthActions {
  import opened Common
  import opened JsText
  import opened Forms
  import UriComponent
  import Proxy

  /** A redirect target: a path and at most one query parameter, whose
      value is written with `encodeURIComponent`. */
  datatype Location = Location(path: string, param: Option<(string, string)>)

  /** Where the action redirects, and the calls it made before. */
  datatype ActionRedirect = ActionRedirect(location: Location, calls: seq<Call>)

  const SignUpPath: string := "/signup"
  const AccountPath: string := "/account"
  const MissingEmailOrPassword: string := "missing_email_or_password"
  const UnableToFetchUser: string := "unable_to_fetch_user"
  const AccountSuspended: string := "account_suspended"
  const CheckEmailOrSignIn: string := "check_email_or_sign_in"

  function LoginError(message: string): Location {
    Location(LoginPath, Some(("error", message)))
  }

  function SignUpError(message: string): Location {
    Location(SignUpPath, Some(("error", message)))
  }

  /** The URL string handed to `redirect`. */
  function Href(l: Location): string {
    match l.param
    case None => l.path
    case Some((name, value)) => l.path + "?" + name + "=" + UriComponent.Encode(value)
  }

  /** The value of a redirect's parameter is recovered exactly from the URL,
      and cannot end the parameter early: it holds no `&` and no `#`. */
  lemma HrefCarriesParam(path: string, name: string, value: string)
    ensures var h := Href(Location(path, Some((name, value))));
      var start := |path| + |name| + 2;
      && start <= |h| && h[..start] == path + "?" + name + "="
      && UriComponent.Decode(h[start..]) == Some(value)
      && forall i :: start <= i < |h| ==> h[i] != '&' && h[i] != '#'
  {
    var e := UriComponent.Encode(value);
    var h := path + "?" + name + "=" + e;
    var start := |path| + |name| + 2;
    assert h[start..] == e;
    UriComponent.DecodeEncode(value);
    UriComponent.EncodeAlphabet(value);
    forall i | start <= i < |h| ensures h[i] != '&' && h[i] != '#' {
      assert h[i] == e[i - start];
    }
  }

  /** A value of unreserved characters is written as it is. */
  lemma PlainHref(path: string, name: string, value: string)
    requires UriComponent.AllUnreserved(value)
    ensures Href(Location(path, Some((name, value)))) == path + "?" + name + "=" + value
  {
    UriComponent.EncodeUnreserved(value);
  }

  /** `redirect("/login?error=missing_email_or_password")`: the URL the
      action spells out is the one `Href` writes. */
  lemma MissingFieldsSignInHref()
    ensures Href(LoginError(MissingEmailOrPassword)) == LoginPath + "?" + "error" + "=" + MissingEmailOrPassword
  {
    assert UriComponent.AllUnreserved(MissingEmailOrPassword);
    UriComponent.EncodeUnreserved(MissingEmailOrPassword);
  }

  /** `/login?error=${encodeURIComponent("unable_to_fetch_user")}` is
      `/login?error=unable_to_fetch_user`. */
  lemma UnableToFetchUserHref()
    ensures Href(LoginError(UnableToFetchUser)) == LoginPath + "?" + "error" + "=" + UnableToFetchUser
  {
    assert UriComponent.AllUnreserved(UnableToFetchUser);
    UriComponent.EncodeUnreserved(UnableToFetchUser);
  }

  /** `/login?error=${encodeURIComponent("account_suspended")}` is
      `/login?error=account_suspended`. */
  lemma AccountSuspendedHref()
    ensures Href(LoginError(AccountSuspended)) == LoginPath + "?" + "error" + "=" + AccountSuspended
  {
    assert UriComponent.AllUnreserved(AccountSuspended);
    UriComponent.EncodeUnreserved(AccountSuspended);
  }

  /** `redirect("/signup?error=missing_email_or_password")`: the URL the
      action spells out is the one `Href` writes. */
  lemma MissingFieldsSignUpHref()
    ensures Href(SignUpError(MissingEmailOrPassword)) == SignUpPath + "?" + "error" + "=" + MissingEmailOrPassword
  {
    assert UriComponent.AllUnreserved(MissingEmailOrPassword);
    UriComponent.EncodeUnreserved(MissingEmailOrPassword);
  }

  /** `redirect("/login?success=check_email_or_sign_in")`: the URL the
      action spells out is the one `Href` writes. */
  lemma SignUpNoticeHref()
    ensures Href(Location(LoginPath, Some(("success", CheckEmailOrSignIn)))) == LoginPath + "?" + "success" + "=" + CheckEmailOrSignIn
  {
    assert UriComponent.AllUnreserved(CheckEmailOrSignIn);
    UriComponent.EncodeUnreserved(CheckEmailOrSignIn);
  }

  /** `getString(formData, key)`: the trimmed text of the entry, or `""`
      when the entry is missing, is a file, or is whitespace only. */
  function GetString(form: FormData, key: string): (r: string)
    ensures IsTrimmed(r)
    ensures r != "" <==> Get(form, key).Some? && Get(form, key).value.Text? && Trim(Get(form, key).value.text) != ""
    ensures r != "" ==> r == Trim(Get(form, key).value.text)
  {
    match Get(form, key)
    case Some(Text(value)) =>
      TrimIsTrimmed(value);
      if Trim(value) == "" then "" else Trim(value)
    case _ => ""
  }

  /** A missing entry, a file, or whitespace only all read as `""`. */
  lemma GetStringEmpty(form: FormData, key: string)
    ensures GetString(form, key) == "" <==>
      !HasField(form, key)
      || (Get(form, key).Some? && (Get(form, key).value.File? || AllWhitespace(Get(form, key).value.text)))
  {
    GetFindsFirst(form, key);
    if Get(form, key).Some? && Get(form, key).value.Text? {
      TrimEmptyIffWhitespace(Get(form, key).value.text);
    }
  }

  /** A member row blocks sign-in when its status is set, non-empty, and
      not `active`. */
  predicate BlocksSignIn(member: Option<MemberRow>) {
    member.Some? && member.value.status.Some?
    && member.value.status.value != "" && member.value.status.value != ActiveStatus
  }

  /** `signIn(formData)`: `credentialError` is the message of the error
      `signInWithPassword` reports, `user` what `getUser` then resolves,
      `member` the row `maybeSingle` selects. */
  function SignIn(form: FormData, credentialError: Option<string>, user: Option<User>,
                  member: Option<MemberRow>): ActionRedirect
  {
    var email := GetString(form, "email");
    var password := GetString(form, "password");
    if email == "" || password == "" then
      ActionRedirect(LoginError(MissingEmailOrPassword), [])
    else
      Authenticate(email, password, credentialError, user, member)
  }

  /** The steps of `signIn` once both fields are present. */
  function Authenticate(email: string, password: string, credentialError: Option<string>,
                        user: Option<User>, member: Option<MemberRow>): ActionRedirect
  {
    var tried := [SignInWithPassword(email, password)];
    if credentialError.Some? then
      ActionRedirect(LoginError(credentialError.value), tried)
    else if user.None? then
      ActionRedirect(LoginError(UnableToFetchUser), tried + [GetUser])
    else
      var checked := tried + [GetUser, SelectMemberStatus(user.value.id)];
      if BlocksSignIn(member) then
        ActionRedirect(LoginError(AccountSuspended), checked + [SignOut])
      else
        ActionRedirect(Location(AccountPath, None), checked)
  }

  /** `signUp(formData)`: `signUpError` is the message of the error the
      identity service reports. */
  function SignUpAction(form: FormData, signUpError: Option<string>): ActionRedirect {
    var email := GetString(form, "email");
    var password := GetString(form, "password");
    var fullName := GetString(form, "full_name");
    if email == "" || password == "" then
      ActionRedirect(SignUpError(MissingEmailOrPassword), [])
    else
      var call := [SignUp(email, password, if fullName == "" then None else Some(fullName))];
      if signUpError.Some? then
        ActionRedirect(SignUpError(signUpError.value), call)
      else
        ActionRedirect(Location(LoginPath, Some(("success", CheckEmailOrSignIn))), call)
  }

  /** `signOut()`: the identity service always signs the session out, then
      the browser goes to `/login`. */
  function SignOutAction(): (r: ActionRedirect)
    ensures r.calls == [SignOut] && Href(r.location) == LoginPath
  {
    ActionRedirect(Location(LoginPath, None), [SignOut])
  }

  // ---------------------------------------------------------------------
  // Properties
  // ---------------------------------------------------------------------

  predicate MissingCredentials(form: FormData) {
    GetString(form, "email") == "" || GetString(form, "password") == ""
  }

  /** An empty email or password, after trimming, is refused before the
      identity service is called. */
  lemma SignInNeedsBothFields(form: FormData, credentialError: Option<string>, user: Option<User>,
                              member: Option<MemberRow>)
    requires MissingCredentials(form)
    ensures SignIn(form, credentialError, user, member) == ActionRedirect(LoginError(MissingEmailOrPassword), [])
  {
  }

  /** With both fields present, `signIn` goes on with the trimmed email
      and password. */
  lemma SignInAuthenticates(form: FormData, credentialError: Option<string>, user: Option<User>,
                            member: Option<MemberRow>)
    requires !MissingCredentials(form)
    ensures SignIn(form, credentialError, user, member)
         == Authenticate(GetString(form, "email"), GetString(form, "password"), credentialError, user, member)
  {
  }

  /** A credential error sends the service's message back to `/login`; the
      identity service saw the trimmed email and password. */
  lemma SignInCredentialError(form: FormData, message: string, user: Option<User>, member: Option<MemberRow>)
    requires !MissingCredentials(form)
    ensures SignIn(form, Some(message), user, member)
         == ActionRedirect(LoginError(message),
                           [SignInWithPassword(GetString(form, "email"), GetString(form, "password"))])
  {
    SignInAuthenticates(form, Some(message), user, member);
  }

  /** No user after a successful sign-in gives `unable_to_fetch_user`. */
  lemma SignInWithoutUser(form: FormData, member: Option<MemberRow>)
    requires !MissingCredentials(form)
    ensures SignIn(form, None, None, member)
         == ActionRedirect(LoginError(UnableToFetchUser),
                           [SignInWithPassword(GetString(form, "email"), GetString(form, "password")), GetUser])
  {
    SignInAuthenticates(form, None, None, member);
    AuthenticateWithoutUser(GetString(form, "email"), GetString(form, "password"), member);
  }

  lemma AuthenticateWithoutUser(email: string, password: string, member: Option<MemberRow>)
    ensures Authenticate(email, password, None, None, member)
         == ActionRedirect(LoginError(UnableToFetchUser), [SignInWithPassword(email, password), GetUser])
  {
    assert [SignInWithPassword(email, password)] + [GetUser] == [SignInWithPassword(email, password), GetUser];
  }

  /** A member whose status is set and not `active` is signed out, then
      sent to `/login` with `account_suspended`. */
  lemma SuspendedMemberSignedOut(form: FormData, user: User, member: Option<MemberRow>)
    requires !MissingCredentials(form) && BlocksSignIn(member)
    ensures var r := SignIn(form, None, Some(user), member);
      && r.location == LoginError(AccountSuspended)
      && r.calls[|r.calls| - 1] == SignOut
  {
    SignInAuthenticates(form, None, Some(user), member);
  }

  /** `signOut` is called by `signIn` in the suspended case and in no other. */
  lemma SignInSignsOutOnlyWhenSuspended(form: FormData, credentialError: Option<string>, user: Option<User>,
                                       member: Option<MemberRow>)
    ensures SignOut in SignIn(form, credentialError, user, member).calls <==>
      !MissingCredentials(form) && credentialError.None? && user.Some? && BlocksSignIn(member)
  {
    if !MissingCredentials(form) {
      SignInAuthenticates(form, credentialError, user, member);
      AuthenticateSignsOutOnlyWhenSuspended(GetString(form, "email"), GetString(form, "password"),
                                            credentialError, user, member);
    }
  }

  /** Once the fields are present, `signOut` follows exactly a blocked
      member row. */
  lemma AuthenticateSignsOutOnlyWhenSuspended(email: string, password: string, credentialError: Option<string>,
                                              user: Option<User>, member: Option<MemberRow>)
    ensures SignOut in Authenticate(email, password, credentialError, user, member).calls <==>
      credentialError.None? && user.Some? && BlocksSignIn(member)
  {
    var tried := [SignInWithPassword(email, password)];
    if credentialError.None? && user.Some? {
      var checked := tried + [GetUser, SelectMemberStatus(user.value.id)];
      assert SignOut !in checked by {
        assert checked == [tried[0], GetUser, SelectMemberStatus(user.value.id)];
      }
      assert (checked + [SignOut])[3] == SignOut;
    } else if credentialError.None? {
      assert tried + [GetUser] == [tried[0], GetUser];
    }
  }

  /** Every sign-in ends on `/account` or on `/login` with an `error`. */
  lemma SignInLocations(form: FormData, credentialError: Option<string>, user: Option<User>,
                        member: Option<MemberRow>)
    ensures var l := SignIn(form, credentialError, user, member).location;
      l == Location(AccountPath, None) || (l.path == LoginPath && l.param.Some? && l.param.value.0 == "error")
  {
    if !MissingCredentials(form) {
      SignInAuthenticates(form, credentialError, user, member);
      AuthenticateLocations(GetString(form, "email"), GetString(form, "password"), credentialError, user, member);
    }
  }

  lemma AuthenticateLocations(email: string, password: string, credentialError: Option<string>,
                              user: Option<User>, member: Option<MemberRow>)
    ensures var l := Authenticate(email, password, credentialError, user, member).location;
      l == Location(AccountPath, None) || (l.path == LoginPath && l.param.Some? && l.param.value.0 == "error")
  {
  }

  /** A missing member row or an empty or null status does not block
      sign-in, while the gate turns the same member away from every
      protected path. */
  lemma SignInAdmitsWhatGateRefuses(form: FormData, user: User, member: Option<MemberRow>,
                                    request: Proxy.Request, config: Proxy.Config,
                                    refreshes: seq<seq<Proxy.Cookie>>)
    requires !MissingCredentials(form)
    requires member.None? || member.value.status == None || member.value.status == Some("")
    requires !Proxy.Rewrites(request, config) && Proxy.HasCredentials(config)
    requires !Proxy.IsOpenPath(request.url.pathname)
    ensures SignIn(form, None, Some(user), member).location.path == AccountPath
    ensures Proxy.Gate(request, config, Proxy.Backend(refreshes, Some(user), member)).response.Redirect?
  {
    SignInAuthenticates(form, None, Some(user), member);
    Proxy.InactiveMemberRedirected(request, config, Proxy.Backend(refreshes, Some(user), member));
  }

  /** `signUp`: missing fields are refused before the identity service is
      called; a blank full name is sent as no name; an error returns to
      `/signup` with the message; otherwise the browser goes to `/login`
      with the check-your-email notice. */
  lemma SignUpOutcomes(form: FormData, signUpError: Option<string>)
    ensures MissingCredentials(form) ==>
      SignUpAction(form, signUpError) == ActionRedirect(SignUpError(MissingEmailOrPassword), [])
    ensures !MissingCredentials(form) ==>
      var r := SignUpAction(form, signUpError);
      && r.calls == [SignUp(GetString(form, "email"), GetString(form, "password"), r.calls[0].fullName)]
      && (r.calls[0].fullName.None? <==> GetString(form, "full_name") == "")
      && (r.calls[0].fullName.Some? ==> r.calls[0].fullName.value == GetString(form, "full_name"))
      && r.location == (if signUpError.Some? then SignUpError(signUpError.value)
                        else Location(LoginPath, Some(("success", CheckEmailOrSignIn))))
  {
  }
}
