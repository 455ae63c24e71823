/** backend/api/routes.py: sign-up, login, and the forgot-password /
    reset-password pair, as a state machine over the `users` table.

    Each route is a function from the table before to the table after and
    the response (`Signup`, `ForgotPassword`, `ResetPassword`), proved
    about below, and a method that performs the same change in place on a
    `UserTable`. Password hashing, reset-token generation and the clock are
    parameters. */
module ApiRoutes {
  import opened Wrappers
  import opened Models
  import opened Crud
  import opened AuthManager

  /** The table after a request, and the response. */
  datatype Outcome<T> = Outcome(users: seq<User>, response: Result<T, HttpError>)

  /** The login response: the token, modelled by its claims. */
  datatype Token = Token(accessToken: Claims, tokenType: string)

  const EmailTaken := HttpError(400, "Email already registered")
  const InvalidCredentials := HttpError(401, "Invalid credentials")
  const NoSuchUser := HttpError(404, "User not found")
  const InvalidReset := HttpError(400, "Invalid token or user")

  // -----------------------------------------------------------------------
  // signup

  function Signup(users: seq<User>, email: string, password: string, role: Role, license: License,
                  hash: string -> string): Outcome<User>
  {
    if UserByEmail(users, email).Some? then Outcome(users, Err(EmailTaken))
    else
      var u := NewUser(email, password, role, license, hash);
      Outcome(users + [u], Ok(u))
  }

  /** A taken email is refused and nothing changes; a new one adds exactly
      one user, at the end, with the hash of the password and no reset
      token; emails stay unique. */
  lemma SignupSpec(users: seq<User>, email: string, password: string, role: Role, license: License, hash: string -> string)
    ensures var o := Signup(users, email, password, role, license, hash);
            && (o.response.Err? <==> exists u :: u in users && u.email == email)
            && (o.response.Err? ==> o.response.error == EmailTaken && o.users == users)
            && (o.response.Ok? ==> |o.users| == |users| + 1 && o.users[..|users|] == users
                                   && o.users[|users|] == o.response.value
                                   && o.response.value == User(email, hash(password), role, license, None))
            && (UniqueEmails(users) ==> UniqueEmails(o.users))
  {
    var o := Signup(users, email, password, role, license, hash);
    if o.response.Ok? {
      assert o.users[..|users|] == users;
    }
  }

  method SignupRoute(table: UserTable, email: string, password: string, role: Role, license: License, hash: string -> string)
    returns (r: Result<User, HttpError>)
    modifies table
    ensures Outcome(table.users, r) == Signup(old(table.users), email, password, role, license, hash)
  {
    var existing := UserByEmail(table.users, email);
    if existing.Some? {
      return Err(EmailTaken);
    }
    var u := table.CreateUser(email, password, role, license, hash);
    return Ok(u);
  }

  // -----------------------------------------------------------------------
  // login

  /** `login`: bad credentials are a 401; otherwise a bearer token whose
      claims are the user's email, role and license values, plus `exp`. */
  function Login(users: seq<User>, username: string, password: string, verify: (string, string) -> bool,
                 now: int, defaultMinutes: int): (r: Result<Token, HttpError>)
    ensures r.Err? <==> AuthenticateUser(users, username, password, verify).None?
    ensures r.Err? ==> r.error == InvalidCredentials
    ensures r.Ok? ==> var u := AuthenticateUser(users, username, password, verify).value;
                      && r.value.tokenType == "bearer"
                      && r.value.accessToken.Keys == {"sub", "role", "license", "exp"}
                      && r.value.accessToken["sub"] == Str(username)
                      && r.value.accessToken["role"] == Str(RoleValue(u.role))
                      && r.value.accessToken["license"] == Str(LicenseValue(u.license))
                      && r.value.accessToken["exp"] == Time(now + 60 * defaultMinutes)
  {
    var user := AuthenticateUser(users, username, password, verify);
    if user.None? then Err(InvalidCredentials)
    else
      var data := map["sub" := Str(user.value.email), "role" := Str(RoleValue(user.value.role)),
                      "license" := Str(LicenseValue(user.value.license))];
      Ok(Token(AccessTokenClaims(data, now, None, defaultMinutes), "bearer"))
  }

  /** Round trip: a token issued at login, once decoded, resolves to the
      same stored user. */
  lemma LoginThenCurrentUser(users: seq<User>, username: string, password: string, verify: (string, string) -> bool,
                             now: int, defaultMinutes: int, token: string, decode: string -> Option<Claims>)
    requires Login(users, username, password, verify, now, defaultMinutes).Ok?
    requires decode(token) == Some(Login(users, username, password, verify, now, defaultMinutes).value.accessToken)
    ensures GetCurrentUser(token, decode, users) == Ok(AuthenticateUser(users, username, password, verify).value)
  {
    assert decode(token).value["sub"] == Str(username);
  }

  // -----------------------------------------------------------------------
  // forgot-password

  function ForgotPassword(users: seq<User>, email: string, issued: string): Outcome<string>
  {
    var i := FindUser(users, email);
    if i == |users| then Outcome(users, Err(NoSuchUser))
    else Outcome(users[i := users[i].(resetToken := Some(issued))], Ok(issued))
  }

  /** An unknown email is a 404 and nothing changes; otherwise the user's
      reset token becomes the issued one, whatever it was, and it is
      returned; no other row and no other column changes. */
  lemma ForgotPasswordSpec(users: seq<User>, email: string, issued: string)
    ensures var o := ForgotPassword(users, email, issued);
            && (o.response.Err? <==> forall u :: u in users ==> u.email != email)
            && (o.response.Err? ==> o.response.error == NoSuchUser && o.users == users)
            && (o.response.Ok? ==> o.response.value == issued && |o.users| == |users|
                                   && UserByEmail(o.users, email) == Some(UserByEmail(users, email).value.(resetToken := Some(issued)))
                                   && forall k :: 0 <= k < |users| && k != FindUser(users, email) ==> o.users[k] == users[k])
            && (UniqueEmails(users) ==> UniqueEmails(o.users))
  {
    var i := FindUser(users, email);
    if i < |users| {
      var after := users[i := users[i].(resetToken := Some(issued))];
      assert FindUser(after, email) == i by { FindUserUpdate(users, i, after[i]); }
    }
  }

  /** Changing a row other than in its email keeps every lookup's position. */
  lemma {:induction false} FindUserUpdate(users: seq<User>, i: nat, u: User)
    requires i < |users| && u.email == users[i].email
    ensures forall e :: FindUser(users[i := u], e) == FindUser(users, e)
  {
    forall e ensures FindUser(users[i := u], e) == FindUser(users, e) {
      FindUserSameEmails(users, users[i := u], e);
    }
  }

  lemma {:induction false} FindUserSameEmails(a: seq<User>, b: seq<User>, e: string)
    requires |a| == |b| && forall k :: 0 <= k < |a| ==> a[k].email == b[k].email
    ensures FindUser(a, e) == FindUser(b, e)
  {
    if a != [] && a[0].email != e {
      FindUserSameEmails(a[1..], b[1..], e);
    }
  }

  method ForgotPasswordRoute(table: UserTable, email: string, issued: string) returns (r: Result<string, HttpError>)
    modifies table
    ensures Outcome(table.users, r) == ForgotPassword(old(table.users), email, issued)
  {
    var i := FindUser(table.users, email);
    if i == |table.users| {
      return Err(NoSuchUser);
    }
    table.Update(i, table.users[i].(resetToken := Some(issued)));
    return Ok(issued);
  }

  // -----------------------------------------------------------------------
  // reset-password

  function ResetPassword(users: seq<User>, email: string, token: string, newPassword: string,
                         hash: string -> string): Outcome<string>
  {
    var i := FindUser(users, email);
    if i == |users| || users[i].resetToken != Some(token) then Outcome(users, Err(InvalidReset))
    else Outcome(users[i := users[i].(hashedPassword := hash(newPassword), resetToken := None)],
                 Ok("Password reset successful"))
  }

  /** A reset succeeds exactly when the user exists and holds this very
      token (a user who was never issued one holds none); it then replaces
      the hash, clears the token, and changes no other row. */
  lemma ResetPasswordSpec(users: seq<User>, email: string, token: string, newPassword: string, hash: string -> string)
    ensures var o := ResetPassword(users, email, token, newPassword, hash);
            && (o.response.Ok? <==> UserByEmail(users, email).Some? && UserByEmail(users, email).value.resetToken == Some(token))
            && (o.response.Err? ==> o.response.error == InvalidReset && o.users == users)
            && (o.response.Ok? ==> |o.users| == |users|
                                   && UserByEmail(o.users, email)
                                      == Some(UserByEmail(users, email).value.(hashedPassword := hash(newPassword), resetToken := None))
                                   && forall k :: 0 <= k < |users| && k != FindUser(users, email) ==> o.users[k] == users[k])
            && (UniqueEmails(users) ==> UniqueEmails(o.users))
  {
    var i := FindUser(users, email);
    if i < |users| && users[i].resetToken == Some(token) {
      var after := users[i := users[i].(hashedPassword := hash(newPassword), resetToken := None)];
      assert FindUser(after, email) == i by { FindUserUpdate(users, i, after[i]); }
    }
  }

  /** A reset token works once: replaying it after a successful reset fails. */
  lemma ResetTokenSingleUse(users: seq<User>, email: string, token: string, p1: string, p2: string, hash: string -> string)
    requires ResetPassword(users, email, token, p1, hash).response.Ok?
    ensures var after := ResetPassword(users, email, token, p1, hash).users;
            ResetPassword(after, email, token, p2, hash) == Outcome(after, Err(InvalidReset))
  {
    ResetPasswordSpec(users, email, token, p1, hash);
  }

  /** A user who has just signed up holds no token, so no reset succeeds. */
  lemma NoResetWithoutForgot(users: seq<User>, email: string, password: string, role: Role, license: License,
                             token: string, newPassword: string, hash: string -> string)
    requires Signup(users, email, password, role, license, hash).response.Ok?
    ensures var after := Signup(users, email, password, role, license, hash).users;
            ResetPassword(after, email, token, newPassword, hash).response == Err(InvalidReset)
  {
    var after := Signup(users, email, password, role, license, hash).users;
    assert FindUser(after, email) == |users| by { FindUserAppend(users, after[|users|], email); }
  }

  lemma {:induction false} FindUserAppend(users: seq<User>, u: User, email: string)
    requires forall v :: v in users ==> v.email != email
    requires u.email == email
    ensures FindUser(users + [u], email) == |users|
  {
    if users != [] {
      assert (users + [u])[1..] == users[1..] + [u];
      FindUserAppend(users[1..], u, email);
    }
  }

  /** Round trip: the token a forgot-password request issues resets the
      password, and afterwards the new hash is stored. */
  lemma ForgotThenReset(users: seq<User>, email: string, issued: string, newPassword: string, hash: string -> string)
    requires ForgotPassword(users, email, issued).response.Ok?
    ensures var after := ForgotPassword(users, email, issued).users;
            var o := ResetPassword(after, email, issued, newPassword, hash);
            o.response == Ok("Password reset successful")
            && UserByEmail(o.users, email).Some? && UserByEmail(o.users, email).value.hashedPassword == hash(newPassword)
  {
    ForgotPasswordSpec(users, email, issued);
    var after := ForgotPassword(users, email, issued).users;
    ResetPasswordSpec(after, email, issued, newPassword, hash);
  }

  /** A second forgot-password request invalidates the first token. */
  lemma LatestTokenWins(users: seq<User>, email: string, t1: string, t2: string, newPassword: string, hash: string -> string)
    requires ForgotPassword(users, email, t1).response.Ok? && t1 != t2
    ensures var after := ForgotPassword(ForgotPassword(users, email, t1).users, email, t2).users;
            ResetPassword(after, email, t1, newPassword, hash).response == Err(InvalidReset)
  {
    ForgotPasswordSpec(users, email, t1);
    var mid := ForgotPassword(users, email, t1).users;
    ForgotPasswordSpec(mid, email, t2);
  }

  method ResetPasswordRoute(table: UserTable, email: string, token: string, newPassword: string, hash: string -> string)
    returns (r: Result<string, HttpError>)
    modifies table
    ensures Outcome(table.users, r) == ResetPassword(old(table.users), email, token, newPassword, hash)
  {
    var i := FindUser(table.users, email);
    if i == |table.users| || table.users[i].resetToken != Some(token) {
      return Err(InvalidReset);
    }
    table.Update(i, table.users[i].(hashedPassword := hash(newPassword), resetToken := None));
    return Ok("Password reset successful");
  }
}
