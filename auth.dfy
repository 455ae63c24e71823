/** backend/auth/auth_manager.py: access tokens, password login, resolving
    a bearer token to the stored user, and the role and license gate every
    use-case endpoint sits behind.

    A token is modelled by its claims: JWT encoding and signing, and the
    decoder's signature and expiry checks, are an oracle `decode` that
    yields the claims or fails. Password hashing is the oracle `verify`,
    and the clock is the parameter `now`, in seconds. */
module AuthManager {
  import opened Wrappers
  import opened Models
  import opened Crud

  /** A claim value: a string, a time, or JSON `null`. */
  datatype Claim = Str(s: string) | Time(seconds: int) | Null

  type Claims = map<string, Claim>

  /** The expiry time: `now` plus the given delta, or plus the configured
      default when the delta is absent or zero (a zero `timedelta` is falsy). */
  function Expiry(now: int, expiresDelta: Option<int>, defaultMinutes: int): (t: int)
    ensures expiresDelta.Some? && expiresDelta.value != 0 ==> t - now == expiresDelta.value
    ensures expiresDelta.None? || expiresDelta.value == 0 ==> t - now == 60 * defaultMinutes
  {
    if expiresDelta.Some? && expiresDelta.value != 0 then now + expiresDelta.value
    else now + 60 * defaultMinutes
  }

  /** `create_access_token`, up to encoding: the caller's claims plus
      `exp`. The caller's dict is a value here and cannot change. */
  function AccessTokenClaims(data: Claims, now: int, expiresDelta: Option<int>, defaultMinutes: int): (c: Claims)
    ensures "exp" in c && c["exp"] == Time(Expiry(now, expiresDelta, defaultMinutes))
    ensures forall k :: k != "exp" ==> (k in c <==> k in data)
    ensures forall k :: k != "exp" && k in data ==> k in c && c[k] == data[k]
  {
    data["exp" := Time(Expiry(now, expiresDelta, defaultMinutes))]
  }

  /** `authenticate_user`: the first user with this email, when the
      password verifies against its hash. */
  function AuthenticateUser(users: seq<User>, email: string, password: string, verify: (string, string) -> bool)
    : Option<User>
  {
    var user := UserByEmail(users, email);
    if user.None? then None
    else if !verify(password, user.value.hashedPassword) then None
    else user
  }

  /** With unique emails, login succeeds exactly for a stored user with
      this email whose hash verifies the password, and yields that user. */
  lemma AuthenticateUserSpec(users: seq<User>, email: string, password: string, verify: (string, string) -> bool)
    requires UniqueEmails(users)
    ensures AuthenticateUser(users, email, password, verify).Some?
            <==> exists k :: 0 <= k < |users| && users[k].email == email && verify(password, users[k].hashedPassword)
    ensures forall k :: 0 <= k < |users| && users[k].email == email && verify(password, users[k].hashedPassword)
                        ==> AuthenticateUser(users, email, password, verify) == Some(users[k])
  {
    forall k | 0 <= k < |users| && users[k].email == email
      ensures UserByEmail(users, email) == Some(users[k])
    {
      UserByEmailUnique(users, k);
    }
    var i := FindUser(users, email);
    if i < |users| {
      assert users[i].email == email;
    }
  }

  const InvalidToken := HttpError(401, "Invalid token")
  const UserNotFound := HttpError(401, "User not found")

  /** `get_current_user`: the token's `sub` claim must be present and not
      null, and name a stored user, who is returned as stored. A `sub`
      that is not a string equals no email. */
  function GetCurrentUser(token: string, decode: string -> Option<Claims>, users: seq<User>): (r: Result<User, HttpError>)
    ensures decode(token).None? ==> r == Err(InvalidToken)
    ensures decode(token).Some? && ("sub" !in decode(token).value || decode(token).value["sub"] == Null) ==> r == Err(InvalidToken)
    ensures r.Ok? <==> decode(token).Some? && "sub" in decode(token).value && decode(token).value["sub"].Str?
                       && UserByEmail(users, decode(token).value["sub"].s).Some?
    ensures r.Ok? ==> r.value in users && decode(token).value["sub"] == Str(r.value.email)
    ensures decode(token).Some? && "sub" in decode(token).value && decode(token).value["sub"] != Null && r.Err?
            ==> r == Err(UserNotFound)
    ensures r.Err? ==> r.error.status == 401
  {
    var payload := decode(token);
    if payload.None? then Err(InvalidToken)
    else if "sub" !in payload.value || payload.value["sub"] == Null then Err(InvalidToken)
    else
      var sub := payload.value["sub"];
      var user := if sub.Str? then UserByEmail(users, sub.s) else None;
      if user.None? then Err(UserNotFound) else Ok(user.value)
  }

  /** The roles and licenses a `check_access` decorator allows. */
  datatype Policy = Policy(roles: seq<Role>, licenses: seq<License>)

  const TranslationPolicy := Policy([Editor], [Enterprise])
  const SentimentPolicy := Policy([Viewer], [Teams])
  const ImageClassificationPolicy := Policy([Admin], [Teams])
  const ProductSearchPolicy := Policy([Admin], [Basic])

  /** The wrapper of `check_access`: no user is a 401; then the role is
      checked, then the license; the handler runs only if neither fails. */
  function CheckAccess(currentUser: Option<User>, policy: Policy): (r: Option<HttpError>)
    ensures r.None? <==> currentUser.Some? && currentUser.value.role in policy.roles
                         && currentUser.value.license in policy.licenses
    ensures currentUser.None? ==> r == Some(UserNotFound)
    ensures currentUser.Some? && currentUser.value.role !in policy.roles ==> r == Some(HttpError(403, "Role not permitted"))
    ensures currentUser.Some? && currentUser.value.role in policy.roles && currentUser.value.license !in policy.licenses
            ==> r == Some(HttpError(403, "License not permitted"))
  {
    if currentUser.None? then Some(UserNotFound)
    else if currentUser.value.role !in policy.roles then Some(HttpError(403, "Role not permitted"))
    else if currentUser.value.license !in policy.licenses then Some(HttpError(403, "License not permitted"))
    else None
  }

  /** Each endpoint admits exactly one role and one license. */
  lemma EndpointPolicies(u: User)
    ensures CheckAccess(Some(u), TranslationPolicy).None? <==> u.role == Editor && u.license == Enterprise
    ensures CheckAccess(Some(u), SentimentPolicy).None? <==> u.role == Viewer && u.license == Teams
    ensures CheckAccess(Some(u), ImageClassificationPolicy).None? <==> u.role == Admin && u.license == Teams
    ensures CheckAccess(Some(u), ProductSearchPolicy).None? <==> u.role == Admin && u.license == Basic
  {
  }

  /** Every user passes at most one endpoint's gate: image classification
      and product search share the Admin role but not the license. */
  lemma AtMostOneEndpoint(u: User)
    ensures var granted := [CheckAccess(Some(u), TranslationPolicy).None?, CheckAccess(Some(u), SentimentPolicy).None?,
                            CheckAccess(Some(u), ImageClassificationPolicy).None?, CheckAccess(Some(u), ProductSearchPolicy).None?];
            forall i, j :: 0 <= i < j < 4 && granted[i] ==> !granted[j]
  {
    EndpointPolicies(u);
  }

  /** The dependency chain of a protected endpoint: resolve the token to
      the stored user, then apply the gate to that user. A token that does
      not resolve is a 401 before any gate is consulted; a resolved user
      outside the policy is a 403; otherwise the handler gets that user. */
  function Authorize(token: string, decode: string -> Option<Claims>, users: seq<User>, policy: Policy): (r: Result<User, HttpError>)
    ensures var current := GetCurrentUser(token, decode, users);
            r.Ok? <==> current.Ok? && current.value.role in policy.roles && current.value.license in policy.licenses
    ensures var current := GetCurrentUser(token, decode, users);
            current.Err? ==> r == Err(current.error)
    ensures var current := GetCurrentUser(token, decode, users);
            current.Ok? && r.Err? ==> r.error.status == 403
    ensures r.Ok? ==> r.value == GetCurrentUser(token, decode, users).value && r.value in users
  {
    var current := GetCurrentUser(token, decode, users);
    if current.Err? then Err(current.error)
    else
      var denied := CheckAccess(Some(current.value), policy);
      if denied.Some? then Err(denied.value) else Ok(current.value)
  }

  /** The gate reads the role and license stored for the user at request
      time, not the `role` and `license` claims the token carries: two
      tokens with the same `sub` are treated alike. */
  lemma StoredUserDecides(token: string, decode: string -> Option<Claims>, other: string -> Option<Claims>,
                          users: seq<User>, policy: Policy)
    requires decode(token).Some? && other(token).Some?
    requires "sub" in decode(token).value <==> "sub" in other(token).value
    requires "sub" in decode(token).value ==> decode(token).value["sub"] == other(token).value["sub"]
    ensures Authorize(token, decode, users, policy) == Authorize(token, other, users, policy)
  {
    assert GetCurrentUser(token, decode, users) == GetCurrentUser(token, other, users);
  }
}
