/** Registration, login, logout and password change over the user table,
    with bcrypt and jsonwebtoken supplied as uninterpreted functions. Three of
    these handlers write an error response and then carry on because a
    `return` is missing; `written` lists every response in order, and the
    first one is what the client receives. */
module AuthController {
  import opened Common
  import opened Crypto
  import opened UserStore
  import AuthMiddleware

  // ---------------------------------------------------------------------
  // registerUser

  /** `findFirst({ where: { OR: [{ emailAddress }, { username }] } })` found a row. */
  predicate Taken(users: seq<User>, username: string, emailAddress: string)
    // A taken username or email means the table refuses any row carrying it.
    ensures Taken(users, username, emailAddress) ==>
      forall u: User :: u.username == username && u.emailAddress == emailAddress ==> !FitsAt(users, |users|, u)
  {
    exists i :: 0 <= i < |users| && (users[i].emailAddress == emailAddress || users[i].username == username)
  }

  /** registerUser: 400 and no change unless all five fields are given. On a
      taken email or username it writes 409 but goes on to hash and create;
      the table's unique columns then refuse the row (500). Otherwise the new
      row holds the hash of the password and 201 carries its id. */
  method RegisterUser(db: UserTable, hasher: Hasher,
                      firstName: Option<string>, lastName: Option<string>, username: Option<string>,
                      emailAddress: Option<string>, password: Option<string>, newId: UserId, now: Time)
    returns (written: seq<Status>, userId: Option<UserId>)
    requires db.Valid()
    modifies db
    ensures db.Valid()
    ensures !(Truthy(firstName) && Truthy(lastName) && Truthy(username) && Truthy(emailAddress) && Truthy(password)) ==>
      written == [BAD_REQUEST] && userId == None && db.users == old(db.users)
    ensures Truthy(firstName) && Truthy(lastName) && Truthy(username) && Truthy(emailAddress) && Truthy(password) ==>
      var u := User(newId, firstName.value, lastName.value, username.value, emailAddress.value,
                    hasher.hash(password.value), None, now, now);
      var first := if Taken(old(db.users), username.value, emailAddress.value) then [CONFLICT] else [];
      if FitsAt(old(db.users), |old(db.users)|, u) then
        written == first + [CREATED] && userId == Some(newId) && db.users == old(db.users) + [u]
      else
        written == first + [SERVER_ERROR] && userId == None && db.users == old(db.users)
    ensures Truthy(firstName) && Truthy(lastName) && Truthy(username) && Truthy(emailAddress) && Truthy(password)
            && Taken(old(db.users), username.value, emailAddress.value) ==>
      written == [CONFLICT, SERVER_ERROR] && userId == None && db.users == old(db.users)
  {
    if !Truthy(firstName) || !Truthy(lastName) || !Truthy(username) || !Truthy(emailAddress) || !Truthy(password) {
      return [BAD_REQUEST], None;
    }
    written := [];
    if Taken(db.users, username.value, emailAddress.value) {
      written := written + [CONFLICT];
    }
    var u := User(newId, firstName.value, lastName.value, username.value, emailAddress.value,
                  hasher.hash(password.value), None, now, now);
    var ok := db.Create(u);
    if ok {
      written, userId := written + [CREATED], Some(newId);
    } else {
      written, userId := written + [SERVER_ERROR], None;
    }
  }

  // ---------------------------------------------------------------------
  // loginUser

  /** The user fields the login response carries (no password). */
  datatype SessionUser = SessionUser(
    id: UserId, username: string, emailAddress: string, firstName: string, lastName: string, avatar: Option<string>)

  function SessionView(u: User): (r: SessionUser)
    // The columns the reply lists; the password hash is not among them.
    ensures r.id == u.id && r.username == u.username && r.emailAddress == u.emailAddress
    ensures r.firstName == u.firstName && r.lastName == u.lastName && r.avatar == u.avatar
  {
    SessionUser(u.id, u.username, u.emailAddress, u.firstName, u.lastName, u.avatar)
  }

  /** Every response loginUser writes, and the token and user of the 200. */
  datatype LoginReply = LoginReply(written: seq<Status>, token: Option<string>, user: Option<SessionUser>)

  /** The OR filter of the login lookup. The model assumes Prisma drops a
      filter whose value is `undefined`, so that with no identifier every
      row matches. */
  predicate IdentifiedBy(u: User, loginIdentifier: Option<string>)
    ensures loginIdentifier.None? ==> IdentifiedBy(u, loginIdentifier)
    ensures loginIdentifier.Some? ==>
      (IdentifiedBy(u, loginIdentifier) <==> loginIdentifier.value in {u.username, u.emailAddress})
  {
    loginIdentifier.None? || u.emailAddress == loginIdentifier.value || u.username == loginIdentifier.value
  }

  /** `findFirst` with that filter. Without `orderBy` the database may pick
      any matching row; the model picks the first in store order. */
  function FindByIdentifier(users: seq<User>, loginIdentifier: Option<string>): (r: Option<User>)
    ensures r.Some? ==> r.value in users && IdentifiedBy(r.value, loginIdentifier)
    ensures r.Some? ==> exists k :: 0 <= k < |users| && users[k] == r.value
                          && forall j :: 0 <= j < k ==> !IdentifiedBy(users[j], loginIdentifier)
    ensures r.None? ==> forall u :: u in users ==> !IdentifiedBy(u, loginIdentifier)
  {
    if users == [] then None
    else if IdentifiedBy(users[0], loginIdentifier) then Some(users[0])
    else
      var r := FindByIdentifier(users[1..], loginIdentifier);
      assert r.None? ==> forall u :: u in users ==> u == users[0] || u in users[1..];
      assert r.Some? ==> exists k :: 0 <= k < |users| && users[k] == r.value
                          && forall j :: 0 <= j < k ==> !IdentifiedBy(users[j], loginIdentifier) by {
        if r.Some? {
          var k :| 0 <= k < |users[1..]| && users[1..][k] == r.value
                   && forall j :: 0 <= j < k ==> !IdentifiedBy(users[1..][j], loginIdentifier);
          assert users[k + 1] == r.value;
          assert forall j :: 0 <= j < k + 1 ==> !IdentifiedBy(users[j], loginIdentifier) by {
            forall j | 0 <= j < k + 1 ensures !IdentifiedBy(users[j], loginIdentifier) {
              if j > 0 { assert users[j] == users[1..][j - 1]; }
            }
          }
        }
      }
      r
  }

  /** A row appended after every row the identifier does not pick is found. */
  lemma {:induction false} FindAppended(users: seq<User>, u: User, loginIdentifier: Option<string>)
    requires IdentifiedBy(u, loginIdentifier)
    requires forall v :: v in users ==> !IdentifiedBy(v, loginIdentifier)
    ensures FindByIdentifier(users + [u], loginIdentifier) == Some(u)
  {
    if users != [] {
      assert (users + [u])[1..] == users[1..] + [u];
      FindAppended(users[1..], u, loginIdentifier);
    }
  }

  /** loginUser. Missing credentials write 400 and the handler carries on.
      An unknown identifier and a wrong password both give the same 401;
      bcrypt throws on an absent password (500). On success the token is
      signed for the found user's id. */
  function LoginUser(users: seq<User>, hasher: Hasher, jwt: Jwt,
                     loginIdentifier: Option<string>, password: Option<string>): (r: LoginReply)
    ensures |r.written| >= 1
    ensures r.written[0] == BAD_REQUEST <==> !(Truthy(loginIdentifier) && Truthy(password))
    ensures Truthy(loginIdentifier) && Truthy(password) ==> |r.written| == 1
    ensures !(Truthy(loginIdentifier) && Truthy(password)) ==> |r.written| == 2
    ensures r.token.Some? <==> r.written[|r.written| - 1] == OK
    ensures r.user.Some? <==> r.token.Some?
    // The user let in is the first row the OR filter finds, and only with the right password.
    ensures r.token.Some? ==>
      var found := FindByIdentifier(users, loginIdentifier);
      && found.Some? && password.Some?
      && hasher.compare(password.value, found.value.password)
      && r.token == Some(jwt.sign(found.value.id)) && r.user == Some(SessionView(found.value))
    // With both credentials, the right password for the found user always gets in ...
    ensures Truthy(loginIdentifier) && Truthy(password) ==>
      var found := FindByIdentifier(users, loginIdentifier);
      found.Some? && hasher.compare(password.value, found.value.password) ==>
        r == LoginReply([OK], Some(jwt.sign(found.value.id)), Some(SessionView(found.value)))
    // ... and anything else is the one 401.
    ensures Truthy(loginIdentifier) && Truthy(password) && r.token.None? ==> r == LoginReply([UNAUTHORIZED], None, None)
    // No password reaches bcrypt.compare when a row is found: it throws (500).
    ensures password.None? && FindByIdentifier(users, loginIdentifier).Some? ==>
      r == LoginReply([BAD_REQUEST, SERVER_ERROR], None, None)
    ensures FindByIdentifier(users, loginIdentifier).None? ==> r.token.None? && r.written[|r.written| - 1] == UNAUTHORIZED
    // Whatever was written first, a present password is compared with the found row's hash.
    ensures password.Some? && FindByIdentifier(users, loginIdentifier).Some? ==>
      r.written[|r.written| - 1]
        == (if hasher.compare(password.value, FindByIdentifier(users, loginIdentifier).value.password) then OK else UNAUTHORIZED)
  {
    var first := if !Truthy(loginIdentifier) || !Truthy(password) then [BAD_REQUEST] else [];
    match FindByIdentifier(users, loginIdentifier)
    case None => LoginReply(first + [UNAUTHORIZED], None, None)
    case Some(u) =>
      if password.None? then LoginReply(first + [SERVER_ERROR], None, None)
      else if !hasher.compare(password.value, u.password) then LoginReply(first + [UNAUTHORIZED], None, None)
      else LoginReply(first + [OK], Some(jwt.sign(u.id)), Some(SessionView(u)))
  }

  /** An unknown identifier and a known one with a wrong password cannot be
      told apart by the reply. */
  lemma LoginFailuresLookAlike(users: seq<User>, hasher: Hasher, jwt: Jwt,
                               unknown: string, known: string, password: string)
    requires unknown != "" && known != "" && password != ""
    requires forall u :: u in users ==> u.emailAddress != unknown && u.username != unknown
    requires var u := FindByIdentifier(users, Some(known)); u.Some? && !hasher.compare(password, u.value.password)
    ensures LoginUser(users, hasher, jwt, Some(unknown), Some(password))
         == LoginUser(users, hasher, jwt, Some(known), Some(password))
  {
  }

  /** A user who just registered logs in with their username and password,
      provided no earlier row has that string as username or email (the OR
      lookup would pick that row first). */
  lemma RegisteredUserCanLogIn(users: seq<User>, hasher: Hasher, jwt: Jwt, u: User, password: string)
    requires hasher.Sound() && password != "" && u.username != ""
    requires u.password == hasher.hash(password)
    requires forall v :: v in users ==> v.emailAddress != u.username && v.username != u.username
    ensures LoginUser(users + [u], hasher, jwt, Some(u.username), Some(password))
         == LoginReply([OK], Some(jwt.sign(u.id)), Some(SessionView(u)))
  {
    FindAppended(users, u, Some(u.username));
    assert hasher.compare(password, hasher.hash(password));
  }

  /** The same user logs in with their email address instead, provided no
      earlier row has that string as username or email. */
  lemma RegisteredUserCanLogInByEmail(users: seq<User>, hasher: Hasher, jwt: Jwt, u: User, password: string)
    requires hasher.Sound() && password != "" && u.emailAddress != ""
    requires u.password == hasher.hash(password)
    requires forall v :: v in users ==> v.emailAddress != u.emailAddress && v.username != u.emailAddress
    ensures LoginUser(users + [u], hasher, jwt, Some(u.emailAddress), Some(password))
         == LoginReply([OK], Some(jwt.sign(u.id)), Some(SessionView(u)))
  {
    FindAppended(users, u, Some(u.emailAddress));
    assert hasher.compare(password, hasher.hash(password));
  }

  /** The token of a successful login passes the gate with the user's id. */
  lemma LoginTokenPassesGate(users: seq<User>, hasher: Hasher, jwt: Jwt,
                             loginIdentifier: Option<string>, password: Option<string>)
    requires jwt.Sound()
    requires LoginUser(users, hasher, jwt, loginIdentifier, password).token.Some?
    ensures var r := LoginUser(users, hasher, jwt, loginIdentifier, password);
      r.user.Some? &&
      AuthMiddleware.Gate(Some("Bearer " + r.token.value), jwt.verify) == AuthMiddleware.Admitted(r.user.value.id)
  {
    var u := FindByIdentifier(users, loginIdentifier).value;
    AuthMiddleware.SignedTokenIsAdmitted(jwt, u.id);
  }

  // ---------------------------------------------------------------------
  // logoutUser

  /** logoutUser: always 200; there is no session to end, so no state is
      read or changed and an issued token stays valid until it expires. */
  function LogoutUser(): (written: seq<Status>)
    ensures written == [OK]
  {
    [OK]
  }

  // ---------------------------------------------------------------------
  // updatePassword

  /** updatePassword as written. 400 and no change without both passwords;
      an absent user id makes the lookup throw (500). When the user is
      missing or the current password does not match it writes 401 but,
      lacking a `return`, still stores the hash of the new password: a wrong
      current password ends with the password overwritten. */
  method UpdatePassword(db: UserTable, hasher: Hasher, userId: Option<UserId>,
                        currentPassword: Option<string>, newPassword: Option<string>)
    returns (written: seq<Status>)
    requires db.Valid()
    modifies db
    ensures db.Valid()
    ensures !(Truthy(currentPassword) && Truthy(newPassword)) ==> written == [BAD_REQUEST] && db.users == old(db.users)
    ensures Truthy(currentPassword) && Truthy(newPassword) && userId.None? ==>
      written == [SERVER_ERROR] && db.users == old(db.users)
    ensures Truthy(currentPassword) && Truthy(newPassword) && userId.Some? ==>
      var k := IndexOfId(old(db.users), userId.value);
      if k.None? then
        written == [UNAUTHORIZED, SERVER_ERROR] && db.users == old(db.users)
      else
        && written == (if hasher.compare(currentPassword.value, old(db.users)[k.value].password) then [OK]
                       else [UNAUTHORIZED, OK])
        && db.users == old(db.users)[k.value := old(db.users)[k.value].(password := hasher.hash(newPassword.value))]
  {
    if !Truthy(currentPassword) || !Truthy(newPassword) {
      return [BAD_REQUEST];
    }
    if userId.None? {
      return [SERVER_ERROR];
    }
    written := [];
    var k := IndexOfId(db.users, userId.value);
    if k.None? || !hasher.compare(currentPassword.value, db.users[k.value].password) {
      written := written + [UNAUTHORIZED];
    }
    if k.Some? {
      SameKeysFit(db.users, k.value, ApplyPatch(db.users[k.value], PasswordPatch(hasher.hash(newPassword.value)), 0));
    }
    var updated := db.Update(userId.value, PasswordPatch(hasher.hash(newPassword.value)), 0);
    written := written + (if updated.Some? then [OK] else [SERVER_ERROR]);
  }

  /** updatePassword with the evidently intended `return` after the 401:
      the stored password changes only when the current one matches, and
      every request gets exactly one response. */
  method UpdatePasswordChecked(db: UserTable, hasher: Hasher, userId: Option<UserId>,
                               currentPassword: Option<string>, newPassword: Option<string>)
    returns (written: seq<Status>)
    requires db.Valid()
    modifies db
    ensures db.Valid()
    ensures |written| == 1
    ensures db.users != old(db.users) ==>
      && written == [OK]
      && userId.Some? && Truthy(newPassword) && Truthy(currentPassword)
      && var k := IndexOfId(old(db.users), userId.value);
         && k.Some?
         && hasher.compare(currentPassword.value, old(db.users)[k.value].password)
         && db.users == old(db.users)[k.value := old(db.users)[k.value].(password := hasher.hash(newPassword.value))]
    ensures written == [UNAUTHORIZED] ==> db.users == old(db.users)
    ensures !(Truthy(currentPassword) && Truthy(newPassword)) ==> written == [BAD_REQUEST] && db.users == old(db.users)
    ensures Truthy(currentPassword) && Truthy(newPassword) && userId.None? ==>
      written == [SERVER_ERROR] && db.users == old(db.users)
    // The right current password stores the new hash and answers 200;
    // a wrong one (or a missing row) answers 401 and changes nothing.
    ensures Truthy(currentPassword) && Truthy(newPassword) && userId.Some? ==>
      var k := IndexOfId(old(db.users), userId.value);
      if k.Some? && hasher.compare(currentPassword.value, old(db.users)[k.value].password) then
        && written == [OK]
        && db.users == old(db.users)[k.value := old(db.users)[k.value].(password := hasher.hash(newPassword.value))]
      else
        written == [UNAUTHORIZED] && db.users == old(db.users)
  {
    if !Truthy(currentPassword) || !Truthy(newPassword) {
      return [BAD_REQUEST];
    }
    if userId.None? {
      return [SERVER_ERROR];
    }
    var k := IndexOfId(db.users, userId.value);
    if k.None? || !hasher.compare(currentPassword.value, db.users[k.value].password) {
      return [UNAUTHORIZED];
    }
    SameKeysFit(db.users, k.value, ApplyPatch(db.users[k.value], PasswordPatch(hasher.hash(newPassword.value)), 0));
    var updated := db.Update(userId.value, PasswordPatch(hasher.hash(newPassword.value)), 0);
    written := if updated.Some? then [OK] else [SERVER_ERROR];
  }
}
