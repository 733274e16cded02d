/** The profile handlers: read the caller's profile, merge new profile
    fields into it, and record an uploaded avatar. Each answers with the
    row's columns except the password, the avatar turned into a URL path. */
module UserController {
  import opened Common
  import opened UserStore
  import opened NodePath

  /** The `select` of all three handlers: every column but the password. */
  datatype Profile = Profile(
    id: UserId, firstName: string, lastName: string, username: string, emailAddress: string,
    avatar: Option<string>, dateJoined: Time, lastUpdate: Time)

  function ProfileOf(u: User): (r: Profile)
    // Every column but the password, as stored.
    ensures r.id == u.id && r.firstName == u.firstName && r.lastName == u.lastName
    ensures r.username == u.username && r.emailAddress == u.emailAddress && r.avatar == u.avatar
    ensures r.dateJoined == u.dateJoined && r.lastUpdate == u.lastUpdate
  {
    Profile(u.id, u.firstName, u.lastName, u.username, u.emailAddress, u.avatar, u.dateJoined, u.lastUpdate)
  }

  /** Two rows give the same profile exactly when they differ at most in the
      password: the reply hides the hash and nothing else. */
  lemma ProfileHidesOnlyPassword(u: User, v: User)
    ensures ProfileOf(u) == ProfileOf(v) <==> u.(password := v.password) == v
  {
  }

  /** Where avatars are served from. */
  const AVATAR_ROUTE: string := "/uploads/avatars/"

  /** What getUserProfile assigns: the string is single-quoted, so the
      `${...}` is not a substitution but part of the text. */
  const UNINTERPOLATED_AVATAR: string := "/uploads/avatars/${user.avatar}"

  /** The template-literal rewrite of updateUserProfile and uploadUserAvatar:
      a stored avatar name becomes its URL path. */
  function WithAvatarUrl(p: Profile): (r: Profile)
    ensures r.(avatar := p.avatar) == p
    ensures Truthy(p.avatar) ==> r.avatar == Some(AVATAR_ROUTE + p.avatar.value)
    ensures Truthy(p.avatar) ==> StartsWith(r.avatar.value, AVATAR_ROUTE)
    ensures Truthy(p.avatar) && '/' !in p.avatar.value ==> Basename(r.avatar.value) == p.avatar.value
    ensures !Truthy(p.avatar) ==> r == p
  {
    if Truthy(p.avatar) then
      AvatarUrlNamesFile(p.avatar.value);
      p.(avatar := Some(AVATAR_ROUTE + p.avatar.value))
    else p
  }

  /** The URL path of a stored avatar name ends in exactly that name. */
  lemma AvatarUrlNamesFile(name: string)
    requires name != ""
    ensures '/' !in name ==> Basename(AVATAR_ROUTE + name) == name
  {
    if '/' !in name {
      assert AVATAR_ROUTE + name == "/uploads/avatars" + "/" + name;
      BasenameOfJoin("/uploads/avatars", name);
    }
  }

  /** The rewrite getUserProfile performs as written. */
  function WithAvatarLiteral(p: Profile): (r: Profile)
    ensures r.(avatar := p.avatar) == p
    ensures Truthy(p.avatar) ==> r.avatar == Some(UNINTERPOLATED_AVATAR)
    ensures !Truthy(p.avatar) ==> r == p
  {
    if Truthy(p.avatar) then p.(avatar := Some(UNINTERPOLATED_AVATAR)) else p
  }

  /** Every response a profile handler writes, and the profile of the 200. */
  datatype ProfileReply = ProfileReply(written: seq<Status>, user: Option<Profile>)

  /** getUserProfile as written: 401 without a user id, 404 without a row,
      else the row without its password; a set avatar comes back as the
      same fixed text for every user. */
  function GetUserProfile(users: seq<User>, userId: Option<UserId>): (r: ProfileReply)
    ensures !Truthy(userId) ==> r == ProfileReply([UNAUTHORIZED], None)
    ensures Truthy(userId) && FindById(users, userId.value).None? ==> r == ProfileReply([NOT_FOUND], None)
    ensures Truthy(userId) && FindById(users, userId.value).Some? ==>
      var u := FindById(users, userId.value).value;
      && r.written == [OK] && r.user.Some?
      && r.user.value.(avatar := u.avatar) == ProfileOf(u)
      && (Truthy(u.avatar) ==> r.user.value.avatar == Some(UNINTERPOLATED_AVATAR))
      && (!Truthy(u.avatar) ==> r.user.value == ProfileOf(u))
  {
    if !Truthy(userId) then ProfileReply([UNAUTHORIZED], None)
    else
      match FindById(users, userId.value)
      case None => ProfileReply([NOT_FOUND], None)
      case Some(u) => ProfileReply([OK], Some(WithAvatarLiteral(ProfileOf(u))))
  }

  /** The returned avatar does not name the stored file: whatever the name,
      its basename is the literal "${user.avatar}". */
  lemma ProfileAvatarIsNotInterpolated(users: seq<User>, userId: UserId)
    requires userId != ""
    requires var u := FindById(users, userId); u.Some? && Truthy(u.value.avatar)
    ensures var r := GetUserProfile(users, Some(userId));
      && r.user.Some? && r.user.value.avatar.Some?
      && Basename(r.user.value.avatar.value) == "${user.avatar}"
  {
    assert UNINTERPOLATED_AVATAR == "/uploads/avatars" + "/" + "${user.avatar}";
    BasenameOfJoin("/uploads/avatars", "${user.avatar}");
  }

  /** getUserProfile with the evidently intended template literal. */
  function GetUserProfileInterpolated(users: seq<User>, userId: Option<UserId>): (r: ProfileReply)
    ensures !Truthy(userId) ==> r == ProfileReply([UNAUTHORIZED], None)
    ensures Truthy(userId) && FindById(users, userId.value).None? ==> r == ProfileReply([NOT_FOUND], None)
    ensures Truthy(userId) && FindById(users, userId.value).Some? ==>
      var u := FindById(users, userId.value).value;
      && r.written == [OK] && r.user.Some?
      && r.user.value.(avatar := u.avatar) == ProfileOf(u)
      && (Truthy(u.avatar) ==> r.user.value.avatar == Some(AVATAR_ROUTE + u.avatar.value))
      && (Truthy(u.avatar) && '/' !in u.avatar.value ==>
            r.user.value.avatar.Some? && Basename(r.user.value.avatar.value) == u.avatar.value)
      && (!Truthy(u.avatar) ==> r.user.value == ProfileOf(u))
  {
    if !Truthy(userId) then ProfileReply([UNAUTHORIZED], None)
    else
      match FindById(users, userId.value)
      case None => ProfileReply([NOT_FOUND], None)
      case Some(u) => ProfileReply([OK], Some(WithAvatarUrl(ProfileOf(u))))
  }

  /** The profile fields a request supplies merge idempotently: sending the
      same request twice gives the same row as sending it once (up to the
      stamp), and password, avatar and join date are never touched. */
  lemma ProfileMergeIsIdempotent(u: User, firstName: Option<string>, lastName: Option<string>,
                                 username: Option<string>, emailAddress: Option<string>, t1: Time, t2: Time)
    ensures var p := ProfilePatch(firstName, lastName, username, emailAddress);
      var once := ApplyPatch(u, p, t1);
      && ApplyPatch(once, p, t2) == once.(lastUpdate := t2)
      && once.id == u.id && once.password == u.password && once.avatar == u.avatar && once.dateJoined == u.dateJoined
      && once.lastUpdate == t1
      && (Truthy(firstName) ==> once.firstName == firstName.value)
      && (!Truthy(firstName) ==> once.firstName == u.firstName)
      && (Truthy(lastName) ==> once.lastName == lastName.value)
      && (!Truthy(lastName) ==> once.lastName == u.lastName)
      && (Truthy(username) ==> once.username == username.value)
      && (!Truthy(username) ==> once.username == u.username)
      && (Truthy(emailAddress) ==> once.emailAddress == emailAddress.value)
      && (!Truthy(emailAddress) ==> once.emailAddress == u.emailAddress)
  {
  }

  /** updateUserProfile: 401 without a user id. Otherwise each of the four
      fields is replaced only by a truthy value, `lastUpdate` is stamped and
      the updated profile (avatar as URL path) is returned; a missing row or
      a clash with another user's username or email makes the update throw
      (500) and nothing changes. */
  method UpdateUserProfile(db: UserTable, userId: Option<UserId>,
                           firstName: Option<string>, lastName: Option<string>,
                           username: Option<string>, emailAddress: Option<string>, now: Time)
    returns (written: seq<Status>, user: Option<Profile>)
    requires db.Valid()
    modifies db
    ensures db.Valid()
    ensures !Truthy(userId) ==> written == [UNAUTHORIZED] && user == None && db.users == old(db.users)
    ensures Truthy(userId) ==>
      var k := IndexOfId(old(db.users), userId.value);
      var p := ProfilePatch(firstName, lastName, username, emailAddress);
      if k.Some? && FitsAt(old(db.users), k.value, ApplyPatch(old(db.users)[k.value], p, now)) then
        var merged := ApplyPatch(old(db.users)[k.value], p, now);
        && written == [OK]
        && db.users == old(db.users)[k.value := merged]
        && user == Some(WithAvatarUrl(ProfileOf(merged)))
      else
        written == [SERVER_ERROR] && user == None && db.users == old(db.users)
  {
    if !Truthy(userId) {
      return [UNAUTHORIZED], None;
    }
    var updated := db.Update(userId.value, ProfilePatch(firstName, lastName, username, emailAddress), now);
    if updated.Some? {
      written, user := [OK], Some(WithAvatarUrl(ProfileOf(updated.value)));
    } else {
      written, user := [SERVER_ERROR], None;
    }
  }

  /** The part of `req.file` the handler reads. */
  datatype UploadedFile = UploadedFile(path: string)

  /** uploadUserAvatar: 401 without a user id, 400 and no change without a
      file. Otherwise the basename of the stored file's path (a name without
      '/') becomes the avatar, `lastUpdate` is stamped and the profile comes
      back with the avatar as URL path; only a missing row fails (500). */
  method UploadUserAvatar(db: UserTable, userId: Option<UserId>, file: Option<UploadedFile>, now: Time)
    returns (written: seq<Status>, user: Option<Profile>)
    requires db.Valid()
    modifies db
    ensures db.Valid()
    ensures !Truthy(userId) ==> written == [UNAUTHORIZED] && user == None && db.users == old(db.users)
    ensures Truthy(userId) && file.None? ==> written == [BAD_REQUEST] && user == None && db.users == old(db.users)
    ensures Truthy(userId) && file.Some? ==>
      var k := IndexOfId(old(db.users), userId.value);
      if k.None? then
        written == [SERVER_ERROR] && user == None && db.users == old(db.users)
      else
        var name := Basename(file.value.path);
        var stored := old(db.users)[k.value].(avatar := Some(name), lastUpdate := now);
        && '/' !in name
        && written == [OK]
        && db.users == old(db.users)[k.value := stored]
        && user == Some(WithAvatarUrl(ProfileOf(stored)))
  {
    if !Truthy(userId) {
      return [UNAUTHORIZED], None;
    }
    if file.None? {
      return [BAD_REQUEST], None;
    }
    var name := Basename(file.value.path);
    var k := IndexOfId(db.users, userId.value);
    if k.Some? {
      SameKeysFit(db.users, k.value, ApplyPatch(db.users[k.value], AvatarPatch(name), now));
    }
    var updated := db.Update(userId.value, AvatarPatch(name), now);
    if updated.Some? {
      written, user := [OK], Some(WithAvatarUrl(ProfileOf(updated.value)));
    } else {
      written, user := [SERVER_ERROR], None;
    }
  }
}
