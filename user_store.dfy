/** The user table as the auth and user controllers use it through the
    Prisma client. The columns id, username and emailAddress are unique: a
    `create` or `update` that would break that (or an `update` of a missing
    id) is refused, which the handlers see as an exception. */
module UserStore {
  import opened Common

  type UserId = string

  /** One row of the user table; `password` holds the bcrypt hash. */
  datatype User = User(
    id: UserId,
    firstName: string,
    lastName: string,
    username: string,
    emailAddress: string,
    password: string,
    avatar: Option<string>,
    dateJoined: Time,
    lastUpdate: Time)

  /** Two rows the unique columns do not allow side by side. */
  predicate Collide(a: User, b: User) {
    a.id == b.id || a.username == b.username || a.emailAddress == b.emailAddress
  }

  ghost predicate Unique(users: seq<User>) {
    forall i, j :: 0 <= i < j < |users| ==> !Collide(users[i], users[j])
  }

  /** Row `u` may stand at position `k` (or be appended, with k == |users|)
      without clashing with any other row. */
  predicate FitsAt(users: seq<User>, k: int, u: User) {
    forall j :: 0 <= j < |users| && j != k ==> !Collide(users[j], u)
  }

  /** `findUnique({ where: { id } })`, as a position. */
  function IndexOfId(users: seq<User>, id: UserId): (r: Option<nat>)
    ensures r.Some? ==> r.value < |users| && users[r.value].id == id
    ensures r.None? ==> forall i :: 0 <= i < |users| ==> users[i].id != id
  {
    if users == [] then None
    else if users[0].id == id then Some(0)
    else
      match IndexOfId(users[1..], id)
      case None => None
      case Some(k) => Some(k + 1)
  }

  function FindById(users: seq<User>, id: UserId): (r: Option<User>)
    ensures r.Some? ==> r.value in users && r.value.id == id
    ensures r.None? ==> forall u :: u in users ==> u.id != id
  {
    match IndexOfId(users, id)
    case None => None
    case Some(k) => Some(users[k])
  }

  /** The `data` of the three `update` calls the controllers make. */
  datatype UserPatch =
    | ProfilePatch(firstName: Option<string>, lastName: Option<string>, username: Option<string>, emailAddress: Option<string>)
    | AvatarPatch(avatar: string)
    | PasswordPatch(hash: string)

  /** `value || undefined`: Prisma leaves a column alone when handed
      `undefined`, so a falsy value keeps the current one. */
  function Merge(current: string, supplied: Option<string>): (r: string)
    ensures Truthy(supplied) ==> r == supplied.value
    ensures !Truthy(supplied) ==> r == current
    // A column that holds a value is never blanked.
    ensures current != "" ==> r != ""
  {
    if Truthy(supplied) then supplied.value else current
  }

  /** The row after an `update`. The profile and avatar updates stamp
      `lastUpdate`; the password update writes the password column only. */
  function ApplyPatch(u: User, p: UserPatch, now: Time): (r: User)
    ensures r.id == u.id && r.dateJoined == u.dateJoined
    // Only the password patch touches the password, and it touches nothing else.
    ensures p.PasswordPatch? ==> r == u.(password := p.hash)
    ensures !p.PasswordPatch? ==> r.password == u.password && r.lastUpdate == now
    ensures p.AvatarPatch? ==> r == u.(avatar := Some(p.avatar), lastUpdate := now)
    ensures p.ProfilePatch? ==> r.avatar == u.avatar
  {
    match p
    case ProfilePatch(firstName, lastName, username, emailAddress) =>
      u.(firstName := Merge(u.firstName, firstName), lastName := Merge(u.lastName, lastName),
         username := Merge(u.username, username), emailAddress := Merge(u.emailAddress, emailAddress),
         lastUpdate := now)
    case AvatarPatch(avatar) => u.(avatar := Some(avatar), lastUpdate := now)
    case PasswordPatch(hash) => u.(password := hash)
  }

  /** A patch that leaves username and email alone never clashes: only a
      missing row can make such an update fail. */
  lemma SameKeysFit(users: seq<User>, k: nat, u: User)
    requires Unique(users) && k < |users|
    requires u.id == users[k].id && u.username == users[k].username && u.emailAddress == users[k].emailAddress
    ensures FitsAt(users, k, u)
  {
    forall j | 0 <= j < |users| && j != k ensures !Collide(users[j], u) {
      if j < k { assert !Collide(users[j], users[k]); } else { assert !Collide(users[k], users[j]); }
    }
  }

  class UserTable {
    var users: seq<User>

    ghost predicate Valid()
      reads this
    {
      Unique(users)
    }

    constructor ()
      ensures Valid() && users == []
    {
      users := [];
    }

    /** `prisma.user.create`: refused when a unique column is taken. */
    method Create(u: User) returns (ok: bool)
      requires Valid()
      modifies this
      ensures Valid()
      ensures ok <==> FitsAt(old(users), |old(users)|, u)
      ensures users == if ok then old(users) + [u] else old(users)
    {
      ok := FitsAt(users, |users|, u);
      if ok {
        users := users + [u];
      }
    }

    /** `prisma.user.update({ where: { id }, data })`: refused when no row
        has the id or when the new values clash with another row. Answers
        with the updated row. */
    method Update(id: UserId, p: UserPatch, now: Time) returns (updated: Option<User>)
      requires Valid()
      modifies this
      ensures Valid()
      ensures var k := IndexOfId(old(users), id);
        if k.Some? && FitsAt(old(users), k.value, ApplyPatch(old(users)[k.value], p, now)) then
          && updated == Some(ApplyPatch(old(users)[k.value], p, now))
          && users == old(users)[k.value := ApplyPatch(old(users)[k.value], p, now)]
        else
          updated == None && users == old(users)
    {
      var k := IndexOfId(users, id);
      if k.Some? && FitsAt(users, k.value, ApplyPatch(users[k.value], p, now)) {
        var u := ApplyPatch(users[k.value], p, now);
        users := users[k.value := u];
        updated := Some(u);
      } else {
        updated := None;
      }
    }
  }
}
