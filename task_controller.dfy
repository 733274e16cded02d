/** The task handlers. Every handler checks the caller's user id (set by the
    token gate), validates the body, then issues one store call scoped by
    owner. Each mutating handler is one `updateMany` whose count decides
    between 404 and 200; they differ only in their `where` filter. */
module TaskController {
  import opened Common
  import opened TaskStore

  // ---------------------------------------------------------------------
  // The filters of the mutating handlers

  /** updateTask and deleteTask: id and owner, whatever the flags. */
  function WhereOwned(userId: UserId, id: TaskId): Where {
    Where(id, userId, None, None)
  }

  /** restoreTasks: only a task currently in the trash. */
  function WhereInTrash(userId: UserId, id: TaskId): Where {
    Where(id, userId, Some(true), None)
  }

  /** completeTasks: only a task not yet completed. */
  function WhereNotCompleted(userId: UserId, id: TaskId): Where {
    Where(id, userId, None, Some(false))
  }

  /** incompleteTask: only a task currently completed. */
  function WhereCompleted(userId: UserId, id: TaskId): Where {
    Where(id, userId, None, Some(true))
  }

  // ---------------------------------------------------------------------
  // Mutating handlers

  /** createTask: 401 without a user id, 400 without a title or description,
      otherwise one new active task owned by the caller and 201. */
  method CreateTask(db: TaskTable, userId: Option<UserId>, title: Option<string>, description: Option<string>,
                    newId: TaskId, now: Time)
    returns (written: seq<Status>, task: Option<Task>)
    requires db.Valid()
    modifies db
    ensures db.Valid()
    ensures !Truthy(userId) ==> written == [UNAUTHORIZED] && task == None && db.rows == old(db.rows)
    ensures Truthy(userId) && !(Truthy(title) && Truthy(description)) ==>
      written == [BAD_REQUEST] && task == None && db.rows == old(db.rows)
    ensures Truthy(userId) && Truthy(title) && Truthy(description) ==>
      var t := Task(newId, userId.value, title.value, description.value, false, false, now, None);
      if IdInUse(old(db.rows), newId) then
        written == [SERVER_ERROR] && task == None && db.rows == old(db.rows)
      else
        written == [CREATED] && task == Some(t) && db.rows == old(db.rows) + [t]
  {
    if !Truthy(userId) {
      return [UNAUTHORIZED], None;
    }
    if !Truthy(title) || !Truthy(description) {
      return [BAD_REQUEST], None;
    }
    var t := Task(newId, userId.value, title.value, description.value, false, false, now, None);
    var ok := db.Create(t);
    if ok {
      written, task := [CREATED], Some(t);
    } else {
      written, task := [SERVER_ERROR], None;
    }
  }

  /** updateTask: rewrites title and description (and the stamp) of the
      caller's task with that id; 404 when the caller owns no such task. */
  method UpdateTask(db: TaskTable, userId: Option<UserId>, id: TaskId, title: Option<string>, description: Option<string>,
                    now: Time)
    returns (written: seq<Status>)
    requires db.Valid()
    modifies db
    ensures db.Valid()
    ensures !Truthy(userId) ==> written == [UNAUTHORIZED] && db.rows == old(db.rows)
    ensures Truthy(userId) && !(Truthy(title) && Truthy(description)) ==>
      written == [BAD_REQUEST] && db.rows == old(db.rows)
    ensures Truthy(userId) && Truthy(title) && Truthy(description) ==>
      var w := WhereOwned(userId.value, id);
      && db.rows == UpdateWhere(old(db.rows), w, SetText(title.value, description.value), now)
      && written == (if AnyMatch(old(db.rows), w) then [OK] else [NOT_FOUND])
    ensures |db.rows| == |old(db.rows)|
    ensures forall i :: 0 <= i < |db.rows| ==>
      db.rows[i].isCompleted == old(db.rows)[i].isCompleted && db.rows[i].isDeleted == old(db.rows)[i].isDeleted
  {
    if !Truthy(userId) {
      return [UNAUTHORIZED];
    }
    if !Truthy(title) || !Truthy(description) {
      return [BAD_REQUEST];
    }
    var count := db.UpdateMany(WhereOwned(userId.value, id), SetText(title.value, description.value), now);
    written := if count == 0 then [NOT_FOUND] else [OK];
  }

  /** The shape shared by deleteTask, restoreTasks, completeTasks and
      incompleteTask once the user id is known: one `updateMany`. */
  method UpdateOwned(db: TaskTable, w: Where, p: Patch, now: Time) returns (found: bool)
    requires db.Valid()
    modifies db
    ensures db.Valid()
    ensures found == AnyMatch(old(db.rows), w)
    ensures db.rows == UpdateWhere(old(db.rows), w, p, now)
    ensures !found ==> db.rows == old(db.rows)
  {
    if !AnyMatch(db.rows, w) {
      NoMatchNoChange(db.rows, w, p, now);
    }
    var count := db.UpdateMany(w, p, now);
    found := count != 0;
  }

  /** deleteTask: moves the caller's task to the trash whatever its current
      state; 404 only when the caller owns no task with that id. */
  method DeleteTask(db: TaskTable, userId: Option<UserId>, id: TaskId, now: Time) returns (written: seq<Status>)
    requires db.Valid()
    modifies db
    ensures db.Valid()
    ensures !Truthy(userId) ==> written == [UNAUTHORIZED] && db.rows == old(db.rows)
    ensures Truthy(userId) ==>
      var w := WhereOwned(userId.value, id);
      && db.rows == UpdateWhere(old(db.rows), w, SetDeleted(true), now)
      && written == (if AnyMatch(old(db.rows), w) then [OK] else [NOT_FOUND])
      && (!AnyMatch(old(db.rows), w) ==> db.rows == old(db.rows))
  {
    if !Truthy(userId) {
      return [UNAUTHORIZED];
    }
    var found := UpdateOwned(db, WhereOwned(userId.value, id), SetDeleted(true), now);
    written := if found then [OK] else [NOT_FOUND];
  }

  /** restoreTasks: takes the caller's task out of the trash; a task that is
      not in the trash is "not found" and nothing changes. */
  method RestoreTasks(db: TaskTable, userId: Option<UserId>, id: TaskId, now: Time) returns (written: seq<Status>)
    requires db.Valid()
    modifies db
    ensures db.Valid()
    ensures !Truthy(userId) ==> written == [UNAUTHORIZED] && db.rows == old(db.rows)
    ensures Truthy(userId) ==>
      var w := WhereInTrash(userId.value, id);
      && db.rows == UpdateWhere(old(db.rows), w, SetDeleted(false), now)
      && written == (if AnyMatch(old(db.rows), w) then [OK] else [NOT_FOUND])
      && (!AnyMatch(old(db.rows), w) ==> db.rows == old(db.rows))
  {
    if !Truthy(userId) {
      return [UNAUTHORIZED];
    }
    var found := UpdateOwned(db, WhereInTrash(userId.value, id), SetDeleted(false), now);
    written := if found then [OK] else [NOT_FOUND];
  }

  /** completeTasks: marks the caller's incomplete task completed. With no
      such task the handler writes 404 and, lacking a `return`, goes on to
      write 200 as well; the store is unchanged on that path. */
  method CompleteTasks(db: TaskTable, userId: Option<UserId>, id: TaskId, now: Time) returns (written: seq<Status>)
    requires db.Valid()
    modifies db
    ensures db.Valid()
    ensures !Truthy(userId) ==> written == [UNAUTHORIZED] && db.rows == old(db.rows)
    ensures Truthy(userId) ==>
      var w := WhereNotCompleted(userId.value, id);
      && db.rows == UpdateWhere(old(db.rows), w, SetCompleted(true), now)
      && written == (if AnyMatch(old(db.rows), w) then [OK] else [NOT_FOUND, OK])
      && (!AnyMatch(old(db.rows), w) ==> db.rows == old(db.rows))
  {
    if !Truthy(userId) {
      return [UNAUTHORIZED];
    }
    var found := UpdateOwned(db, WhereNotCompleted(userId.value, id), SetCompleted(true), now);
    written := [];
    if !found {
      written := written + [NOT_FOUND];
    }
    written := written + [OK];
  }

  /** incompleteTask: marks the caller's completed task incomplete; 404 and
      no change when the caller owns no completed task with that id. */
  method IncompleteTask(db: TaskTable, userId: Option<UserId>, id: TaskId, now: Time) returns (written: seq<Status>)
    requires db.Valid()
    modifies db
    ensures db.Valid()
    ensures !Truthy(userId) ==> written == [UNAUTHORIZED] && db.rows == old(db.rows)
    ensures Truthy(userId) ==>
      var w := WhereCompleted(userId.value, id);
      && db.rows == UpdateWhere(old(db.rows), w, SetCompleted(false), now)
      && written == (if AnyMatch(old(db.rows), w) then [OK] else [NOT_FOUND])
      && (!AnyMatch(old(db.rows), w) ==> db.rows == old(db.rows))
  {
    if !Truthy(userId) {
      return [UNAUTHORIZED];
    }
    var found := UpdateOwned(db, WhereCompleted(userId.value, id), SetCompleted(false), now);
    written := if found then [OK] else [NOT_FOUND];
  }

  // ---------------------------------------------------------------------
  // Lifecycle properties of the mutations

  /** Deleting twice leaves the table as deleting once did, and the second
      delete still finds the task (200 again). */
  lemma DeleteIsIdempotent(rows: seq<Task>, userId: UserId, id: TaskId, t1: Time, t2: Time)
    ensures var w := WhereOwned(userId, id);
      var once := UpdateWhere(rows, w, SetDeleted(true), t1);
      && UpdateWhere(once, w, SetDeleted(true), t2) == UpdateWhere(rows, w, SetDeleted(true), t2)
      && AnyMatch(once, w) == AnyMatch(rows, w)
  {
    var w := WhereOwned(userId, id);
    var once := UpdateWhere(rows, w, SetDeleted(true), t1);
    if AnyMatch(rows, w) {
      var i :| 0 <= i < |rows| && Matches(rows[i], w);
      assert Matches(once[i], w);
    }
  }

  /** Restore only matches tasks in the trash: on a task that is not there it
      reports 404 and changes nothing. */
  lemma RestoreNeedsTrashedTask(rows: seq<Task>, userId: UserId, id: TaskId, now: Time)
    requires forall i :: 0 <= i < |rows| && Matches(rows[i], WhereOwned(userId, id)) ==> !rows[i].isDeleted
    ensures !AnyMatch(rows, WhereInTrash(userId, id))
    ensures UpdateWhere(rows, WhereInTrash(userId, id), SetDeleted(false), now) == rows
  {
    NoMatchNoChange(rows, WhereInTrash(userId, id), SetDeleted(false), now);
  }

  /** Deleting a task that was not in the trash and then restoring it gives
      every row back its title, description and both flags (only the stamp
      differs), so the task is back in the list it was in before. */
  lemma DeleteThenRestore(rows: seq<Task>, userId: UserId, id: TaskId, t1: Time, t2: Time)
    requires forall i :: 0 <= i < |rows| && Matches(rows[i], WhereOwned(userId, id)) ==> !rows[i].isDeleted
    ensures var deleted := UpdateWhere(rows, WhereOwned(userId, id), SetDeleted(true), t1);
      var restored := UpdateWhere(deleted, WhereInTrash(userId, id), SetDeleted(false), t2);
      && AnyMatch(deleted, WhereInTrash(userId, id)) == AnyMatch(rows, WhereOwned(userId, id))
      && |restored| == |rows|
      && forall i :: 0 <= i < |rows| ==> restored[i].(lastUpdated := rows[i].lastUpdated) == rows[i]
  {
    var deleted := UpdateWhere(rows, WhereOwned(userId, id), SetDeleted(true), t1);
    if AnyMatch(rows, WhereOwned(userId, id)) {
      var i :| 0 <= i < |rows| && Matches(rows[i], WhereOwned(userId, id));
      assert Matches(deleted[i], WhereInTrash(userId, id));
    }
  }

  /** Completing a task and marking it incomplete again restores every row
      but for the stamp; completing an already completed task is a no-op. */
  lemma CompleteThenIncomplete(rows: seq<Task>, userId: UserId, id: TaskId, t1: Time, t2: Time)
    requires forall i :: 0 <= i < |rows| && Matches(rows[i], WhereOwned(userId, id)) ==> !rows[i].isCompleted
    ensures var done := UpdateWhere(rows, WhereNotCompleted(userId, id), SetCompleted(true), t1);
      var undone := UpdateWhere(done, WhereCompleted(userId, id), SetCompleted(false), t2);
      && !AnyMatch(done, WhereNotCompleted(userId, id))
      && AnyMatch(done, WhereCompleted(userId, id)) == AnyMatch(rows, WhereOwned(userId, id))
      && |undone| == |rows|
      && forall i :: 0 <= i < |rows| ==> undone[i].(lastUpdated := rows[i].lastUpdated) == rows[i]
  {
    var done := UpdateWhere(rows, WhereNotCompleted(userId, id), SetCompleted(true), t1);
    if AnyMatch(rows, WhereOwned(userId, id)) {
      var i :| 0 <= i < |rows| && Matches(rows[i], WhereOwned(userId, id));
      assert Matches(done[i], WhereCompleted(userId, id));
    }
  }

  // ---------------------------------------------------------------------
  // getTaskById

  datatype TaskReply = TaskReply(written: seq<Status>, task: Option<Task>)

  /** `findUnique({ where: { id, userId } })`: the first row with both. */
  function FindOwned(rows: seq<Task>, userId: UserId, id: TaskId): (r: Option<Task>)
    ensures r.Some? ==> r.value in rows && Matches(r.value, WhereOwned(userId, id))
    ensures r.None? ==> !AnyMatch(rows, WhereOwned(userId, id))
  {
    if rows == [] then None
    else if Matches(rows[0], WhereOwned(userId, id)) then Some(rows[0])
    else
      var r := FindOwned(rows[1..], userId, id);
      assert r.None? ==> forall i :: 1 <= i < |rows| ==> rows[i] == rows[1..][i - 1];
      r
  }

  /** getTaskById: the caller's task with that id, or 404. */
  function GetTaskById(rows: seq<Task>, userId: Option<UserId>, id: TaskId): (r: TaskReply)
    ensures !Truthy(userId) ==> r == TaskReply([UNAUTHORIZED], None)
    ensures Truthy(userId) ==>
      && (r.written == [OK] <==> AnyMatch(rows, WhereOwned(userId.value, id)))
      && (r.written == [OK] || r == TaskReply([NOT_FOUND], None))
    ensures r.task.Some? ==>
      && r.written == [OK]
      && r.task.value in rows
      && r.task.value.id == id && r.task.value.userId == userId.value
    ensures Truthy(userId) && r.written == [OK] ==> r.task.Some? && r.task == FindOwned(rows, userId.value, id)
  {
    if !Truthy(userId) then TaskReply([UNAUTHORIZED], None)
    else
      match FindOwned(rows, userId.value, id)
      case None => TaskReply([NOT_FOUND], None)
      case Some(t) => TaskReply([OK], Some(t))
  }

  /** The rows of one owner, in store order. */
  function OwnedBy(rows: seq<Task>, userId: UserId): (r: seq<Task>)
    ensures forall t :: t in r <==> t in rows && t.userId == userId
  {
    if rows == [] then []
    else (if rows[0].userId == userId then [rows[0]] else []) + OwnedBy(rows[1..], userId)
  }

  /** What getTaskById answers depends only on the caller's own rows: another
      user's task is indistinguishable from one that does not exist. */
  lemma {:induction false} GetTaskByIdSeesOnlyOwnTasks(rows: seq<Task>, userId: UserId, id: TaskId)
    ensures GetTaskById(rows, Some(userId), id) == GetTaskById(OwnedBy(rows, userId), Some(userId), id)
  {
    FindOwnedSeesOnlyOwnRows(rows, userId, id);
  }

  lemma {:induction false} FindOwnedSeesOnlyOwnRows(rows: seq<Task>, userId: UserId, id: TaskId)
    ensures FindOwned(rows, userId, id) == FindOwned(OwnedBy(rows, userId), userId, id)
  {
    if rows != [] {
      FindOwnedSeesOnlyOwnRows(rows[1..], userId, id);
      var rest := OwnedBy(rows[1..], userId);
      if rows[0].userId == userId {
        assert OwnedBy(rows, userId) == [rows[0]] + rest;
        assert (OwnedBy(rows, userId))[1..] == rest;
      } else {
        assert OwnedBy(rows, userId) == rest;
      }
    }
  }

  /** With ids unique, a task owned by someone else reads as 404. */
  lemma ForeignTaskIsNotFound(rows: seq<Task>, userId: UserId, k: nat)
    requires DistinctIds(rows) && userId != ""
    requires k < |rows| && rows[k].userId != userId
    ensures GetTaskById(rows, Some(userId), rows[k].id) == TaskReply([NOT_FOUND], None)
  {
  }

  // ---------------------------------------------------------------------
  // The three listings

  /** Which listing a task belongs to. */
  datatype View = Active | Completed | Trash

  predicate InView(t: Task, v: View) {
    match v
    case Active => !t.isCompleted && !t.isDeleted
    case Completed => t.isCompleted && !t.isDeleted
    case Trash => t.isDeleted
  }

  /** `findMany({ where })` before ordering: the owner's rows in that view. */
  function Select(rows: seq<Task>, userId: UserId, v: View): (r: seq<Task>)
    ensures forall t :: t in r <==> t in rows && t.userId == userId && InView(t, v)
    ensures multiset(r) <= multiset(rows)
  {
    if rows == [] then []
    else
      assert rows == [rows[0]] + rows[1..];
      (if rows[0].userId == userId && InView(rows[0], v) then [rows[0]] else []) + Select(rows[1..], userId, v)
  }

  /** `orderBy: { DateCreated: "desc" }`. */
  ghost predicate NewestFirst(s: seq<Task>) {
    forall i, j :: 0 <= i < j < |s| ==> s[i].dateCreated >= s[j].dateCreated
  }

  function InsertNewestFirst(t: Task, s: seq<Task>): (r: seq<Task>)
    requires NewestFirst(s)
    ensures NewestFirst(r)
    ensures multiset(r) == multiset(s) + multiset{t}
  {
    if s == [] then [t]
    else if t.dateCreated >= s[0].dateCreated then [t] + s
    else
      var rest := InsertNewestFirst(t, s[1..]);
      assert s == [s[0]] + s[1..];
      assert forall k :: 0 <= k < |rest| ==> rest[k].dateCreated <= s[0].dateCreated by {
        forall k | 0 <= k < |rest| ensures rest[k].dateCreated <= s[0].dateCreated {
          assert rest[k] in multiset(rest);
          if rest[k] != t {
            assert rest[k] in s[1..];
          }
        }
      }
      [s[0]] + rest
  }

  /** The store's ordering: newest first, the same tasks. Equal creation
      times keep store order. */
  function SortNewestFirst(s: seq<Task>): (r: seq<Task>)
    ensures NewestFirst(r)
    ensures multiset(r) == multiset(s)
  {
    if s == [] then []
    else
      assert s == [s[0]] + s[1..];
      InsertNewestFirst(s[0], SortNewestFirst(s[1..]))
  }

  datatype ListReply = ListReply(written: seq<Status>, tasks: seq<Task>)

  function ListView(rows: seq<Task>, userId: Option<UserId>, v: View): (r: ListReply)
    ensures !Truthy(userId) ==> r == ListReply([UNAUTHORIZED], [])
    ensures Truthy(userId) ==>
      && r.written == [OK]
      && NewestFirst(r.tasks)
      && multiset(r.tasks) == multiset(Select(rows, userId.value, v))
    ensures forall t :: t in r.tasks <==> Truthy(userId) && t in rows && t.userId == userId.value && InView(t, v)
  {
    if !Truthy(userId) then ListReply([UNAUTHORIZED], [])
    else
      var tasks := SortNewestFirst(Select(rows, userId.value, v));
      assert forall t :: t in tasks <==> t in multiset(tasks);
      ListReply([OK], tasks)
  }

  /** getActiveTasks: the caller's tasks neither completed nor deleted. */
  function GetActiveTasks(rows: seq<Task>, userId: Option<UserId>): (r: ListReply)
    ensures Truthy(userId) ==> r.written == [OK] && NewestFirst(r.tasks)
    ensures !Truthy(userId) ==> r == ListReply([UNAUTHORIZED], [])
    ensures forall t :: t in r.tasks <==>
      Truthy(userId) && t in rows && t.userId == userId.value && !t.isCompleted && !t.isDeleted
  {
    ListView(rows, userId, Active)
  }

  /** getCompletedTasks: the caller's completed tasks not in the trash. */
  function GetCompletedTasks(rows: seq<Task>, userId: Option<UserId>): (r: ListReply)
    ensures Truthy(userId) ==> r.written == [OK] && NewestFirst(r.tasks)
    ensures !Truthy(userId) ==> r == ListReply([UNAUTHORIZED], [])
    ensures forall t :: t in r.tasks <==>
      Truthy(userId) && t in rows && t.userId == userId.value && t.isCompleted && !t.isDeleted
  {
    ListView(rows, userId, Completed)
  }

  /** getDeletedTasks: the caller's tasks in the trash, completed or not. */
  function GetDeletedTasks(rows: seq<Task>, userId: Option<UserId>): (r: ListReply)
    ensures Truthy(userId) ==> r.written == [OK] && NewestFirst(r.tasks)
    ensures !Truthy(userId) ==> r == ListReply([UNAUTHORIZED], [])
    ensures forall t :: t in r.tasks <==> Truthy(userId) && t in rows && t.userId == userId.value && t.isDeleted
  {
    ListView(rows, userId, Trash)
  }

  /** The three views split the owner's rows: counted with multiplicity,
      they add up to exactly the owner's rows. */
  lemma {:induction false} ViewsSplitOwnedRows(rows: seq<Task>, userId: UserId)
    ensures multiset(Select(rows, userId, Active)) + multiset(Select(rows, userId, Completed))
            + multiset(Select(rows, userId, Trash)) == multiset(OwnedBy(rows, userId))
  {
    if rows != [] {
      ViewsSplitOwnedRows(rows[1..], userId);
    }
  }

  /** For one caller the three listings are pairwise disjoint and together
      hold every task the caller owns, each exactly once. */
  lemma ListingsPartitionOwnedTasks(rows: seq<Task>, userId: UserId)
    requires userId != ""
    ensures var active := GetActiveTasks(rows, Some(userId)).tasks;
      var completed := GetCompletedTasks(rows, Some(userId)).tasks;
      var trash := GetDeletedTasks(rows, Some(userId)).tasks;
      && multiset(active) + multiset(completed) + multiset(trash) == multiset(OwnedBy(rows, userId))
      && multiset(active) !! multiset(completed)
      && multiset(active) !! multiset(trash)
      && multiset(completed) !! multiset(trash)
  {
    ViewsSplitOwnedRows(rows, userId);
    var a := ListView(rows, Some(userId), Active).tasks;
    var c := ListView(rows, Some(userId), Completed).tasks;
    var d := ListView(rows, Some(userId), Trash).tasks;
    assert GetActiveTasks(rows, Some(userId)).tasks == a;
    assert GetCompletedTasks(rows, Some(userId)).tasks == c;
    assert GetDeletedTasks(rows, Some(userId)).tasks == d;
    assert multiset(a) + multiset(c) + multiset(d) == multiset(OwnedBy(rows, userId));
    assert multiset(a) !! multiset(c) by {
      forall t | t in multiset(a) ensures t !in multiset(c) { assert t in a; }
    }
    assert multiset(a) !! multiset(d) by {
      forall t | t in multiset(a) ensures t !in multiset(d) { assert t in a; }
    }
    assert multiset(c) !! multiset(d) by {
      forall t | t in multiset(c) ensures t !in multiset(d) { assert t in c; }
    }
  }

  /** A freshly created task shows up in the caller's active list. */
  lemma CreatedTaskIsActive(rows: seq<Task>, t: Task)
    requires t.userId != "" && !t.isCompleted && !t.isDeleted
    ensures t in GetActiveTasks(rows + [t], Some(t.userId)).tasks
  {
  }

  /** After a successful delete the task is listed in the trash only, and
      after the matching restore it is back in the list its completion flag
      selects (a completed task reappears among the completed ones). */
  lemma DeleteAndRestoreMoveBetweenLists(rows: seq<Task>, userId: UserId, id: TaskId, t1: Time, t2: Time, k: nat)
    requires userId != "" && k < |rows| && Matches(rows[k], WhereOwned(userId, id)) && !rows[k].isDeleted
    ensures var deleted := UpdateWhere(rows, WhereOwned(userId, id), SetDeleted(true), t1);
      var restored := UpdateWhere(deleted, WhereInTrash(userId, id), SetDeleted(false), t2);
      && deleted[k] in GetDeletedTasks(deleted, Some(userId)).tasks
      && deleted[k] !in GetActiveTasks(deleted, Some(userId)).tasks
      && deleted[k] !in GetCompletedTasks(deleted, Some(userId)).tasks
      && (restored[k] in GetCompletedTasks(restored, Some(userId)).tasks <==> rows[k].isCompleted)
      && (restored[k] in GetActiveTasks(restored, Some(userId)).tasks <==> !rows[k].isCompleted)
  {
    var deleted := UpdateWhere(rows, WhereOwned(userId, id), SetDeleted(true), t1);
    assert deleted[k] in deleted;
    var restored := UpdateWhere(deleted, WhereInTrash(userId, id), SetDeleted(false), t2);
    assert restored[k] in restored;
  }
}
