/** The task table as the task controller uses it through the Prisma client:
    rows in store order, `create`, and `updateMany` with a `where` filter and
    a `data` patch, answering with the number of rows it matched. */
module TaskStore {
  import opened Common

  type TaskId = string
  type UserId = string

  /** One row of the task table. `lastUpdated` is unset until a handler
      stamps it. */
  datatype Task = Task(
    id: TaskId,
    userId: UserId,
    title: string,
    description: string,
    isCompleted: bool,
    isDeleted: bool,
    dateCreated: Time,
    lastUpdated: Option<Time>)

  /** The `where` object of an `updateMany`: id and owner always, and
      optionally the current value of a lifecycle flag. */
  datatype Where = Where(id: TaskId, userId: UserId, isDeleted: Option<bool>, isCompleted: Option<bool>)

  predicate Matches(t: Task, w: Where) {
    && t.id == w.id
    && t.userId == w.userId
    && (w.isDeleted.Some? ==> t.isDeleted == w.isDeleted.value)
    && (w.isCompleted.Some? ==> t.isCompleted == w.isCompleted.value)
  }

  /** The `data` object of an `updateMany`; each also stamps `lastUpdated`. */
  datatype Patch =
    | SetText(title: string, description: string)
    | SetDeleted(deleted: bool)
    | SetCompleted(completed: bool)

  function Apply(t: Task, p: Patch, now: Time): (r: Task)
    // Key, owner and creation date are never touched; every patch stamps the time.
    ensures r.id == t.id && r.userId == t.userId && r.dateCreated == t.dateCreated
    ensures r.lastUpdated == Some(now)
    // Each patch writes its own columns and leaves the others alone.
    ensures p.SetText? ==>
      r.title == p.title && r.description == p.description
      && r.isCompleted == t.isCompleted && r.isDeleted == t.isDeleted
    ensures p.SetDeleted? ==>
      r.isDeleted == p.deleted && r.isCompleted == t.isCompleted
      && r.title == t.title && r.description == t.description
    ensures p.SetCompleted? ==>
      r.isCompleted == p.completed && r.isDeleted == t.isDeleted
      && r.title == t.title && r.description == t.description
  {
    match p
    case SetText(title, description) => t.(title := title, description := description, lastUpdated := Some(now))
    case SetDeleted(b) => t.(isDeleted := b, lastUpdated := Some(now))
    case SetCompleted(b) => t.(isCompleted := b, lastUpdated := Some(now))
  }

  /** The table after `updateMany(where, data)`: matching rows patched, the
      others as they were, order kept. */
  function UpdateWhere(rows: seq<Task>, w: Where, p: Patch, now: Time): (r: seq<Task>)
    ensures |r| == |rows|
    ensures forall i :: 0 <= i < |rows| ==> r[i].id == rows[i].id && r[i].userId == rows[i].userId
    ensures forall i :: 0 <= i < |rows| && !Matches(rows[i], w) ==> r[i] == rows[i]
    ensures forall i :: 0 <= i < |rows| && Matches(rows[i], w) ==> r[i] == Apply(rows[i], p, now)
    ensures DistinctIds(rows) ==> DistinctIds(r)
  {
    seq(|rows|, i requires 0 <= i < |rows| => if Matches(rows[i], w) then Apply(rows[i], p, now) else rows[i])
  }

  /** The `count` that `updateMany` reports. */
  function MatchCount(rows: seq<Task>, w: Where): (n: nat)
    ensures n <= |rows|
    ensures n == 0 <==> forall i :: 0 <= i < |rows| ==> !Matches(rows[i], w)
  {
    if rows == [] then 0
    else (if Matches(rows[0], w) then 1 else 0) + MatchCount(rows[1..], w)
  }

  /** Some row matches the filter: `updateMany` would report a non-zero count. */
  predicate AnyMatch(rows: seq<Task>, w: Where) {
    exists i :: 0 <= i < |rows| && Matches(rows[i], w)
  }

  /** A filter that matches nothing leaves the table exactly as it was. */
  lemma NoMatchNoChange(rows: seq<Task>, w: Where, p: Patch, now: Time)
    requires !AnyMatch(rows, w)
    ensures UpdateWhere(rows, w, p, now) == rows
  {
  }

  predicate IdInUse(rows: seq<Task>, id: TaskId) {
    exists i :: 0 <= i < |rows| && rows[i].id == id
  }

  /** The primary key: no two rows share an id. */
  ghost predicate DistinctIds(rows: seq<Task>) {
    forall i, j :: 0 <= i < j < |rows| ==> rows[i].id != rows[j].id
  }

  /** Every `where` names an id, so on a keyed table it matches at most one row. */
  lemma {:induction false} MatchCountAtMostOne(rows: seq<Task>, w: Where)
    requires DistinctIds(rows)
    ensures MatchCount(rows, w) <= 1
  {
    if rows != [] {
      assert DistinctIds(rows[1..]) by {
        forall i, j | 0 <= i < j < |rows[1..]| ensures rows[1..][i].id != rows[1..][j].id {
          assert rows[1..][i] == rows[i + 1] && rows[1..][j] == rows[j + 1];
        }
      }
      MatchCountAtMostOne(rows[1..], w);
      if Matches(rows[0], w) {
        forall i | 0 <= i < |rows[1..]| ensures !Matches(rows[1..][i], w) {
          assert rows[1..][i] == rows[i + 1];
        }
      }
    }
  }

  class TaskTable {
    var rows: seq<Task>

    ghost predicate Valid()
      reads this
    {
      DistinctIds(rows)
    }

    constructor ()
      ensures Valid() && rows == []
    {
      rows := [];
    }

    /** `prisma.task.create`: appends the row; the primary key refuses a
        row whose id is already taken (an exception for the caller). */
    method Create(t: Task) returns (ok: bool)
      requires Valid()
      modifies this
      ensures Valid()
      ensures ok <==> !IdInUse(old(rows), t.id)
      ensures rows == if ok then old(rows) + [t] else old(rows)
    {
      ok := !IdInUse(rows, t.id);
      if ok {
        rows := rows + [t];
      }
    }

    /** `prisma.task.updateMany({ where, data })`. */
    method UpdateMany(w: Where, p: Patch, now: Time) returns (count: nat)
      requires Valid()
      modifies this
      ensures Valid()
      ensures count == MatchCount(old(rows), w)
      ensures rows == UpdateWhere(old(rows), w, p, now)
    {
      count := MatchCount(rows, w);
      rows := UpdateWhere(rows, w, p, now);
    }
  }
}
