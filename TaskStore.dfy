/** The task store: a single SQLite table `tasks` (id, user_id, task_text,
    is_completed, created_at) and the five statements run against it. Each
    statement is one atomic step on the table; the connection that wraps it
    is not modelled. */
module TaskStore {
  import opened Wrappers

  /** The range of a SQLite INTEGER: sqlite3 refuses to bind a Python int
      outside it (OverflowError). */
  const MinInt64: int := -0x8000_0000_0000_0000
  const MaxInt64: int := 0x7FFF_FFFF_FFFF_FFFF

  /** The largest rowid SQLite can hand out; an AUTOINCREMENT insert beyond
      it fails with SQLITE_FULL. */
  const MaxRowId: int := MaxInt64

  /** One row of `tasks`. `createdAt` stands for CURRENT_TIMESTAMP: an
      insertion counter that grows by one per insert. */
  datatype Row = Row(id: nat, userId: int, text: string, completed: bool, createdAt: nat)

  /** One tuple of a get_tasks result: (id, task_text, is_completed). */
  datatype TaskView = TaskView(id: nat, text: string, completed: bool)

  /** Why a statement raises: the table was never created (sqlite's
      OperationalError when the statement is prepared), an integer parameter
      does not fit a SQLite INTEGER (OverflowError when it is bound), or the
      rowid space is exhausted (SQLITE_FULL when the insert runs). */
  datatype StorageError = NoSuchTable | Overflow | Full

  predicate IsInt64(x: int) {
    MinInt64 <= x <= MaxInt64
  }

  /** Preparing a statement and binding its integer parameters, in that
      order: the first error met, or Pass. */
  function Prepare(tableExists: bool, params: seq<int>): (o: Outcome<StorageError>)
    ensures o.Pass? <==> tableExists && forall i :: 0 <= i < |params| ==> IsInt64(params[i])
    ensures o == Fail(NoSuchTable) <==> !tableExists
    ensures tableExists && !(forall i :: 0 <= i < |params| ==> IsInt64(params[i])) ==> o == Fail(Overflow)
  {
    if !tableExists then Fail(NoSuchTable)
    else if forall i :: 0 <= i < |params| ==> IsInt64(params[i]) then Pass
    else Fail(Overflow)
  }

  // ---------------------------------------------------------------------
  // The table as a value: WHERE clauses, and what each statement does to it
  // ---------------------------------------------------------------------

  /** The filter `WHERE id = ? AND user_id = ?` shared by DELETE and UPDATE. */
  predicate Matches(r: Row, id: int, userId: int) {
    r.id == id && r.userId == userId
  }

  function NotTarget(id: int, userId: int): Row -> bool {
    (r: Row) => !Matches(r, id, userId)
  }

  function OwnedBy(userId: int): Row -> bool {
    (r: Row) => r.userId == userId
  }

  /** The rows satisfying a WHERE predicate, in table order. */
  function Where(rows: seq<Row>, p: Row -> bool): (r: seq<Row>)
    ensures |r| <= |rows|
    ensures forall x :: x in r <==> x in rows && p(x)
  {
    if rows == [] then []
    else (if p(rows[0]) then [rows[0]] else []) + Where(rows[1..], p)
  }

  /** Row x was inserted before row y. */
  predicate Before(x: Row, y: Row) {
    x.id < y.id && x.createdAt < y.createdAt
  }

  /** Ids and creation stamps both strictly increase along the table. */
  predicate Increasing(rows: seq<Row>) {
    forall i, j :: 0 <= i < j < |rows| ==> Before(rows[i], rows[j])
  }

  /** The table invariant: ordered rows, every id positive and below the
      next AUTOINCREMENT value, every stamp below the insertion counter. */
  predicate WellFormed(rows: seq<Row>, nextId: nat, clock: nat) {
    1 <= nextId &&
    Increasing(rows) &&
    forall r :: r in rows ==> 1 <= r.id < nextId && r.createdAt < clock
  }

  /** The row INSERT INTO tasks (user_id, task_text) creates: the defaults
      give is_completed = FALSE and created_at = now. */
  function NewRow(id: nat, userId: int, text: string, now: nat): Row {
    Row(id, userId, text, false, now)
  }

  /** DELETE FROM tasks WHERE id = ? AND user_id = ? */
  function Deleted(rows: seq<Row>, id: int, userId: int): (r: seq<Row>)
    ensures forall x :: x in r <==> x in rows && !Matches(x, id, userId)
  {
    Where(rows, NotTarget(id, userId))
  }

  /** One row under SET is_completed = NOT is_completed WHERE id = ? AND user_id = ? */
  function Flip(r: Row, id: int, userId: int): Row {
    if Matches(r, id, userId) then r.(completed := !r.completed) else r
  }

  /** UPDATE tasks SET is_completed = NOT is_completed WHERE id = ? AND user_id = ?
      Only `completed` can change, and only on a row matching both keys. */
  function Toggled(rows: seq<Row>, id: int, userId: int): (r: seq<Row>)
    ensures |r| == |rows|
    ensures forall i :: 0 <= i < |rows| ==>
      r[i].(completed := rows[i].completed) == rows[i] &&
      (r[i].completed <==> (rows[i].completed != Matches(rows[i], id, userId)))
  {
    if rows == [] then []
    else [Flip(rows[0], id, userId)] + Toggled(rows[1..], id, userId)
  }

  /** The rows of one user, in table order. */
  function Owned(rows: seq<Row>, userId: int): seq<Row> {
    Where(rows, OwnedBy(userId))
  }

  function View(r: Row): TaskView {
    TaskView(r.id, r.text, r.completed)
  }

  /** SELECT id, task_text, is_completed FROM tasks WHERE user_id = ? ORDER BY created_at
      (the order is that of the table; see SelectInCreationOrder). */
  function Select(rows: seq<Row>, userId: int): (r: seq<TaskView>)
    ensures |r| <= |rows|
    ensures forall x :: x in rows && x.userId == userId ==> View(x) in r
    ensures forall t :: t in r ==> exists x :: x in rows && x.userId == userId && View(x) == t
  {
    var owned := Owned(rows, userId);
    var r := seq(|owned|, i requires 0 <= i < |owned| => View(owned[i]));
    assert forall x :: x in rows && x.userId == userId ==> View(x) in r by {
      forall x | x in rows && x.userId == userId ensures View(x) in r {
        assert x in owned;
        var i :| 0 <= i < |owned| && owned[i] == x;
        assert r[i] == View(x);
      }
    }
    assert forall t :: t in r ==> exists x :: x in rows && x.userId == userId && View(x) == t by {
      forall t | t in r ensures exists x :: x in rows && x.userId == userId && View(x) == t {
        var i :| 0 <= i < |r| && r[i] == t;
        assert owned[i] in owned;
      }
    }
    r
  }

  // ---------------------------------------------------------------------
  // Lemmas about WHERE
  // ---------------------------------------------------------------------

  lemma {:induction false} WhereAppend(a: seq<Row>, b: seq<Row>, p: Row -> bool)
    ensures Where(a + b, p) == Where(a, p) + Where(b, p)
  {
    if a == [] {
      assert a + b == b;
    } else {
      var head := if p(a[0]) then [a[0]] else [];
      assert (a + b)[0] == a[0] && (a + b)[1..] == a[1..] + b;
      WhereAppend(a[1..], b, p);
      calc {
        Where(a + b, p);
        head + Where(a[1..] + b, p);
        head + (Where(a[1..], p) + Where(b, p));
        (head + Where(a[1..], p)) + Where(b, p);
      }
    }
  }

  /** A filter every row passes keeps the whole table. */
  lemma {:induction false} WhereAll(rows: seq<Row>, p: Row -> bool)
    requires forall x :: x in rows ==> p(x)
    ensures Where(rows, p) == rows
  {
    if rows != [] {
      WhereAll(rows[1..], p);
    }
  }

  /** Filtering by p and then by a stronger q is filtering by q. */
  lemma {:induction false} WhereAbsorb(rows: seq<Row>, p: Row -> bool, q: Row -> bool)
    requires forall x :: x in rows && q(x) ==> p(x)
    ensures Where(Where(rows, p), q) == Where(rows, q)
  {
    if rows != [] {
      WhereAbsorb(rows[1..], p, q);
      var w := Where(rows, p);
      if p(rows[0]) {
        assert w == [rows[0]] + Where(rows[1..], p);
        assert w[0] == rows[0] && w[1..] == Where(rows[1..], p);
      } else {
        assert w == Where(rows[1..], p);
        assert !q(rows[0]);
      }
    }
  }

  lemma IncreasingTail(rows: seq<Row>)
    requires Increasing(rows) && rows != []
    ensures Increasing(rows[1..])
  {
    forall i, j | 0 <= i < j < |rows| - 1 ensures Before(rows[1..][i], rows[1..][j]) {
      assert rows[1..][i] == rows[i + 1] && rows[1..][j] == rows[j + 1];
    }
  }

  lemma IncreasingCons(h: Row, t: seq<Row>)
    requires Increasing(t)
    requires forall x :: x in t ==> Before(h, x)
    ensures Increasing([h] + t)
  {
    var r := [h] + t;
    forall i, j | 0 <= i < j < |r| ensures Before(r[i], r[j]) {
      assert r[j] == t[j - 1];
      if i > 0 {
        assert r[i] == t[i - 1];
      } else {
        assert t[j - 1] in t;
      }
    }
  }

  /** A filter keeps the order of the rows it keeps. */
  lemma {:induction false} WhereIncreasing(rows: seq<Row>, p: Row -> bool)
    requires Increasing(rows)
    ensures Increasing(Where(rows, p))
  {
    if rows != [] {
      IncreasingTail(rows);
      WhereIncreasing(rows[1..], p);
      var tail := Where(rows[1..], p);
      if p(rows[0]) {
        forall x | x in tail ensures Before(rows[0], x) {
          var k :| 0 <= k < |rows[1..]| && rows[1..][k] == x;
          assert rows[k + 1] == x;
        }
        IncreasingCons(rows[0], tail);
      }
    }
  }

  // ---------------------------------------------------------------------
  // Lemmas about the statements
  // ---------------------------------------------------------------------

  /** INSERT keeps the table invariant and bumps both counters. */
  lemma InsertWellFormed(rows: seq<Row>, nextId: nat, clock: nat, userId: int, text: string)
    requires WellFormed(rows, nextId, clock)
    ensures WellFormed(rows + [NewRow(nextId, userId, text, clock)], nextId + 1, clock + 1)
  {
    var r := rows + [NewRow(nextId, userId, text, clock)];
    forall i, j | 0 <= i < j < |r| ensures Before(r[i], r[j]) {
      if j == |rows| {
        assert r[i] in rows;
      }
    }
  }

  /** DELETE keeps the table invariant. */
  lemma DeleteWellFormed(rows: seq<Row>, nextId: nat, clock: nat, id: int, userId: int)
    requires WellFormed(rows, nextId, clock)
    ensures WellFormed(Deleted(rows, id, userId), nextId, clock)
  {
    WhereIncreasing(rows, NotTarget(id, userId));
  }

  /** Deleting twice is deleting once. */
  lemma DeleteIdempotent(rows: seq<Row>, id: int, userId: int)
    ensures Deleted(Deleted(rows, id, userId), id, userId) == Deleted(rows, id, userId)
  {
    WhereAbsorb(rows, NotTarget(id, userId), NotTarget(id, userId));
  }

  /** DELETE with no matching row leaves the table as it was. */
  lemma DeleteNoMatch(rows: seq<Row>, id: int, userId: int)
    requires forall x :: x in rows ==> !Matches(x, id, userId)
    ensures Deleted(rows, id, userId) == rows
  {
    WhereAll(rows, NotTarget(id, userId));
  }

  /** Deleting the id of another user's task is a no-op: ids are unique, so
      no row matches the pair. */
  lemma DeleteForeignNoop(rows: seq<Row>, nextId: nat, clock: nat, k: nat, userId: int)
    requires WellFormed(rows, nextId, clock)
    requires k < |rows| && rows[k].userId != userId
    ensures Deleted(rows, rows[k].id, userId) == rows
  {
    forall x | x in rows ensures !Matches(x, rows[k].id, userId) {
      var i :| 0 <= i < |rows| && rows[i] == x;
      assert i == k || rows[i].id != rows[k].id;
    }
    DeleteNoMatch(rows, rows[k].id, userId);
  }

  /** A delete issued by one user never changes what another user sees. */
  lemma DeleteIsolated(rows: seq<Row>, id: int, actor: int, userId: int)
    requires actor != userId
    ensures Select(Deleted(rows, id, actor), userId) == Select(rows, userId)
  {
    WhereAbsorb(rows, NotTarget(id, actor), OwnedBy(userId));
  }

  /** UPDATE keeps the table invariant. */
  lemma ToggleWellFormed(rows: seq<Row>, nextId: nat, clock: nat, id: int, userId: int)
    requires WellFormed(rows, nextId, clock)
    ensures WellFormed(Toggled(rows, id, userId), nextId, clock)
  {
    var r := Toggled(rows, id, userId);
    forall x | x in r ensures 1 <= x.id < nextId && x.createdAt < clock {
      var i :| 0 <= i < |r| && r[i] == x;
      assert rows[i] in rows;
    }
  }

  /** Toggling twice restores the table. */
  lemma {:induction false} ToggleInvolution(rows: seq<Row>, id: int, userId: int)
    ensures Toggled(Toggled(rows, id, userId), id, userId) == rows
  {
    if rows != [] {
      ToggleInvolution(rows[1..], id, userId);
    }
  }

  /** UPDATE with no matching row leaves the table as it was. */
  lemma {:induction false} ToggleNoMatch(rows: seq<Row>, id: int, userId: int)
    requires forall x :: x in rows ==> !Matches(x, id, userId)
    ensures Toggled(rows, id, userId) == rows
  {
    if rows != [] {
      ToggleNoMatch(rows[1..], id, userId);
    }
  }

  /** A toggle issued by one user never changes what another user sees. */
  lemma {:induction false} ToggleIsolated(rows: seq<Row>, id: int, actor: int, userId: int)
    requires actor != userId
    ensures Owned(Toggled(rows, id, actor), userId) == Owned(rows, userId)
    ensures Select(Toggled(rows, id, actor), userId) == Select(rows, userId)
  {
    if rows != [] {
      ToggleIsolated(rows[1..], id, actor, userId);
      var t := Toggled(rows, id, actor);
      assert t[1..] == Toggled(rows[1..], id, actor);
      assert Owned(t, userId) == (if t[0].userId == userId then [t[0]] else []) + Owned(t[1..], userId);
    }
  }

  /** What an insert does to every user's listing: the inserting user gets the
      new task at the end, everybody else sees no change. */
  lemma SelectAppend(rows: seq<Row>, r: Row, userId: int)
    ensures Select(rows + [r], userId) ==
      Select(rows, userId) + (if r.userId == userId then [View(r)] else [])
  {
    WhereAppend(rows, [r], OwnedBy(userId));
    assert Where([r], OwnedBy(userId)) == (if r.userId == userId then [r] else []) + Where([], OwnedBy(userId));
  }

  /** A user's listing is empty exactly when the user owns no row. */
  lemma SelectEmpty(rows: seq<Row>, userId: int)
    ensures Select(rows, userId) == [] <==> forall x :: x in rows ==> x.userId != userId
  {
    var owned := Owned(rows, userId);
    if owned != [] {
      assert owned[0] in owned;
    }
  }

  /** ORDER BY created_at: the rows a listing is built from are strictly
      ordered by their creation stamps (and by id). */
  lemma SelectInCreationOrder(rows: seq<Row>, nextId: nat, clock: nat, userId: int)
    requires WellFormed(rows, nextId, clock)
    ensures Increasing(Owned(rows, userId))
    ensures |Select(rows, userId)| == |Owned(rows, userId)|
    ensures forall i :: 0 <= i < |Owned(rows, userId)| ==>
      Select(rows, userId)[i] == View(Owned(rows, userId)[i])
  {
    WhereIncreasing(rows, OwnedBy(userId));
  }

  /** Keys that cannot be prepared and bound against a table cannot match a
      row of it either: without the table there are no rows, and every
      stored id and user_id fits 64 bits. So DELETE and UPDATE may as well
      have run. */
  lemma UnboundKeysMatchNothing(rows: seq<Row>, tableExists: bool, id: int, userId: int)
    requires !tableExists ==> rows == []
    requires forall x :: x in rows ==> IsInt64(x.id) && IsInt64(x.userId)
    requires Prepare(tableExists, [id, userId]).Fail?
    ensures Deleted(rows, id, userId) == rows
    ensures Toggled(rows, id, userId) == rows
  {
    if tableExists {
      assert !IsInt64(id) || !IsInt64(userId) by {
        if IsInt64(id) && IsInt64(userId) {
          assert forall i :: 0 <= i < |[id, userId]| ==> IsInt64([id, userId][i]);
        }
      }
    }
    DeleteNoMatch(rows, id, userId);
    ToggleNoMatch(rows, id, userId);
  }

  // ---------------------------------------------------------------------
  // The database file
  // ---------------------------------------------------------------------

  /** The database file tasks.db. `nextId` is the AUTOINCREMENT counter kept
      in sqlite_sequence: one more than the largest id ever issued, deleted
      or not; `issued` records every id handed out so far. */
  class Store {
    var tableExists: bool
    var rows: seq<Row>
    var nextId: nat
    var clock: nat
    ghost var issued: set<nat>

    ghost predicate Valid()
      reads this
    {
      WellFormed(rows, nextId, clock) &&
      (forall x :: x in rows ==> x.id in issued) &&
      (forall i :: i in issued ==> 1 <= i < nextId) &&
      (forall x :: x in rows ==> IsInt64(x.id) && IsInt64(x.userId)) &&
      (!tableExists ==> rows == [] && nextId == 1)
    }

    /** A database file in which the table has not been created yet. */
    constructor ()
      ensures Valid() && !tableExists && rows == [] && issued == {}
      ensures nextId == 1 && clock == 0
    {
      tableExists := false;
      rows := [];
      nextId := 1;
      clock := 0;
      issued := {};
    }

    /** init_db: CREATE TABLE IF NOT EXISTS. Creates an empty table the first
        time and leaves an existing table and its rows alone. */
    method InitDb()
      requires Valid()
      modifies this
      ensures Valid() && tableExists
      ensures rows == old(rows) && nextId == old(nextId) && clock == old(clock) && issued == old(issued)
    {
      tableExists := true;
    }

    /** add_task: insert one row for `userId` holding `text` verbatim. */
    method AddTask(userId: int, text: string) returns (o: Outcome<StorageError>)
      requires Valid()
      modifies this
      ensures Valid() && tableExists == old(tableExists)
      ensures o == (if Prepare(old(tableExists), [userId]).Fail? then Prepare(old(tableExists), [userId])
                    else if old(nextId) > MaxRowId then Fail(Full)
                    else Pass)
      ensures o.Pass? ==>
        rows == old(rows) + [NewRow(old(nextId), userId, text, old(clock))] &&
        nextId == old(nextId) + 1 && clock == old(clock) + 1 &&
        issued == old(issued) + {old(nextId)}
      // the new id was never issued before and exceeds every id in the table
      ensures o.Pass? ==>
        old(nextId) !in old(issued) && forall x :: x in old(rows) ==> x.id < old(nextId)
      ensures o.Fail? ==>
        rows == old(rows) && nextId == old(nextId) && clock == old(clock) && issued == old(issued)
    {
      var prepared := Prepare(tableExists, [userId]);
      if prepared.Fail? {
        return prepared;
      }
      if nextId > MaxRowId {
        return Fail(Full);
      }
      assert IsInt64([userId][0]);
      InsertWellFormed(rows, nextId, clock, userId, text);
      rows := rows + [NewRow(nextId, userId, text, clock)];
      issued := issued + {nextId};
      nextId := nextId + 1;
      clock := clock + 1;
      o := Pass;
    }

    /** get_tasks: the user's (id, text, completed) tuples in creation order. */
    method GetTasks(userId: int) returns (r: Result<seq<TaskView>, StorageError>)
      ensures r == match Prepare(tableExists, [userId])
                   case Pass => Ok(Select(rows, userId))
                   case Fail(e) => Err(e)
    {
      var prepared := Prepare(tableExists, [userId]);
      if prepared.Fail? {
        return Err(prepared.error);
      }
      r := Ok(Select(rows, userId));
    }

    /** delete_task: remove the row matching both id and user_id, if any. */
    method DeleteTask(id: int, userId: int) returns (o: Outcome<StorageError>)
      requires Valid()
      modifies this
      ensures Valid() && tableExists == old(tableExists)
      ensures o == Prepare(old(tableExists), [id, userId])
      ensures rows == if o.Pass? then Deleted(old(rows), id, userId) else old(rows)
      // a statement that fails could not have matched a row anyway
      ensures rows == Deleted(old(rows), id, userId)
      ensures nextId == old(nextId) && clock == old(clock) && issued == old(issued)
    {
      o := Prepare(tableExists, [id, userId]);
      if o.Fail? {
        UnboundKeysMatchNothing(rows, tableExists, id, userId);
        return;
      }
      DeleteWellFormed(rows, nextId, clock, id, userId);
      rows := Deleted(rows, id, userId);
    }

    /** toggle_task: flip is_completed on the row matching both id and user_id, if any. */
    method ToggleTask(id: int, userId: int) returns (o: Outcome<StorageError>)
      requires Valid()
      modifies this
      ensures Valid() && tableExists == old(tableExists)
      ensures o == Prepare(old(tableExists), [id, userId])
      ensures rows == if o.Pass? then Toggled(old(rows), id, userId) else old(rows)
      // a statement that fails could not have matched a row anyway
      ensures rows == Toggled(old(rows), id, userId)
      ensures nextId == old(nextId) && clock == old(clock) && issued == old(issued)
    {
      o := Prepare(tableExists, [id, userId]);
      if o.Fail? {
        UnboundKeysMatchNothing(rows, tableExists, id, userId);
        return;
      }
      ToggleWellFormed(rows, nextId, clock, id, userId);
      var t := Toggled(rows, id, userId);
      forall x | x in t ensures x.id in issued {
        var i :| 0 <= i < |t| && t[i] == x;
        assert rows[i] in rows;
      }
      rows := t;
    }
  }
}
