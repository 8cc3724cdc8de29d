/** The handlers of the bot: a free-text message adds a task and shows the
    list, /list shows the list, and a button press deletes or toggles a task
    and shows the list again. The store is passed in explicitly; each
    handler is one event, handled to the end before the next. */
module Dispatcher {
  import opened Wrappers
  import opened TaskStore
  import opened Payload
  import opened Render

  /** The exception a handler lets propagate: a storage error, or a payload
      that does not parse. Nothing is sent in either case. */
  datatype HandlerError = StorageFailed(storage: StorageError) | BadPayload(payload: PayloadError)

  /** The "added" confirmation handle_message sends before the list. */
  function Confirmation(text: string): Reply {
    Reply(SendNew, AddedPrefix + text, None, false)
  }

  /** What a parsed button press does to the table on behalf of `sender`. */
  function Perform(rows: seq<Row>, sender: int, c: Command): seq<Row> {
    match c
    case Act(Delete, id) => Deleted(rows, id, sender)
    case Act(Toggle, id) => Toggled(rows, id, sender)
    case NoAction => rows
  }

  /** The table after `sender` pressed a button carrying `data` (a payload
      that does not parse changes nothing). */
  function AfterPress(rows: seq<Row>, sender: int, data: string): seq<Row> {
    match ParseCallback(data)
    case Err(_) => rows
    case Ok(c) => Perform(rows, sender, c)
  }

  /** What list_tasks answers `sender`, given the state of the store. */
  function ListResult(tableExists: bool, rows: seq<Row>, sender: int, viaCallback: bool): Result<Reply, HandlerError> {
    match Prepare(tableExists, [sender])
    case Fail(e) => Err(StorageFailed(e))
    case Pass => Ok(ListReply(Select(rows, sender), viaCallback))
  }

  /** Preparing and binding the statement a parsed press runs: delete and
      toggle bind (id, sender); a press that asks for nothing runs none. */
  function PressCheck(tableExists: bool, sender: int, c: Command): Outcome<StorageError> {
    match c
    case Act(_, id) => Prepare(tableExists, [id, sender])
    case NoAction => Pass
  }

  /** list_tasks: render the sender's list. */
  method ListTasks(store: Store, sender: int, viaCallback: bool) returns (r: Result<Reply, HandlerError>)
    ensures r == ListResult(store.tableExists, store.rows, sender, viaCallback)
  {
    var tasks := store.GetTasks(sender);
    match tasks
    case Err(e) =>
      r := Err(StorageFailed(e));
    case Ok(ts) =>
      r := Ok(ListReply(ts, viaCallback));
  }

  /** handle_message: every free-text message becomes a task of its sender,
      then the confirmation and the sender's list are sent as new messages. */
  method HandleMessage(store: Store, sender: int, text: string) returns (r: Result<seq<Reply>, HandlerError>)
    requires store.Valid()
    modifies store
    ensures store.Valid() && store.tableExists == old(store.tableExists)
    ensures r.Ok? <==> Prepare(old(store.tableExists), [sender]).Pass? && old(store.nextId) <= MaxRowId
    ensures r.Ok? ==>
      store.rows == old(store.rows) + [NewRow(old(store.nextId), sender, text, old(store.clock))] &&
      store.nextId == old(store.nextId) + 1 && store.clock == old(store.clock) + 1 &&
      store.issued == old(store.issued) + {old(store.nextId)} &&
      r.value == [Confirmation(text), ListReply(Select(store.rows, sender), false)]
    // the sender's list gains the new task at its end; nobody else's changes
    ensures r.Ok? ==> forall u :: Select(store.rows, u) == Select(old(store.rows), u) +
                                   (if u == sender then [TaskView(old(store.nextId), text, false)] else [])
    ensures r.Err? ==>
      r.error == StorageFailed(if Prepare(old(store.tableExists), [sender]).Fail?
                               then Prepare(old(store.tableExists), [sender]).error else Full) &&
      store.rows == old(store.rows) && store.nextId == old(store.nextId) &&
      store.clock == old(store.clock) && store.issued == old(store.issued)
  {
    var o := store.AddTask(sender, text);
    if o.Fail? {
      return Err(StorageFailed(o.error));
    }
    forall u ensures Select(store.rows, u) ==
      Select(old(store.rows), u) + (if u == sender then [TaskView(old(store.nextId), text, false)] else [])
    {
      SelectAppend(old(store.rows), NewRow(old(store.nextId), sender, text, old(store.clock)), u);
    }
    var list := ListTasks(store, sender, false);
    match list
    case Err(e) =>
      r := Err(e);
    case Ok(reply) =>
      r := Ok([Confirmation(text), reply]);
  }

  /** button_callback: act on a `delete_<id>` or `toggle_<id>` press for the
      user who pressed it, then edit the message to show that user's list.
      A payload that does not parse, or a statement that raises, sends
      nothing. */
  method ButtonCallback(store: Store, sender: int, data: string) returns (r: Result<Reply, HandlerError>)
    requires store.Valid()
    modifies store
    ensures store.Valid() && store.tableExists == old(store.tableExists)
    ensures store.nextId == old(store.nextId) && store.clock == old(store.clock) && store.issued == old(store.issued)
    ensures match ParseCallback(data)
            case Err(e) => r == Err(BadPayload(e)) && store.rows == old(store.rows)
            case Ok(c) =>
              if PressCheck(old(store.tableExists), sender, c).Fail? then
                r == Err(StorageFailed(PressCheck(old(store.tableExists), sender, c).error)) &&
                store.rows == old(store.rows)
              else
                store.rows == Perform(old(store.rows), sender, c) &&
                r == ListResult(store.tableExists, store.rows, sender, true)
    // whatever the outcome, the table is what the press asks for
    ensures store.rows == AfterPress(old(store.rows), sender, data)
  {
    var command := ParseCallback(data);
    if command.Err? {
      return Err(BadPayload(command.error));
    }
    var o: Outcome<StorageError> := Pass;
    match command.value {
      case Act(Delete, id) =>
        o := store.DeleteTask(id, sender);
      case Act(Toggle, id) =>
        o := store.ToggleTask(id, sender);
      case NoAction =>
    }
    if o.Fail? {
      return Err(StorageFailed(o.error));
    }
    r := ListTasks(store, sender, true);
  }

  /** A fresh database, init_db, then user 42 writes "Buy milk", presses the
      task's toggle button and then its delete button. */
  method BuyMilkSession() returns (added: Result<seq<Reply>, HandlerError>,
                                   toggled: Result<Reply, HandlerError>,
                                   deleted: Result<Reply, HandlerError>)
    ensures added == Ok([Confirmation("Buy milk"),
                         Reply(SendNew, Header + "❌ Buy milk", Some([ButtonRow(1)]), true)])
    ensures toggled == Ok(Reply(EditInPlace, Header + "✅ Buy milk", Some([ButtonRow(1)]), true))
    ensures deleted == Ok(Reply(EditInPlace, EmptyText, None, false))
  {
    var store := new Store();
    store.InitDb();
    var milk := NewRow(1, 42, "Buy milk", 0);
    var done := Row(1, 42, "Buy milk", true, 0);
    assert Prepare(true, [42]) == Pass by {
      assert [42][0] == 42;
    }
    assert Prepare(true, [1, 42]) == Pass by {
      assert [1, 42][0] == 1 && [1, 42][1] == 42;
    }
    added := HandleMessage(store, 42, "Buy milk");
    assert store.rows == [milk];
    BuyMilkAdded();
    FirstTaskPayloads();

    ParseFormat(Toggle, 1);
    assert PressCheck(true, 42, Act(Toggle, 1)) == Pass;
    toggled := ButtonCallback(store, 42, Format(Toggle, 1));
    assert store.rows == Toggled([milk], 1, 42);
    BuyMilkToggled();
    assert AfterPress([milk], 42, Format(Toggle, 1)) == Toggled([milk], 1, 42);
    assert store.rows == [done];
    BuyMilkShownDone();

    ParseFormat(Delete, 1);
    assert PressCheck(true, 42, Act(Delete, 1)) == Pass;
    deleted := ButtonCallback(store, 42, Format(Delete, 1));
    assert store.rows == Deleted([done], 1, 42);
    BuyMilkDeleted();
    assert AfterPress([done], 42, Format(Delete, 1)) == Deleted([done], 1, 42);
    assert store.rows == [];
  }

  // ---------------------------------------------------------------------
  // Lemmas about sequences of events
  // ---------------------------------------------------------------------

  /** A press by one user never changes what another user sees. */
  lemma PressIsolated(rows: seq<Row>, sender: int, data: string, userId: int)
    requires sender != userId
    ensures Select(AfterPress(rows, sender, data), userId) == Select(rows, userId)
  {
    match ParseCallback(data)
    case Err(_) =>
    case Ok(c) =>
      match c
      case Act(Delete, id) => DeleteIsolated(rows, id, sender, userId);
      case Act(Toggle, id) => ToggleIsolated(rows, id, sender, userId);
      case NoAction =>
  }

  /** Pressing a task's toggle button twice leaves the table as it was. */
  lemma TogglePressTwice(rows: seq<Row>, sender: int, id: int)
    ensures AfterPress(AfterPress(rows, sender, Format(Toggle, id)), sender, Format(Toggle, id)) == rows
  {
    ParseFormat(Toggle, id);
    ToggleInvolution(rows, id, sender);
  }

  /** Pressing a task's delete button twice is pressing it once. */
  lemma DeletePressTwice(rows: seq<Row>, sender: int, id: int)
    ensures AfterPress(AfterPress(rows, sender, Format(Delete, id)), sender, Format(Delete, id)) ==
      AfterPress(rows, sender, Format(Delete, id))
  {
    ParseFormat(Delete, id);
    DeleteIdempotent(rows, id, sender);
  }

  /** A press on another user's task, with the id of that task, is a no-op. */
  lemma ForeignPressNoop(rows: seq<Row>, nextId: nat, clock: nat, k: nat, sender: int, a: Action)
    requires WellFormed(rows, nextId, clock)
    requires k < |rows| && rows[k].userId != sender
    ensures AfterPress(rows, sender, Format(a, rows[k].id)) == rows
  {
    ParseFormat(a, rows[k].id);
    if a == Delete {
      DeleteForeignNoop(rows, nextId, clock, k, sender);
    } else {
      forall x | x in rows ensures !Matches(x, rows[k].id, sender) {
        var i :| 0 <= i < |rows| && rows[i] == x;
        assert i == k || rows[i].id != rows[k].id;
      }
      ToggleNoMatch(rows, rows[k].id, sender);
    }
  }

  /** A payload the bot never writes but a client can send: an id beyond
      the 64-bit range parses, and binding it raises OverflowError. */
  lemma OverflowingIdRaises(a: Action, id: int, sender: int)
    requires id > MaxInt64
    ensures ParseCallback(Format(a, id)) == Ok(Act(a, id))
    ensures PressCheck(true, sender, Act(a, id)) == Fail(Overflow)
  {
    ParseFormat(a, id);
    assert !IsInt64([id, sender][0]);
  }

  /** Two messages from the same user are listed in the order they were sent. */
  lemma TwoMessagesInOrder(rows: seq<Row>, nextId: nat, clock: nat, sender: int, t1: string, t2: string)
    ensures Select(rows + [NewRow(nextId, sender, t1, clock)] + [NewRow(nextId + 1, sender, t2, clock + 1)], sender) ==
      Select(rows, sender) + [TaskView(nextId, t1, false), TaskView(nextId + 1, t2, false)]
  {
    SelectAppend(rows, NewRow(nextId, sender, t1, clock), sender);
    SelectAppend(rows + [NewRow(nextId, sender, t1, clock)], NewRow(nextId + 1, sender, t2, clock + 1), sender);
  }

  /** The reply for a list of one task. */
  lemma SingleTaskReply(t: TaskView, viaCallback: bool)
    ensures ListReply([t], viaCallback) ==
      Reply(ModeFor(viaCallback), Header + Marker(t.completed) + " " + t.text, Some([ButtonRow(t.id)]), true)
  {
    assert Lines([t]) == [TaskLine(t)];
    assert Keyboard([t]) == [ButtonRow(t.id)];
  }

  /** The buttons of task 1 carry "delete_1" and "toggle_1" (the scenario
      below presses them as Format(Toggle, 1) and Format(Delete, 1)). */
  lemma FirstTaskPayloads()
    ensures Format(Delete, 1) == "delete_1" && Format(Toggle, 1) == "toggle_1"
  {
    assert IntToString(1) == "1";
  }

  /** On a fresh table user 42 writes "Buy milk": one row, shown as
      "❌ Buy milk" with the buttons delete_1 and toggle_1. */
  lemma BuyMilkAdded()
    ensures Select([NewRow(1, 42, "Buy milk", 0)], 42) == [TaskView(1, "Buy milk", false)]
    ensures ListReply(Select([NewRow(1, 42, "Buy milk", 0)], 42), false) ==
      Reply(SendNew, Header + "❌ Buy milk", Some([[Button(DeleteLabel, "delete_1"), Button(ToggleLabel, "toggle_1")]]), true)
  {
    SelectAppend([], NewRow(1, 42, "Buy milk", 0), 42);
    assert [] + [NewRow(1, 42, "Buy milk", 0)] == [NewRow(1, 42, "Buy milk", 0)];
    assert Select([], 42) == [];
    SingleTaskReply(TaskView(1, "Buy milk", false), false);
    assert Header + Marker(false) + " " + "Buy milk" == Header + "❌ Buy milk";
    FirstTaskPayloads();
    assert ButtonRow(1) == [Button(DeleteLabel, "delete_1"), Button(ToggleLabel, "toggle_1")];
  }

  /** User 42 then presses toggle_1: the row is marked completed ... */
  lemma BuyMilkToggled()
    ensures AfterPress([NewRow(1, 42, "Buy milk", 0)], 42, Format(Toggle, 1)) == [Row(1, 42, "Buy milk", true, 0)]
  {
    var added := [NewRow(1, 42, "Buy milk", 0)];
    ParseFormat(Toggle, 1);
    assert AfterPress(added, 42, Format(Toggle, 1)) == Toggled(added, 1, 42);
    assert Toggled(added, 1, 42) == [Flip(added[0], 1, 42)] + Toggled([], 1, 42);
  }

  /** ... and the list, edited in place, shows "✅ Buy milk". */
  lemma BuyMilkShownDone()
    ensures ListReply(Select([Row(1, 42, "Buy milk", true, 0)], 42), true) ==
      Reply(EditInPlace, Header + "✅ Buy milk", Some([[Button(DeleteLabel, "delete_1"), Button(ToggleLabel, "toggle_1")]]), true)
  {
    var row := Row(1, 42, "Buy milk", true, 0);
    SelectAppend([], row, 42);
    assert [] + [row] == [row];
    assert Select([], 42) == [];
    SingleTaskReply(TaskView(1, "Buy milk", true), true);
    assert Select([row], 42) == [TaskView(1, "Buy milk", true)];
    assert Header + Marker(true) + " " + "Buy milk" == Header + "✅ Buy milk";
    FirstTaskPayloads();
    assert ButtonRow(1) == [Button(DeleteLabel, "delete_1"), Button(ToggleLabel, "toggle_1")];
  }

  /** User 42 then presses delete_1: the table is empty and the message is
      edited to the empty-list text without buttons. */
  lemma BuyMilkDeleted()
    ensures AfterPress([Row(1, 42, "Buy milk", true, 0)], 42, Format(Delete, 1)) == []
    ensures ListReply(Select([], 42), true) == Reply(EditInPlace, EmptyText, None, false)
  {
    var toggled := [Row(1, 42, "Buy milk", true, 0)];
    ParseFormat(Delete, 1);
    assert AfterPress(toggled, 42, Format(Delete, 1)) == Deleted(toggled, 1, 42);
    assert Deleted(toggled, 1, 42) == [] + Where([], NotTarget(1, 42));
    SelectEmpty([], 42);
  }
}
