# todo_bot: a verified model of the task store and the dispatcher

The bot keeps short text tasks per Telegram user. Its core has two parts:

- The task store in `database.py`. This is one SQLite table `tasks` with the columns id, user_id, task_text, is_completed and created_at. Five statements act on it: create the table if it is missing, insert a task, list a user's tasks, delete a task and toggle a task. Delete and toggle filter on the pair (id, user_id).
- The dispatcher in `todo.py`:
  - A free-text message becomes a task of its sender.
  - A user's list is rendered as a header, one marker line per task and one row of two inline buttons per task.
  - A button press carries `delete_<id>` or `toggle_<id>`. The dispatcher parses that string and calls the store for the user who pressed it.

The model is split into these files:

- `TaskStore.dfy` models the table in two layers. The first is a value: a `seq<Row>` in insertion order, plus one function per statement (`Deleted`, `Toggled`, `Select`). The second is the class `Store`, whose methods change the table in place. Each method is proved against those functions. The invariant `WellFormed` states that ids and creation stamps strictly increase along the table. The class also keeps the AUTOINCREMENT counter `nextId` and the ghost set `issued` of every id handed out so far. Its invariant `Valid` adds that every stored id and user id fits a SQLite INTEGER (64 bits).
- `Payload.dfy` models the callback string. It covers Python's `str(int)`, `s.split('_')[1]` and `int(s)`, and proves that every payload the bot writes parses back to the same action and id.
- `Render.dfy` models how `list_tasks` builds its reply. The reply is a `Reply` value: an edit-versus-new flag, the text, the keyboard if any, and the HTML flag.
- `Dispatcher.dfy` models `handle_message`, `list_tasks` and `button_callback`. They are methods that take the store as a parameter. Lemmas in this file cover sequences of events: users are isolated from each other, toggling twice undoes itself, deleting twice equals deleting once, and the "Buy milk" scenario plays out as expected.
- `Wrappers.dfy` holds Option, Result and Outcome.

The store's statements can raise, and the model makes each of these a `StorageError` value. As in the code, the error propagates and the handler sends nothing. The three modelled errors are:

- A statement runs before `init_db` has created the table. sqlite raises OperationalError when it prepares the statement.
- An integer parameter lies outside the signed 64-bit range. sqlite3 raises OverflowError when it binds the value. A client can send such an id, for example `delete_9223372036854775808`: `int()` accepts it, and `delete_task` then raises.
- An insert comes after rowid 2^63-1 has been issued. This is SQLITE_FULL.

The model follows the code in these places:

- Any free-text message adds a task, whether or not `/add` came first.
- Task text is stored verbatim, including the empty string.

One place departs from the code. When a button press leaves the presser's list empty, the code raises instead of answering (see Findings). The dispatcher in this model uses the corrected reply `Render.ListReply`: it edits the message to the empty-list text. The code's behaviour is modelled separately as `Render.ListReplyAsWritten`.

## Model

| member | source | states |
|---|---|---|
| `TaskStore.Store.constructor` | database.py:4-8 | a new database file: no table yet, no rows, nothing issued, the id counter at 1 and the insertion counter at 0 |
| `TaskStore.Store.InitDb` | database.py:14-25 | CREATE TABLE IF NOT EXISTS: afterwards the table exists, and the rows, the id counter and the issued ids are exactly as before (repeat calls are harmless) |
| `TaskStore.Store.AddTask` | database.py:27-30 | fails with NoSuchTable without a table, with Overflow for a user id outside 64 bits, and with Full past the largest rowid, changing nothing in each case; otherwise it appends exactly one row with the next id, the given user, the text verbatim, completed false and the next creation stamp; the new id was never issued before and exceeds every id in the table |
| `TaskStore.InsertWellFormed` | database.py:18-22 | an insert keeps ids and creation stamps strictly increasing and below the counters |
| `TaskStore.Prepare` | database.py:27-49 | a statement fails with NoSuchTable exactly when the table is missing; with the table present it fails with Overflow whenever an integer parameter lies outside 64 bits, and passes exactly when every one fits |
| `TaskStore.Store.GetTasks` | database.py:32-36 | returns exactly Select(rows, user) and changes nothing; fails with NoSuchTable without a table, or Overflow for a user id outside 64 bits |
| `TaskStore.Select` | database.py:35 | a listing is no longer than the table, shows every row of the user, and shows only rows of the user |
| `TaskStore.SelectInCreationOrder` | database.py:35 | the rows a listing is built from are strictly ordered by created_at, so ORDER BY created_at is table order; the listing is their (id, text, completed) projection |
| `TaskStore.SelectEmpty` | database.py:32-36 | a listing is empty exactly when the user owns no row |
| `TaskStore.SelectAppend` | database.py:29-35 | after an insert the inserting user's listing gains the new task at its end and every other user's listing is unchanged |
| `TaskStore.Where` | database.py:35-48 | a WHERE filter keeps exactly the rows satisfying the predicate and never grows the table |
| `TaskStore.WhereIncreasing` | database.py:35-48 | a WHERE filter keeps the kept rows in creation order |
| `TaskStore.WhereAbsorb` | database.py:35-48 | filtering by a predicate and then by a stronger one equals filtering by the stronger one |
| `TaskStore.Store.DeleteTask` | database.py:38-41 | fails with NoSuchTable without a table, or with Overflow when id or user id lies outside 64 bits, changing nothing; otherwise the rows become Deleted(old rows, id, user). Both paths leave the rows equal to Deleted(old rows, id, user), since keys that fail to bind match no stored row; the counters never change |
| `TaskStore.UnboundKeysMatchNothing` | database.py:38-49 | when the statement cannot be prepared and bound (no table, or a key outside 64 bits), DELETE and UPDATE would have left the table as it is |
| `TaskStore.Deleted` | database.py:40 | a row survives DELETE exactly when it was present and does not match both id and user_id |
| `TaskStore.DeleteWellFormed` | database.py:40 | DELETE keeps the table invariant |
| `TaskStore.DeleteIdempotent` | database.py:40 | deleting twice leaves the same table as deleting once |
| `TaskStore.DeleteNoMatch` | database.py:40 | DELETE with no matching row leaves the table unchanged |
| `TaskStore.DeleteForeignNoop` | database.py:40 | deleting the id of another user's row is a no-op, because ids are unique |
| `TaskStore.DeleteIsolated` | database.py:40 | a delete by one user never changes another user's listing |
| `TaskStore.Store.ToggleTask` | database.py:43-49 | fails with NoSuchTable without a table, or with Overflow when id or user id lies outside 64 bits, changing nothing; otherwise the rows become Toggled(old rows, id, user). Both paths leave the rows equal to Toggled(old rows, id, user); the counters never change |
| `TaskStore.Toggled` | database.py:45-48 | the same number of rows in the same order; every field except completed is unchanged, and completed flips exactly on the row matching both id and user_id |
| `TaskStore.ToggleWellFormed` | database.py:45-48 | UPDATE keeps the table invariant |
| `TaskStore.ToggleInvolution` | database.py:45-48 | toggling twice restores the table |
| `TaskStore.ToggleNoMatch` | database.py:45-48 | UPDATE with no matching row leaves the table unchanged |
| `TaskStore.ToggleIsolated` | database.py:45-48 | a toggle by one user never changes another user's rows or listing |
| `Payload.NatToDecimal` | todo.py:56-57 | str(n) of a natural number is a non-empty string of decimal digits, with no leading zero unless n is 0 |
| `Payload.IntToString` | todo.py:56-57 | str(i) is non-empty and never contains '_' |
| `Payload.Format` | todo.py:56-57 | a payload is the action's prefix followed by one non-empty field without '_' |
| `Payload.SecondField` | todo.py:73 | s.split('_')[1] is missing exactly when s holds no '_' |
| `Payload.UpToSep` | todo.py:73 | a split field is a '_'-free prefix of what follows the separator |
| `Payload.ParseInt` | todo.py:73 | int() accepts a field exactly when it is one or more decimal digits after an optional sign (so "", "+", "x5" and "5x" are rejected); the value is the digits' decimal value, negated after a '-' |
| `Payload.DecimalRoundTrip` | todo.py:73 | the digits of str(n) denote n |
| `Payload.ParseIntRoundTrip` | todo.py:73 | int(str(i)) == i for every integer |
| `Payload.ParseId` | todo.py:73 | int(data.split('_')[1]) fails with MissingField exactly when data has no '_'; otherwise it succeeds exactly when the second field is an integer literal, and then yields the requested action on int(field) |
| `Payload.ParseCallback` | todo.py:72-78 | a payload asks for nothing exactly when it has neither prefix; a parsed action carries the prefix it was read from; a parse error needs one of the prefixes |
| `Payload.PrefixSelects` | todo.py:72-78 | a payload behind an action's prefix is parsed as that action, and its id field is what follows the prefix up to the next '_' |
| `Payload.PrefixedField` | todo.py:72-78 | behind an action's prefix, a '_'-free id field that is an integer literal gives that action on int(field); any other field, the empty one included, raises ValueError |
| `Payload.NonNumericIdRejected` | todo.py:73 | a non-numeric id field is an error, never an action |
| `Payload.ParseFormat` | todo.py:56-78 | every payload `delete_{id}` / `toggle_{id}` parses back to the same action and the same id |
| `Payload.TrailingFieldsIgnored` | todo.py:73 | text after a second '_' is ignored by split('_')[1] |
| `Payload.FormatInjective` | todo.py:56-57 | different (action, id) pairs get different payloads |
| `Render.ListReply` | todo.py:43-66 | the reply edits in place exactly for callbacks; it has no keyboard, the text is the empty-list message and HTML is off exactly when the list is empty |
| `Render.ListReplyAsWritten` | todo.py:43-66 | the code as written sends nothing exactly when the list is empty and the update is a callback; otherwise it sends what ListReply sends |
| `Render.SplitJoin` | todo.py:49-52 | splitting "\n".join(lines) at line breaks gives the lines back when no line holds a break |
| `Render.ListReplyLines` | todo.py:49-52 | a non-empty list's text is the header followed by one line per task in list order: "✅" if completed, otherwise "❌", then a space and the text verbatim |
| `Render.KeyboardDispatches` | todo.py:54-59 | one keyboard row per task in list order, each a delete button and a toggle button whose payloads parse to that action on that task's id |
| `Render.DeleteLastTaskAsWritten` | todo.py:45-47 | deleting the only task through its button leaves an empty list; the code as written then raises, while ListReply edits the message to the empty-list text |
| `Dispatcher.ListTasks` | todo.py:43-66 | replies with ListReply of the sender's current listing, with the corrected empty-list delivery; fails with the store's error when the table is missing or the sender id lies outside 64 bits |
| `Dispatcher.HandleMessage` | todo.py:36-41 | succeeds exactly when the insert does. On success it appends the sender's row holding the raw text, advances the id counter, the insertion counter and the issued ids by one, and replies with the confirmation followed by the sender's list as a new message. The sender's listing gains the new task at its end, and every other user's listing is unchanged. On failure it returns the insert's error and leaves rows, counters and issued ids as they were |
| `Dispatcher.ButtonCallback` | todo.py:68-81 | a payload that does not parse is an error, with nothing changed and nothing sent. A delete or toggle whose statement fails (no table, or an id outside 64 bits) returns that error and changes nothing. Otherwise delete_ and toggle_ act on (id, presser), any other payload changes nothing, and the presser's list is shown by editing the message. On every path the table becomes AfterPress(old rows, presser, payload), the function the press lemmas below are stated on. The counters never change |
| `Dispatcher.PressIsolated` | todo.py:68-81 | a press by one user never changes another user's listing |
| `Dispatcher.TogglePressTwice` | todo.py:76-78 | pressing a toggle button twice restores the table |
| `Dispatcher.DeletePressTwice` | todo.py:72-74 | pressing a delete button twice equals pressing it once |
| `Dispatcher.ForeignPressNoop` | todo.py:72-78 | pressing delete or toggle with the id of another user's task changes nothing |
| `Dispatcher.OverflowingIdRaises` | todo.py:72-78 | a payload with an id beyond 64 bits parses, and binding that id raises OverflowError |
| `Dispatcher.TwoMessagesInOrder` | database.py:29-35 | two messages from one user are listed in the order they were sent |
| `Dispatcher.SingleTaskReply` | todo.py:49-59 | a one-task list renders as the header, the marker line and one row of buttons |
| `Dispatcher.FirstTaskPayloads` | todo.py:56-57 | task 1's buttons carry "delete_1" and "toggle_1" |
| `Dispatcher.BuyMilkAdded` | todo.py:36-66 | on a fresh table, user 42's message "Buy milk" lists one task, shown as "❌ Buy milk" with the buttons delete_1 and toggle_1 |
| `Dispatcher.BuyMilkToggled` | todo.py:76-78 | pressing toggle_1 marks that row completed |
| `Dispatcher.BuyMilkShownDone` | todo.py:49-66 | the edited list then shows "✅ Buy milk" |
| `Dispatcher.BuyMilkDeleted` | todo.py:72-74 | pressing delete_1 empties the table, and the corrected reply is the empty-list message without buttons, edited in place |
| `Dispatcher.BuyMilkSession` | todo.py:36-81 | from a new database through init_db: "Buy milk" from user 42 is confirmed and listed as "❌ Buy milk" with buttons delete_1 and toggle_1; pressing toggle_1 edits the list to "✅ Buy milk"; pressing delete_1, with the corrected reply, edits it to the empty-list message |

## Left out

- The Telegram transport is not modelled: `Application`, handler registration and routing by update kind, `run_webhook` and `run_polling`, and async/await (todo.py:83-112). The handlers take the sender id, the text or the payload, and whether the update is a callback, as parameters.
- The `query.answer` toasts (todo.py:75, todo.py:79) are not modelled. They are platform calls with no effect on the store or on the list reply.
- The `/start` and `/add` handlers (todo.py:26-34) are not modelled. They send fixed texts and do not touch the store.
- The logging setup (todo.py:17-21) and the commented-out restart loop are not modelled. config.py is not part of this model: it only reads environment variables.
- The connection context manager (database.py:6-12) is not modelled. Each statement is one atomic step on the table.
- Wall-clock time is not modelled. `created_at` is an insertion counter, but CURRENT_TIMESTAMP has one-second resolution. Two tasks added in the same second tie, and SQLite does not fix the order of tied rows.
- HTML is kept as plain text. Task text is inserted unescaped into an HTML message, and how Telegram treats markup in it is outside the model.
- Storage errors that come from the environment are not modelled: an unreadable or unwritable database file, a locked database, a full disk. A statement that meets one raises, and the handler sends nothing, as with the modelled errors.
- Text parameters are not checked against SQLite's maximum string length.
- Telegram's platform limits are not modelled: the 4096-character message limit, and the BadRequest raised when an edit would leave a message unchanged.
- Concurrency between handlers is not modelled. Events are handled one at a time.
- `is_completed` is a bool. SQLite stores it as 0 or 1, and `NOT` flips between the two.
- Payload.ParseInt: rejects surrounding whitespace and non-ASCII decimal digits, which Python's int() accepts. Payloads the bot writes contain neither.
- Render.ListReplyLines: the line-by-line reading of the text is stated only for task texts without line breaks. A text holding "\n" is stored and shown verbatim, but its lines cannot be told apart from the separators.

## Findings

| source | as written | input that shows it | evidently intended | confidence | as-written member | corrected member |
|---|---|---|---|---|---|---|
| todo.py:45-47 | when the list is empty, `list_tasks` always replies through `update.message.reply_text`; an update that carries a callback query has no `message`, so this raises AttributeError and nothing is sent | user 42 owns only task 1 and presses its `delete_1` button: the row is deleted, then the re-render raises, and the old list with the deleted task stays on screen | edit the message that carried the button to the empty-list text without buttons, as the non-empty branch does at todo.py:63-64 | not executed; high (python-telegram-bot sets `Update.message` only for new-message updates) | `Render.ListReplyAsWritten`, exhibited by `Render.DeleteLastTaskAsWritten` | `Render.ListReply` (every reply to a callback edits in place, including the empty list), used by `Dispatcher.ListTasks` and `Dispatcher.ButtonCallback` |
