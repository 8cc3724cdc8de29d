/** How list_tasks turns a user's task list into a reply: the empty-list
    message, or a header and one marker line per task together with one
    row of two inline buttons per task. The Telegram objects are reduced to
    a Reply value; the HTML markup in the text is kept as plain characters. */
module Render {
  import opened Wrappers
  import opened TaskStore
  import opened Payload

  const EmptyText: string := "📭 Список задач пуст!"
  const Header: string := "📋 <b>Ваши задачи:</b>\n"
  const DoneMark: string := "✅"
  const OpenMark: string := "❌"
  const DeleteLabel: string := "\U{1F5D1}\U{FE0F} Удалить"
  const ToggleLabel: string := "✅ Отметить"
  const AddedPrefix: string := "✅ Добавлено: "

  /** An InlineKeyboardButton: its text and its callback_data. */
  datatype Button = Button(text: string, callbackData: string)

  /** A reply either is a new message or edits the message that carried the
      pressed button. */
  datatype Mode = SendNew | EditInPlace

  /** What the bot sends: the text, the inline keyboard if any, and whether
      parse_mode='HTML' is set. */
  datatype Reply = Reply(mode: Mode, text: string, keyboard: Option<seq<seq<Button>>>, html: bool)

  function Marker(completed: bool): string {
    if completed then DoneMark else OpenMark
  }

  /** f"{'✅' if completed else '❌'} {text}" */
  function TaskLine(t: TaskView): string {
    Marker(t.completed) + " " + t.text
  }

  function Lines(tasks: seq<TaskView>): seq<string> {
    seq(|tasks|, i requires 0 <= i < |tasks| => TaskLine(tasks[i]))
  }

  /** sep.join(parts) */
  function Join(sep: string, parts: seq<string>): string {
    if |parts| == 0 then ""
    else if |parts| == 1 then parts[0]
    else parts[0] + sep + Join(sep, parts[1..])
  }

  /** s.split('\n'): the pieces between line breaks; never empty. */
  function SplitLines(s: string): (r: seq<string>)
    ensures |r| >= 1
  {
    if s == [] then [""]
    else
      var rest := SplitLines(s[1..]);
      if s[0] == '\n' then [""] + rest else [[s[0]] + rest[0]] + rest[1..]
  }

  /** The two buttons of one task's row. */
  function ButtonRow(id: nat): seq<Button> {
    [Button(DeleteLabel, Format(Delete, id)), Button(ToggleLabel, Format(Toggle, id))]
  }

  function Keyboard(tasks: seq<TaskView>): seq<seq<Button>> {
    seq(|tasks|, i requires 0 <= i < |tasks| => ButtonRow(tasks[i].id))
  }

  /** Whether update.callback_query is set decides edit versus new message. */
  function ModeFor(viaCallback: bool): Mode {
    if viaCallback then EditInPlace else SendNew
  }

  /** The reply list_tasks gives for `tasks`, with the empty-list message
      delivered the same way as a non-empty list (see ListReplyAsWritten). */
  function ListReply(tasks: seq<TaskView>, viaCallback: bool): (r: Reply)
    ensures r.mode == EditInPlace <==> viaCallback
    ensures tasks == [] <==> r.keyboard.None?
    ensures tasks == [] <==> r.text == EmptyText
    ensures r.html <==> tasks != []
  {
    if tasks == [] then Reply(ModeFor(viaCallback), EmptyText, None, false)
    else
      var r := Reply(ModeFor(viaCallback), Header + Join("\n", Lines(tasks)), Some(Keyboard(tasks)), true);
      assert r.text[0] == Header[0] != EmptyText[0];
      r
  }

  /** list_tasks as written: the empty-list branch answers through
      update.message, which an update carrying a callback query does not
      have, so that branch raises AttributeError and nothing is sent. */
  function ListReplyAsWritten(tasks: seq<TaskView>, viaCallback: bool): (r: Option<Reply>)
    ensures r.None? <==> tasks == [] && viaCallback
    ensures r.Some? ==> r.value == ListReply(tasks, viaCallback)
  {
    if tasks == [] then
      if viaCallback then None else Some(Reply(SendNew, EmptyText, None, false))
    else Some(Reply(ModeFor(viaCallback), Header + Join("\n", Lines(tasks)), Some(Keyboard(tasks)), true))
  }

  // ---------------------------------------------------------------------
  // Lemmas
  // ---------------------------------------------------------------------

  lemma {:induction false} SplitNoBreak(p: string)
    requires '\n' !in p
    ensures SplitLines(p) == [p]
  {
    if p != [] {
      SplitNoBreak(p[1..]);
      assert [p[0]] + p[1..] == p;
    }
  }

  lemma {:induction false} SplitAfterLine(p: string, t: string)
    requires '\n' !in p
    ensures SplitLines(p + "\n" + t) == [p] + SplitLines(t)
  {
    if p == [] {
      assert (p + "\n" + t)[1..] == t;
    } else {
      assert (p + "\n" + t)[1..] == p[1..] + "\n" + t;
      SplitAfterLine(p[1..], t);
      assert [p[0]] + p[1..] == p;
    }
  }

  /** Splitting the joined lines at line breaks gives the lines back, as long
      as no line holds a break of its own. */
  lemma {:induction false} SplitJoin(parts: seq<string>)
    requires |parts| >= 1
    requires forall i :: 0 <= i < |parts| ==> '\n' !in parts[i]
    ensures SplitLines(Join("\n", parts)) == parts
  {
    if |parts| == 1 {
      SplitNoBreak(parts[0]);
    } else {
      SplitJoin(parts[1..]);
      SplitAfterLine(parts[0], Join("\n", parts[1..]));
    }
  }

  /** A non-empty list reads as the header followed by one line per task, in
      list order, each the task's marker, a space and its text verbatim
      (for texts without line breaks, which could not be told apart from
      the breaks between lines). */
  lemma ListReplyLines(tasks: seq<TaskView>, viaCallback: bool)
    requires tasks != []
    requires forall i :: 0 <= i < |tasks| ==> '\n' !in tasks[i].text
    ensures var r := ListReply(tasks, viaCallback);
      |Header| <= |r.text| && r.text[..|Header|] == Header &&
      var lines := SplitLines(r.text[|Header|..]);
      |lines| == |tasks| &&
      forall i :: 0 <= i < |tasks| ==>
        lines[i] == (if tasks[i].completed then "✅" else "❌") + " " + tasks[i].text
  {
    var ls := Lines(tasks);
    forall i | 0 <= i < |ls| ensures '\n' !in ls[i] {
      assert ls[i] == Marker(tasks[i].completed) + " " + tasks[i].text;
    }
    SplitJoin(ls);
    var text := Header + Join("\n", ls);
    assert text[|Header|..] == Join("\n", ls);
  }

  /** The keyboard has one row per task, in list order, and pressing either
      button of a row asks for that action on that row's task. */
  lemma KeyboardDispatches(tasks: seq<TaskView>, viaCallback: bool)
    requires tasks != []
    ensures var r := ListReply(tasks, viaCallback);
      r.keyboard.Some? && |r.keyboard.value| == |tasks| &&
      forall i :: 0 <= i < |tasks| ==>
        var row := r.keyboard.value[i];
        |row| == 2 &&
        row[0].text == DeleteLabel && ParseCallback(row[0].callbackData) == Ok(Act(Delete, tasks[i].id)) &&
        row[1].text == ToggleLabel && ParseCallback(row[1].callbackData) == Ok(Act(Toggle, tasks[i].id))
  {
    var kb: seq<seq<Button>> := Keyboard(tasks);
    forall i | 0 <= i < |tasks|
      ensures ParseCallback(kb[i][0].callbackData) == Ok(Act(Delete, tasks[i].id))
      ensures ParseCallback(kb[i][1].callbackData) == Ok(Act(Toggle, tasks[i].id))
    {
      ParseFormat(Delete, tasks[i].id);
      ParseFormat(Toggle, tasks[i].id);
    }
  }

  /** Deleting the only task through its button: the code as written
      raises instead of showing the empty-list message. */
  lemma DeleteLastTaskAsWritten()
    ensures var rows := [NewRow(1, 42, "Buy milk", 0)];
      Select(Deleted(rows, 1, 42), 42) == [] &&
      ListReplyAsWritten(Select(Deleted(rows, 1, 42), 42), true) == None &&
      ListReply(Select(Deleted(rows, 1, 42), 42), true) == Reply(EditInPlace, EmptyText, None, false)
  {
    var rows := [NewRow(1, 42, "Buy milk", 0)];
    SelectEmpty(Deleted(rows, 1, 42), 42);
  }
}
