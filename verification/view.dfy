/** The task page: its state hooks as one record, the add-task guard and
    form reset, the reload that flattens the status split, the two
    re-filtered lists it renders, and the priority colour. Every handler
    is a pure step from a view and a store to a new view and store; the
    bridge's calls become calls into the service model. */
module View {
  import opened Models
  import opened Selection
  import opened Repository
  import opened Service
  import opened DateText

  /** The page's state: the last fetched task list, the form fields and the
      loading flag. */
  datatype ViewState = ViewState(
    tasks: seq<Task>,
    newTask: string,
    selectedDate: Option<CalendarDate>,
    priority: string,
    loading: bool)

  /** The page as first rendered: nothing fetched, an empty form, Low
      priority selected, still loading. */
  const Initial: ViewState := ViewState([], "", None, "0", true)

  /** The values the priority select offers: Low, Medium, High. */
  const PriorityOptions: seq<string> := ["0", "1", "2"]

  /** The view together with the store behind the bridge. */
  datatype Session = Session(view: ViewState, store: Store)

  // ---------------------------------------------------------------------
  // Title guard: JavaScript's String.prototype.trim

  /** The characters `trim` removes: ECMAScript WhiteSpace and
      LineTerminator. */
  predicate IsJsWhitespace(c: char) {
    || c == '\t' || c == '\n' || c == '\U{000B}' || c == '\U{000C}' || c == '\r'
    || c == ' ' || c == '\U{00A0}' || c == '\U{1680}'
    || ('\U{2000}' <= c <= '\U{200A}')
    || c == '\U{2028}' || c == '\U{2029}' || c == '\U{202F}' || c == '\U{205F}'
    || c == '\U{3000}' || c == '\U{FEFF}'
  }

  /** `s` without its leading whitespace. */
  function TrimStart(s: string): (r: string)
    ensures |r| <= |s| && r == s[|s| - |r|..]
    ensures r != [] ==> !IsJsWhitespace(r[0])
    ensures forall i :: 0 <= i < |s| - |r| ==> IsJsWhitespace(s[i])
  {
    if s != [] && IsJsWhitespace(s[0]) then TrimStart(s[1..]) else s
  }

  /** `s` without its trailing whitespace. */
  function TrimEnd(s: string): (r: string)
    ensures |r| <= |s| && r == s[..|r|]
    ensures r != [] ==> !IsJsWhitespace(r[|r| - 1])
    ensures forall i :: |r| <= i < |s| ==> IsJsWhitespace(s[i])
  {
    if s != [] && IsJsWhitespace(s[|s| - 1]) then TrimEnd(s[..|s| - 1]) else s
  }

  function Trim(s: string): string {
    TrimEnd(TrimStart(s))
  }

  /** The add-task guard `!newTask.trim()`. */
  predicate IsBlank(s: string) {
    Trim(s) == []
  }

  /** A title is blank exactly when every character of it is whitespace. */
  lemma BlankIffAllWhitespace(s: string)
    ensures IsBlank(s) <==> forall i :: 0 <= i < |s| ==> IsJsWhitespace(s[i])
  {
    var a := TrimStart(s);
    if !forall i :: 0 <= i < |s| ==> IsJsWhitespace(s[i]) {
      var i :| 0 <= i < |s| && !IsJsWhitespace(s[i]);
      assert a != [];
    }
  }

  // ---------------------------------------------------------------------
  // Priority select and colour

  /** The longest prefix of `s` made of decimal digits. */
  function DigitPrefix(s: string): (r: string)
    ensures |r| <= |s| && r == s[..|r|]
    ensures AllDigits(r)
    ensures |r| < |s| ==> !IsDigit(s[|r|])
  {
    if s != [] && IsDigit(s[0]) then
      var rest := DigitPrefix(s[1..]);
      assert s[..1 + |rest|] == [s[0]] + rest;
      [s[0]] + rest
    else []
  }

  /** `parseInt` in base ten of text whose leading whitespace is already
      skipped: one sign, then the longest run of digits. `None` stands for
      `NaN`, the result when there are no digits. */
  function ParseInt(t: string): (p: Option<int>)
    ensures t != [] && AllDigits(t) ==> p == Some(DigitsValue(t) as int)
    ensures |t| > 1 && t[0] == '-' && AllDigits(t[1..]) ==> p == Some(-(DigitsValue(t[1..]) as int))
  {
    var unsigned := if t != [] && (t[0] == '-' || t[0] == '+') then t[1..] else t;
    var digits := DigitPrefix(unsigned);
    assert AllDigits(unsigned) ==> digits == unsigned[..|unsigned|] == unsigned;
    if digits == [] then None
    else if t != [] && t[0] == '-' then Some(-(DigitsValue(digits) as int))
    else Some(DigitsValue(digits) as int)
  }

  /** `parseInt` in base ten: leading whitespace is skipped first. */
  function JsParseInt(text: string): (p: Option<int>)
    ensures text != [] && AllDigits(text) ==> p == Some(DigitsValue(text) as int)
    ensures |text| > 1 && text[0] == '-' && AllDigits(text[1..]) ==> p == Some(-(DigitsValue(text[1..]) as int))
  {
    assert text != [] && (IsDigit(text[0]) || text[0] == '-') ==> TrimStart(text) == text;
    ParseInt(TrimStart(text))
  }

  /** `parseInt(priority)` of the select's value. A `NaN` result is sent as
      JSON `null`, which Go decodes as the zero priority. */
  function ParsePriority(text: string): (p: int)
    ensures text in PriorityOptions ==> 0 <= p <= 2
    ensures forall i :: 0 <= i < |PriorityOptions| && text == PriorityOptions[i] ==> p == i
    ensures text != [] && AllDigits(text) ==> p == DigitsValue(text)
    ensures |text| > 1 && text[0] == '-' && AllDigits(text[1..]) ==> p == -(DigitsValue(text[1..]) as int)
  {
    OptionValues();
    match JsParseInt(text)
    case None => 0
    case Some(n) => n
  }

  /** The values the select offers are digit strings denoting their
      positions. */
  lemma OptionValues()
    ensures forall i :: 0 <= i < |PriorityOptions| ==>
      PriorityOptions[i] != [] && AllDigits(PriorityOptions[i]) && DigitsValue(PriorityOptions[i]) == i
  {
    assert "1"[..0] == [] && "2"[..0] == [] && "0"[..0] == [];
  }

  /** `getPriorityColor`: High is red, Medium yellow, and every other value,
      in range or not, gray. */
  function PriorityColor(priority: int): (color: string)
    ensures color == "text-red-600" <==> priority == 2
    ensures color == "text-yellow-600" <==> priority == 1
    ensures color == "text-gray-900" <==> priority != 1 && priority != 2
  {
    if priority == 2 then "text-red-600"
    else if priority == 1 then "text-yellow-600"
    else "text-gray-900"
  }

  /** The three offered priorities get three different colours, and any value
      outside them is shown like Low. */
  lemma PriorityColorsDistinguishOptions(p: int, q: int)
    ensures 0 <= p <= 2 && 0 <= q <= 2 && p != q ==> PriorityColor(p) != PriorityColor(q)
    ensures !(0 <= p <= 2) ==> PriorityColor(p) == PriorityColor(0)
  {
  }

  // ---------------------------------------------------------------------
  // Loading and the two rendered lists

  /** `loadTasks`: on success the page keeps `Active ++ Completed`; on failure
      it keeps its last list. Either way it stops loading and leaves the
      form alone. */
  function LoadTasks(v: ViewState, fetched: Result<TaskList>): (r: ViewState)
    ensures !r.loading
    ensures r.newTask == v.newTask && r.selectedDate == v.selectedDate && r.priority == v.priority
    ensures fetched.Err? ==> r.tasks == v.tasks
    ensures fetched.Ok? ==> r.tasks == fetched.value.active + fetched.value.completed
  {
    match fetched
    case Ok(list) => v.(tasks := list.active + list.completed, loading := false)
    case Err(_) => v.(loading := false)
  }

  /** The bridge's `GetTasksByStatus` against a store. */
  function Fetch(s: Store): Result<TaskList>
    requires Valid(s)
  {
    Ok(StatusOf(s))
  }

  function ActiveTasks(v: ViewState): seq<Task> {
    Filter(v.tasks, IsActive)
  }

  function CompletedTasks(v: ViewState): seq<Task> {
    Filter(v.tasks, IsCompleted)
  }

  /** Whatever the page holds, its two rendered lists are disjoint, keep the
      page's order, and together hold every task of the page exactly as
      often as the page does. */
  lemma RenderedListsPartition(v: ViewState)
    ensures forall t :: !(t in ActiveTasks(v) && t in CompletedTasks(v))
    ensures multiset(ActiveTasks(v)) + multiset(CompletedTasks(v)) == multiset(v.tasks)
    ensures SubsequenceOf(ActiveTasks(v), v.tasks) && SubsequenceOf(CompletedTasks(v), v.tasks)
  {
    StatusPartition(v.tasks);
    FilterIsSubsequence(v.tasks, IsActive);
    FilterIsSubsequence(v.tasks, IsCompleted);
  }

  /** Flattening a status split and filtering it again gives back the two
      lists of the split unchanged. */
  lemma RefilterRecoversSplit(tasks: seq<Task>)
    ensures var l := StatusSplit(tasks);
      && Filter(l.active + l.completed, IsActive) == l.active
      && Filter(l.active + l.completed, IsCompleted) == l.completed
  {
    var l := StatusSplit(tasks);
    FilterAppend(l.active, l.completed, IsActive);
    FilterAppend(l.active, l.completed, IsCompleted);
    forall i | 0 <= i < |l.active| ensures Holds(IsActive, l.active[i]) {
      assert l.active[i] in l.active;
    }
    forall i | 0 <= i < |l.completed| ensures Holds(IsCompleted, l.completed[i]) {
      assert l.completed[i] in l.completed;
    }
    FilterKeepsAll(l.active, IsActive);
    FilterDropsAll(l.completed, IsActive);
    FilterKeepsAll(l.completed, IsCompleted);
    FilterDropsAll(l.active, IsCompleted);
  }

  /** After a successful reload the page shows the store: its active list is
      the store's incomplete tasks and its completed list the store's
      completed tasks, each in storage order, and the page holds a
      permutation of the store. */
  lemma ReloadShowsStore(v: ViewState, s: Store)
    requires Valid(s)
    ensures var r := LoadTasks(v, Fetch(s));
      && ActiveTasks(r) == Filter(GetAll(s), IsActive)
      && CompletedTasks(r) == Filter(GetAll(s), IsCompleted)
      && multiset(r.tasks) == multiset(GetAll(s))
  {
    RefilterRecoversSplit(GetAll(s));
    StatusPartition(GetAll(s));
  }

  // ---------------------------------------------------------------------
  // Form setters

  function EditTitle(v: ViewState, text: string): ViewState {
    v.(newTask := text)
  }

  /** The select only ever reports one of the values it offers. */
  function SelectPriority(v: ViewState, value: string): ViewState
    requires value in PriorityOptions
  {
    v.(priority := value)
  }

  function PickDate(v: ViewState, date: Option<CalendarDate>): ViewState {
    v.(selectedDate := date)
  }

  // ---------------------------------------------------------------------
  // Handlers

  /** The due-date text of the request: empty when no date is picked (the
      page sends `null`, which Go decodes as the empty string). */
  function DueDateText(date: Option<CalendarDate>): string {
    match date
    case None => ""
    case Some(d) => FormatRfc3339(d)
  }

  /** The create request the page builds: the raw, untrimmed title, the
      parsed priority and the picked date as an RFC 3339 date-time that
      reads back as that date. */
  function AddTaskInput(v: ViewState): (input: CreateTaskInput)
    ensures input.title == v.newTask
    ensures input.priority == ParsePriority(v.priority)
    ensures v.priority in PriorityOptions ==> 0 <= input.priority <= 2
    ensures v.selectedDate.None? <==> input.dueDate == ""
    ensures v.selectedDate.Some? ==> input.dueDate == FormatRfc3339(v.selectedDate.value)
    ensures v.selectedDate.Some? ==>
      && IsRfc3339DateTime(input.dueDate)
      && ReadRfc3339(input.dueDate) == Some(v.selectedDate.value)
  {
    var input := CreateTaskInput(v.newTask, ParsePriority(v.priority), DueDateText(v.selectedDate));
    if v.selectedDate.Some? then
      Rfc3339IsWellFormed(v.selectedDate.value);
      Rfc3339RoundTrip(v.selectedDate.value);
      input
    else input
  }

  /** The create request as the page's code builds it, with the picked date
      rendered as `yyyy-MM-dd HH:mm:ss`. */
  function AddTaskInputAsWritten(v: ViewState): (input: CreateTaskInput)
    ensures input.title == v.newTask
    ensures input.priority == ParsePriority(v.priority)
    ensures v.selectedDate.None? ==> input.dueDate == ""
    ensures v.selectedDate.Some? ==> input.dueDate == FormatPickerDate(v.selectedDate.value)
    ensures v.selectedDate.Some? ==> |input.dueDate| == 19 && input.dueDate[10] == ' '
    ensures v.selectedDate.Some? ==> !IsRfc3339DateTime(input.dueDate)
  {
    var due := match v.selectedDate
      case None => ""
      case Some(d) => (PickerDateIsNotRfc3339(d); FormatPickerDate(d));
    CreateTaskInput(v.newTask, ParsePriority(v.priority), due)
  }

  /** Submitting a request from the page: nothing happens for a blank title;
      a failed create leaves the page as it was; a successful one resets
      the form and reloads the list. */
  function Submit(v: ViewState, s: Store, input: CreateTaskInput, parse: string -> Option<Time>, now: Time): (r: Session)
    requires Valid(s)
    ensures Valid(r.store)
  {
    if IsBlank(v.newTask) then Session(v, s)
    else
      var created := CreateTask(s, input, parse, now);
      if created.err.Some? then Session(v, created.store)
      else
        var reset := v.(newTask := "", selectedDate := None, priority := "0");
        Session(LoadTasks(reset, Fetch(created.store)), created.store)
  }

  /** Submitting leaves the priority field as it was or resets it to `"0"`. */
  lemma SubmitKeepsPriority(v: ViewState, s: Store, input: CreateTaskInput, parse: string -> Option<Time>, now: Time)
    requires Valid(s)
    ensures var p := Submit(v, s, input, parse, now).view.priority;
      p == v.priority || p == "0"
  {
  }

  /** `handleAddTask`. */
  function HandleAddTask(v: ViewState, s: Store, parse: string -> Option<Time>, now: Time): (r: Session)
    requires Valid(s)
    ensures Valid(r.store)
    ensures IsBlank(v.newTask) ==> r == Session(v, s)
    ensures !IsBlank(v.newTask) ==>
      var created := CreateTask(s, AddTaskInput(v), parse, now);
      && r.store == created.store
      && (created.err.Some? ==> r.view == v)
      && (created.err.None? ==>
            && r.view.newTask == "" && r.view.selectedDate == None && r.view.priority == "0"
            && !r.view.loading
            && r.view.tasks == StatusOf(r.store).active + StatusOf(r.store).completed)
  {
    Submit(v, s, AddTaskInput(v), parse, now)
  }

  /** `handleAddTask` as written, with the picker's date format. */
  function HandleAddTaskAsWritten(v: ViewState, s: Store, parse: string -> Option<Time>, now: Time): (r: Session)
    requires Valid(s)
    ensures Valid(r.store)
    ensures IsBlank(v.newTask) ==> r == Session(v, s)
    ensures v.selectedDate.None? ==> r == HandleAddTask(v, s, parse, now)
  {
    Submit(v, s, AddTaskInputAsWritten(v), parse, now)
  }

  /** The as-written request is refused whenever the parser refuses the
      picker's text: the service reports `InvalidDate` and neither page nor
      store changes. */
  lemma PickerTextRejected(v: ViewState, s: Store, parse: string -> Option<Time>, now: Time)
    requires Valid(s)
    requires v.selectedDate.Some?
    requires var text := FormatPickerDate(v.selectedDate.value);
      parse(text).Some? ==> |text| > 10 && text[10] == 'T'
    ensures CreateTask(s, AddTaskInputAsWritten(v), parse, now) == Outcome(s, Some(InvalidDate))
    ensures HandleAddTaskAsWritten(v, s, parse, now) == Session(v, s)
  {
    var input := AddTaskInputAsWritten(v);
    PickerDateIsNotRfc3339(v.selectedDate.value);
    assert parse(input.dueDate).None?;
  }

  /** With the page's code as written, a task with a picked due date is never
      created: a parser with the `time.RFC3339` layout's demand for a `T`
      after the date rejects the text, the service reports `InvalidDate`,
      and neither page nor store changes. */
  lemma AsWrittenDueDateRejected(v: ViewState, s: Store, parse: string -> Option<Time>, now: Time)
    requires Valid(s)
    requires DemandsDateThenT(parse)
    requires v.selectedDate.Some?
    ensures CreateTask(s, AddTaskInputAsWritten(v), parse, now) == Outcome(s, Some(InvalidDate))
    ensures HandleAddTaskAsWritten(v, s, parse, now) == Session(v, s)
  {
    PickerTextRejected(v, s, parse, now);
  }

  /** With the corrected request, a picked real date is stored: a parser
      that accepts the corrected text lets the create through, the new row
      carries the parsed due date, and the form is reset. */
  lemma CorrectedDueDateStored(v: ViewState, s: Store, parse: string -> Option<Time>, now: Time)
    requires Valid(s) && Fresh(s)
    requires AcceptsRfc3339Text(parse)
    requires !IsBlank(v.newTask)
    requires v.selectedDate.Some? && IsRealDate(v.selectedDate.value)
    ensures var r := HandleAddTask(v, s, parse, now);
      && |r.store.rows| == |s.rows| + 1
      && r.store.rows[|s.rows|].dueDate == parse(FormatRfc3339(v.selectedDate.value))
      && r.store.rows[|s.rows|].dueDate.Some?
      && r.view.selectedDate == None
      && Fresh(r.store)
  {
    var input := AddTaskInput(v);
    assert input.dueDate == FormatRfc3339(v.selectedDate.value);
    CreateTaskSucceeds(s, input, parse, now);
  }

  /** `handleToggleTask`: toggle, then reload; a failed toggle changes
      nothing. */
  function HandleToggleTask(v: ViewState, s: Store, id: nat, now: Time): (r: Session)
    requires Valid(s)
    ensures Valid(r.store)
    ensures id !in Ids(s.rows) ==> r == Session(v, s)
    ensures id in Ids(s.rows) ==>
      && r.store == ToggleComplete(s, id, now).store
      && r.view == LoadTasks(v, Fetch(r.store))
  {
    var toggled := ToggleComplete(s, id, now);
    if toggled.err.Some? then Session(v, s)
    else Session(LoadTasks(v, Fetch(toggled.store)), toggled.store)
  }

  /** `handleDeleteTask`: nothing happens unless the user confirms; then
      delete and reload. */
  function HandleDeleteTask(v: ViewState, s: Store, id: nat, confirmed: bool): (r: Session)
    requires Valid(s)
    ensures Valid(r.store)
    ensures !confirmed ==> r == Session(v, s)
    ensures confirmed ==>
      && r.store == Delete(s, id)
      && r.view == LoadTasks(v, Fetch(r.store))
  {
    if !confirmed then Session(v, s)
    else
      var after := Delete(s, id);
      Session(LoadTasks(v, Fetch(after)), after)
  }

  // ---------------------------------------------------------------------
  // Properties of whole interactions

  /** Appending an incomplete task with a fresh id to a table extends its
      active filter by that task alone. */
  lemma AppendActive(rows: seq<Task>, n: Task)
    requires !n.completed
    requires n.id !in Ids(rows)
    ensures Filter(rows + [n], IsActive) == Filter(rows, IsActive) + [n]
    ensures Filter(Filter(rows + [n], IsActive), IdOtherThan(n.id)) == Filter(rows, IsActive)
  {
    FilterAppend(rows, [n], IsActive);
    var before := Filter(rows, IsActive);
    FilterAppend(before, [n], IdOtherThan(n.id));
    forall i | 0 <= i < |before| ensures Holds(IdOtherThan(n.id), before[i]) {
      assert before[i] in rows;
    }
    FilterKeepsAll(before, IdOtherThan(n.id));
  }

  /** Adding a task with a non-blank title and no due date, while the id
      sequence is ahead of every stored id, always succeeds and shows exactly
      one new task among the active ones: the raw title, the chosen
      priority, no due date, not completed. */
  lemma AddedTaskShowsAsActive(v: ViewState, s: Store, parse: string -> Option<Time>, now: Time)
    requires Valid(s) && Fresh(s)
    requires !IsBlank(v.newTask)
    requires v.selectedDate.None?
    ensures var r := HandleAddTask(v, s, parse, now);
      && |r.store.rows| == |s.rows| + 1
      && Fresh(r.store)
      && var n := r.store.rows[|s.rows|];
        && n in ActiveTasks(r.view)
        && n !in s.rows
        && n.title == v.newTask
        && n.priority == ParsePriority(v.priority)
        && n.dueDate == None
        && !n.completed
        && Filter(ActiveTasks(r.view), IdOtherThan(n.id)) == Filter(GetAll(s), IsActive)
  {
    var r := HandleAddTask(v, s, parse, now);
    var created := CreateTask(s, AddTaskInput(v), parse, now);
    CreateTaskSucceeds(s, AddTaskInput(v), parse, now);
    assert r.store == created.store;
    var n := r.store.rows[|s.rows|];
    assert r.store.rows == s.rows + [n] by {
      assert r.store.rows == r.store.rows[..|s.rows|] + [n];
    }
    RefilterRecoversSplit(GetAll(r.store));
    assert ActiveTasks(r.view) == Filter(r.store.rows, IsActive);
    AppendActive(s.rows, n);
  }

  /** Toggling a stored task moves its new version to the other rendered
      list; no version of it stays in the list it left. */
  lemma ToggleMovesBetweenLists(v: ViewState, s: Store, id: nat, now: Time)
    requires Valid(s)
    requires id in Ids(s.rows)
    ensures var t := Find(s.rows, id).value;
      var r := HandleToggleTask(v, s, id, now);
      var toggled := t.(completed := !t.completed, updatedAt := now);
      && (t.completed ==> toggled in ActiveTasks(r.view) && forall u :: u in CompletedTasks(r.view) ==> u.id != id)
      && (!t.completed ==> toggled in CompletedTasks(r.view) && forall u :: u in ActiveTasks(r.view) ==> u.id != id)
  {
    var t := Find(s.rows, id).value;
    var r := HandleToggleTask(v, s, id, now);
    var after := r.store;
    ReloadShowsStore(v, after);
    var k :| 0 <= k < |s.rows| && s.rows[k] == t;
    assert after.rows[k] == t.(completed := !t.completed, updatedAt := now);
    assert after.rows[k] in after.rows;
    forall u | u in after.rows && u.id == id
      ensures u.completed == !t.completed
    {
      var j :| 0 <= j < |after.rows| && after.rows[j] == u;
      FindUnique(s.rows, s.rows[j]);
    }
  }

  /** After a confirmed delete the page no longer shows the task, and
      toggling it afterwards changes nothing. */
  lemma DeletedTaskDisappears(v: ViewState, s: Store, id: nat, now: Time)
    requires Valid(s)
    ensures var r := HandleDeleteTask(v, s, id, true);
      && (forall u :: u in r.view.tasks ==> u.id != id)
      && HandleToggleTask(r.view, r.store, id, now) == r
  {
    var r := HandleDeleteTask(v, s, id, true);
    StatusPartition(GetAll(r.store));
    forall u | u in r.view.tasks ensures u.id != id {
      assert multiset(r.view.tasks)[u] > 0;
      assert u in GetAll(r.store);
    }
  }

  /** The priority field only ever holds a value the select offers: the
      initial value, every setter and every handler keep it there. */
  lemma PriorityStaysInOptions(v: ViewState, s: Store, parse: string -> Option<Time>,
                               now: Time, id: nat, text: string, value: string,
                               date: Option<CalendarDate>, confirmed: bool)
    requires Valid(s)
    requires v.priority in PriorityOptions
    requires value in PriorityOptions
    ensures Initial.priority in PriorityOptions
    ensures EditTitle(v, text).priority in PriorityOptions
    ensures SelectPriority(v, value).priority in PriorityOptions
    ensures PickDate(v, date).priority in PriorityOptions
    ensures HandleAddTask(v, s, parse, now).view.priority in PriorityOptions
    ensures HandleAddTaskAsWritten(v, s, parse, now).view.priority in PriorityOptions
    ensures HandleToggleTask(v, s, id, now).view.priority in PriorityOptions
    ensures HandleDeleteTask(v, s, id, confirmed).view.priority in PriorityOptions
  {
    assert PriorityOptions[0] == "0";
    SubmitKeepsPriority(v, s, AddTaskInput(v), parse, now);
    SubmitKeepsPriority(v, s, AddTaskInputAsWritten(v), parse, now);
    assert HandleToggleTask(v, s, id, now).view.priority == v.priority;
    assert HandleDeleteTask(v, s, id, confirmed).view.priority == v.priority;
  }
}
