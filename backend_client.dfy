/**
 * The client backed by the server (app-backend.js): its `HabitTracker` keeps the habits and
 * to-dos the server sent, and edits them once the server has answered a request.
 */
module BackendClient {
  import opened Wrappers
  import opened Seqs
  import opened Text
  import opened Dates

  /** A JavaScript value used as an id: the server sends numbers, the page's `dataset` gives strings. */
  datatype Id = Num(n: int) | Str(s: string)

  datatype Habit = Habit(id: Id, name: string, completedDates: seq<Day>, createdAt: string)

  datatype Todo = Todo(id: Id, text: string, completed: bool, createdAt: string)

  /** `habits.find(h => h.id === id)`, as the position of the first match; `===` never equates a number and a string. */
  function FindHabit(habits: seq<Habit>, id: Id): (r: Option<nat>)
    ensures r.Some? ==> r.value < |habits| && habits[r.value].id == id
    ensures r.Some? ==> forall k | 0 <= k < r.value :: habits[k].id != id
    ensures r.None? <==> forall k | 0 <= k < |habits| :: habits[k].id != id
  {
    if habits == [] then None
    else if habits[0].id == id then Some(0)
    else match FindHabit(habits[1..], id)
      case None => None
      case Some(i) => Some(i + 1)
  }

  /** `todos.find(t => t.id === id)`, as the position of the first match. */
  function FindTodo(todos: seq<Todo>, id: Id): (r: Option<nat>)
    ensures r.Some? ==> r.value < |todos| && todos[r.value].id == id
    ensures r.Some? ==> forall k | 0 <= k < r.value :: todos[k].id != id
    ensures r.None? <==> forall k | 0 <= k < |todos| :: todos[k].id != id
  {
    if todos == [] then None
    else if todos[0].id == id then Some(0)
    else match FindTodo(todos[1..], id)
      case None => None
      case Some(i) => Some(i + 1)
  }

  /** `habits.filter(h => h.id !== id)`. */
  function WithoutHabit(habits: seq<Habit>, id: Id): (r: seq<Habit>)
    ensures |r| <= |habits|
    ensures forall h :: h in r <==> h in habits && h.id != id
    ensures (forall k | 0 <= k < |habits| :: habits[k].id != id) ==> r == habits
  {
    if habits == [] then []
    else if habits[0].id == id then WithoutHabit(habits[1..], id)
    else
      assert habits == [habits[0]] + habits[1..];
      [habits[0]] + WithoutHabit(habits[1..], id)
  }

  /** The habits that are kept stay in their order: filtering distributes over concatenation. */
  lemma {:induction false} WithoutHabitConcat(a: seq<Habit>, b: seq<Habit>, id: Id)
    ensures WithoutHabit(a + b, id) == WithoutHabit(a, id) + WithoutHabit(b, id)
  {
    if a == [] {
      assert a + b == b;
    } else {
      assert (a + b)[1..] == a[1..] + b;
      WithoutHabitConcat(a[1..], b, id);
    }
  }

  /**
   * The date edit `toggleDate` makes once the server has answered: push the date when the
   * server reports it completed, otherwise drop every occurrence of it.
   */
  function ApplyCompletion<T(==)>(dates: seq<T>, date: T, completed: bool): (r: seq<T>)
    ensures completed ==> r == dates + [date] && r[|dates|] == date
    ensures !completed ==> date !in r && multiset(r) == multiset(dates)[date := 0]
    ensures !completed && date !in dates ==> r == dates
  {
    if completed then dates + [date] else RemoveAll(dates, date)
  }

  /** The effect of a successful `toggleDate(habitId, dateStr)` on the list of habits. */
  function CompletionIn(habits: seq<Habit>, habitId: Id, date: Day, completed: bool): (r: seq<Habit>)
    ensures |r| == |habits|
    ensures FindHabit(habits, habitId).None? ==> r == habits
    ensures forall k | 0 <= k < |habits| && Some(k) != FindHabit(habits, habitId) :: r[k] == habits[k]
    ensures FindHabit(habits, habitId).Some? ==> var i := FindHabit(habits, habitId).value;
      r[i] == habits[i].(completedDates := ApplyCompletion(habits[i].completedDates, date, completed))
  {
    match FindHabit(habits, habitId)
    case None => habits
    case Some(i) => habits[i := habits[i].(completedDates := ApplyCompletion(habits[i].completedDates, date, completed))]
  }

  /** The effect of a successful `toggleTodo(id)`: the found to-do's `completed` flipped. */
  function FlipTodo(todos: seq<Todo>, id: Id): (r: seq<Todo>)
    ensures |r| == |todos|
    ensures FindTodo(todos, id).None? ==> r == todos
    ensures forall k | 0 <= k < |todos| && Some(k) != FindTodo(todos, id) :: r[k] == todos[k]
    ensures FindTodo(todos, id).Some? ==> var i := FindTodo(todos, id).value;
      r[i] == todos[i].(completed := !todos[i].completed)
  {
    match FindTodo(todos, id)
    case None => todos
    case Some(i) => todos[i := todos[i].(completed := !todos[i].completed)]
  }

  /** Two successful toggles of the same to-do give the list back. */
  lemma FlipTodoTwice(todos: seq<Todo>, id: Id)
    ensures FlipTodo(FlipTodo(todos, id), id) == todos
  {
    var found := FindTodo(todos, id);
    if found.Some? {
      var once := FlipTodo(todos, id);
      assert FindTodo(once, id) == found by {
        assert forall k | 0 <= k < |todos| :: once[k].id == todos[k].id;
      }
      assert FlipTodo(once, id) == once[found.value := todos[found.value]];
    }
  }

  // ----- ids taken from the page -----

  /** `String(id)`: how `data-habit-id="${habit.id}"` writes an id into the page. */
  function IdText(id: Id): string
  {
    match id
    case Num(n) => IntText(n)
    case Str(s) => s
  }

  /** What `element.dataset.habitId` hands back for a habit's id: always a string. */
  function DatasetId(id: Id): (r: Id)
    ensures r.Str?
  {
    Str(IdText(id))
  }

  /**
   * The page's click handlers pass `dataset.habitId` on as it is. Against habits with the
   * numeric ids the server assigns, the lookup of `toggleDate` finds nothing and the filter
   * of `deleteHabit` keeps every habit, so neither answer from the server reaches the list.
   */
  lemma DatasetIdNeverMatches(habits: seq<Habit>, k: nat, date: Day, completed: bool)
    requires k < |habits|
    requires forall j | 0 <= j < |habits| :: habits[j].id.Num?
    ensures FindHabit(habits, DatasetId(habits[k].id)).None?
    ensures CompletionIn(habits, DatasetId(habits[k].id), date, completed) == habits
    ensures WithoutHabit(habits, DatasetId(habits[k].id)) == habits
  {
  }

  /**
   * `Number(dataset.habitId)`: the numeric id the text reads as, or None for NaN, which is
   * `===` to no id at all.
   */
  function ParseDatasetId(s: string): (r: Option<Id>)
    ensures r.Some? ==> r.value.Num?
  {
    match JsNumber(s)
    case Some(n) => Some(Num(n))
    case None => None
  }

  /** Reading back an id the page wrote gives a non-negative numeric id back unchanged. */
  lemma ParseDatasetIdRoundTrip(n: nat)
    ensures ParseDatasetId(IdText(Num(n))) == Some(Num(n))
  {
    JsNumberOfDec(n);
  }

  /** A text that is not a number, such as the attribute of a string id "abc", reads as NaN. */
  lemma NonNumericTextIsNaN()
    ensures ParseDatasetId("abc") == None
  {
    var letters := "abc";
    assert !IsWhitespace(letters[0]) && !IsWhitespace(letters[2]);
    TrimOfTrimmed(letters);
    assert !IsDigit(letters[0]);
  }

  /** A decimal text reads as NaN too: the conversion admits integers only. */
  lemma DecimalTextIsNaN()
    ensures ParseDatasetId("1.5") == None
  {
    var decimal := "1.5";
    assert !IsWhitespace(decimal[0]) && !IsWhitespace(decimal[2]);
    TrimOfTrimmed(decimal);
    assert !IsDigit(decimal[1]);
  }

  /** With the id read back as a number, the click reaches the habit that was drawn. */
  lemma ParsedIdFindsHabit(habits: seq<Habit>, k: nat)
    requires k < |habits| && habits[k].id.Num? && habits[k].id.n >= 0
    ensures ParseDatasetId(IdText(habits[k].id)).Some?
    ensures var found := FindHabit(habits, ParseDatasetId(IdText(habits[k].id)).value);
      found.Some? && found.value <= k && habits[found.value].id == habits[k].id
  {
    ParseDatasetIdRoundTrip(habits[k].id.n);
  }

  /** The tracker object of app-backend.js. */
  class BackendTracker {
    var habits: seq<Habit>
    var todos: seq<Todo>

    /** The lists as `loadHabits` and `loadTodos` fill them from the server's answers. */
    constructor (habits0: seq<Habit>, todos0: seq<Todo>)
      ensures habits == habits0 && todos == todos0
    {
      habits := habits0;
      todos := todos0;
    }

    /**
     * `toggleDate(habitId, dateStr)` after the request: `ok` is `response.ok`, `completed`
     * the `completed` field of the answer.
     */
    method ToggleDate(habitId: Id, date: Day, ok: bool, completed: bool)
      modifies this
      ensures habits == if ok then CompletionIn(old(habits), habitId, date, completed) else old(habits)
      ensures todos == old(todos)
    {
      if !ok {
        return;
      }
      var found := FindHabit(habits, habitId);
      if found.Some? {
        var i := found.value;
        var dates := habits[i].completedDates;
        if completed {
          dates := dates + [date];
        } else {
          dates := RemoveAll(dates, date);
        }
        habits := habits[i := habits[i].(completedDates := dates)];
      }
    }

    /** `markToday(habitId)`: the toggle request for today's date. */
    method MarkToday(habitId: Id, today: Day, ok: bool, completed: bool)
      modifies this
      ensures habits == if ok then CompletionIn(old(habits), habitId, today, completed) else old(habits)
      ensures todos == old(todos)
    {
      ToggleDate(habitId, today, ok, completed);
    }

    /** `deleteHabit(id)`: `confirmed` is the dialog's answer, `ok` the server's. */
    method DeleteHabit(id: Id, confirmed: bool, ok: bool)
      modifies this
      ensures habits == if confirmed && ok then WithoutHabit(old(habits), id) else old(habits)
      ensures todos == old(todos)
    {
      if confirmed && ok {
        habits := WithoutHabit(habits, id);
      }
    }

    /**
     * `toggleTodo(id)`: no request is sent for an unknown id (`sent` is false); after a
     * successful one the to-do's flag is flipped.
     */
    method ToggleTodo(id: Id, ok: bool) returns (sent: bool)
      modifies this
      ensures sent <==> FindTodo(old(todos), id).Some?
      ensures todos == if sent && ok then FlipTodo(old(todos), id) else old(todos)
      ensures habits == old(habits)
    {
      var found := FindTodo(todos, id);
      if found.None? {
        return false;
      }
      sent := true;
      if ok {
        var i := found.value;
        todos := todos[i := todos[i].(completed := !todos[i].completed)];
      }
    }

    /**
     * A click on a day cell or a weekly check box, as the handler is written: the string
     * `dataset.habitId` goes to `toggleDate` unchanged, so against the server's numeric ids
     * the answer changes nothing in the list.
     */
    method ClickDate(habitIdText: string, date: Day, ok: bool, completed: bool)
      modifies this
      ensures habits == if ok then CompletionIn(old(habits), Str(habitIdText), date, completed) else old(habits)
      ensures (forall j | 0 <= j < |old(habits)| :: old(habits)[j].id.Num?) ==> habits == old(habits)
      ensures todos == old(todos)
    {
      ToggleDate(Str(habitIdText), date, ok, completed);
    }

    /** A click on a habit's "mark today" button, as the handler is written. */
    method ClickMarkToday(habitIdText: string, today: Day, ok: bool, completed: bool)
      modifies this
      ensures habits == if ok then CompletionIn(old(habits), Str(habitIdText), today, completed) else old(habits)
      ensures (forall j | 0 <= j < |old(habits)| :: old(habits)[j].id.Num?) ==> habits == old(habits)
      ensures todos == old(todos)
    {
      MarkToday(Str(habitIdText), today, ok, completed);
    }

    /** A click on a habit's delete button, as the handler is written. */
    method ClickDelete(habitIdText: string, confirmed: bool, ok: bool)
      modifies this
      ensures habits == if confirmed && ok then WithoutHabit(old(habits), Str(habitIdText)) else old(habits)
      ensures (forall j | 0 <= j < |old(habits)| :: old(habits)[j].id.Num?) ==> habits == old(habits)
      ensures todos == old(todos)
    {
      DeleteHabit(Str(habitIdText), confirmed, ok);
    }

    /**
     * The corrected day-cell click: the habit id is read back as a number first. A text that
     * reads as NaN matches no habit, so the list stays as it was.
     */
    method ClickDateParsed(habitIdText: string, date: Day, ok: bool, completed: bool)
      modifies this
      ensures habits == if ok && ParseDatasetId(habitIdText).Some? then CompletionIn(old(habits), ParseDatasetId(habitIdText).value, date, completed) else old(habits)
      ensures todos == old(todos)
    {
      var id := ParseDatasetId(habitIdText);
      if id.Some? {
        ToggleDate(id.value, date, ok, completed);
      }
    }

    /** The corrected "mark today" click. */
    method ClickMarkTodayParsed(habitIdText: string, today: Day, ok: bool, completed: bool)
      modifies this
      ensures habits == if ok && ParseDatasetId(habitIdText).Some? then CompletionIn(old(habits), ParseDatasetId(habitIdText).value, today, completed) else old(habits)
      ensures todos == old(todos)
    {
      var id := ParseDatasetId(habitIdText);
      if id.Some? {
        MarkToday(id.value, today, ok, completed);
      }
    }

    /** The corrected delete click. */
    method ClickDeleteParsed(habitIdText: string, confirmed: bool, ok: bool)
      modifies this
      ensures habits == if confirmed && ok && ParseDatasetId(habitIdText).Some? then WithoutHabit(old(habits), ParseDatasetId(habitIdText).value) else old(habits)
      ensures todos == old(todos)
    {
      var id := ParseDatasetId(habitIdText);
      if id.Some? {
        DeleteHabit(id.value, confirmed, ok);
      }
    }
  }
}
