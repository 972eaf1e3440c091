/** The task table behind the web routes: the stored task record, its JSON
    form, the filtered and ordered listing, and the class that adds, marks,
    toggles, deletes and clears tasks in place. */
module TaskStore {
  import opened Wrappers
  import opened Text
  import TaskParsing

  // ---------------------------------------------------------------------------
  // The stored task and its JSON form
  // ---------------------------------------------------------------------------

  /** One row of the table. Priority 1 is low, 2 medium, 3 high; `due` and
      `created` are points in time (microseconds). */
  datatype Task = Task(
    id: string,
    name: string,
    done: bool,
    priority: int,
    category: string,
    due: Option<int>,
    created: int)

  /** The JSON values a task is rendered with; `JTime` stands for the ISO 8601
      text of the time it holds. */
  datatype Json = JString(str: string) | JBool(flag: bool) | JInt(num: int) | JTime(time: int) | JNull

  /** The keys of a rendered task. */
  const TaskKeys: set<string> := {"id", "name", "done", "priority", "category", "due_date", "created_at"}

  /** `Task.to_dict`: every field under its key, a missing due date as null. */
  function ToDict(t: Task): (d: map<string, Json>)
    ensures d.Keys == TaskKeys
    ensures d["due_date"] == JNull <==> t.due.None?
  {
    map["id" := JString(t.id), "name" := JString(t.name), "done" := JBool(t.done),
        "priority" := JInt(t.priority), "category" := JString(t.category),
        "due_date" := (match t.due case Some(d) => JTime(d) case None => JNull),
        "created_at" := JTime(t.created)]
  }

  /** Reading a task back from its JSON form, when every field has its type. */
  function FromDict(d: map<string, Json>): Option<Task> {
    if TaskKeys <= d.Keys
       && d["id"].JString? && d["name"].JString? && d["done"].JBool?
       && d["priority"].JInt? && d["category"].JString? && d["created_at"].JTime?
       && (d["due_date"].JTime? || d["due_date"].JNull?)
    then Some(Task(d["id"].str, d["name"].str, d["done"].flag, d["priority"].num, d["category"].str,
                   if d["due_date"].JTime? then Some(d["due_date"].time) else None,
                   d["created_at"].time))
    else None
  }

  /** The JSON form loses nothing. */
  lemma DictRoundTrip(t: Task)
    ensures FromDict(ToDict(t)) == Some(t)
  {
    var d := ToDict(t);
    assert d["id"] == JString(t.id) && d["name"] == JString(t.name) && d["done"] == JBool(t.done);
    assert d["priority"] == JInt(t.priority) && d["category"] == JString(t.category);
    assert d["created_at"] == JTime(t.created);
  }

  // ---------------------------------------------------------------------------
  // Looking tasks up
  // ---------------------------------------------------------------------------

  /** SQL `ilike` without wildcards: equal up to ASCII case. */
  predicate NameLike(a: string, b: string) {
    Lower(a) == Lower(b)
  }

  /** The case-insensitive name lookup: the first task in table order whose
      name is `name` up to case. */
  function FindByName(s: seq<Task>, name: string): (r: Option<nat>)
    ensures r.Some? ==> r.value < |s| && NameLike(s[r.value].name, name)
    ensures r.Some? ==> forall j :: 0 <= j < r.value ==> !NameLike(s[j].name, name)
    ensures r.None? ==> forall j :: 0 <= j < |s| ==> !NameLike(s[j].name, name)
  {
    if s == [] then None
    else if NameLike(s[0].name, name) then Some(0)
    else match FindByName(s[1..], name)
      case None => None
      case Some(i) => Some(i + 1)
  }

  /** The primary-key lookup: the task whose id is `id`. */
  function FindById(s: seq<Task>, id: string): (r: Option<nat>)
    ensures r.Some? ==> r.value < |s| && s[r.value].id == id
    ensures r.None? ==> forall j :: 0 <= j < |s| ==> s[j].id != id
  {
    if s == [] then None
    else if s[0].id == id then Some(0)
    else match FindById(s[1..], id)
      case None => None
      case Some(i) => Some(i + 1)
  }

  /** The table's own guarantees: ids are a primary key, and since every task
      came in through the duplicate check, no two names are equal up to case. */
  predicate WellFormed(s: seq<Task>) {
    forall i, j :: 0 <= i < j < |s| ==> s[i].id != s[j].id && !NameLike(s[i].name, s[j].name)
  }

  /** In a well-formed table the name lookup's "first" match is the only one. */
  lemma NameMatchUnique(s: seq<Task>, name: string, i: nat)
    requires WellFormed(s) && i < |s| && NameLike(s[i].name, name)
    ensures FindByName(s, name) == Some(i)
  {
    var k := FindByName(s, name).value;
    assert NameLike(s[k].name, s[i].name) && NameLike(s[i].name, s[k].name);
  }

  /** Likewise the id lookup. */
  lemma IdMatchUnique(s: seq<Task>, id: string, i: nat)
    requires WellFormed(s) && i < |s| && s[i].id == id
    ensures FindById(s, id) == Some(i)
  {
    var k := FindById(s, id).value;
    assert s[k].id == s[i].id;
  }

  // ---------------------------------------------------------------------------
  // The listing: done filter and ordering
  // ---------------------------------------------------------------------------

  /** The `done` query parameter: "true" and "false" filter, anything else
      (or nothing) keeps every task. */
  function DoneFilter(param: Option<string>): (f: Option<bool>)
    ensures f == Some(true) <==> param == Some("true")
    ensures f == Some(false) <==> param == Some("false")
  {
    if param == Some("true") then Some(true)
    else if param == Some("false") then Some(false)
    else None
  }

  predicate Passes(f: Option<bool>, t: Task) {
    f.None? || t.done == f.value
  }

  /** The tasks that pass the filter, in table order. */
  function Select(s: seq<Task>, f: Option<bool>): (r: seq<Task>)
    ensures forall t :: multiset(r)[t] == if Passes(f, t) then multiset(s)[t] else 0
    ensures forall t :: t in r ==> t in s
    ensures |r| <= |s|
  {
    if s == [] then []
    else
      var rest := Select(s[1..], f);
      assert s == [s[0]] + s[1..];
      if Passes(f, s[0]) then [s[0]] + rest else rest
  }

  /** `order_by` keys: priority descending, due date ascending (SQLite puts a
      missing date first), category ascending, creation time ascending. */
  datatype SortKey = ByPriority | ByDue | ByCategory | ByCreated

  /** The `sort` query parameter; anything unrecognised orders by creation. */
  function SortKeyOf(param: string): (k: SortKey)
    ensures k == ByCreated <==> param !in {"priority", "due", "category"}
  {
    if param == "priority" then ByPriority
    else if param == "due" then ByDue
    else if param == "category" then ByCategory
    else ByCreated
  }

  /** Text order by character code, a prefix first (SQLite's binary collation). */
  predicate LexLe(a: string, b: string) {
    a == [] || (b != [] && (a[0] < b[0] || (a[0] == b[0] && LexLe(a[1..], b[1..]))))
  }

  lemma {:induction false} LexTotal(a: string, b: string)
    ensures LexLe(a, b) || LexLe(b, a)
  {
    if a != [] && b != [] && a[0] == b[0] {
      LexTotal(a[1..], b[1..]);
    }
  }

  lemma {:induction false} LexTrans(a: string, b: string, c: string)
    requires LexLe(a, b) && LexLe(b, c)
    ensures LexLe(a, c)
  {
    if a != [] && a[0] == b[0] && b[0] == c[0] {
      LexTrans(a[1..], b[1..], c[1..]);
    }
  }

  /** A missing due date sorts before every date. */
  predicate DueLe(a: Option<int>, b: Option<int>) {
    a.None? || (b.Some? && a.value <= b.value)
  }

  /** `a` may come before `b` under the key. */
  predicate InOrder(key: SortKey, a: Task, b: Task) {
    match key
    case ByPriority => a.priority >= b.priority
    case ByDue => DueLe(a.due, b.due)
    case ByCategory => LexLe(a.category, b.category)
    case ByCreated => a.created <= b.created
  }

  lemma OrderTotal(key: SortKey, a: Task, b: Task)
    ensures InOrder(key, a, b) || InOrder(key, b, a)
  {
    if key == ByCategory {
      LexTotal(a.category, b.category);
    }
  }

  lemma OrderTrans(key: SortKey, a: Task, b: Task, c: Task)
    requires InOrder(key, a, b) && InOrder(key, b, c)
    ensures InOrder(key, a, c)
  {
    if key == ByCategory {
      LexTrans(a.category, b.category, c.category);
    }
  }

  predicate Sorted(key: SortKey, s: seq<Task>) {
    forall i, j :: 0 <= i < j < |s| ==> InOrder(key, s[i], s[j])
  }

  /** `t` put into its place in a sorted sequence, after the tasks it does not
      precede. */
  function Insert(key: SortKey, t: Task, s: seq<Task>): (r: seq<Task>)
    requires Sorted(key, s)
    ensures Sorted(key, r)
    ensures multiset(r) == multiset(s) + multiset{t}
  {
    if s == [] then [t]
    else if InOrder(key, t, s[0]) then
      InsertFront(key, t, s);
      [t] + s
    else
      var rest := Insert(key, t, s[1..]);
      InsertBehind(key, t, s, rest);
      [s[0]] + rest
  }

  /** A task that may precede the head of a sorted sequence may precede all of it. */
  lemma InsertFront(key: SortKey, t: Task, s: seq<Task>)
    requires Sorted(key, s) && s != [] && InOrder(key, t, s[0])
    ensures Sorted(key, [t] + s)
  {
    var r := [t] + s;
    forall i, j | 0 <= i < j < |r| ensures InOrder(key, r[i], r[j]) {
      if i == 0 && j > 1 {
        OrderTrans(key, t, s[0], s[j - 1]);
      }
    }
  }

  /** The head stays first when `t` goes somewhere into the rest. */
  lemma InsertBehind(key: SortKey, t: Task, s: seq<Task>, rest: seq<Task>)
    requires Sorted(key, s) && s != [] && !InOrder(key, t, s[0])
    requires Sorted(key, rest) && multiset(rest) == multiset(s[1..]) + multiset{t}
    ensures Sorted(key, [s[0]] + rest)
    ensures multiset([s[0]] + rest) == multiset(s) + multiset{t}
  {
    OrderTotal(key, t, s[0]);
    var r := [s[0]] + rest;
    forall i, j | 0 <= i < j < |r| ensures InOrder(key, r[i], r[j]) {
      if i == 0 {
        var u := rest[j - 1];
        assert u in multiset(rest);
        if u != t {
          assert u in multiset(s[1..]);
          var p :| 0 <= p < |s[1..]| && s[1..][p] == u;
          assert s[p + 1] == u;
        }
      }
    }
    assert s == [s[0]] + s[1..];
  }

  /** The listing order: sorted under the key, and a permutation. */
  function SortBy(key: SortKey, s: seq<Task>): (r: seq<Task>)
    ensures Sorted(key, r)
    ensures multiset(r) == multiset(s)
  {
    if s == [] then []
    else
      assert s == [s[0]] + s[1..];
      Insert(key, s[0], SortBy(key, s[1..]))
  }

  // ---------------------------------------------------------------------------
  // Route results
  // ---------------------------------------------------------------------------

  /** A route's JSON answer with its HTTP status: a message (and sometimes the
      task) on success, an error text otherwise. */
  datatype Reply =
    | Ok(status: nat, message: string, task: Option<map<string, Json>>)
    | Err(status: nat, error: string)

  /** Priority level to the word the confirmation uses. */
  const PriorityWords: map<int, string> := map[1 := "low", 2 := "medium", 3 := "high"]

  /** The confirmation of a new task; the due date is written by `formatDate`
      (the "%b %d, %Y" format). */
  function AddedMessage(p: TaskParsing.ParsedTask, formatDate: int -> string): (m: string)
    ensures var head := "Task '" + p.name + "' added";
      |head| <= |m| && m[..|head|] == head
    ensures p.priority !in PriorityWords && p.due.None? ==> m == "Task '" + p.name + "' added"
    ensures p.due.Some? ==> var tail := " due " + formatDate(p.due.value);
      |tail| <= |m| && m[|m| - |tail|..] == tail
  {
    "Task '" + p.name + "' added"
    + (if p.priority in PriorityWords then " with " + PriorityWords[p.priority] + " priority" else "")
    + (match p.due case Some(d) => " due " + formatDate(d) case None => "")
  }

  /** A parsed priority is always one of the three levels, so the confirmation
      always names it. */
  lemma AddedMessageNamesPriority(p: TaskParsing.ParsedTask, formatDate: int -> string)
    requires 1 <= p.priority <= 3
    ensures var w := PriorityWords[p.priority];
      var head := "Task '" + p.name + "' added with " + w + " priority";
      |head| <= |AddedMessage(p, formatDate)| && AddedMessage(p, formatDate)[..|head|] == head
  {
    var w := PriorityWords[p.priority];
    var tail := match p.due case Some(d) => " due " + formatDate(d) case None => "";
    assert AddedMessage(p, formatDate) == ("Task '" + p.name + "' added with " + w + " priority") + tail;
  }

  // ---------------------------------------------------------------------------
  // What each change does to a well-formed table
  // ---------------------------------------------------------------------------

  /** A task whose id is new and whose name is not taken keeps the table
      well-formed. */
  lemma AppendKeeps(s: seq<Task>, t: Task)
    requires WellFormed(s)
    requires FindByName(s, t.name).None? && FindById(s, t.id).None?
    ensures WellFormed(s + [t])
  {
    var r := s + [t];
    forall i, j | 0 <= i < j < |r|
      ensures r[i].id != r[j].id && !NameLike(r[i].name, r[j].name)
    {
      if j == |s| {
        assert !NameLike(s[i].name, t.name);
      }
    }
  }

  /** Changing a done flag keeps it well-formed. */
  lemma SetDoneKeeps(s: seq<Task>, i: nat, d: bool)
    requires WellFormed(s) && i < |s|
    ensures WellFormed(s[i := s[i].(done := d)])
  {
    var r := s[i := s[i].(done := d)];
    assert forall k :: 0 <= k < |s| ==> r[k].id == s[k].id && r[k].name == s[k].name;
  }

  /** Removing one task keeps it well-formed. */
  lemma RemoveKeeps(s: seq<Task>, i: nat)
    requires WellFormed(s) && i < |s|
    ensures WellFormed(s[..i] + s[i + 1..])
  {
    var r := s[..i] + s[i + 1..];
    assert forall k :: 0 <= k < |r| ==> r[k] == if k < i then s[k] else s[k + 1];
  }

  /** Keeping only some of the tasks keeps it well-formed. */
  lemma {:induction false} SelectKeeps(s: seq<Task>, f: Option<bool>)
    requires WellFormed(s)
    ensures WellFormed(Select(s, f))
  {
    if s != [] {
      SelectKeeps(s[1..], f);
      if Passes(f, s[0]) {
        HeadKeeps(s, Select(s[1..], f));
      }
    }
  }

  /** The head of a well-formed table may precede any well-formed choice of the
      tasks after it. */
  lemma HeadKeeps(s: seq<Task>, rest: seq<Task>)
    requires WellFormed(s) && s != [] && WellFormed(rest)
    requires forall t :: t in rest ==> t in s[1..]
    ensures WellFormed([s[0]] + rest)
  {
    var r := [s[0]] + rest;
    forall i, j | 0 <= i < j < |r|
      ensures r[i].id != r[j].id && !NameLike(r[i].name, r[j].name)
    {
      if i == 0 {
        assert rest[j - 1] in s[1..];
        var p :| 0 <= p < |s[1..]| && s[1..][p] == rest[j - 1];
        assert s[p + 1] == r[j];
      } else {
        assert r[i] == rest[i - 1] && r[j] == rest[j - 1];
      }
    }
  }

  /** Flipping the same task twice restores the table. */
  lemma ToggleTwice(s: seq<Task>, i: nat)
    requires i < |s|
    ensures var once := s[i := s[i].(done := !s[i].done)];
      once[i := once[i].(done := !once[i].done)] == s
  {
    var once := s[i := s[i].(done := !s[i].done)];
    assert once[i].done == !s[i].done;
  }

  // ---------------------------------------------------------------------------
  // The table
  // ---------------------------------------------------------------------------

  class TaskTable {
    /** The rows, in insertion order. */
    var tasks: seq<Task>

    predicate Valid()
      reads this
    {
      WellFormed(tasks)
    }

    /** The empty table the application starts with. */
    constructor()
      ensures tasks == [] && Valid()
    {
      tasks := [];
    }

    /** An id no task has yet (the stand-in for a random UUID): longer than
        every present id. */
    method FreshId() returns (id: string)
      ensures FindById(tasks, id).None?
      ensures forall t :: t in tasks ==> t.id != id
    {
      var longest: nat := 0;
      for i := 0 to |tasks|
        invariant forall j :: 0 <= j < i ==> |tasks[j].id| <= longest
      {
        if |tasks[i].id| > longest {
          longest := |tasks[i].id|;
        }
      }
      id := seq(longest + 1, _ => 'x');
    }

    /** `GET /tasks`: the tasks that pass the done filter, in the order the sort
        parameter asks for. Reading changes nothing. */
    function GetTasks(done: Option<string>, sort: string): (r: seq<Task>)
      reads this
      ensures forall t :: multiset(r)[t] == if Passes(DoneFilter(done), t) then multiset(tasks)[t] else 0
      ensures Sorted(SortKeyOf(sort), r)
    {
      SortBy(SortKeyOf(sort), Select(tasks, DoneFilter(done)))
    }

    /** `POST /add`: parse the command and append the task, unless the text is
        blank or a task of that name (up to case) exists. */
    method AddTask(text: string, env: TaskParsing.Env, utcNow: int, formatDate: int -> string)
      returns (reply: Reply)
      modifies this
      ensures Strip(text) == [] ==> reply == Err(400, "No task name provided") && tasks == old(tasks)
      ensures var p := TaskParsing.Parse(Strip(text), env);
        Strip(text) != [] && FindByName(old(tasks), p.name).Some? ==>
          reply == Err(409, "Task already exists") && tasks == old(tasks)
      ensures var p := TaskParsing.Parse(Strip(text), env);
        Strip(text) != [] && FindByName(old(tasks), p.name).None? ==>
          |tasks| == |old(tasks)| + 1 && tasks[..|old(tasks)|] == old(tasks)
          && var t := tasks[|old(tasks)|];
          FindById(old(tasks), t.id).None?
          && t == Task(t.id, p.name, false, p.priority, p.category, p.due, utcNow)
          && p.name != []
          && reply == Ok(201, AddedMessage(p, formatDate), Some(ToDict(t)))
      ensures old(Valid()) ==> Valid()
    {
      var taskText := Strip(text);
      if taskText == [] {
        reply := Err(400, "No task name provided");
        return;
      }
      var parsed := TaskParsing.ParseAddTaskCommand(taskText, env);
      StripStripped(text);
      TaskParsing.ParsedNameNonEmpty(taskText, env);
      if parsed.name == [] {
        // the parser falls back to the (non-blank) command itself
        assert false;
      }
      if FindByName(tasks, parsed.name).Some? {
        reply := Err(409, "Task already exists");
        return;
      }
      var id := FreshId();
      var t := Task(id, parsed.name, false, parsed.priority, parsed.category, parsed.due, utcNow);
      if Valid() {
        AppendKeeps(tasks, t);
      }
      tasks := tasks + [t];
      reply := Ok(201, AddedMessage(parsed, formatDate), Some(ToDict(t)));
    }

    /** `POST /mark-by-name`: the first task of that name (up to case) is done. */
    method MarkByName(name: string) returns (reply: Reply)
      modifies this
      ensures Strip(name) == [] ==> reply == Err(400, "No task name provided") && tasks == old(tasks)
      ensures Strip(name) != [] && FindByName(old(tasks), Strip(name)).None? ==>
        reply == Err(404, "Task '" + Strip(name) + "' not found") && tasks == old(tasks)
      ensures Strip(name) != [] && FindByName(old(tasks), Strip(name)).Some? ==>
        var i := FindByName(old(tasks), Strip(name)).value;
        tasks == old(tasks)[i := old(tasks)[i].(done := true)]
        && reply == Ok(200, "Marked " + old(tasks)[i].name + " as done", Some(ToDict(tasks[i])))
      ensures old(Valid()) ==> Valid()
    {
      var key := Strip(name);
      if key == [] {
        reply := Err(400, "No task name provided");
        return;
      }
      match FindByName(tasks, key)
      case None =>
        reply := Err(404, "Task '" + key + "' not found");
      case Some(i) =>
        if Valid() {
          SetDoneKeeps(tasks, i, true);
        }
        tasks := tasks[i := tasks[i].(done := true)];
        reply := Ok(200, "Marked " + tasks[i].name + " as done", Some(ToDict(tasks[i])));
    }

    /** `POST /delete-by-name`: the first task of that name (up to case) goes. */
    method DeleteByName(name: string) returns (reply: Reply)
      modifies this
      ensures Strip(name) == [] ==> reply == Err(400, "No task name provided") && tasks == old(tasks)
      ensures Strip(name) != [] && FindByName(old(tasks), Strip(name)).None? ==>
        reply == Err(404, "Task '" + Strip(name) + "' not found") && tasks == old(tasks)
      ensures Strip(name) != [] && FindByName(old(tasks), Strip(name)).Some? ==>
        var i := FindByName(old(tasks), Strip(name)).value;
        tasks == old(tasks)[..i] + old(tasks)[i + 1..]
        && multiset(tasks) == multiset(old(tasks)) - multiset{old(tasks)[i]}
        && reply == Ok(200, "Deleted " + old(tasks)[i].name, None)
      ensures old(Valid()) ==> Valid()
    {
      var key := Strip(name);
      if key == [] {
        reply := Err(400, "No task name provided");
        return;
      }
      match FindByName(tasks, key)
      case None =>
        reply := Err(404, "Task '" + key + "' not found");
      case Some(i) =>
        var gone := tasks[i];
        RemoveOne(tasks, i);
        if Valid() {
          RemoveKeeps(tasks, i);
        }
        tasks := tasks[..i] + tasks[i + 1..];
        reply := Ok(200, "Deleted " + gone.name, None);
    }

    /** `POST /toggle`: the task with that id flips between done and not done. */
    method Toggle(id: string) returns (reply: Reply)
      modifies this
      ensures id == [] ==> reply == Err(400, "No task id provided") && tasks == old(tasks)
      ensures id != [] && FindById(old(tasks), id).None? ==>
        reply == Err(404, "Task not found") && tasks == old(tasks)
      ensures id != [] && FindById(old(tasks), id).Some? ==>
        var i := FindById(old(tasks), id).value;
        var t := old(tasks)[i];
        tasks == old(tasks)[i := t.(done := !t.done)]
        && reply == Ok(200, "Marked " + t.name + (if t.done then " as undone" else " as done"),
                       Some(ToDict(t.(done := !t.done))))
      ensures old(Valid()) ==> Valid()
    {
      if id == [] {
        reply := Err(400, "No task id provided");
        return;
      }
      match FindById(tasks, id)
      case None =>
        reply := Err(404, "Task not found");
      case Some(i) =>
        if Valid() {
          SetDoneKeeps(tasks, i, !tasks[i].done);
        }
        tasks := tasks[i := tasks[i].(done := !tasks[i].done)];
        var t := tasks[i];
        reply := Ok(200, if t.done then "Marked " + t.name + " as done" else "Marked " + t.name + " as undone",
                    Some(ToDict(t)));
    }

    /** `POST /delete`: the task with that id goes. */
    method Delete(id: string) returns (reply: Reply)
      modifies this
      ensures id == [] ==> reply == Err(400, "No task id provided") && tasks == old(tasks)
      ensures id != [] && FindById(old(tasks), id).None? ==>
        reply == Err(404, "Task not found") && tasks == old(tasks)
      ensures id != [] && FindById(old(tasks), id).Some? ==>
        var i := FindById(old(tasks), id).value;
        tasks == old(tasks)[..i] + old(tasks)[i + 1..]
        && multiset(tasks) == multiset(old(tasks)) - multiset{old(tasks)[i]}
        && reply == Ok(200, "Deleted " + old(tasks)[i].name, None)
      ensures old(Valid()) ==> Valid()
    {
      if id == [] {
        reply := Err(400, "No task id provided");
        return;
      }
      match FindById(tasks, id)
      case None =>
        reply := Err(404, "Task not found");
      case Some(i) =>
        var gone := tasks[i];
        RemoveOne(tasks, i);
        if Valid() {
          RemoveKeeps(tasks, i);
        }
        tasks := tasks[..i] + tasks[i + 1..];
        reply := Ok(200, "Deleted " + gone.name, None);
    }

    /** `POST /clear-completed`: exactly the tasks not done remain, in order. */
    method ClearCompleted() returns (reply: Reply)
      modifies this
      ensures tasks == Select(old(tasks), Some(false))
      ensures reply == Ok(200, "Completed tasks cleared", None)
      ensures old(Valid()) ==> Valid()
    {
      if Valid() {
        SelectKeeps(tasks, Some(false));
      }
      tasks := Select(tasks, Some(false));
      reply := Ok(200, "Completed tasks cleared", None);
    }

    /** `POST /clear`: the table is empty. */
    method ClearAll() returns (reply: Reply)
      modifies this
      ensures tasks == []
      ensures reply == Ok(200, "All tasks cleared", None)
      ensures Valid()
    {
      tasks := [];
      reply := Ok(200, "All tasks cleared", None);
    }
  }

  /** Cutting out position `i` removes exactly that task. */
  lemma RemoveOne(s: seq<Task>, i: nat)
    requires i < |s|
    ensures multiset(s[..i] + s[i + 1..]) == multiset(s) - multiset{s[i]}
  {
    assert s == s[..i] + [s[i]] + s[i + 1..];
  }
}
