/** The task list of `StudyPlanner`: add (rejecting blank text), toggle and delete. */
module Planner {

  datatype Task = Task(id: int, text: string, completed: bool)

  /** The three example tasks the planner starts with. */
  function InitialTasks(): seq<Task>
  {
    [ Task(1, "Review Ethics Reading 3", true),
      Task(2, "Complete 20 Quantitative Methods practice questions", false),
      Task(3, "Watch video on LIFO vs. FIFO", false) ]
  }

  /** No two tasks share an id. */
  ghost predicate DistinctIds(tasks: seq<Task>) {
    forall i, j :: 0 <= i < j < |tasks| ==> tasks[i].id != tasks[j].id
  }

  lemma InitialTasksDistinct()
    ensures |InitialTasks()| == 3 && DistinctIds(InitialTasks())
    ensures forall i :: 0 <= i < 3 ==> InitialTasks()[i].id == i + 1
  {
  }

  /** The code points `String.prototype.trim` removes: the ECMAScript
      WhiteSpace and LineTerminator characters. */
  predicate IsTrimmed(c: char) {
    || c == '\t' || c == '\n' || c == '\U{000B}' || c == '\U{000C}' || c == '\r' || c == ' '
    || c == '\U{00A0}' || c == '\U{1680}' || ('\U{2000}' <= c <= '\U{200A}')
    || c == '\U{2028}' || c == '\U{2029}' || c == '\U{202F}' || c == '\U{205F}'
    || c == '\U{3000}' || c == '\U{FEFF}'
  }

  /** `s` without its leading white space. */
  function TrimStart(s: string): (r: string)
    ensures |r| <= |s| && r == s[|s| - |r|..]
    ensures forall i :: 0 <= i < |s| - |r| ==> IsTrimmed(s[i])
    ensures r != [] ==> !IsTrimmed(r[0])
  {
    if s != [] && IsTrimmed(s[0]) then TrimStart(s[1..]) else s
  }

  /** `s` without its trailing white space. */
  function TrimEnd(s: string): (r: string)
    ensures |r| <= |s| && r == s[..|r|]
    ensures forall i :: |r| <= i < |s| ==> IsTrimmed(s[i])
    ensures r != [] ==> !IsTrimmed(r[|r| - 1])
  {
    if s != [] && IsTrimmed(s[|s| - 1]) then TrimEnd(s[..|s| - 1]) else s
  }

  function Trim(s: string): string
  {
    TrimEnd(TrimStart(s))
  }

  /** The trimmed text is empty exactly when every character is white space. */
  lemma {:induction false} TrimEmptyIffBlank(s: string)
    ensures Trim(s) == "" <==> forall i :: 0 <= i < |s| ==> IsTrimmed(s[i])
  {
    var t := TrimStart(s);
    assert t != [] ==> t[0] == s[|s| - |t|];
    assert TrimEnd(t) == [] ==> forall i :: 0 <= i < |t| ==> IsTrimmed(t[i]);
  }

  /** The largest id of a non-empty list (`Math.max` over the ids). */
  function MaxId(tasks: seq<Task>): (m: int)
    requires tasks != []
    ensures forall i :: 0 <= i < |tasks| ==> tasks[i].id <= m
    ensures exists i :: 0 <= i < |tasks| && tasks[i].id == m
  {
    if |tasks| == 1 then tasks[0].id
    else
      var rest := MaxId(tasks[1..]);
      assert forall i :: 1 <= i < |tasks| ==> tasks[i] == tasks[1..][i - 1];
      if tasks[0].id >= rest then tasks[0].id else rest
  }

  /** The id given to a new task: one more than the largest, or 1 for an empty list. */
  function NextId(tasks: seq<Task>): (id: int)
    ensures forall i :: 0 <= i < |tasks| ==> tasks[i].id < id
    ensures tasks == [] ==> id == 1
  {
    if |tasks| > 0 then MaxId(tasks) + 1 else 1
  }

  /** The list after submitting `text`. */
  function TasksAfterAdd(tasks: seq<Task>, text: string): seq<Task>
  {
    if Trim(text) == "" then tasks else tasks + [Task(NextId(tasks), text, false)]
  }

  /** The list after clicking the task with id `id`. */
  function ToggledTasks(tasks: seq<Task>, id: int): seq<Task>
  {
    seq(|tasks|, i requires 0 <= i < |tasks| =>
      if tasks[i].id == id then tasks[i].(completed := !tasks[i].completed) else tasks[i])
  }

  /** The list after deleting the task with id `id`. */
  function TasksWithout(tasks: seq<Task>, id: int): (r: seq<Task>)
    ensures |r| <= |tasks|
    ensures forall t :: t in r <==> t in tasks && t.id != id
  {
    if tasks == [] then []
    else (if tasks[0].id != id then [tasks[0]] else []) + TasksWithout(tasks[1..], id)
  }

  /** Blank text is rejected; otherwise one incomplete task with the text as
      typed (untrimmed) and a fresh id is appended after the existing ones. */
  lemma AddEffect(tasks: seq<Task>, text: string)
    ensures (forall i :: 0 <= i < |text| ==> IsTrimmed(text[i])) ==> TasksAfterAdd(tasks, text) == tasks
    ensures (exists i :: 0 <= i < |text| && !IsTrimmed(text[i])) ==>
      var r := TasksAfterAdd(tasks, text);
      && |r| == |tasks| + 1 && r[..|tasks|] == tasks
      && r[|tasks|].text == text && !r[|tasks|].completed
      && (forall i :: 0 <= i < |tasks| ==> tasks[i].id != r[|tasks|].id)
  {
    TrimEmptyIffBlank(text);
  }

  /** Adding keeps the ids distinct. */
  lemma AddKeepsIdsDistinct(tasks: seq<Task>, text: string)
    requires DistinctIds(tasks)
    ensures DistinctIds(TasksAfterAdd(tasks, text))
  {
  }

  /** Toggling flips `completed` exactly on the tasks with the id and keeps
      length, order, ids and texts. */
  lemma ToggleEffect(tasks: seq<Task>, id: int)
    ensures var r := ToggledTasks(tasks, id);
      && |r| == |tasks|
      && forall i :: 0 <= i < |tasks| ==>
           && r[i].id == tasks[i].id && r[i].text == tasks[i].text
           && (r[i].completed <==> (if tasks[i].id == id then !tasks[i].completed else tasks[i].completed))
  {
  }

  /** Toggling the same id twice gives back the list. */
  lemma ToggleTwiceIsIdentity(tasks: seq<Task>, id: int)
    ensures ToggledTasks(ToggledTasks(tasks, id), id) == tasks
  {
    var r := ToggledTasks(ToggledTasks(tasks, id), id);
    assert |r| == |tasks|;
    forall i | 0 <= i < |tasks| ensures r[i] == tasks[i] {
    }
  }

  lemma ToggleKeepsIdsDistinct(tasks: seq<Task>, id: int)
    requires DistinctIds(tasks)
    ensures DistinctIds(ToggledTasks(tasks, id))
  {
  }

  /** Deleting an id that no task has leaves the list as it was. */
  lemma {:induction false} DeleteAbsentIsNoOp(tasks: seq<Task>, id: int)
    requires forall i :: 0 <= i < |tasks| ==> tasks[i].id != id
    ensures TasksWithout(tasks, id) == tasks
  {
    if tasks != [] {
      DeleteAbsentIsNoOp(tasks[1..], id);
    }
  }

  /** Deleting works on each part of a list separately, so the tasks that stay
      keep their relative order. */
  lemma {:induction false} DeleteAppend(a: seq<Task>, b: seq<Task>, id: int)
    ensures TasksWithout(a + b, id) == TasksWithout(a, id) + TasksWithout(b, id)
  {
    if a == [] {
      assert a + b == b;
    } else {
      assert (a + b)[1..] == a[1..] + b;
      DeleteAppend(a[1..], b, id);
    }
  }

  /** Deleting from a list with distinct ids removes at most one task: exactly
      one when the id is present. */
  lemma {:induction false} DeleteLength(tasks: seq<Task>, id: int)
    requires DistinctIds(tasks)
    ensures DistinctIds(TasksWithout(tasks, id))
    ensures |TasksWithout(tasks, id)| == if exists i :: 0 <= i < |tasks| && tasks[i].id == id then |tasks| - 1 else |tasks|
  {
    if tasks != [] {
      var rest := tasks[1..];
      assert forall i :: 1 <= i < |tasks| ==> tasks[i] == rest[i - 1];
      DeleteLength(rest, id);
      if tasks[0].id == id {
        DeleteAbsentIsNoOp(rest, id);
      }
      var r := TasksWithout(tasks, id);
      forall i, j | 0 <= i < j < |r| ensures r[i].id != r[j].id {
        if tasks[0].id != id {
          assert r == [tasks[0]] + TasksWithout(rest, id);
          if i == 0 {
            assert r[j] in TasksWithout(rest, id);
          }
        }
      }
    }
  }

  /** The state of the `StudyPlanner` component: the list and the text field. */
  class StudyPlanner {
    var tasks: seq<Task>
    var newTask: string

    ghost predicate Valid()
      reads this
    {
      DistinctIds(tasks)
    }

    constructor ()
      ensures Valid()
      ensures tasks == InitialTasks() && newTask == ""
    {
      tasks := InitialTasks();
      newTask := "";
    }

    /** Typing in the text field. */
    method SetNewTask(value: string)
      modifies this`newTask
      ensures newTask == value
    {
      newTask := value;
    }

    /** Submitting the form: blank text changes nothing; otherwise the task is
        appended and the field cleared. */
    method HandleAddTask()
      requires Valid()
      modifies this
      ensures Valid()
      ensures tasks == TasksAfterAdd(old(tasks), old(newTask))
      ensures newTask == if Trim(old(newTask)) == "" then old(newTask) else ""
    {
      if Trim(newTask) == "" {
        return;
      }
      var newId := NextId(tasks);
      AddKeepsIdsDistinct(tasks, newTask);
      tasks := tasks + [Task(newId, newTask, false)];
      newTask := "";
    }

    method ToggleTask(id: int)
      requires Valid()
      modifies this`tasks
      ensures Valid()
      ensures tasks == ToggledTasks(old(tasks), id)
    {
      ToggleKeepsIdsDistinct(tasks, id);
      tasks := ToggledTasks(tasks, id);
    }

    method DeleteTask(id: int)
      requires Valid()
      modifies this`tasks
      ensures Valid()
      ensures tasks == TasksWithout(old(tasks), id)
    {
      DeleteLength(tasks, id);
      tasks := TasksWithout(tasks, id);
    }
  }
}
