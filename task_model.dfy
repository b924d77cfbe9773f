/** The task records kept in tasks.json and the pure meaning of each change
    the task manager makes to the ordered list of them.  A task has no
    identifier: it is addressed by its 1-based position in the list. */
module TaskModel {

  datatype Option<T> = None | Some(value: T)

  datatype Result<T, E> = Ok(value: T) | Err(error: E)

  /** The three priorities the command line accepts. */
  datatype Priority = Low | Medium | High

  datatype Task = Task(title: string, priority: Priority, completed: bool)

  /** The marker a listing shows for a task: done or not yet done. */
  datatype Mark = Done | Pending

  /** One numbered line of the listing. */
  datatype Line = Line(number: nat, title: string, priority: Priority, mark: Mark)

  datatype Report = NoTasks | Lines(lines: seq<Line>)

  /** What the user is told: the observable result of one command. */
  datatype Usage = MissingTitleOrPriority | MissingTaskToComplete | MissingTaskToDelete

  datatype Outcome =
    | Added(title: string)
    | Listed(report: Report)
    | Completed(number: int)
    | Deleted(title: string)
    | InvalidTaskNumber
    | UsageError(usage: Usage)

  /** The range guard shared by complete and delete: a 1-based position. */
  predicate InRange(tasks: seq<Task>, number: int)
  {
    1 <= number <= |tasks|
  }

  /** The list after appending a fresh, not yet completed task. */
  function Appended(tasks: seq<Task>, title: string, priority: Priority): (r: seq<Task>)
    ensures |r| == |tasks| + 1
    ensures r[..|tasks|] == tasks
    ensures r[|tasks|] == Task(title, priority, false)
  {
    tasks + [Task(title, priority, false)]
  }

  /** The list after setting the completed flag of the task at `number`. */
  function MarkedComplete(tasks: seq<Task>, number: int): (r: seq<Task>)
    requires InRange(tasks, number)
    ensures |r| == |tasks|
    ensures r[number - 1].completed
    ensures r[number - 1].title == tasks[number - 1].title
    ensures r[number - 1].priority == tasks[number - 1].priority
    ensures forall j :: 0 <= j < |tasks| && j != number - 1 ==> r[j] == tasks[j]
  {
    tasks[number - 1 := tasks[number - 1].(completed := true)]
  }

  /** The list after removing the task at `number`; later tasks move up one place. */
  function Removed(tasks: seq<Task>, number: int): (r: seq<Task>)
    requires InRange(tasks, number)
    ensures |r| == |tasks| - 1
    ensures forall j :: 0 <= j < number - 1 ==> r[j] == tasks[j]
    ensures forall j :: number - 1 <= j < |r| ==> r[j] == tasks[j + 1]
  {
    tasks[..number - 1] + tasks[number..]
  }

  /** The listing line for the task at 1-based position `number`. */
  function LineOf(number: nat, task: Task): (line: Line)
    ensures line.number == number && line.title == task.title && line.priority == task.priority
    ensures line.mark == Done <==> task.completed
  {
    Line(number, task.title, task.priority, if task.completed then Done else Pending)
  }

  /** How many tasks of the list are marked completed. */
  function CompletedCount(tasks: seq<Task>): nat
  {
    if tasks == [] then 0
    else (if tasks[0].completed then 1 else 0) + CompletedCount(tasks[1..])
  }

  /** Completing a task twice at the same position stores the same list as completing it once. */
  lemma MarkCompleteIdempotent(tasks: seq<Task>, number: int)
    requires InRange(tasks, number)
    ensures InRange(MarkedComplete(tasks, number), number)
    ensures MarkedComplete(MarkedComplete(tasks, number), number) == MarkedComplete(tasks, number)
  {
  }

  lemma {:induction false} CompletedCountConcat(a: seq<Task>, b: seq<Task>)
    ensures CompletedCount(a + b) == CompletedCount(a) + CompletedCount(b)
  {
    if a == [] {
      assert a + b == b;
    } else {
      assert (a + b)[1..] == a[1..] + b;
      CompletedCountConcat(a[1..], b);
    }
  }

  /** A newly added task is never completed: the count of completed tasks is unchanged. */
  lemma {:induction false} AppendKeepsCompletedCount(tasks: seq<Task>, title: string, priority: Priority)
    ensures CompletedCount(Appended(tasks, title, priority)) == CompletedCount(tasks)
  {
    CompletedCountConcat(tasks, [Task(title, priority, false)]);
    assert CompletedCount([Task(title, priority, false)]) == 0 by {
      assert [Task(title, priority, false)][1..] == [];
    }
  }

  /** Completing a pending task completes exactly one more; completing a done one changes nothing. */
  lemma {:induction false} MarkCompleteCount(tasks: seq<Task>, number: int)
    requires InRange(tasks, number)
    ensures CompletedCount(MarkedComplete(tasks, number))
         == CompletedCount(tasks) + (if tasks[number - 1].completed then 0 else 1)
  {
    if number == 1 {
      assert MarkedComplete(tasks, number)[1..] == tasks[1..];
    } else {
      MarkCompleteCount(tasks[1..], number - 1);
      assert MarkedComplete(tasks, number)[1..] == MarkedComplete(tasks[1..], number - 1);
    }
  }

  /** Delete removes exactly the task at `number` and nothing else. */
  lemma RemovedMultiset(tasks: seq<Task>, number: int)
    requires InRange(tasks, number)
    ensures multiset(Removed(tasks, number)) + multiset{tasks[number - 1]} == multiset(tasks)
  {
    assert tasks == tasks[..number - 1] + [tasks[number - 1]] + tasks[number..];
  }

  /** Putting the removed task back at its place restores the list. */
  lemma RemovedThenReinserted(tasks: seq<Task>, number: int)
    requires InRange(tasks, number)
    ensures Removed(tasks, number)[..number - 1] + [tasks[number - 1]] + Removed(tasks, number)[number - 1..]
         == tasks
  {
  }

  /** Deleting the task just added gives back the list from before the add. */
  lemma RemoveUndoesAppend(tasks: seq<Task>, title: string, priority: Priority)
    ensures InRange(Appended(tasks, title, priority), |tasks| + 1)
    ensures Removed(Appended(tasks, title, priority), |tasks| + 1) == tasks
  {
  }

  /** Deleting a task removes its completed flag from the count. */
  lemma {:induction false} RemovedCompletedCount(tasks: seq<Task>, number: int)
    requires InRange(tasks, number)
    ensures CompletedCount(Removed(tasks, number))
         == CompletedCount(tasks) - (if tasks[number - 1].completed then 1 else 0)
  {
    var pre, post := tasks[..number - 1], tasks[number..];
    assert tasks == pre + ([tasks[number - 1]] + post);
    CompletedCountConcat(pre, [tasks[number - 1]] + post);
    CompletedCountConcat(pre, post);
    assert ([tasks[number - 1]] + post)[1..] == post;
  }
}
