/** The task store: tasks.json as persisted state, and the four operations.
    Add, and complete or delete at a valid position, load the whole list,
    change it in memory and write the whole list back; list and an invalid
    position never write. */
module TaskStore {
  import opened TaskModel

  class Store {
    /** The contents of tasks.json; None while the file does not exist. */
    var file: Option<seq<Task>>
    /** How many times the list has been written back. */
    var saves: nat

    /** Lifecycle of tasks.json: it is created by the first save and no operation
        removes it, so a store whose file is absent has never been written. */
    ghost predicate Valid()
      reads this
    {
      file == None ==> saves == 0
    }

    /** The list a load would return. */
    function Current(): seq<Task>
      reads this
    {
      match file
      case None => []
      case Some(tasks) => tasks
    }

    constructor (existing: Option<seq<Task>>)
      ensures Valid()
      ensures file == existing && saves == 0
    {
      file := existing;
      saves := 0;
    }

    /** Reads the whole list; a missing file reads as the empty list. */
    method Load() returns (tasks: seq<Task>)
      ensures file == None ==> tasks == []
      ensures file != None ==> tasks == file.value
    {
      if file == None {
        tasks := [];
      } else {
        tasks := file.value;
      }
    }

    /** Overwrites the whole file with `tasks`, creating it if needed. */
    method Save(tasks: seq<Task>)
      requires Valid()
      modifies this
      ensures Valid()
      ensures file == Some(tasks) && saves == old(saves) + 1
    {
      file := Some(tasks);
      saves := saves + 1;
    }

    /** Appends a new pending task, always, even when its title is already present. */
    method AddTask(title: string, priority: Priority) returns (outcome: Outcome)
      requires Valid()
      modifies this
      ensures Valid()
      ensures file == Some(Appended(old(Current()), title, priority))
      ensures saves == old(saves) + 1
      ensures outcome == Added(title)
    {
      var tasks := Load();
      var task := Task(title, priority, false);
      tasks := tasks + [task];
      Save(tasks);
      outcome := Added(title);
    }

    /** Numbers every stored task from 1 in stored order; never writes. */
    method ListTasks() returns (report: Report)
      ensures Current() == [] ==> report == NoTasks
      ensures Current() != [] ==> report.Lines? && |report.lines| == |Current()|
      ensures report.Lines? ==>
                forall k :: 0 <= k < |report.lines| ==> report.lines[k] == LineOf(k + 1, Current()[k])
    {
      var tasks := Load();
      if tasks == [] {
        report := NoTasks;
      } else {
        var lines: seq<Line> := [];
        var idx := 0;
        while idx < |tasks|
          invariant 0 <= idx <= |tasks|
          invariant |lines| == idx
          invariant forall k :: 0 <= k < idx ==> lines[k] == LineOf(k + 1, tasks[k])
        {
          var task := tasks[idx];
          var mark := if task.completed then Done else Pending;
          lines := lines + [Line(idx + 1, task.title, task.priority, mark)];
          idx := idx + 1;
        }
        report := Lines(lines);
      }
    }

    /** Marks the task at 1-based `number` completed and saves; outside the range nothing is saved. */
    method CompleteTask(number: int) returns (outcome: Outcome)
      requires Valid()
      modifies this
      ensures Valid()
      ensures InRange(old(Current()), number) ==>
                && file == Some(MarkedComplete(old(Current()), number))
                && saves == old(saves) + 1
                && outcome == Completed(number)
      ensures !InRange(old(Current()), number) ==>
                && unchanged(this)
                && outcome == InvalidTaskNumber
    {
      var tasks := Load();
      if 1 <= number <= |tasks| {
        tasks := tasks[number - 1 := tasks[number - 1].(completed := true)];
        Save(tasks);
        outcome := Completed(number);
      } else {
        outcome := InvalidTaskNumber;
      }
    }

    /** Removes the task at 1-based `number`, saves and reports its title; outside the range nothing is saved. */
    method DeleteTask(number: int) returns (outcome: Outcome)
      requires Valid()
      modifies this
      ensures Valid()
      ensures InRange(old(Current()), number) ==>
                && file == Some(Removed(old(Current()), number))
                && saves == old(saves) + 1
                && outcome == Deleted(old(Current())[number - 1].title)
      ensures !InRange(old(Current()), number) ==>
                && unchanged(this)
                && outcome == InvalidTaskNumber
    {
      var tasks := Load();
      if 1 <= number <= |tasks| {
        var removed := tasks[number - 1];
        tasks := tasks[..number - 1] + tasks[number..];
        Save(tasks);
        outcome := Deleted(removed.title);
      } else {
        outcome := InvalidTaskNumber;
      }
    }
  }
}
