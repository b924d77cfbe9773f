/** The command-line entry point: the already-parsed action and optional
    arguments, the missing-argument guards, and dispatch to one operation
    of the store. */
module TaskCli {
  import opened TaskModel
  import opened TaskStore

  datatype Action = Add | List | Complete | Delete

  /** An action whose required arguments are all present. */
  datatype Command =
    | AddCommand(title: string, priority: Priority)
    | ListCommand
    | CompleteCommand(number: int)
    | DeleteCommand(number: int)

  /** The guards of the entry point: add needs a non-empty title and a priority,
      complete and delete need a task number (any number, 0 and negatives included). */
  function Validate(action: Action, title: Option<string>, priority: Option<Priority>, task: Option<int>)
    : (r: Result<Command, Usage>)
    ensures action == Add ==>
              (r.Ok? <==> title != None && title.value != "" && priority != None)
    ensures action == Add && r.Ok? ==> r.value == AddCommand(title.value, priority.value)
    ensures action == Add && r.Err? ==> r.error == MissingTitleOrPriority
    ensures action == List ==> r == Ok(ListCommand)
    ensures action in {Complete, Delete} ==> (r.Ok? <==> task != None)
    ensures action == Complete && r.Ok? ==> r.value == CompleteCommand(task.value)
    ensures action == Complete && r.Err? ==> r.error == MissingTaskToComplete
    ensures action == Delete && r.Ok? ==> r.value == DeleteCommand(task.value)
    ensures action == Delete && r.Err? ==> r.error == MissingTaskToDelete
  {
    match action
    case Add =>
      if title == None || title.value == "" || priority == None then Err(MissingTitleOrPriority)
      else Ok(AddCommand(title.value, priority.value))
    case List => Ok(ListCommand)
    case Complete =>
      if task == None then Err(MissingTaskToComplete) else Ok(CompleteCommand(task.value))
    case Delete =>
      if task == None then Err(MissingTaskToDelete) else Ok(DeleteCommand(task.value))
  }

  /** Runs one invocation of the program against `store`.  A usage error
      performs no operation: the store is neither read for change nor saved. */
  method Run(store: Store, action: Action, title: Option<string>, priority: Option<Priority>, task: Option<int>)
    returns (outcome: Outcome)
    requires store.Valid()
    modifies store
    ensures store.Valid()
    ensures Validate(action, title, priority, task).Err? ==>
              && unchanged(store)
              && outcome == UsageError(Validate(action, title, priority, task).error)
    ensures Validate(action, title, priority, task).Ok? ==>
              match Validate(action, title, priority, task).value
              case AddCommand(t, p) =>
                && store.file == Some(Appended(old(store.Current()), t, p))
                && store.saves == old(store.saves) + 1
                && outcome == Added(t)
              case ListCommand =>
                && unchanged(store)
                && outcome.Listed?
                && (old(store.Current()) == [] ==> outcome.report == NoTasks)
                && (old(store.Current()) != [] ==>
                      && outcome.report.Lines?
                      && |outcome.report.lines| == |old(store.Current())|
                      && forall k :: 0 <= k < |outcome.report.lines| ==>
                           outcome.report.lines[k] == LineOf(k + 1, old(store.Current())[k]))
              case CompleteCommand(n) =>
                if InRange(old(store.Current()), n) then
                  && store.file == Some(MarkedComplete(old(store.Current()), n))
                  && store.saves == old(store.saves) + 1
                  && outcome == Completed(n)
                else
                  unchanged(store) && outcome == InvalidTaskNumber
              case DeleteCommand(n) =>
                if InRange(old(store.Current()), n) then
                  && store.file == Some(Removed(old(store.Current()), n))
                  && store.saves == old(store.saves) + 1
                  && outcome == Deleted(old(store.Current())[n - 1].title)
                else
                  unchanged(store) && outcome == InvalidTaskNumber
  {
    var checked := Validate(action, title, priority, task);
    match checked
    case Err(usage) =>
      outcome := UsageError(usage);
    case Ok(command) =>
      match command
      case AddCommand(t, p) =>
        outcome := store.AddTask(t, p);
      case ListCommand =>
        var report := store.ListTasks();
        outcome := Listed(report);
      case CompleteCommand(n) =>
        outcome := store.CompleteTask(n);
      case DeleteCommand(n) =>
        outcome := store.DeleteTask(n);
  }

  /** A session of four invocations starting with no tasks.json: add two tasks,
      complete the first, delete the first.  Returns what is then stored. */
  method Session() returns (stored: seq<Task>, outcomes: seq<Outcome>)
    ensures stored == [Task("Review PR", Low, false)]
    ensures outcomes == [Added("Write report"), Added("Review PR"), Completed(1), Deleted("Write report")]
  {
    var store := new Store(None);
    var first := Run(store, Add, Some("Write report"), Some(High), None);
    assert store.Current() == [Task("Write report", High, false)];
    var second := Run(store, Add, Some("Review PR"), Some(Low), None);
    assert store.Current() == [Task("Write report", High, false), Task("Review PR", Low, false)];
    var third := Run(store, Complete, None, None, Some(1));
    assert store.Current() == [Task("Write report", High, true), Task("Review PR", Low, false)];
    var fourth := Run(store, Delete, None, None, Some(1));
    stored := store.Current();
    outcomes := [first, second, third, fourth];
  }

  /** Running complete twice with the same number, from the same state of
      tasks.json, leaves the same file as running it once, whether or not the
      number is in range; the second run still saves when it is. */
  method CompleteIsIdempotent(existing: Option<seq<Task>>, number: int)
    returns (once: Option<seq<Task>>, twice: Option<seq<Task>>, secondSaved: bool)
    ensures once == twice
    ensures secondSaved <==> existing != None && InRange(existing.value, number)
  {
    var single := new Store(existing);
    ghost var start := single.Current();
    if InRange(start, number) {
      MarkCompleteIdempotent(start, number);
    }
    var _ := single.CompleteTask(number);
    once := single.file;

    var double := new Store(existing);
    var _ := double.CompleteTask(number);
    var savesBefore := double.saves;
    var _ := double.CompleteTask(number);
    twice := double.file;
    secondSaved := double.saves == savesBefore + 1;
  }
}
