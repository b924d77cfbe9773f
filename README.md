# CLI task manager — a Dafny model

This project models the command-line task manager of `projects/cli-task-manager/task_manager.py`.
The program keeps an ordered list of tasks in `tasks.json`. Each task is a record
`{title, priority, completed}`. A task has no identifier: the user names it by its 1-based
position in the list. Every invocation runs one action:

- `add` appends a task;
- `list` prints a numbered report;
- `complete` sets the `completed` flag of the task at a position;
- `delete` removes the task at a position.

`add`, and `complete` or `delete` at a valid position, load the whole list, change it in memory
and write the whole list back. `list`, and `complete` or `delete` at an invalid position, never write.

The model has three modules:

- `TaskModel` (`task_model.dfy`) holds the records and the pure meaning of each change:
  `Appended`, `MarkedComplete` and `Removed`, each with an element-wise contract.
  It also holds the listing line `LineOf` and `CompletedCount`, and the lemmas that relate
  the operations to each other: idempotence of completion, "delete undoes add",
  "delete removes exactly one task", and how each operation changes the number of completed
  tasks.
- `TaskStore` (`task_store.dfy`) holds the class `Store`. Its field `file` stands for
  `tasks.json`, with `None` while the file does not exist. Its field `saves` counts the writes,
  so "no save" can be stated. `Load`, `Save`, `AddTask`, `ListTasks`, `CompleteTask` and
  `DeleteTask` are methods, and each change is stated against the pure functions above.
  `ListTasks` builds its report with a loop, like the `for ... enumerate` loop of the source.
  It has no `modifies` clause, so it cannot write the store.
- `TaskCli` (`task_cli.dfy`) holds the entry point. `Validate` is the missing-argument guard
  of `main`. `Run` dispatches one already-parsed action. `Session` is a client that runs four
  commands, starting with no file: add "Write report" (high), add "Review PR" (low),
  complete 1, delete 1. It proves what is stored afterwards and what each command reports.
  `CompleteIsIdempotent` is a client that runs `complete` once on one store and twice on
  another, from the same starting file, and proves both files end up equal.

Console messages are modelled by the `Outcome` datatype: `Added(title)`, `Listed(report)`,
`Completed(n)`, `Deleted(title)`, `InvalidTaskNumber`, or `UsageError(which)`.

## Model

| member | source | states |
|---|---|---|
| `TaskModel.Appended` | projects/cli-task-manager/task_manager.py:20-24 | the new list is one longer, keeps every earlier task in place, and ends with `{title, priority, completed: false}`; nothing is merged or deduplicated |
| `TaskModel.MarkedComplete` | projects/cli-task-manager/task_manager.py:39-42 | for a position in range, the length is kept, the task at `number - 1` becomes completed with its title and priority kept, and every other task is unchanged |
| `TaskModel.Removed` | projects/cli-task-manager/task_manager.py:49-52 | for a position in range, the length drops by one, tasks before the position stay in place, and the task formerly at index `j + 1` is now at index `j` |
| `TaskModel.LineOf` | projects/cli-task-manager/task_manager.py:33-35 | a listing line carries the given number, the task's title and priority, and the done marker exactly when the task is completed |
| `TaskModel.MarkCompleteIdempotent` | projects/cli-task-manager/task_manager.py:41 | completing the same position twice stores the same list as completing it once |
| `TaskModel.MarkCompleteCount` | projects/cli-task-manager/task_manager.py:41 | completing a pending task raises the completed count by exactly one; completing a done task leaves it unchanged |
| `TaskModel.AppendKeepsCompletedCount` | projects/cli-task-manager/task_manager.py:22-23 | adding a task never changes how many tasks are completed |
| `TaskModel.RemovedMultiset` | projects/cli-task-manager/task_manager.py:51 | delete removes exactly one occurrence of the task at the position and no other task |
| `TaskModel.RemovedThenReinserted` | projects/cli-task-manager/task_manager.py:51 | putting the removed task back at its position restores the original list |
| `TaskModel.RemoveUndoesAppend` | projects/cli-task-manager/task_manager.py:20-53 | deleting the last position right after an add restores the list from before the add |
| `TaskModel.RemovedCompletedCount` | projects/cli-task-manager/task_manager.py:51 | deleting a task lowers the completed count by one exactly when that task was completed |
| `TaskStore.Store.constructor` | projects/cli-task-manager/task_manager.py:5 | a store starts from the given state of `tasks.json`, present or absent, with no writes yet |
| `TaskStore.Store.Load` | projects/cli-task-manager/task_manager.py:8-12 | a missing file loads as the empty list; otherwise the stored list is returned in stored order |
| `TaskStore.Store.Save` | projects/cli-task-manager/task_manager.py:15-17 | the whole file is replaced by the given list (created if absent), and one write is recorded |
| `TaskStore.Store.AddTask` | projects/cli-task-manager/task_manager.py:20-25 | the stored list becomes `Appended` of the loaded list, one save happens, and the added title is reported |
| `TaskStore.Store.ListTasks` | projects/cli-task-manager/task_manager.py:28-35 | an empty store reports no tasks; otherwise exactly one line per task, numbered 1..n in stored order, with a marker that follows `completed`; nothing is written |
| `TaskStore.Store.CompleteTask` | projects/cli-task-manager/task_manager.py:38-45 | in range (`1 <= n <= len`): the stored list becomes `MarkedComplete` and is saved once; out of range (including 0, negatives and any number on an empty store): no save, store unchanged, invalid number reported |
| `TaskStore.Store.DeleteTask` | projects/cli-task-manager/task_manager.py:48-55 | in range: the stored list becomes `Removed`, one save, and the removed task's title is reported; out of range: no save, store unchanged, invalid number reported |
| `TaskCli.Validate` | projects/cli-task-manager/task_manager.py:67-86 | `add` proceeds exactly when the title is present and non-empty and the priority is present; `list` always proceeds; `complete` and `delete` proceed exactly when a task number is given, whatever its value |
| `TaskCli.Run` | projects/cli-task-manager/task_manager.py:58-86 | a usage error leaves the store untouched and reports which argument is missing; otherwise the store changes exactly as the chosen operation specifies, and `list` reports one numbered line per stored task (`LineOf`) or no tasks, writing nothing |
| `TaskCli.CompleteIsIdempotent` | projects/cli-task-manager/task_manager.py:38-45 | from any state of `tasks.json` and any number, running complete twice leaves the same file as running it once; the second run saves exactly when the number is in range of the original list |
| `TaskCli.Session` | projects/cli-task-manager/task_manager.py:20-55 | starting with no file, add, add, complete 1, delete 1 leaves exactly `[{"Review PR", low, false}]` and reports each step's outcome |

## Left out

- JSON serialisation, `open`, `json.load`, `json.dump` and `os.path.exists` (lines 9-17) are file I/O. The file is the `Store.file` field, so a load after a save returns exactly what was saved.
- The model assumes `tasks.json` holds only records the program itself wrote: a list of `{title, priority, completed}` with one of the three priorities and a boolean flag. Well-formed JSON of another shape (a priority outside the three choices, a non-boolean `completed` tested by truthiness at line 34, a top-level `null` or `{}` that line 30 treats as no tasks) cannot be represented by `Store.file`.
- Malformed JSON in `tasks.json`, and write failures, raise exceptions from library code. They are not modelled: `Load` and `Save` always succeed.
- `argparse` parsing (lines 59-65) is a library. `Run` takes the parsed action with optional title, priority and task number. The `choices` restriction on priority is the `Priority` datatype. A non-integer `--task` or an unknown action is rejected by `argparse` before the program logic runs, so those cases are not modelled.
- The exact console text and emoji of the `print` calls are replaced by the `Outcome` datatype.
- Concurrent processes racing on `tasks.json` are not modelled; the source does not handle them.
- The Python list is modelled as a `seq` reassigned by each method. Aliasing between the loaded list and the task records cannot arise here, because each operation loads a fresh list.
