# Task store of task-manager-cli-ts, in Dafny

This project models the task store of the `task-cli` command-line tracker.
The store is the class `TaskService` in `src/services/taskService.ts`.
It keeps a list of `Task` records in one JSON file.
Every operation reads the whole list.
`addTask` always writes it back whole.
`completeTask` and `deleteTask` write it back only when some task has the given id.
`getAllTasks` and `getTaskById` never write.

The model has two modules:

- `Types` (`types.dfy`) holds the `Task` record of `src/types/index.ts`.
  Optional fields are an `Option`.
  A `Date` is a `Timestamp`, an integer of milliseconds.
- `Services` (`task_service.dfy`) holds the store.
  The class `Services.TaskService` has one field, `tasks: seq<Task>`.
  That field stands for the `tasks` array in the file.
  `AddTask`, `CompleteTask` and `DeleteTask` are methods that reassign it.
  `GetAllTasks` and `GetTaskById` are functions that read it.
  Each method's `ensures` gives the new `tasks` in terms of the old one.
  `AddTask` appends the new task.
  `CompleteTask` leaves `CompletedStore` of the old collection.
  `DeleteTask` leaves `WithoutId` of the old collection.
  `FindIndex` is the lookup these are built on, and `WithoutId` is the filter.
  The lemmas state what the source promises about those functions.

The store's invariant, `TaskInvariant`, has two parts.
`completedAt` is present exactly when `completed` is true.
No two tasks share an id.
An empty store satisfies it.
`CompleteTask` and `DeleteTask` preserve it.
`AddTask` preserves it when the supplied id is not already stored.

What the code does, and the model follows:

- `getAllTasks` returns the tasks in stored order. There is no sorting.
- `addTask` takes only a title and an optional description. There is no priority, due date or category.
- `addTask` does not check the title, so an empty title is accepted.
- There is no search or filter operation.
- `deleteTask` removes every task with the given id, not only one.
  With unique ids that is exactly one task (`DeleteRemovesOne`).

## Model

| member | source | states |
|---|---|---|
| `Services.FindIndex` | src/services/taskService.ts:60-62 | `findIndex` gives -1 exactly when no task has the id; otherwise it gives the first position holding the id |
| `Services.NewTask` | src/services/taskService.ts:35-41 | the task `addTask` builds: the given id, title, description and creation time, pending, with no `completedAt` |
| `Services.CompletedStore` | src/services/taskService.ts:58-69 | what `completeTask` leaves: same length; unchanged when the id is absent; only the first task with the id changes; that task becomes completed with `completedAt = now`; its id, title, description and `createdAt` stay the same |
| `Services.WithoutId` | src/services/taskService.ts:75-77 | the `filter` result has no task with the id; it is shorter exactly when the id was present; it equals the input when the id is absent |
| `Services.WithoutIdSubset` | src/services/taskService.ts:75 | every task left after deletion was stored before |
| `Services.SameIdsSameIndex` | src/services/taskService.ts:60 | the lookup depends only on the ids: two collections with the same ids position by position give the same index |
| `Services.AddThenFind` | src/services/taskService.ts:43-55 | a task appended with a fresh id is found at the end; every id already stored is still found where it was |
| `Services.AddKeepsInvariant` | src/services/taskService.ts:35-43 | appending a new pending task without `completedAt` and with a fresh id keeps both parts of the invariant |
| `Services.CompleteKeepsInvariant` | src/services/taskService.ts:60-67 | completion keeps every id in place and keeps the invariant, since `completed` and `completedAt` are set together |
| `Services.RecompleteRefreshes` | src/services/taskService.ts:66-67 | completing twice equals completing once at the second time: a repeated call only refreshes `completedAt` |
| `Services.FindAfterComplete` | src/services/taskService.ts:60-69 | after completion the id is found at the same index, and the task there has `completedAt = now` |
| `Services.WithoutIdKeepsOrder` | src/services/taskService.ts:75 | the tasks that remain after deletion are a subsequence of the stored ones, in their stored order |
| `Services.WithoutIdKeepsOthers` | src/services/taskService.ts:75 | every task whose id differs is kept as many times as it was stored |
| `Services.WithoutIdKeepsUniqueIds` | src/services/taskService.ts:75 | deletion keeps the ids unique |
| `Services.DeleteKeepsInvariant` | src/services/taskService.ts:72-78 | deletion keeps both parts of the invariant |
| `Services.DeleteRemovesOne` | src/services/taskService.ts:72-79 | with unique ids, deleting a stored id removes exactly one task |
| `Services.WithoutIdAppend` | src/services/taskService.ts:75 | filtering a concatenation filters each part separately |
| `Services.Lifecycle` | src/services/taskService.ts:33-80 | add with a fresh id, then complete, then delete: in between the task is found completed with its title, description and creation time; at the end the store is back to what it was |
| `Services.TaskService.constructor` | src/services/taskService.ts:8-18 | a missing file starts as the empty store, which satisfies the invariant; an existing file's content is taken as it is |
| `Services.TaskService.AddTask` | src/services/taskService.ts:33-46 | returns a task with the given title, description, id and creation time, not completed and without `completedAt`; appends exactly that task after the old tasks; keeps the invariant when the id is fresh; the task is then found by its id |
| `Services.TaskService.GetAllTasks` | src/services/taskService.ts:48-51 | returns the stored collection as it is: the same tasks in the same order, unsorted and unfiltered |
| `Services.TaskService.GetTaskById` | src/services/taskService.ts:53-56 | returns the first stored task with the id, or nothing exactly when no task has it |
| `Services.TaskService.CompleteTask` | src/services/taskService.ts:58-70 | returns nothing and writes nothing exactly when the id is absent; otherwise it writes the `CompletedStore` collection and returns the updated task, which a lookup now yields; keeps the invariant |
| `Services.TaskService.DeleteTask` | src/services/taskService.ts:72-83 | returns true exactly when some task had the id; writes the `WithoutId` collection; leaves the store unchanged when it returns false; afterwards no task has the id; keeps the invariant |

## Left out

- File access is not modelled: `fs.existsSync`, `readFileSync`, `writeFileSync` and `path.join` (src/services/taskService.ts:9-27). The file is the field `tasks`. The constructor takes the file's content, or `None` when the file does not exist.
- JSON serialisation is not modelled. That includes `Date` fields coming back as strings after `JSON.parse`. It is library behaviour outside the store.
- `generateId` (src/services/taskService.ts:29-31) uses `Date.now()` and `Math.random()`. The clock (`new Date()`, lines 40 and 67) is also not modelled. Both are nondeterministic. The id and the current time are parameters of `AddTask` and `CompleteTask`.
- Services.TaskService.AddTask: keeps unique ids only when the supplied id is fresh. `generateId` never checks for a collision, so the source gives no stronger promise.
- Nothing orders `completedAt` after `createdAt`. Both come from the clock at different calls, and the model takes each as a parameter.
- Tasks are values. In the source, `addTask` returns the same object it pushed, and `completeTask` returns the object it changed. Each call reads the file again, so no alias survives from one call to the next.
- `src/commands/index.ts` is not part of this model. It prints results, colours the output and formats dates. Its completed/pending count is display arithmetic.
- `src/index.ts` is not part of this model. It wires the `commander` command-line library to the commands.
- Priority, due dates, categories, sorted listing, search and filter are not modelled, because the code has none of them.
