# Cron task scheduler coordinator, modelled in Dafny

The repository keeps recurring tasks (name, program, six-field cron expression) in a
MySQL table through gorm and fires them with the robfig/cron engine. Its logic is the
coordinator `CronScheduler` in `main.go`. It holds `taskIDs`, a map from task-table IDs
to cron entry IDs, and keeps that map consistent with the table and the engine in three
operations:

- `StartAllTasks` loads every row, registers each one, skips the ones the engine rejects,
  then starts the engine.
- `AddTask` inserts a row and registers it. When registration fails it deletes the new
  row again.
- `RemoveTask` looks the row up, cancels its entry if it has one, then deletes the row.

The model is imperative, like the source:

- `tasks.dfy`: `Task`, the persisted record.
- `store.dfy`: `Store.TaskStore`, a class standing for the gorm handle. It holds a map
  from primary key to row and an auto-increment counter. `Find`, `Create`, `First` and
  `Delete` are methods. `Find` scans the result rows one at a time into a list. Each of them may fail at any call, as a database can; the
  failure is chosen nondeterministically.
- `engine.dfy`: `Engine.CronEngine`, a class standing for the cron engine. It holds the
  live entries, the entry-ID counter and the running flag. Each `Entry` records its
  schedule expression and the task its callback reports. Whether an expression parses
  is the engine's fixed predicate `parses`, which is given at construction.
- `scheduler.dfy`: `Scheduler.CronScheduler` with the field `taskIDs`. Its methods
  sequence the collaborator calls as `main.go` does. The value-level functions
  `Register`, `Unregister` and `LoadAll` give the effect of registration, cancellation
  and the start-up loop on `Registry` (entries, entry counter, `taskIDs`). The lemmas
  are about these functions.

The invariant `CronScheduler.Valid()` holds after every operation, whatever the store
does. Through `Tracked`, it says that every key of `taskIDs` is a row of the table, and
that the entry that key maps to is live and runs exactly that row.

The converse, `Exact()` (`NoOrphans`), says that every live entry is the one `taskIDs`
holds for its task. `AddTask` and `RemoveTask` preserve it. `StartAllTasks` establishes
it from the initial state. A second `StartAllTasks` while any task is scheduled always
breaks it: the old entries stay registered and keep firing, but the map no longer
refers to them (`ReloadLeavesOrphans`).

## Model

| member | source | states |
|---|---|---|
| `Store.TaskStore.Find` | main.go:45-49 | Either fails, or returns every row of the table exactly once (in no particular order). |
| `Store.TaskStore.Create` | main.go:74-81 | On success, adds exactly one row under the fresh key `nextID`, holding the given name, program and cron. On failure the table is unchanged. |
| `Store.TaskStore.First` | main.go:102-105 | A row is returned only if it is the table's row for that key. An absent key always fails. |
| `Store.TaskStore.Delete` | main.go:113-116 | On success the key is gone and no other row changed. On failure the table is unchanged. |
| `Engine.CronEngine.constructor` | main.go:36-38 | A new engine has no entries and is not running. |
| `Engine.CronEngine.AddFunc` | main.go:84-91 | An accepted expression is registered under a fresh entry ID, which is returned. A rejected one returns an error and changes nothing. |
| `Engine.CronEngine.Remove` | main.go:109 | Removes exactly that entry. An unknown ID is a no-op. |
| `Engine.CronEngine.Start` | main.go:66-67 | The engine is running afterwards. Entries are untouched. |
| `Scheduler.Register` | main.go:53-62 | Registering a task adds its ID to the keys of `taskIDs` exactly when the engine accepts its expression (the same step is main.go:84-94 in `AddTask`). Every existing entry stays, entry IDs stay fresh, and a task that was not scheduled keeps `NoOrphans`. |
| `Scheduler.Unregister` | main.go:108-111 | Cancelling removes exactly the ID from `taskIDs`, only ever removes entries, leaves the entry counter, and keeps freshness and `NoOrphans`. |
| `Scheduler.AcceptedIdsMembers` | main.go:51-62 | An ID gets a key from the loop exactly when some loaded task carries it and the engine accepts that task's expression. |
| `Scheduler.LoadAll` | main.go:51-65 | After the loop, the keys of `taskIDs` are the old keys plus the IDs of the loaded tasks whose expression is accepted. A rejected task gets no key. |
| `Scheduler.LoadAllKeepsEntries` | main.go:51-65 | The loop keeps every entry already registered. Each entry it adds has a newly issued ID. That entry runs a loaded task under that task's own expression, and the expression is accepted. |
| `Scheduler.LoadAllHandles` | main.go:51-65 | Each accepted task is mapped to an entry ID issued during the loop. A key that no accepted task carries keeps its entry ID. |
| `Scheduler.LoadAllKeepsTracked` | main.go:51-64 | Every key still names a row whose live entry runs exactly that row. |
| `Scheduler.LoadAllKeepsNoOrphans` | main.go:51-64 | Suppose the loaded tasks have distinct IDs and none of them is already scheduled. Then no entry is left that `taskIDs` does not point to. |
| `Scheduler.ReloadLeavesOrphans` | main.go:44-68 | Suppose `taskIDs` is already non-empty when the whole table is loaded. Then some live entry is no longer referenced by the map. |
| `Scheduler.LoadTable` | main.go:44-68 | Loading the whole table keeps `Tracked`. The scheduled keys become the old keys plus exactly the rows whose expression parses. Starting from an empty map and no live entries gives `NoOrphans`; starting from a non-empty map breaks it. |
| `Scheduler.EnumeratedAccepted` | main.go:45-51 | Which IDs get scheduled does not depend on the order in which the store lists the rows. |
| `Scheduler.UnregisterUndoesRegister` | main.go:84-111 | Take a task that is not yet scheduled. Registering it and then cancelling it restores the entries and `taskIDs`; only the entry counter has advanced. |
| `Scheduler.UnregisterCancelsTask` | main.go:107-111 | Under `NoOrphans`, once a task is cancelled no live entry runs it. |
| `Scheduler.CronScheduler.constructor` | main.go:29-41 | The map is empty and the engine has no entries and is not started. `Valid()` and `Exact()` hold. |
| `Scheduler.CronScheduler.StartAllTasks` | main.go:44-69 | A failed load returns an error and changes neither `taskIDs` nor the engine; the engine is not started. Otherwise the new state is `LoadAll` over an enumeration of the table: the keys gain exactly the accepted rows and existing entries stay. The engine is then running and the call succeeds. `Valid()` is kept. From an empty map `Exact()` is kept; from a non-empty map it is lost. |
| `Scheduler.CronScheduler.RegisterAll` | main.go:51-65 | The registration loop leaves exactly the state `LoadAll` describes. |
| `Scheduler.CronScheduler.AddTask` | main.go:72-97 | A failed insert returns an error and changes nothing. For a rejected expression the call fails, and `taskIDs` and the engine are unchanged. The table then holds either the old rows or the old rows plus the new one: the compensating delete's result is not checked. On success there is one new row with a fresh ID and one new key mapped to the new entry, which runs that row; the row counter advances by one and nothing else changes. It succeeds only if the expression parses. `Valid()` and `Exact()` are preserved. |
| `Scheduler.CronScheduler.RemoveTask` | main.go:100-120 | An unknown ID (or any failed lookup) returns an error and changes nothing. Otherwise any entry the map holds for the ID is removed from the engine and the map. A missing entry is tolerated. The row is then deleted. If that delete fails, an error is returned, the row stays and the map entry is not restored. `Valid()` and `Exact()` are preserved. Under `Exact()`, no live entry runs the task afterwards. |
| `Scheduler.AddThenRemove` | main.go:72-120 | Adding a task and then removing the ID it was given: when both calls succeed, the table, `taskIDs` and the engine's entries are exactly as before. |

## Left out

- The timezone (`time.LoadLocation`) and its `log.Fatalf` are not modelled. Nor are `cron.WithLocation` and `cron.WithSeconds`. The engine's parser is the predicate `parses`.
- When entries fire, and the callbacks' output, are not modelled. An entry records only which task its callback reports.
- Logging (`log.Printf`, `fmt.Printf`) is not modelled, and errors carry a kind, not the formatted message.
- `initDB` is not part of this model. That covers the DSN, the connection, `AutoMigrate` and the seeding of sample tasks. A store starts as any valid table.
- `main` is not part of this model. That covers the demo goroutine, its sleeps, the hard-coded `RemoveTask(1)` and `select {}`.
- Concurrency is not modelled. The source takes no lock around `taskIDs`, and the operations are modelled as sequential steps.
- Store failures are nondeterministic. Nothing models why a database call fails.
- IDs are unbounded naturals, not Go `uint` / `cron.EntryID`. Wrap-around cannot occur at realistic counts.
- Callbacks in `StartAllTasks` are modelled as capturing their own task. This holds under Go 1.22+ per-iteration loop variables. Under older Go every callback would report the last loaded task.
- `main.go` takes no lock around `taskIDs`; the model has none either.
- `AddTask` ignores the result of its compensating delete (main.go:89) and returns only the registration error.
- `RemoveTask` reports any failed `First` as "not found" (main.go:103-104), not only an absent row.
