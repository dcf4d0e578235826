/** The scheduling coordinator of main.go: `CronScheduler` keeps `taskIDs`, a map from
    task-table IDs to cron entry IDs, consistent with the task table and the cron engine. */
module Scheduler {
  import opened Wrappers
  import opened Tasks
  import opened Store
  import opened Engine

  /** The errors the coordinator returns (main.go wraps each in fmt.Errorf). */
  datatype SchedulerError =
    | QueryFailed       // loading all tasks failed
    | CreateFailed      // inserting the new task failed
    | AddToCronFailed   // the engine rejected the new task's expression
    | TaskNotFound      // looking the task up failed
    | DeleteFailed      // deleting the task row failed

  /** The part of the state that registration changes: the engine's entries and
      counter, and the coordinator's `taskIDs`. */
  datatype Registry = Registry(entries: map<nat, Entry>, nextEntry: nat, taskIDs: map<nat, nat>)

  /** Entry IDs handed out so far are all below the counter. */
  ghost predicate Fresh(g: Registry)
  {
    forall e :: e in g.entries ==> e < g.nextEntry
  }

  /** Every key of `taskIDs` is a row of the table, and its entry is live and runs
      exactly that row. */
  ghost predicate Tracked(rows: map<nat, Task>, g: Registry)
  {
    forall k :: k in g.taskIDs ==>
      && k in rows
      && g.taskIDs[k] in g.entries
      && g.entries[g.taskIDs[k]] == Entry(rows[k].cron, rows[k])
  }

  /** The converse: every live entry is the one `taskIDs` holds for its task. */
  ghost predicate NoOrphans(g: Registry)
  {
    forall e :: e in g.entries ==> g.entries[e].job.id in g.taskIDs && g.taskIDs[g.entries[e].job.id] == e
  }

  /** The IDs of the tasks in `tasks` whose expression the engine accepts. */
  ghost function AcceptedIds(tasks: seq<Task>, parses: string -> bool): set<nat>
    decreases |tasks|
  {
    if tasks == [] then {}
    else (if parses(tasks[0].cron) then {tasks[0].id} else {}) + AcceptedIds(tasks[1..], parses)
  }

  /** An ID is accepted exactly when some task in the list carries it and its
      expression parses. */
  lemma {:induction false} AcceptedIdsMembers(tasks: seq<Task>, parses: string -> bool, k: nat)
    ensures k in AcceptedIds(tasks, parses) <==>
            exists i :: 0 <= i < |tasks| && tasks[i].id == k && parses(tasks[i].cron)
  {
    if tasks != [] {
      AcceptedIdsMembers(tasks[1..], parses, k);
      if exists i :: 0 <= i < |tasks| && tasks[i].id == k && parses(tasks[i].cron) {
        var i :| 0 <= i < |tasks| && tasks[i].id == k && parses(tasks[i].cron);
        if i > 0 {
          assert tasks[1..][i - 1] == tasks[i];
        }
      }
      if exists i :: 0 <= i < |tasks[1..]| && tasks[1..][i].id == k && parses(tasks[1..][i].cron) {
        var i :| 0 <= i < |tasks[1..]| && tasks[1..][i].id == k && parses(tasks[1..][i].cron);
        assert tasks[i + 1] == tasks[1..][i];
      }
    }
  }

  /** The IDs of the rows whose expression the engine accepts. */
  ghost function Accepted(rows: map<nat, Task>, parses: string -> bool): set<nat>
  {
    set k | k in rows && parses(rows[k].cron)
  }

  /** One registration as main.go does it: `AddFunc(t.Cron, ...)`, and on success
      `taskIDs[t.ID] = entryID`; on failure nothing changes. */
  function Register(g: Registry, t: Task, parses: string -> bool): (r: Registry)
    ensures r.taskIDs.Keys == g.taskIDs.Keys + (if parses(t.cron) then {t.id} else {})
    ensures Fresh(g) ==> Fresh(r) && forall e :: e in g.entries ==> e in r.entries && r.entries[e] == g.entries[e]
    ensures Fresh(g) && NoOrphans(g) && t.id !in g.taskIDs ==> NoOrphans(r)
  {
    if parses(t.cron) then
      Registry(g.entries[g.nextEntry := Entry(t.cron, t)], g.nextEntry + 1, g.taskIDs[t.id := g.nextEntry])
    else
      g
  }

  /** Cancelling a task's trigger: when `taskIDs` holds an entry for `id`, remove that
      entry from the engine and the key from the map; otherwise nothing changes. */
  function Unregister(g: Registry, id: nat): (r: Registry)
    ensures r.taskIDs == g.taskIDs - {id} && r.nextEntry == g.nextEntry
    ensures forall e :: e in r.entries ==> e in g.entries && r.entries[e] == g.entries[e]
    ensures Fresh(g) ==> Fresh(r)
    ensures NoOrphans(g) ==> NoOrphans(r)
  {
    if id in g.taskIDs then
      g.(entries := g.entries - {g.taskIDs[id]}, taskIDs := g.taskIDs - {id})
    else
      g
  }

  /** The registration loop of StartAllTasks, task by task in load order. A task whose
      expression is rejected gets no key; every accepted one gets one. */
  function LoadAll(tasks: seq<Task>, parses: string -> bool, g: Registry): (r: Registry)
    ensures r.taskIDs.Keys == g.taskIDs.Keys + AcceptedIds(tasks, parses)
    decreases |tasks|
  {
    if tasks == [] then
      g
    else
      LoadAll(tasks[1..], parses, Register(g, tasks[0], parses))
  }

  /** Loading keeps every entry already registered, and each entry it adds has a newly
      issued ID and runs a loaded task with an accepted expression. */
  lemma {:induction false} LoadAllKeepsEntries(tasks: seq<Task>, parses: string -> bool, g: Registry)
    requires Fresh(g)
    ensures var r := LoadAll(tasks, parses, g);
      && Fresh(r) && g.nextEntry <= r.nextEntry
      && (forall e :: e in g.entries ==> e in r.entries && r.entries[e] == g.entries[e])
      && (forall e :: e in r.entries && e !in g.entries ==>
            && g.nextEntry <= e
            && r.entries[e].job in tasks
            && r.entries[e].spec == r.entries[e].job.cron
            && parses(r.entries[e].spec))
  {
    if tasks != [] {
      LoadAllKeepsEntries(tasks[1..], parses, Register(g, tasks[0], parses));
      assert tasks[0] in tasks;
      forall t | t in tasks[1..] ensures t in tasks { }
    }
  }

  /** After loading, each accepted task maps to a newly issued entry ID, and a key no
      loaded task touched keeps its entry ID. */
  lemma {:induction false} LoadAllHandles(tasks: seq<Task>, parses: string -> bool, g: Registry)
    ensures var r := LoadAll(tasks, parses, g);
      && (forall k :: k in AcceptedIds(tasks, parses) ==> k in r.taskIDs && g.nextEntry <= r.taskIDs[k])
      && (forall k :: k in g.taskIDs && k !in AcceptedIds(tasks, parses) ==> r.taskIDs[k] == g.taskIDs[k])
  {
    if tasks != [] {
      var g' := Register(g, tasks[0], parses);
      LoadAllHandles(tasks[1..], parses, g');
    }
  }

  /** After loading, every key is still a table row and runs exactly that row. */
  lemma {:induction false} LoadAllKeepsTracked(tasks: seq<Task>, parses: string -> bool, rows: map<nat, Task>, g: Registry)
    requires Fresh(g) && Tracked(rows, g)
    requires forall t :: t in tasks ==> t.id in rows && rows[t.id] == t
    ensures Tracked(rows, LoadAll(tasks, parses, g))
  {
    if tasks != [] {
      assert tasks[0] in tasks;
      var g' := Register(g, tasks[0], parses);
      assert Tracked(rows, g') && Fresh(g');
      forall t | t in tasks[1..]
        ensures t.id in rows && rows[t.id] == t
      {
        assert t in tasks;
      }
      LoadAllKeepsTracked(tasks[1..], parses, rows, g');
    }
  }

  /** Loading tasks with distinct IDs, none of them already scheduled, leaves no entry
      that `taskIDs` does not point to. */
  lemma {:induction false} LoadAllKeepsNoOrphans(tasks: seq<Task>, parses: string -> bool, g: Registry)
    requires Fresh(g) && NoOrphans(g)
    requires forall i, j :: 0 <= i < j < |tasks| ==> tasks[i].id != tasks[j].id
    requires forall t :: t in tasks ==> t.id !in g.taskIDs
    ensures NoOrphans(LoadAll(tasks, parses, g))
  {
    if tasks != [] {
      assert tasks[0] in tasks;
      var g' := Register(g, tasks[0], parses);
      assert NoOrphans(g') && Fresh(g');
      forall t | t in tasks[1..]
        ensures t.id !in g'.taskIDs
      {
        var j :| 0 <= j < |tasks[1..]| && tasks[1..][j] == t;
        assert tasks[j + 1] == t;
        assert t in tasks;
      }
      LoadAllKeepsNoOrphans(tasks[1..], parses, g');
    }
  }

  /** A second load over the whole table while some task is already scheduled
      re-registers that task and leaves its old entry live but unreferenced. */
  lemma ReloadLeavesOrphans(tasks: seq<Task>, parses: string -> bool, rows: map<nat, Task>, g: Registry)
    requires Fresh(g) && Tracked(rows, g) && Enumerates(tasks, rows)
    requires forall e :: e in g.entries ==> parses(g.entries[e].spec)
    requires g.taskIDs != map[]
    ensures !NoOrphans(LoadAll(tasks, parses, g))
  {
    var k :| k in g.taskIDs;
    var old_entry := g.taskIDs[k];
    var i :| 0 <= i < |tasks| && tasks[i].id == k;
    assert tasks[i] == rows[k] && tasks[i] in tasks;
    AcceptedIdsMembers(tasks, parses, k);
    LoadAllKeepsEntries(tasks, parses, g);
    LoadAllHandles(tasks, parses, g);
    var r := LoadAll(tasks, parses, g);
    assert old_entry in r.entries && r.entries[old_entry].job.id == k;
    assert r.taskIDs[k] != old_entry;
  }

  /** The load order does not matter for which keys end up scheduled. */
  lemma EnumeratedAccepted(tasks: seq<Task>, parses: string -> bool, rows: map<nat, Task>)
    requires Enumerates(tasks, rows)
    ensures AcceptedIds(tasks, parses) == Accepted(rows, parses)
  {
    forall k | k in Accepted(rows, parses)
      ensures k in AcceptedIds(tasks, parses)
    {
      var i :| 0 <= i < |tasks| && tasks[i].id == k;
      AcceptedIdsMembers(tasks, parses, k);
    }
    forall k | k in AcceptedIds(tasks, parses)
      ensures k in Accepted(rows, parses)
    {
      AcceptedIdsMembers(tasks, parses, k);
    }
  }

  /** Loading the whole table, as StartAllTasks does: every row keeps running exactly
      itself; exactly the accepted rows are added to the keys; starting from an empty
      map leaves no orphan entry, and starting from a non-empty one always does. */
  lemma LoadTable(tasks: seq<Task>, parses: string -> bool, rows: map<nat, Task>, g: Registry)
    requires Fresh(g) && Tracked(rows, g) && Enumerates(tasks, rows)
    requires forall e :: e in g.entries ==> parses(g.entries[e].spec)
    ensures Tracked(rows, LoadAll(tasks, parses, g))
    ensures LoadAll(tasks, parses, g).taskIDs.Keys == g.taskIDs.Keys + Accepted(rows, parses)
    ensures g.taskIDs == map[] && NoOrphans(g) ==> NoOrphans(LoadAll(tasks, parses, g))
    ensures g.taskIDs != map[] ==> !NoOrphans(LoadAll(tasks, parses, g))
  {
    LoadAllKeepsTracked(tasks, parses, rows, g);
    EnumeratedAccepted(tasks, parses, rows);
    if g.taskIDs == map[] {
      if NoOrphans(g) {
        LoadAllKeepsNoOrphans(tasks, parses, g);
      }
    } else {
      ReloadLeavesOrphans(tasks, parses, rows, g);
    }
  }

  /** Registering a task that is not scheduled yet and then cancelling it restores
      the entries and `taskIDs`; only the entry counter has moved on. */
  lemma UnregisterUndoesRegister(g: Registry, t: Task, parses: string -> bool)
    requires Fresh(g) && t.id !in g.taskIDs && parses(t.cron)
    ensures Unregister(Register(g, t, parses), t.id) == g.(nextEntry := g.nextEntry + 1)
  {
  }

  /** Once a task's trigger is cancelled, no live entry runs that task any more. */
  lemma UnregisterCancelsTask(g: Registry, id: nat)
    requires NoOrphans(g)
    ensures forall e :: e in Unregister(g, id).entries ==> Unregister(g, id).entries[e].job.id != id
  {
  }

  class CronScheduler {
    const db: TaskStore
    const cron: CronEngine
    var taskIDs: map<nat, nat>

    /** The coordinator's invariant: collaborators well formed, every key of `taskIDs`
        a table row whose live entry runs that row. */
    ghost predicate Valid()
      reads this, db, cron
    {
      db.Valid() && cron.Valid() && Tracked(db.rows, Schedule())
    }

    /** Every live entry is the one `taskIDs` holds for its task. */
    ghost predicate Exact()
      reads this, cron
    {
      NoOrphans(Schedule())
    }

    ghost function Schedule(): Registry
      reads this, cron
    {
      Registry(cron.entries, cron.nextEntry, taskIDs)
    }

    /** `NewCronScheduler(db)`: an empty map and an engine that is not started. */
    constructor (db: TaskStore, parses: string -> bool)
      requires db.Valid()
      ensures Valid() && Exact()
      ensures this.db == db && fresh(cron) && cron.parses == parses
      ensures taskIDs == map[] && cron.entries == map[] && !cron.running
    {
      this.db := db;
      cron := new CronEngine(parses);
      taskIDs := map[];
    }

    /** Loads every row and registers each; a rejected expression skips that task only.
        Starts the engine once afterwards. Fails, changing nothing, if loading fails. */
    method StartAllTasks() returns (r: Outcome<SchedulerError>)
      requires Valid()
      modifies this, cron
      ensures Valid() && unchanged(db)
      ensures r.Fail? ==> r.error == QueryFailed && taskIDs == old(taskIDs) && unchanged(cron)
      ensures r.Pass? ==> cron.running
      ensures r.Pass? ==> exists tasks :: Enumerates(tasks, db.rows) && Schedule() == LoadAll(tasks, cron.parses, old(Schedule()))
      ensures r.Pass? ==> taskIDs.Keys == old(taskIDs).Keys + Accepted(db.rows, cron.parses)
      ensures r.Pass? ==> forall e :: e in old(cron.entries) ==> e in cron.entries && cron.entries[e] == old(cron.entries)[e]
      ensures r.Pass? && old(taskIDs) == map[] && old(Exact()) ==> Exact()
      ensures r.Pass? && old(taskIDs) != map[] ==> !Exact()
    {
      var found := db.Find();
      if found.Err? {
        return Fail(QueryFailed);
      }
      var tasks := found.value;
      ghost var start := Schedule();
      RegisterAll(tasks);
      LoadTable(tasks, cron.parses, db.rows, start);
      LoadAllKeepsEntries(tasks, cron.parses, start);
      cron.Start();
      return Pass;
    }

    /** Inserts a task row, then registers it. A failed insert changes nothing; a rejected
        expression deletes the new row again (whether that delete works is not checked)
        and leaves `taskIDs` and the engine as they were. */
    method AddTask(name: string, program: string, cronExpr: string) returns (r: Outcome<SchedulerError>)
      requires Valid()
      modifies this, db, cron
      ensures Valid() && cron.running == old(cron.running)
      ensures old(Exact()) ==> Exact()
      ensures r.Pass? || r == Fail(CreateFailed) || r == Fail(AddToCronFailed)
      ensures cron.parses(cronExpr) ==> r != Fail(AddToCronFailed)
      ensures !cron.parses(cronExpr) ==> !r.Pass?
      ensures r == Fail(CreateFailed) ==> unchanged(db) && unchanged(cron) && taskIDs == old(taskIDs)
      ensures r == Fail(AddToCronFailed) ==>
                && unchanged(cron) && taskIDs == old(taskIDs)
                && db.nextID == old(db.nextID) + 1
                && (|| db.rows == old(db.rows)
                    || db.rows == old(db.rows)[old(db.nextID) := Task(old(db.nextID), name, program, cronExpr)])
      ensures r.Pass? ==>
                var task := Task(old(db.nextID), name, program, cronExpr);
                var entryID := old(cron.nextEntry);
                && task.id !in old(db.rows) && db.rows == old(db.rows)[task.id := task]
                && db.nextID == old(db.nextID) + 1
                && task.id !in old(taskIDs) && taskIDs == old(taskIDs)[task.id := entryID]
                && entryID !in old(cron.entries) && cron.entries == old(cron.entries)[entryID := Entry(cronExpr, task)]
                && Schedule() == Register(old(Schedule()), task, cron.parses)
    {
      var created := db.Create(name, program, cronExpr);
      if created.Err? {
        return Fail(CreateFailed);
      }
      var task := created.value;
      var added := cron.AddFunc(cronExpr, task);
      if added.Err? {
        var ignored := db.Delete(task.id);
        return Fail(AddToCronFailed);
      }
      taskIDs := taskIDs[task.id := added.value];
      return Pass;
    }

    /** Deletes a task. Fails, changing nothing, when the lookup fails (always so for an
        unknown ID); otherwise cancels the task's entry if it has one (a task without one
        is normal), then deletes the row. A failed delete is reported, and the cancelled
        entry is not restored. */
    method RemoveTask(taskID: nat) returns (r: Outcome<SchedulerError>)
      requires Valid()
      modifies this, db, cron
      ensures Valid()
      ensures old(Exact()) ==> Exact()
      ensures r.Pass? || r == Fail(TaskNotFound) || r == Fail(DeleteFailed)
      ensures taskID !in old(db.rows) ==> r == Fail(TaskNotFound)
      ensures r == Fail(TaskNotFound) ==> unchanged(db) && unchanged(cron) && taskIDs == old(taskIDs)
      ensures r != Fail(TaskNotFound) ==>
                && taskID in old(db.rows)
                && taskIDs == old(taskIDs) - {taskID}
                && cron.entries == (if taskID in old(taskIDs) then old(cron.entries) - {old(taskIDs)[taskID]} else old(cron.entries))
                && cron.nextEntry == old(cron.nextEntry) && cron.running == old(cron.running)
                && db.nextID == old(db.nextID)
                && Schedule() == Unregister(old(Schedule()), taskID)
      ensures r.Pass? ==> db.rows == old(db.rows) - {taskID}
      ensures r == Fail(DeleteFailed) ==> db.rows == old(db.rows)
      ensures r != Fail(TaskNotFound) && old(Exact()) ==> forall e :: e in cron.entries ==> cron.entries[e].job.id != taskID
    {
      var found := db.First(taskID);
      if found.Err? {
        return Fail(TaskNotFound);
      }
      ghost var before := Schedule();
      if taskID in taskIDs {
        var entryID := taskIDs[taskID];
        cron.Remove(entryID);
        taskIDs := taskIDs - {taskID};
      }
      assert Schedule() == Unregister(before, taskID);
      if NoOrphans(before) {
        UnregisterCancelsTask(before, taskID);
      }
      var deleted := db.Delete(taskID);
      if deleted.Fail? {
        return Fail(DeleteFailed);
      }
      return Pass;
    }

    /** The loop of StartAllTasks: registers each loaded task in turn, recording the
        entry ID of each accepted one and skipping each rejected one. */
    method RegisterAll(tasks: seq<Task>)
      requires cron.Valid()
      modifies this, cron
      ensures cron.Valid() && cron.running == old(cron.running)
      ensures Schedule() == LoadAll(tasks, cron.parses, old(Schedule()))
    {
      ghost var start := Schedule();
      for i := 0 to |tasks|
        invariant cron.Valid() && cron.running == old(cron.running)
        invariant LoadAll(tasks[i..], cron.parses, Schedule()) == LoadAll(tasks, cron.parses, start)
      {
        var task := tasks[i];
        ghost var before := Schedule();
        assert tasks[i..][1..] == tasks[i + 1..];
        var added := cron.AddFunc(task.cron, task);
        if added.Ok? {
          taskIDs := taskIDs[task.id := added.value];
        }
        assert Schedule() == Register(before, task, cron.parses);
      }
      assert tasks[|tasks|..] == [];
    }
  }

  /** AddTask followed by RemoveTask of the ID it created: when both calls succeed, the
      table, `taskIDs` and the engine's entries are back to what they were. */
  method AddThenRemove(s: CronScheduler, name: string, program: string, cronExpr: string)
    returns (added: Outcome<SchedulerError>, removed: Outcome<SchedulerError>)
    requires s.Valid()
    modifies s, s.db, s.cron
    ensures s.Valid()
    ensures added.Pass? && removed.Pass? ==>
              && s.db.rows == old(s.db.rows)
              && s.taskIDs == old(s.taskIDs)
              && s.cron.entries == old(s.cron.entries)
  {
    var id := s.db.nextID;
    added := s.AddTask(name, program, cronExpr);
    removed := Fail(TaskNotFound);
    if added.Pass? {
      removed := s.RemoveTask(id);
      if removed.Pass? {
        assert s.db.rows == old(s.db.rows);
        assert s.taskIDs == old(s.taskIDs);
        assert s.cron.entries == old(s.cron.entries);
      }
    }
  }
}
