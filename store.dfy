/** The task table as the scheduler sees it through gorm: a map from primary key to row,
    an auto-increment counter, and four calls each of which may fail. */
module Store {
  import opened Wrappers
  import opened Tasks

  /** Why a store call failed: the row is absent, or the database did not serve the call. */
  datatype DbError = RecordNotFound | Unavailable

  /** `s` lists every row of `rows` exactly once, in no particular order. */
  ghost predicate Enumerates(s: seq<Task>, rows: map<nat, Task>)
  {
    && (forall i :: 0 <= i < |s| ==> s[i].id in rows && rows[s[i].id] == s[i])
    && (forall i, j :: 0 <= i < j < |s| ==> s[i].id != s[j].id)
    && (forall id :: id in rows ==> exists i :: 0 <= i < |s| && s[i].id == id)
  }

  class TaskStore {
    var rows: map<nat, Task>
    var nextID: nat

    /** Every row sits under its own primary key, and keys are below the counter. */
    ghost predicate Valid()
      reads this
    {
      && 1 <= nextID
      && forall id :: id in rows ==> 1 <= id < nextID && rows[id].id == id
    }

    /** `db.Find(&tasks)`: all rows, or an error when the database cannot be queried. */
    method Find() returns (r: Result<seq<Task>, DbError>)
      requires Valid()
      ensures r.Ok? ==> Enumerates(r.value, rows)
      ensures r.Err? ==> r.error == Unavailable
    {
      var unavailable: bool :| true;
      if unavailable {
        return Err(Unavailable);
      }
      var pending := rows.Keys;
      var out: seq<Task> := [];
      while pending != {}
        invariant pending <= rows.Keys
        invariant forall i :: 0 <= i < |out| ==> out[i].id in rows && rows[out[i].id] == out[i] && out[i].id !in pending
        invariant forall i, j :: 0 <= i < j < |out| ==> out[i].id != out[j].id
        invariant forall id :: id in rows && id !in pending ==> exists i :: 0 <= i < |out| && out[i].id == id
        decreases pending
      {
        var id :| id in pending;
        ghost var listed := out;
        out := out + [rows[id]];
        forall k | k in rows && k !in pending - {id}
          ensures exists i :: 0 <= i < |out| && out[i].id == k
        {
          if k == id {
            assert out[|listed|].id == k;
          } else {
            var i :| 0 <= i < |listed| && listed[i].id == k;
            assert out[i].id == k;
          }
        }
        pending := pending - {id};
      }
      return Ok(out);
    }

    /** `db.Create(&task)`: inserts a row under a fresh key and returns it with its ID set. */
    method Create(name: string, program: string, cron: string) returns (r: Result<Task, DbError>)
      requires Valid()
      modifies this
      ensures Valid()
      ensures r.Ok? ==> && r.value == Task(old(nextID), name, program, cron)
                        && r.value.id !in old(rows)
                        && rows == old(rows)[r.value.id := r.value]
                        && nextID == old(nextID) + 1
      ensures r.Err? ==> r.error == Unavailable && unchanged(this)
    {
      var unavailable: bool :| true;
      if unavailable {
        return Err(Unavailable);
      }
      var task := Task(nextID, name, program, cron);
      rows := rows[nextID := task];
      nextID := nextID + 1;
      return Ok(task);
    }

    /** `db.First(&task, id)`: the row with that key; absent rows always fail. */
    method First(id: nat) returns (r: Result<Task, DbError>)
      requires Valid()
      ensures r.Ok? ==> id in rows && r.value == rows[id]
      ensures id !in rows ==> r == Err(RecordNotFound)
    {
      var unavailable: bool :| true;
      if id !in rows {
        return Err(RecordNotFound);
      } else if unavailable {
        return Err(Unavailable);
      }
      return Ok(rows[id]);
    }

    /** `db.Delete(&Task{}, id)`: removes the row with that key; deleting an absent key
        affects no row and is not an error. */
    method Delete(id: nat) returns (r: Outcome<DbError>)
      requires Valid()
      modifies this
      ensures Valid() && nextID == old(nextID)
      ensures r.Pass? ==> rows == old(rows) - {id}
      ensures r.Fail? ==> r.error == Unavailable && unchanged(this)
    {
      var unavailable: bool :| true;
      if unavailable {
        return Fail(Unavailable);
      }
      rows := rows - {id};
      return Pass;
    }
  }
}
