/** The cron engine as the scheduler sees it (robfig/cron): a table of registered entries,
    an entry-ID counter and a running flag. Parsing is the engine's own business and is
    represented by the fixed predicate `parses`. */
module Engine {
  import opened Wrappers
  import opened Tasks

  /** A registered recurrence: its schedule expression and the task its callback reports. */
  datatype Entry = Entry(spec: string, job: Task)

  datatype EngineError = InvalidSpec

  class CronEngine {
    /** Whether the engine's parser (six fields, seconds first) accepts an expression. */
    const parses: string -> bool
    var entries: map<nat, Entry>
    var nextEntry: nat
    var running: bool

    /** Entry IDs are below the counter, and only accepted expressions are registered. */
    ghost predicate Valid()
      reads this
    {
      && 1 <= nextEntry
      && forall e :: e in entries ==> 1 <= e < nextEntry && parses(entries[e].spec)
    }

    /** `cron.New(...)`: no entries, not yet running. */
    constructor (parses: string -> bool)
      ensures Valid() && this.parses == parses
      ensures entries == map[] && nextEntry == 1 && !running
    {
      this.parses := parses;
      entries := map[];
      nextEntry := 1;
      running := false;
    }

    /** `AddFunc(spec, cmd)`: registers under a fresh ID, or rejects an unparsable spec. */
    method AddFunc(spec: string, job: Task) returns (r: Result<nat, EngineError>)
      requires Valid()
      modifies this
      ensures Valid() && running == old(running)
      ensures parses(spec) ==> && r == Ok(old(nextEntry))
                               && old(nextEntry) !in old(entries)
                               && entries == old(entries)[old(nextEntry) := Entry(spec, job)]
                               && nextEntry == old(nextEntry) + 1
      ensures !parses(spec) ==> r == Err(InvalidSpec) && unchanged(this)
    {
      if !parses(spec) {
        return Err(InvalidSpec);
      }
      var id := nextEntry;
      entries := entries[id := Entry(spec, job)];
      nextEntry := nextEntry + 1;
      return Ok(id);
    }

    /** `Remove(id)`: the entry no longer fires; an unknown ID is a no-op. */
    method Remove(id: nat)
      requires Valid()
      modifies this
      ensures Valid()
      ensures entries == old(entries) - {id} && nextEntry == old(nextEntry) && running == old(running)
    {
      entries := entries - {id};
    }

    /** `Start()`: starts the clock; a second call changes nothing. */
    method Start()
      requires Valid()
      modifies this
      ensures Valid() && running
      ensures entries == old(entries) && nextEntry == old(nextEntry)
    {
      if !running {
        running := true;
      }
    }
  }
}
