/** The persisted task record (main.go, type Task). */
module Tasks {

  /** One row of the task table: the store assigns `id`; `program` is opaque to the
      scheduler and `cron` is a six-field (seconds first) recurrence expression. */
  datatype Task = Task(id: nat, name: string, program: string, cron: string)
}
