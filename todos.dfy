/** The one entity of the application, as the client holds it and the store keeps it. */
module Todos {
  import opened Wrappers
  import opened LocalTime

  /**
   * A todo. `scheduledAt` is None for a backlog (unscheduled) todo; a scheduled
   * time at local midnight means "all day". The client receives both times as
   * ISO strings and the model keeps the instants they denote.
   */
  datatype Todo = Todo(
    id: string,
    text: string,
    scheduledAt: Option<Instant>,
    completed: bool,
    createdAt: Instant)
}
