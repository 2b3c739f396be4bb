/** The records of the task store (src/types/index.ts). */
module Types {

  /** An optional field of a record: `undefined` in the store is `None`. */
  datatype Option<+T> = None | Some(value: T)

  /** A `Date`, as the milliseconds since the epoch it holds. */
  type Timestamp = int

  /** One stored task. `completedAt` is meant to be present exactly when
      `completed` holds; the store keeps that as an invariant (see
      `Services.CompletionConsistent`), the record type itself does not. */
  datatype Task = Task(
    id: string,
    title: string,
    description: Option<string>,
    completed: bool,
    createdAt: Timestamp,
    completedAt: Option<Timestamp>)
}
