/** The note record and the values that travel between the layers of the
    backend: the persisted row, the id-less title/content pair that the
    controller hands to the service, and the typed outcome of a store or
    service call. */
module Notes {

  datatype Option<T> = None | Some(value: T)

  /** A persisted note. `id` is the surrogate key the store assigns; the
      store's creation and modification timestamps are not modelled. */
  datatype Note = Note(id: nat, title: string, content: string)

  /** A note without an id: what the controller maps a request body to
      before it reaches the service (and what the client's form holds). */
  datatype NoteFields = NoteFields(title: string, content: string)

  /** How a store or service call ends. `Conflict` and `NotFound` are the
      service's own exceptions; `StorageError` is any failure raised by the
      database itself (a missing row on delete or update, a unique-index
      violation), which the backend reports as an internal error. */
  datatype Outcome<T> = Ok(value: T) | Conflict | NotFound | StorageError
}
