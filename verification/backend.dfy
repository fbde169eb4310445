/** What the controllers see of the hosted backend: every call settles either
    with a `{ data, error }` pair whose `error` is empty, or with a failure.
    A populated `error` and a rejected promise are handled identically by
    every caller (`if (error) throw error` inside a `try`), so they are one
    case here. */
module Backend {

  datatype Option<T> = None | Some(value: T)

  /** How one backend call settles, seen from the component awaiting it. */
  datatype Reply<T> = Answered(data: Option<T>) | Failed

  /** The `data || []` idiom: a missing payload reads as an empty list. */
  function ListOrEmpty<T>(data: Option<seq<T>>): seq<T>
  {
    match data
    case Some(xs) => xs
    case None => []
  }
}
