/** The `Option` of the iterator protocol, and `next()` on an iterator seen as the list of
    items it still has to yield. */
module Options {

  datatype Option<T> = None | Some(value: T)

  /** The item `next()` returns on an iterator whose remaining items are `s`. */
  function First<T>(s: seq<T>): (r: Option<T>)
  {
    if s == [] then None else Some(s[0])
  }

  /** The items left after that call; an exhausted iterator stays exhausted. */
  function Rest<T>(s: seq<T>): (r: seq<T>)
  {
    if s == [] then [] else s[1..]
  }
}
