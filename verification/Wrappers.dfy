/** What every module uses. */
module Wrappers {
  /** The conventional optional value; None stands for the C sources' NULL. */
  datatype Option<+T> = None | Some(value: T)

  lemma Associative<T>(a: seq<T>, b: seq<T>, c: seq<T>)
    ensures a + b + c == a + (b + c)
  {
  }
}
