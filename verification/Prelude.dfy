/** Small datatypes and functions shared by the models of the individual components. */
module Prelude {

  datatype Option<+T> = None | Some(value: T)

  datatype Result<+T, +E> = Ok(value: T) | Err(error: E)

  /** A triple with its graph, in dictionary ids. */
  datatype Quad = Quad(s: int, p: int, o: int, g: int) {
    function Values(): seq<int> {
      [s, p, o, g]
    }
  }

  function Min(a: int, b: int): int {
    if a <= b then a else b
  }

  function One(b: bool): nat {
    if b then 1 else 0
  }

  function Elements<T>(s: seq<T>): set<T> {
    set x | x in s
  }

  predicate Distinct<T(==)>(s: seq<T>) {
    forall i, j :: 0 <= i < j < |s| ==> s[i] != s[j]
  }
}
