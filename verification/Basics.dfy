/** Small types shared by every other module. */
module Basics {

  datatype Option<+T> = None | Some(value: T)

  /** One certificate of one spoke: the primary key of the per-certificate tables. */
  type Key = (string, string)

  /** Instants are counted in nanoseconds from Go's zero time. */
  const ZERO_TIME := 0

  function Elements<T>(s: seq<T>): set<T>
  {
    set x | x in s
  }

  /** `s` lists exactly the elements of `elements`, each one once: a table or map read in some row order. */
  ghost predicate Enumerates<T(!new)>(s: seq<T>, elements: set<T>)
  {
    && (forall x :: x in s <==> x in elements)
    && (forall i, j :: 0 <= i < j < |s| ==> s[i] != s[j])
  }
}
