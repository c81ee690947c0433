/** Ranging over a map or set, whose order the language leaves open, and counting conditions. */
module Sets {
  function One(b: bool): nat {
    if b then 1 else 0
  }

  /** Some element: which one is not determined. */
  method Pick<T>(s: set<T>) returns (x: T)
    requires s != {}
    ensures x in s
  {
    x :| x in s;
  }
}
