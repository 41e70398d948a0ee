/** Picking an element of a set. */
module Sets {
  lemma {:induction false} AnyOf<T>(a: set<T>) returns (x: T)
    requires a != {}
    ensures x in a
  {
    x :| x in a;
  }
}
