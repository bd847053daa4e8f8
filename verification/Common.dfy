/** Shared helpers. */
module Common {

  datatype Option<+T> = None | Some(value: T)

  lemma Associates<T>(a: seq<T>, b: seq<T>, c: seq<T>)
    ensures a + (b + c) == a + b + c
  {
  }

  /** A number outside a finite set; which one is not said. */
  method Fresh(used: set<nat>) returns (n: nat)
    ensures n !in used
  {
    n := 0;
    var rest := used;
    while rest != {}
      invariant rest <= used
      invariant forall u :: u in used && u !in rest ==> u < n
      decreases rest
    {
      var u :| u in rest;
      rest := rest - {u};
      if u >= n { n := u + 1; }
    }
  }
}
