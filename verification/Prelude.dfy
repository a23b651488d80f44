/** Small things that most modules need. */
module Prelude {

  datatype Option<T> = None | Some(value: T)

  /** `|s|`, counted one by one. */
  ghost function Card(s: set<nat>): nat
  {
    if s == {} then 0 else var x :| x in s; 1 + Card(s - {x})
  }

  lemma {:induction false} CardIs(s: set<nat>)
    ensures Card(s) == |s|
  {
    if s == {} {
    } else {
      var x :| x in s && Card(s) == 1 + Card(s - {x});
      CardIs(s - {x});
    }
  }

  lemma SubsetIsSmaller(a: set<nat>, b: set<nat>)
    requires a <= b
    ensures |a| <= |b|
  {
    assert b == a + (b - a);
  }
}
