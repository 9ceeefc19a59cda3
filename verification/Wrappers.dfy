/** Failure-carrying values, and facts about sets, shared by the model. */
module Wrappers {

  datatype Option<+T> = None | Some(value: T) {
    function UnwrapOr(default: T): T {
      if Some? then value else default
    }
  }

  datatype Result<+T, +E> = Ok(value: T) | Err(error: E) {
    function ToOption(): Option<T> {
      if Ok? then Some(value) else None
    }
  }

  lemma SubsetIsNotLarger<T>(a: set<T>, b: set<T>)
    requires a <= b
    ensures |a| <= |b|
  {
    assert b == a + (b - a);
    assert |a + (b - a)| == |a| + |b - a|;
  }

  /** There is always another name. */
  lemma {:induction false} NewName(names: set<string>) returns (name: string)
    ensures name !in names
  {
    var n := LongerThan(names);
    name := seq(n, i => 'n');
    assert |name| == n;
  }

  lemma {:induction false} LongerThan(names: set<string>) returns (n: nat)
    ensures forall name :: name in names ==> |name| < n
    decreases names
  {
    n := 0;
    if names != {} {
      var name :| name in names;
      n := LongerThan(names - {name});
      n := if |name| < n then n else |name| + 1;
    }
  }
}
