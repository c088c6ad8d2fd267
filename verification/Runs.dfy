/** Runs of a step relation, and induction along them. */
module Runs {
  import opened Wrappers

  /** n steps lead from `start` to s. */
  ghost predicate Reaches<S(!new)>(next: (S, S) -> bool, start: S, n: nat, s: S) {
    if n == 0 then s == start else exists m :: Reaches(next, start, n - 1, m) && next(m, s)
  }

  /** A numbered invariant that every step advances by one holds after n steps with the number advanced by n. */
  lemma {:induction false} RunInvariant<S(!new)>(next: (S, S) -> bool, good: (S, nat) -> bool,
                                                 start: S, c: nat, n: nat, s: S)
    requires forall a, b, k: nat | good(a, k) && next(a, b) :: good(b, k + 1)
    requires good(start, c) && Reaches(next, start, n, s)
    ensures good(s, c + n)
    decreases n
  {
    if n > 0 {
      var m :| Reaches(next, start, n - 1, m) && next(m, s);
      RunInvariant(next, good, start, c, n - 1, m);
      assert good(m, c + (n - 1));
    }
  }

  /** f applied n times, unless it gets stuck. */
  function Iterate<S>(f: S -> Option<S>, s: S, n: nat): Option<S>
    decreases n
  {
    if n == 0 then Some(s)
    else match f(s)
      case None => None
      case Some(s') => Iterate(f, s', n - 1)
  }

  /** One application takes state k to state k - 1, and state 0 nowhere. */
  ghost predicate CountsDown<S>(f: S -> Option<S>, state: int -> S, k: nat) {
    f(state(k)) == if k == 0 then None else Some(state(k - 1))
  }

  /** States that count down by one a round and get stuck at zero last exactly as many rounds as they say. */
  lemma {:induction false} Countdown<S>(f: S -> Option<S>, state: int -> S, s: S, free: nat, n: nat)
    requires s == state(free) && forall k: nat | k <= free :: CountsDown(f, state, k)
    ensures Iterate(f, s, n) == if n <= free then Some(state(free - n)) else None
    decreases n
  {
    if n > 0 {
      assert CountsDown(f, state, free);
      if free > 0 { Countdown(f, state, state(free - 1), free - 1, n - 1); }
    }
  }
}
