/** Finitely many steps of a deterministic machine given by its step function. */
module Reach {

  datatype Option<T> = None | Some(value: T)

  ghost predicate ReachesIn<T(!new)>(step: T -> Option<T>, c: T, c': T, n: nat)
    decreases n
  {
    if n == 0 then c == c'
    else step(c).Some? && ReachesIn(step, step(c).value, c', n - 1)
  }

  ghost predicate Reaches<T(!new)>(step: T -> Option<T>, c: T, c': T) {
    exists n: nat :: ReachesIn(step, c, c', n)
  }

  lemma ReachesSelf<T(!new)>(step: T -> Option<T>, c: T)
    ensures Reaches(step, c, c)
  {
    assert ReachesIn(step, c, c, 0);
  }

  lemma ReachesStep<T(!new)>(step: T -> Option<T>, c: T)
    requires step(c).Some?
    ensures Reaches(step, c, step(c).value)
  {
    assert ReachesIn(step, step(c).value, step(c).value, 0);
    assert ReachesIn(step, c, step(c).value, 1);
  }

  lemma {:induction false} ReachesInTrans<T(!new)>(step: T -> Option<T>, c: T, c': T, c'': T, m: nat, n: nat)
    requires ReachesIn(step, c, c', m) && ReachesIn(step, c', c'', n)
    ensures ReachesIn(step, c, c'', m + n)
    decreases m
  {
    if m > 0 {
      ReachesInTrans(step, step(c).value, c', c'', m - 1, n);
    }
  }

  lemma ReachesTrans<T(!new)>(step: T -> Option<T>, c: T, c': T, c'': T)
    requires Reaches(step, c, c') && Reaches(step, c', c'')
    ensures Reaches(step, c, c'')
  {
    var m: nat :| ReachesIn(step, c, c', m);
    var n: nat :| ReachesIn(step, c', c'', n);
    ReachesInTrans(step, c, c', c'', m, n);
  }

  /** A run halts in one configuration only. */
  lemma {:induction false} HaltsInOnce<T(!new)>(step: T -> Option<T>, c: T, c': T, c'': T, m: nat, n: nat)
    requires ReachesIn(step, c, c', m) && ReachesIn(step, c, c'', n) && step(c').None? && step(c'').None?
    ensures c' == c''
    decreases m
  {
    if m > 0 && n > 0 {
      HaltsInOnce(step, step(c).value, c', c'', m - 1, n - 1);
    }
  }

  lemma HaltsOnce<T(!new)>(step: T -> Option<T>, c: T, c': T, c'': T)
    requires Reaches(step, c, c') && Reaches(step, c, c'') && step(c').None? && step(c'').None?
    ensures c' == c''
  {
    var m: nat :| ReachesIn(step, c, c', m);
    var n: nat :| ReachesIn(step, c, c'', n);
    HaltsInOnce(step, c, c', c'', m, n);
  }

  ghost predicate Commutes<T(!new), U(!new)>(step: T -> Option<T>, step': U -> Option<U>, f: T -> U) {
    forall d {:trigger step(d)} :: step(d).Some? ==> step'(f(d)) == Some(f(step(d).value))
  }

  /** A map of configurations that commutes with every step commutes with every run. */
  lemma {:induction false} ReachesMapped<T(!new), U(!new)>(step: T -> Option<T>, step': U -> Option<U>, f: T -> U, c: T,
                                                           c': T, n: nat)
    requires Commutes(step, step', f) && ReachesIn(step, c, c', n)
    ensures ReachesIn(step', f(c), f(c'), n)
    decreases n
  {
    if n > 0 {
      ReachesMapped(step, step', f, step(c).value, c', n - 1);
    }
  }

  lemma RunsMapped<T(!new), U(!new)>(step: T -> Option<T>, step': U -> Option<U>, f: T -> U, c: T, c': T)
    requires Commutes(step, step', f) && Reaches(step, c, c')
    ensures Reaches(step', f(c), f(c'))
  {
    var n: nat :| ReachesIn(step, c, c', n);
    ReachesMapped(step, step', f, c, c', n);
  }
}
