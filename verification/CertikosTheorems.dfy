/** Whole runs of the CertiKOS monitor: partition, round robin, process independence. */
module CertikosTheorems {
  import opened CertikosSpec
  import opened CertikosInvariant

  // ---------------------------------------------------------------- runs

  /** Each act can be taken in turn by whoever is current then. */
  ghost predicate Feasible(k: Params, s: State, acts: seq<Act>)
    requires Inv(k, s)
    decreases |acts|
  {
    acts == [] ||
      (Allowed(s, acts[0]) &&
       (StepKeepsInv(k, s, acts[0]); Feasible(k, Step(k, s, acts[0]), acts[1..])))
  }

  ghost function Run(k: Params, s: State, acts: seq<Act>): State
    requires Inv(k, s) && Feasible(k, s, acts)
    decreases |acts|
  {
    if acts == [] then s
    else
      StepKeepsInv(k, s, acts[0]);
      Run(k, Step(k, s, acts[0]), acts[1..])
  }

  /** In every reachable state the windows partition the pages, the PMP holds the current
      window, and a running process has a running owner. */
  lemma {:induction false} RunKeepsInv(k: Params, s: State, acts: seq<Act>)
    requires Inv(k, s) && Feasible(k, s, acts)
    ensures Inv(k, Run(k, s, acts))
    decreases |acts|
  {
    if acts != [] {
      StepKeepsInv(k, s, acts[0]);
      RunKeepsInv(k, Step(k, s, acts[0]), acts[1..]);
    }
  }

  /** PMP entry 1, a TOR entry over the address registers 0 and 1. */
  predicate Grants(s: State, address: nat) {
    s.pmp0 * 4 <= address < s.pmp1 * 4
  }

  predicate InPage(k: Params, n: nat, address: nat) {
    k.PageAddress(n) <= address < k.PageAddress(n) + 4096
  }

  lemma PmpScale(k: Params, n: nat)
    requires k.Valid()
    ensures k.PmpFor(n) * 4 == k.PageAddress(n)
  {
    FourTimes(k.PageAddress(n), k.base / 4096 * 1024 + n * 1024);
  }

  lemma FourTimes(x: int, y: int)
    requires x == 4 * y
    ensures x / 4 * 4 == x
  {
  }

  ghost predicate InWindow(k: Params, lower: nat, upper: nat, address: nat) {
    exists n: nat :: lower <= n < upper && InPage(k, n, address)
  }

  lemma WindowBounds(k: Params, lower: nat, upper: nat, address: nat)
    requires k.Valid() && lower <= upper
    ensures InWindow(k, lower, upper, address) <==> k.PageAddress(lower) <= address < k.PageAddress(upper)
  {
    if k.PageAddress(lower) <= address < k.PageAddress(upper) {
      var n := (address - k.base) / 4096;
      assert InPage(k, n, address);
    }
  }

  /** In every reachable state the hart lets the current process at exactly the pages of its window. */
  lemma PmpIsWindow(k: Params, s: State, address: nat)
    requires Inv(k, s)
    ensures Grants(s, address) <==> InWindow(k, s.procs[s.current].lower, s.procs[s.current].upper, address)
  {
    var p := s.procs[s.current];
    assert WindowOk(k, p);
    PmpScale(k, p.lower);
    PmpScale(k, p.upper);
    WindowBounds(k, p.lower, p.upper, address);
  }

  // ---------------------------------------------------------------- round robin

  predicate IsYield(a: Act) {
    a.user.regs[A7] == NR_YIELD
  }

  /** The process that is `n` places after the current one. */
  function Ahead(procs: seq<Proc>, p: nat, n: nat): nat
    decreases n
  {
    if n == 0 then p else if p < |procs| then Ahead(procs, procs[p].next, n - 1) else p
  }

  lemma YieldMoves(k: Params, s: State, a: Act)
    requires Inv(k, s) && Allowed(s, a) && IsYield(a)
    ensures Sane(k, s) && Step(k, s, a).current == s.procs[s.current].next
    ensures forall p :: 0 <= p < |s.procs| ==>
      Step(k, s, a).procs[p].next == s.procs[p].next && Step(k, s, a).procs[p].run == s.procs[p].run
  {
    InvSane(k, s);
  }

  lemma {:induction false} AheadSame(procs: seq<Proc>, procs': seq<Proc>, p: nat, n: nat)
    requires |procs'| == |procs| && forall q :: 0 <= q < |procs| ==> procs'[q].next == procs[q].next
    ensures Ahead(procs', p, n) == Ahead(procs, p, n)
    decreases n
  {
    if n > 0 && p < |procs| {
      AheadSame(procs, procs', procs[p].next, n - 1);
    }
  }

  ghost predicate AllYield(acts: seq<Act>) {
    forall i {:trigger acts[i]} :: 0 <= i < |acts| ==> IsYield(acts[i])
  }

  lemma {:induction false} YieldsGoAhead(k: Params, s: State, acts: seq<Act>)
    requires Inv(k, s) && Feasible(k, s, acts) && AllYield(acts)
    ensures Run(k, s, acts).current == Ahead(s.procs, s.current, |acts|)
    decreases |acts|
  {
    if acts != [] {
      StepKeepsInv(k, s, acts[0]);
      var s1 := Step(k, s, acts[0]);
      YieldMoves(k, s, acts[0]);
      assert AllYield(acts[1..]);
      YieldsGoAhead(k, s1, acts[1..]);
      AheadSame(s.procs, s1.procs, s1.current, |acts| - 1);
    }
  }

  /** Index i + n on a ring, for n up to its length. */
  function Around(i: nat, n: nat, len: nat): nat
    requires i < len && n <= len
  {
    if i + n < len then i + n else i + n - len
  }

  lemma {:induction false} AheadOnRing(procs: seq<Proc>, ring: seq<nat>, i: nat, n: nat)
    requires IsRing(procs, ring) && i < |ring| && n <= |ring|
    ensures Around(i, n, |ring|) < |ring| && Ahead(procs, ring[i], n) == ring[Around(i, n, |ring|)]
    decreases n
  {
    if n > 0 {
      assert Linked(procs, ring, i);
      AheadOnRing(procs, ring, if i + 1 < |ring| then i + 1 else 0, n - 1);
    }
  }

  ghost predicate Visits(procs: seq<Proc>, cur: nat, n: nat, p: nat) {
    exists i: nat :: i < n && Ahead(procs, cur, i) == p
  }

  lemma YieldsReach(procs: seq<Proc>, ring: seq<nat>, cur: nat, p: nat)
    requires IsRing(procs, ring) && cur < |procs| && procs[cur].run && p < |procs| && procs[p].run
    ensures Visits(procs, cur, |ring|, p)
  {
    var c := RingAt(procs, ring, cur);
    var j := RingAt(procs, ring, p);
    var i := if j >= c then j - c else j - c + |ring|;
    AheadOnRing(procs, ring, c, i);
    assert Ahead(procs, cur, i) == p;
  }

  lemma YieldsDiffer(procs: seq<Proc>, ring: seq<nat>, cur: nat, i: nat, j: nat)
    requires IsRing(procs, ring) && cur < |procs| && procs[cur].run && i < j < |ring|
    ensures Ahead(procs, cur, i) != Ahead(procs, cur, j)
  {
    var c := RingAt(procs, ring, cur);
    AheadOnRing(procs, ring, c, i);
    AheadOnRing(procs, ring, c, j);
  }

  /** With n running processes, n yields visit each of them exactly once and come back. */
  lemma YieldsVisitAll(procs: seq<Proc>, ring: seq<nat>, cur: nat)
    requires IsRing(procs, ring) && cur < |procs| && procs[cur].run
    ensures Ahead(procs, cur, |ring|) == cur
    ensures forall p {:trigger Visits(procs, cur, |ring|, p)} :: 0 <= p < |procs| && procs[p].run ==>
      Visits(procs, cur, |ring|, p)
    ensures forall i, j {:trigger Ahead(procs, cur, i), Ahead(procs, cur, j)} ::
      0 <= i < j < |ring| ==> Ahead(procs, cur, i) != Ahead(procs, cur, j)
  {
    var c := RingAt(procs, ring, cur);
    AheadOnRing(procs, ring, c, |ring|);
    forall p {:trigger Visits(procs, cur, |ring|, p)} | 0 <= p < |procs| && procs[p].run
      ensures Visits(procs, cur, |ring|, p) {
      YieldsReach(procs, ring, cur, p);
    }
    forall i, j {:trigger Ahead(procs, cur, i), Ahead(procs, cur, j)} | 0 <= i < j < |ring|
      ensures Ahead(procs, cur, i) != Ahead(procs, cur, j)
    {
      YieldsDiffer(procs, ring, cur, i, j);
    }
  }

  /** The ring has one place for each running process. */
  lemma RingSize(procs: seq<Proc>, ring: seq<nat>)
    requires IsRing(procs, ring)
    ensures |ring| == |set p | 0 <= p < |procs| && procs[p].run|
  {
    var runs := set p | 0 <= p < |procs| && procs[p].run;
    forall p ensures p in runs <==> p in Elements(ring) {
      if p in runs {
        assert OnRing(ring, p);
      }
      if p in Elements(ring) {
        var i :| 0 <= i < |ring| && ring[i] == p;
        assert Linked(procs, ring, i);
      }
    }
    assert runs == Elements(ring);
    ElementsSize(ring);
  }

  ghost function Elements(ring: seq<nat>): set<int> {
    set i | 0 <= i < |ring| :: ring[i]
  }

  lemma {:induction false} ElementsSize(ring: seq<nat>)
    requires forall i, j {:trigger ring[i], ring[j]} :: 0 <= i < j < |ring| ==> ring[i] != ring[j]
    ensures |Elements(ring)| == |ring|
    decreases |ring|
  {
    if ring != [] {
      var n := |ring| - 1;
      ElementsSize(ring[..n]);
      assert Elements(ring) == Elements(ring[..n]) + {ring[n]};
      assert ring[n] !in Elements(ring[..n]);
    }
  }

  lemma {:induction false} FeasiblePrefix(k: Params, s: State, acts: seq<Act>, n: nat)
    requires Inv(k, s) && Feasible(k, s, acts) && n <= |acts|
    ensures Feasible(k, s, acts[..n])
    decreases |acts|
  {
    if n > 0 {
      StepKeepsInv(k, s, acts[0]);
      FeasiblePrefix(k, Step(k, s, acts[0]), acts[1..], n - 1);
      assert acts[..n][1..] == acts[1..][..n - 1];
    }
  }

  ghost predicate RunsAt(k: Params, s: State, acts: seq<Act>, p: nat, i: nat)
    requires Inv(k, s) && Feasible(k, s, acts)
  {
    i <= |acts| && (FeasiblePrefix(k, s, acts, i); Run(k, s, acts[..i]).current == p)
  }

  /** Round robin: as many yields as there are running processes come back to the start, and give
      each of them exactly one turn on the way. */
  lemma RoundRobin(k: Params, s: State, acts: seq<Act>)
    requires Inv(k, s) && Feasible(k, s, acts) && AllYield(acts)
    requires |acts| == |set p | 0 <= p < |s.procs| && s.procs[p].run|
    ensures Run(k, s, acts).current == s.current
    ensures forall p {:trigger s.procs[p]} :: 0 <= p < |s.procs| && s.procs[p].run ==>
      exists i :: 0 <= i < |acts| && RunsAt(k, s, acts, p, i)
        && forall j :: 0 <= j < |acts| && RunsAt(k, s, acts, p, j) ==> j == i
  {
    var ring :| IsRing(s.procs, ring);
    RingSize(s.procs, ring);
    YieldsGoAhead(k, s, acts);
    YieldsVisitAll(s.procs, ring, s.current);
    forall p {:trigger s.procs[p]} | 0 <= p < |s.procs| && s.procs[p].run
      ensures exists i ::
        && 0 <= i < |acts| && RunsAt(k, s, acts, p, i)
        && forall j :: 0 <= j < |acts| && RunsAt(k, s, acts, p, j) ==> j == i
    {
      OneTurn(k, s, acts, ring, p);
    }
  }

  lemma TurnIs(k: Params, s: State, acts: seq<Act>, i: nat)
    requires Inv(k, s) && Feasible(k, s, acts) && AllYield(acts) && i <= |acts|
    ensures RunsAt(k, s, acts, Ahead(s.procs, s.current, i), i)
  {
    FeasiblePrefix(k, s, acts, i);
    assert AllYield(acts[..i]);
    YieldsGoAhead(k, s, acts[..i]);
  }

  lemma OneTurn(k: Params, s: State, acts: seq<Act>, ring: seq<nat>, p: nat)
    requires Inv(k, s) && Feasible(k, s, acts) && AllYield(acts) && IsRing(s.procs, ring) && |ring| == |acts|
    requires p < |s.procs| && s.procs[p].run
    ensures exists i ::
      && 0 <= i < |acts| && RunsAt(k, s, acts, p, i)
      && forall j :: 0 <= j < |acts| && RunsAt(k, s, acts, p, j) ==> j == i
  {
    YieldsReach(s.procs, ring, s.current, p);
    var i: nat :| i < |ring| && Ahead(s.procs, s.current, i) == p;
    TurnIs(k, s, acts, i);
    forall j | 0 <= j < |acts| && RunsAt(k, s, acts, p, j) ensures j == i {
      TurnIs(k, s, acts, j);
      if j < i {
        YieldsDiffer(s.procs, ring, s.current, j, i);
      } else if i < j {
        YieldsDiffer(s.procs, ring, s.current, i, j);
      }
    }
  }

  /** A child that has just been spawned runs at the very next yield. */
  lemma ChildRunsNext(k: Params, s: State, spawn: Act, after: Act)
    requires Inv(k, s) && Allowed(s, spawn) && spawn.user.regs[A7] == NR_SPAWN
    requires Sane(k, s) && SpawnOk(k, UserRan(s, spawn.user), spawn.user.regs[A1], spawn.user.regs[A2])
    requires Allowed(Step(k, s, spawn), after) && IsYield(after)
    ensures Inv(k, Step(k, s, spawn)) && Sane(k, Step(k, s, spawn))
    ensures Step(k, Step(k, s, spawn), after).current == spawn.user.regs[A2]
  {
    StepKeepsInv(k, s, spawn);
    YieldMoves(k, Step(k, s, spawn), after);
  }
}
