/** A process is independent of all others: what it sees is a function of its own steps alone. */
module CertikosIndependence {
  import opened Words
  import opened CertikosSpec
  import opened CertikosInvariant
  import opened CertikosTheorems

  /** What there is of a process for itself: its window, registers, CSRs and memory, and which of
      the pids it owns it has taken. */
  datatype ProcView = ProcView(lower: nat, upper: nat, user: UserView, taken: seq<bool>)

  function Taken(procs: seq<Proc>, p: nat): (r: seq<bool>)
    ensures |r| == |procs| && forall i {:trigger r[i]} :: 0 <= i < |procs| ==>
      r[i] == (procs[i].owner == p && procs[i].run)
  {
    seq(|procs|, i requires 0 <= i < |procs| => procs[i].owner == p && procs[i].run)
  }

  ghost predicate Alive(k: Params, s: State, p: nat) {
    Inv(k, s) && p < |s.procs| && s.procs[p].run
  }

  lemma AliveWindow(k: Params, s: State, p: nat)
    requires Alive(k, s, p)
    ensures s.procs[p].lower <= s.procs[p].upper <= |s.pages|
  {
    assert WindowOk(k, s.procs[p]);
  }

  ghost function View(k: Params, s: State, p: nat): ProcView
    requires Alive(k, s, p)
  {
    AliveWindow(k, s, p);
    var q := s.procs[p];
    var mem := s.pages[q.lower..q.upper];
    ProcView(q.lower, q.upper,
             if p == s.current then UserView(s.regs, s.csrs, mem) else UserView(q.cpu, q.csrs, mem),
             Taken(s.procs, p))
  }

  // ---------------------------------------------------------------- own steps

  /** The system call as the process itself can foresee it. */
  function OwnStep(k: Params, p: nat, v: ProcView, a: Act): ProcView {
    var u := a.user.(csrs := a.user.csrs.(mepc := Mod64(a.user.csrs.mepc as int + 4)));
    var nr, quota, pid := u.regs[A7], u.regs[A1], u.regs[A2];
    var w := v.(user := u);
    if nr <= 8 then Answer(w, a.sbi)
    else if nr == NR_GET_QUOTA then Answer(w, Mod64(v.upper - v.lower))
    else if nr == NR_SPAWN then
      if k.nrChildren > 0 && quota <= v.upper - v.lower && 0 < pid < k.nrProcs && |v.taken| == k.nrProcs
        && k.Owner(pid) == p && !v.taken[pid] then
        Answer(w.(upper := v.upper - quota, taken := v.taken[pid := true],
                  user := u.(mem := if quota <= |u.mem| then u.mem[..|u.mem| - quota] else [])), 0)
      else Answer(w, EINVAL)
    else if nr == NR_YIELD then w
    else if nr == NR_GETPID then Answer(w, Mod64(p))
    else Answer(w, ENOSYS)
  }

  function Answer(v: ProcView, r: U64): ProcView {
    v.(user := v.user.(regs := v.user.regs[A0 := r]))
  }

  lemma StoredSlice(pages: seq<Page>, lower: nat, mem: seq<Page>)
    requires lower + |mem| <= |pages|
    ensures |Stored(pages, lower, mem)| == |pages| && Stored(pages, lower, mem)[lower..lower + |mem|] == mem
  {
  }

  lemma ClearedSlice(pages: seq<Page>, lower: nat, upper: nat, a: nat, b: nat)
    requires a <= b <= |pages| && (b <= lower || upper <= a)
    ensures Cleared(pages, lower, upper)[a..b] == pages[a..b]
  {
  }

  /** The state in which the ecall of act `a` is served. */
  function Trapped(s: State, a: Act): State
    requires s.current < |s.procs| && s.procs[s.current].lower + |a.user.mem| <= |s.pages|
  {
    var s1 := UserRan(s, a.user);
    s1.(csrs := s1.csrs.(mepc := Mod64(s1.csrs.mepc as int + 4)))
  }

  lemma SpawnAgrees(k: Params, s: State, a: Act)
    requires Alive(k, s, s.current) && Sane(k, s) && Allowed(s, a)
    ensures var t, v := Trapped(s, a), View(k, s, s.current);
      var quota, pid := a.user.regs[A1], a.user.regs[A2];
      SpawnOk(k, t, quota, pid) <==>
        quota <= v.upper - v.lower && 0 < pid < k.nrProcs && k.Owner(pid) == s.current && !v.taken[pid]
  {
    var pid := a.user.regs[A2];
    if 0 < pid < k.nrProcs {
      assert EntryOk(k, s.procs, pid);
    }
  }

  lemma OwnSpawn(k: Params, s: State, a: Act, s': State)
    requires Alive(k, s, s.current) && Sane(k, s) && Allowed(s, a) && s' == Step(k, s, a) && Alive(k, s', s.current)
    requires a.user.regs[A7] == NR_SPAWN && SpawnOk(k, Trapped(s, a), a.user.regs[A1], a.user.regs[A2])
    ensures View(k, s', s.current) == OwnStep(k, s.current, View(k, s, s.current), a)
  {
    SpawnAgrees(k, s, a);
    var p, t := s.procs[s.current], Trapped(s, a);
    var quota, pid := a.user.regs[A1], a.user.regs[A2];
    var top := p.upper - quota;
    StoredSlice(s.pages, p.lower, a.user.mem);
    ClearedSlice(t.pages, top, p.upper, p.lower, top);
    assert s'.pages[p.lower..top] == t.pages[p.lower..top] == a.user.mem[..|a.user.mem| - quota];
    assert EntryOk(k, s.procs, pid);
    assert Taken(s'.procs, s.current) == Taken(s.procs, s.current)[pid := true];
  }

  lemma OwnOther(k: Params, s: State, a: Act, s': State)
    requires Alive(k, s, s.current) && Sane(k, s) && Allowed(s, a) && s' == Step(k, s, a) && Alive(k, s', s.current)
    requires !(a.user.regs[A7] == NR_SPAWN && SpawnOk(k, Trapped(s, a), a.user.regs[A1], a.user.regs[A2]))
    ensures View(k, s', s.current) == OwnStep(k, s.current, View(k, s, s.current), a)
  {
    SpawnAgrees(k, s, a);
    StoredSlice(s.pages, s.procs[s.current].lower, a.user.mem);
    assert Taken(s'.procs, s.current) == Taken(s.procs, s.current);
  }

  /** A step of the process itself: the view after it is a function of the view before. */
  lemma OwnStepIs(k: Params, s: State, a: Act)
    requires Alive(k, s, s.current) && Allowed(s, a)
    ensures Sane(k, s) && Alive(k, Step(k, s, a), s.current)
    ensures View(k, Step(k, s, a), s.current) == OwnStep(k, s.current, View(k, s, s.current), a)
  {
    StepKeepsInv(k, s, a);
    var s' := Step(k, s, a);
    if a.user.regs[A7] == NR_SPAWN && SpawnOk(k, Trapped(s, a), a.user.regs[A1], a.user.regs[A2]) {
      OwnSpawn(k, s, a, s');
    } else {
      OwnOther(k, s, a, s');
    }
  }

  // ---------------------------------------------------------------- steps of others

  lemma WindowsDisjoint(k: Params, s: State, p: nat, q: nat)
    requires Alive(k, s, p) && Alive(k, s, q) && p != q
    ensures s.procs[p].lower == s.procs[p].upper || s.procs[q].lower == s.procs[q].upper
      || s.procs[p].upper <= s.procs[q].lower || s.procs[q].upper <= s.procs[p].lower
  {
    AliveWindow(k, s, p);
    AliveWindow(k, s, q);
    var a, b := s.procs[p], s.procs[q];
    var n := if a.lower < b.lower then b.lower else a.lower;
    assert p < q ==> !(Has(s.procs[p], n) && Has(s.procs[q], n));
    assert q < p ==> !(Has(s.procs[q], n) && Has(s.procs[p], n));
  }

  lemma OtherPages(k: Params, s: State, a: Act, p: nat, lower: nat, upper: nat)
    requires Alive(k, s, p) && Alive(k, s, s.current) && p != s.current && Sane(k, s) && Allowed(s, a)
    requires s.procs[s.current].lower <= lower <= upper <= s.procs[s.current].upper
    ensures var q, t := s.procs[p], Trapped(s, a);
      q.lower <= q.upper <= |s.pages| == |t.pages|
      && t.pages[q.lower..q.upper] == s.pages[q.lower..q.upper]
      && Cleared(t.pages, lower, upper)[q.lower..q.upper] == s.pages[q.lower..q.upper]
  {
    AliveWindow(k, s, p);
    WindowsDisjoint(k, s, p, s.current);
  }

  lemma OtherTaken(k: Params, s: State, a: Act, p: nat)
    requires Alive(k, s, p) && p != s.current && Sane(k, s) && Allowed(s, a)
    ensures Taken(Step(k, s, a).procs, p) == Taken(s.procs, p)
  {
  }

  /** A step of any other process changes nothing of what a process sees. */
  lemma OthersStepIs(k: Params, s: State, a: Act, p: nat)
    requires Alive(k, s, p) && p != s.current && Allowed(s, a)
    ensures Sane(k, s) && Alive(k, Step(k, s, a), p)
    ensures View(k, Step(k, s, a), p) == View(k, s, p)
  {
    StepKeepsInv(k, s, a);
    var c := s.procs[s.current];
    var quota := a.user.regs[A1];
    OtherPages(k, s, a, p, if quota <= Quota(s) then c.upper - quota else c.upper, c.upper);
    OtherTaken(k, s, a, p);
  }

  // ---------------------------------------------------------------- whole runs

  /** The acts of a run that process `p` takes itself. */
  ghost function OwnActs(k: Params, s: State, acts: seq<Act>, p: nat): seq<Act>
    requires Inv(k, s) && Feasible(k, s, acts)
    decreases |acts|
  {
    if acts == [] then []
    else
      StepKeepsInv(k, s, acts[0]);
      (if s.current == p then [acts[0]] else []) + OwnActs(k, Step(k, s, acts[0]), acts[1..], p)
  }

  function Fold(k: Params, p: nat, v: ProcView, acts: seq<Act>): ProcView
    decreases |acts|
  {
    if acts == [] then v else Fold(k, p, OwnStep(k, p, v, acts[0]), acts[1..])
  }

  /** Over any interleaved run, what a process sees is a function of its own steps alone. */
  lemma {:induction false} ViewIsOwn(k: Params, s: State, acts: seq<Act>, p: nat)
    requires Alive(k, s, p) && Feasible(k, s, acts)
    ensures Alive(k, Run(k, s, acts), p)
    ensures View(k, Run(k, s, acts), p) == Fold(k, p, View(k, s, p), OwnActs(k, s, acts, p))
    decreases |acts|
  {
    if acts != [] {
      StepKeepsInv(k, s, acts[0]);
      var s1 := Step(k, s, acts[0]);
      if s.current == p {
        OwnStepIs(k, s, acts[0]);
        ViewIsOwn(k, s1, acts[1..], p);
        assert ([acts[0]] + OwnActs(k, s1, acts[1..], p))[1..] == OwnActs(k, s1, acts[1..], p);
      } else {
        OthersStepIs(k, s, acts[0], p);
        ViewIsOwn(k, s1, acts[1..], p);
        assert [] + OwnActs(k, s1, acts[1..], p) == OwnActs(k, s1, acts[1..], p);
      }
    }
  }

  /** Two runs that agree on a process and on its steps, whatever else happens in them and in
      whatever order, leave it with the same view. */
  lemma ProcessIndependence(k: Params, s: State, acts: seq<Act>, s': State, acts': seq<Act>, p: nat)
    requires Alive(k, s, p) && Feasible(k, s, acts) && Alive(k, s', p) && Feasible(k, s', acts')
    requires View(k, s, p) == View(k, s', p) && OwnActs(k, s, acts, p) == OwnActs(k, s', acts', p)
    ensures Alive(k, Run(k, s, acts), p) && Alive(k, Run(k, s', acts'), p)
    ensures View(k, Run(k, s, acts), p) == View(k, Run(k, s', acts'), p)
  {
    ViewIsOwn(k, s, acts, p);
    ViewIsOwn(k, s', acts', p);
  }

  // ---------------------------------------------------------------- deterministic programs

  /** Process `p` executes the program `prog`. */
  ghost predicate Executes(k: Params, s: State, acts: seq<Act>, p: nat, prog: UserView -> Act)
    requires Inv(k, s) && Feasible(k, s, acts)
    decreases |acts|
  {
    acts == [] ||
      (StepKeepsInv(k, s, acts[0]);
       (s.current == p ==> acts[0] == prog(LiveView(s))) && Executes(k, Step(k, s, acts[0]), acts[1..], p, prog))
  }

  function Iterate(k: Params, p: nat, v: ProcView, prog: UserView -> Act, n: nat): ProcView
    decreases n
  {
    if n == 0 then v else Iterate(k, p, OwnStep(k, p, v, prog(v.user)), prog, n - 1)
  }

  lemma {:induction false} ViewIsProgram(k: Params, s: State, acts: seq<Act>, p: nat, prog: UserView -> Act)
    requires Alive(k, s, p) && Feasible(k, s, acts) && Executes(k, s, acts, p, prog)
    ensures Alive(k, Run(k, s, acts), p)
    ensures View(k, Run(k, s, acts), p) == Iterate(k, p, View(k, s, p), prog, |OwnActs(k, s, acts, p)|)
    decreases |acts|
  {
    if acts != [] {
      StepKeepsInv(k, s, acts[0]);
      var s1 := Step(k, s, acts[0]);
      if s.current == p {
        OwnStepIs(k, s, acts[0]);
        assert View(k, s, p).user == LiveView(s);
        ViewIsProgram(k, s1, acts[1..], p, prog);
      } else {
        OthersStepIs(k, s, acts[0], p);
        ViewIsProgram(k, s1, acts[1..], p, prog);
      }
    }
  }

  // ---------------------------------------------------------------- birth

  function Newborn(k: Params, fileid: U64, lower: nat, upper: nat): ProcView
    requires k.Valid() && lower <= upper <= k.nrPages
  {
    ProcView(lower, upper,
             UserView(ZeroRegs()[A0 := fileid][A1 := k.PageAddress(lower)], ZeroCsrs().(mepc := k.payload),
                      seq<Page>(upper - lower, _ => ZeroPage())),
             seq(k.nrProcs, _ => false))
  }

  /** A child starts from its arguments: cleared memory, cleared registers, nothing taken. */
  lemma ChildIsNewborn(k: Params, s: State, a: Act)
    requires Inv(k, s) && Sane(k, s) && Allowed(s, a) && a.user.regs[A7] == NR_SPAWN
    requires SpawnOk(k, Trapped(s, a), a.user.regs[A1], a.user.regs[A2])
    ensures var p, quota, pid := s.procs[s.current], a.user.regs[A1], a.user.regs[A2];
      Alive(k, Step(k, s, a), pid) && p.upper - quota <= p.upper <= k.nrPages
      && View(k, Step(k, s, a), pid) == Newborn(k, a.user.regs[A0], p.upper - quota, p.upper)
  {
    StepKeepsInv(k, s, a);
    var s', pid := Step(k, s, a), a.user.regs[A2];
    assert EntryOk(k, s.procs, pid);
    forall i | 0 <= i < |s'.procs| ensures !(s'.procs[i].owner == pid && s'.procs[i].run) {
      assert EntryOk(k, s.procs, i);
    }
    var p := s.procs[s.current];
    AliveWindow(k, s, s.current);
    assert Taken(s'.procs, pid) == seq(k.nrProcs, _ => false);
    assert s'.pages[p.upper - a.user.regs[A1]..p.upper] == seq<Page>(a.user.regs[A1], _ => ZeroPage());
  }
}
