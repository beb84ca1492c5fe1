/** The CertiKOS process monitor: processes with quotas of pages, spawn and yield. */
module CertikosSpec {
  import opened Words

  // ---------------------------------------------------------------- state

  type Page = p: seq<U64> | |p| == 512 witness seq(512, _ => 0)

  function ZeroPage(): Page {
    seq(512, _ => 0)
  }

  /** struct pt_regs. */
  type Regs = r: seq<U64> | |r| == 31 witness seq(31, _ => 0)

  const A0 := 9
  const A1 := 10
  const A2 := 11
  const A7 := 16

  function ZeroRegs(): Regs {
    seq(31, _ => 0)
  }

  datatype Csrs = Csrs(satp: U64, scause: U64, scounteren: U64, sepc: U64, sscratch: U64, sstatus: U64,
                       stvec: U64, stval: U64, mepc: U64, sip: U64, sie: U64)

  function ZeroCsrs(): Csrs {
    Csrs(0, 0, 0, 0, 0, 0, 0, 0, 0, 0, 0)
  }

  /** struct proc; `run` is PROC_STATE_RUN. */
  datatype Proc = Proc(run: bool, owner: nat, next: nat, lower: nat, upper: nat, csrs: Csrs, cpu: Regs)

  const PID_IDLE := 1
  const EINVAL: U64 := 0xffff_ffff_ffff_ffea
  const ENOSYS: U64 := 0xffff_ffff_ffff_ffda
  const NR_GET_QUOTA := 10
  const NR_SPAWN := 11
  const NR_YIELD := 12
  const NR_GETPID := 13

  /** Sizes of the tables, and the addresses of the pages and of the payload. */
  datatype Params = Params(nrProcs: nat, nrChildren: nat, nrPages: nat, base: nat, payload: U64) {
    predicate Valid() {
      && 1 < nrProcs <= 0x1000 && 0 < nrChildren && nrPages <= 0x10_0000
      && base % 4096 == 0 && base + nrPages * 4096 <= 0x7fff_ffff_ffff_ffff
    }

    /** The static partition of pids. */
    function Owner(i: nat): nat
      requires nrChildren > 0
    {
      if i >= nrChildren then i / nrChildren else PID_IDLE
    }

    function PageAddress(n: nat): nat {
      base + n * 4096
    }

    /** What pmpaddr_write puts in the register for the start of page `n`. */
    function PmpFor(n: nat): nat {
      PageAddress(n) / 4
    }
  }

  /** `regs` and `csrs` are the live ones of the hart, `pmp0` and `pmp1` its address registers. */
  datatype State = State(procs: seq<Proc>, pages: seq<Page>, current: nat, regs: Regs, csrs: Csrs, pmp0: nat, pmp1: nat)

  ghost predicate WellSized(k: Params, s: State) {
    && k.Valid() && |s.procs| == k.nrProcs && |s.pages| == k.nrPages && s.current < k.nrProcs
    && s.procs[s.current].lower <= s.procs[s.current].upper <= k.nrPages
  }

  // ---------------------------------------------------------------- boot

  /** proc_init. */
  function InitProc(k: Params, i: nat): Proc
    requires k.nrChildren > 0
  {
    Proc(false, k.Owner(i), 0, 0, 0, ZeroCsrs(), ZeroRegs())
  }

  /** proc_new on one entry of the table. */
  function NewProc(k: Params, p: Proc, next: nat, fileid: U64, lower: nat, upper: nat): Proc
    requires k.Valid() && lower <= k.nrPages
  {
    p.(run := true, next := next, lower := lower, upper := upper,
       csrs := p.csrs.(mepc := k.payload), cpu := ZeroRegs()[A0 := fileid][A1 := k.PageAddress(lower)])
  }

  function ClearedAt(pages: seq<Page>, lower: nat, upper: nat, i: nat): Page
    requires i < |pages|
  {
    if lower <= i < upper then ZeroPage() else pages[i]
  }

  function Cleared(pages: seq<Page>, lower: nat, upper: nat): (r: seq<Page>)
    ensures |r| == |pages| && forall i {:trigger r[i]} :: 0 <= i < |pages| ==> r[i] == ClearedAt(pages, lower, upper, i)
  {
    seq<Page>(|pages|, i requires 0 <= i < |pages| => ClearedAt(pages, lower, upper, i))
  }

  /** proc_switch: the window goes into the PMP, CSRs and registers are loaded. */
  function Switch(k: Params, s: State, pid: nat): State
    requires pid < |s.procs|
  {
    var p := s.procs[pid];
    s.(current := pid, regs := p.cpu, csrs := p.csrs, pmp0 := k.PmpFor(p.lower), pmp1 := k.PmpFor(p.upper))
  }

  /** main: all processes free but the idle one, which owns all pages. */
  function Boot(k: Params, pages: seq<Page>): State
    requires k.Valid() && |pages| == k.nrPages
  {
    var procs := seq(k.nrProcs, i requires 0 <= i < k.nrProcs => InitProc(k, i));
    var procs' := procs[PID_IDLE := NewProc(k, procs[PID_IDLE], PID_IDLE, 0, 0, k.nrPages)];
    Switch(k, State(procs', Cleared(pages, 0, k.nrPages), PID_IDLE, ZeroRegs(), ZeroCsrs(), 0, 0), PID_IDLE)
  }

  // ---------------------------------------------------------------- system calls

  function Quota(s: State): int
    requires s.current < |s.procs|
  {
    s.procs[s.current].upper - s.procs[s.current].lower
  }

  predicate SpawnOk(k: Params, s: State, quota: U64, pid: U64)
    requires |s.procs| == k.nrProcs && s.current < k.nrProcs
  {
    && quota <= Quota(s)
    && 0 < pid < k.nrProcs
    && s.procs[pid].owner == s.current
    && !s.procs[pid].run
  }

  /** sys_spawn when its checks pass. */
  function Spawned(k: Params, s: State, fileid: U64, quota: U64, pid: U64): State
    requires WellSized(k, s) && SpawnOk(k, s, quota, pid) && pid != s.current
  {
    var p := s.procs[s.current];
    var top := p.upper - quota;
    var p' := p.(upper := top, next := pid);
    s.(procs := s.procs[pid := NewProc(k, s.procs[pid], p.next, fileid, top, p.upper)][s.current := p'],
       pages := Cleared(s.pages, top, p.upper), pmp0 := k.PmpFor(p'.lower), pmp1 := k.PmpFor(p'.upper))
  }

  /** sys_yield: save, go to the next process, resume it. */
  function Yielded(k: Params, s: State): State
    requires s.current < |s.procs| && s.procs[s.current].next < |s.procs|
  {
    var p := s.procs[s.current];
    Switch(k, s.(procs := s.procs[s.current := p.(cpu := s.regs, csrs := s.csrs)]), p.next)
  }

  function SetA0(s: State, r: U64): State {
    s.(regs := s.regs[A0 := r])
  }

  /** The current process is runnable and does not point outside the table. */
  ghost predicate Sane(k: Params, s: State) {
    WellSized(k, s) && s.procs[s.current].run && s.procs[s.current].next < k.nrProcs
  }

  /** do_trap_ecall_s; `sbi` is what the calls below 9, which do_mcall handles, return. */
  function Trap(k: Params, s0: State, sbi: U64): State
    requires Sane(k, s0)
  {
    var s := s0.(csrs := s0.csrs.(mepc := Mod64(s0.csrs.mepc as int + 4)));
    var nr := s.regs[A7];
    if nr <= 8 then SetA0(s, sbi)
    else if nr == NR_GET_QUOTA then SetA0(s, Quota(s))
    else if nr == NR_SPAWN then
      if SpawnOk(k, s, s.regs[A1], s.regs[A2]) then SetA0(Spawned(k, s, s.regs[A0], s.regs[A1], s.regs[A2]), 0)
      else SetA0(s, EINVAL)
    else if nr == NR_YIELD then Yielded(k, s)
    else if nr == NR_GETPID then SetA0(s, s.current)
    else SetA0(s, ENOSYS)
  }

  // ---------------------------------------------------------------- user execution

  /** What a process sees and changes by itself: registers, CSRs, the pages of its window. */
  datatype UserView = UserView(regs: Regs, csrs: Csrs, mem: seq<Page>)

  function LiveView(s: State): UserView
    requires s.current < |s.procs| && s.procs[s.current].lower <= s.procs[s.current].upper <= |s.pages|
  {
    UserView(s.regs, s.csrs, s.pages[s.procs[s.current].lower..s.procs[s.current].upper])
  }

  /** The effect of user code up to its next ecall, and the result of an SBI call should it be one. */
  datatype Act = Act(user: UserView, sbi: U64)

  function Stored(pages: seq<Page>, lower: nat, mem: seq<Page>): seq<Page>
    requires lower + |mem| <= |pages|
  {
    pages[..lower] + mem + pages[lower + |mem|..]
  }

  function UserRan(s: State, u: UserView): State
    requires s.current < |s.procs| && s.procs[s.current].lower + |u.mem| <= |s.pages|
  {
    s.(regs := u.regs, csrs := u.csrs, pages := Stored(s.pages, s.procs[s.current].lower, u.mem))
  }

  /** User code can reach its window only. */
  predicate Allowed(s: State, a: Act)
    requires s.current < |s.procs|
  {
    |a.user.mem| == Quota(s)
  }

  /** The current process runs to its next ecall, which is then served. */
  function Step(k: Params, s: State, a: Act): State
    requires Sane(k, s) && Allowed(s, a)
  {
    Trap(k, UserRan(s, a.user), a.sbi)
  }
}
