/** The Keystone enclave monitor: enclaves as pairs of physical memory protection registers. */
module KeystoneSpec {
  import opened Words

  // ---------------------------------------------------------------- registers

  const NR_ENCLAVES := 3
  const PMPCFG_R := 1
  const PMPCFG_W := 2
  const PMPCFG_X := 4
  const PMPCFG_A_TOR := 8

  /** Byte `n` of a configuration register: (r >> (n * 8)) & 0xff. */
  function CfgByte(w: nat, n: nat): nat {
    if n == 0 then w % 0x100 else CfgByte(w / 0x100, n - 1)
  }

  /** Byte `n` cleared, then set to `v`. */
  function WithByte(w: nat, n: nat, v: nat): nat {
    if n == 0 then w / 0x100 * 0x100 + v else WithByte(w / 0x100, n - 1, v) * 0x100 + w % 0x100
  }

  /** pmpcfg_write changes the field it names and no other. */
  lemma {:induction false} CfgByteWith(w: nat, n: nat, v: nat, m: nat)
    requires v < 0x100
    ensures CfgByte(WithByte(w, n, v), m) == if m == n then v else CfgByte(w, m)
    decreases n
  {
    if n > 0 && m > 0 {
      CfgByteWith(w / 0x100, n - 1, v, m - 1);
    }
  }

  datatype Pmp = Pmp(addr: seq<nat>, cfg: nat) {
    predicate Valid() {
      |addr| == 8
    }

    function SetAddr(n: nat, a: nat): Pmp
      requires n < |addr|
    {
      Pmp(addr[n := a / 4], cfg)
    }

    function SetCfg(n: nat, v: nat): Pmp {
      Pmp(addr, WithByte(cfg, n, v))
    }
  }

  /** General registers, and the CSRs of csrs.h with mepc first. */
  type Gprs = r: seq<U64> | |r| == 31 witness seq(31, _ => 0)
  datatype Cpu = Cpu(mepc: U64, csrs: seq<U64>, regs: Gprs)

  const A0 := 9
  const A7 := 16

  // ---------------------------------------------------------------- state

  type Byte = b: int | 0 <= b < 256

  datatype Status = Free | Fresh | Running | Idle

  datatype Enclave = Enclave(status: Status, entry: U64, secLo: nat, secHi: nat, shLo: nat, shHi: nat, saved: Cpu)

  /** Where the payload starts and how long it is. */
  datatype Params = Params(base: nat, payload: nat) {
    predicate Valid() {
      base % 4 == 0 && payload % 4 == 0 && 0 < payload && base + payload <= 0xffff_ffff_ffff_ffff
    }
  }

  /** `cpu` is the live state of the hart, `mem` the payload. */
  datatype State = State(enclaves: seq<Enclave>, mode: bool, current: int, host: Cpu, cpu: Cpu, pmp: Pmp,
    mem: seq<Byte>)

  ghost predicate Shaped(k: Params, s: State) {
    && k.Valid() && |s.enclaves| == NR_ENCLAVES && s.pmp.Valid() && |s.mem| == k.payload
    && (s.mode ==> 0 <= s.current < NR_ENCLAVES)
    && forall e {:trigger s.enclaves[e]} :: 0 <= e < NR_ENCLAVES ==> s.enclaves[e].secHi <= k.payload
  }

  predicate Live(e: Enclave) {
    e.status != Free
  }

  // ---------------------------------------------------------------- pmp.c

  function RemapOs(k: Params, p: Pmp): Pmp
    requires p.Valid()
  {
    p.SetAddr(6, k.base).SetAddr(7, k.base + k.payload).SetCfg(7, PMPCFG_A_TOR + PMPCFG_R + PMPCFG_W + PMPCFG_X)
  }

  function RemapShared(k: Params, p: Pmp, lower: nat, upper: nat): Pmp
    requires p.Valid()
  {
    p.SetAddr(6, k.base + lower).SetAddr(7, k.base + upper).SetCfg(7, PMPCFG_A_TOR + PMPCFG_R + PMPCFG_W)
  }

  function RemapRegion(k: Params, p: Pmp, e: nat, lower: nat, upper: nat): Pmp
    requires p.Valid() && e < NR_ENCLAVES
  {
    p.SetAddr(2 * e, k.base + lower).SetAddr(2 * e + 1, k.base + upper)
  }

  function FreeRegion(p: Pmp, e: nat): Pmp
    requires p.Valid() && e < NR_ENCLAVES
  {
    p.SetAddr(2 * e, 0).SetAddr(2 * e + 1, 0)
  }

  function Chmod(p: Pmp, e: nat, perm: nat): Pmp
    requires p.Valid() && e < NR_ENCLAVES
  {
    p.SetCfg(2 * e + 1, PMPCFG_A_TOR + perm)
  }

  // ---------------------------------------------------------------- system calls

  predicate RegionOk(k: Params, lower: nat, upper: nat) {
    lower % 4 == 0 && upper % 4 == 0 && lower < upper <= k.payload
  }

  predicate Overlaps(e: Enclave, lower: nat, upper: nat) {
    e.secHi > lower && upper > e.secLo
  }

  predicate CreateOk(k: Params, s: State, e: U64, lo: U64, hi: U64, shLo: U64, shHi: U64)
    requires |s.enclaves| == NR_ENCLAVES
  {
    && !s.mode && e < NR_ENCLAVES && s.enclaves[e].status == Free
    && RegionOk(k, lo, hi) && RegionOk(k, shLo, shHi)
    && forall i :: 0 <= i < NR_ENCLAVES ==> !Overlaps(s.enclaves[i], lo, hi)
  }

  function Created(k: Params, s: State, e: nat, entry: U64, lo: nat, hi: nat, shLo: nat, shHi: nat): State
    requires Shaped(k, s) && e < NR_ENCLAVES
  {
    s.(enclaves := s.enclaves[e :=
      s.enclaves[e].(status := Fresh, entry := entry, secLo := lo, secHi := hi, shLo := shLo, shHi := shHi)],
       pmp := RemapRegion(k, Chmod(s.pmp, e, 0), e, lo, hi))
  }

  predicate Startable(s: State, e: U64)
    requires |s.enclaves| == NR_ENCLAVES
  {
    !s.mode && e < NR_ENCLAVES && (s.enclaves[e].status == Idle || s.enclaves[e].status == Fresh)
  }

  function Erased(mem: seq<Byte>, lo: nat, hi: nat): (r: seq<Byte>)
    ensures |r| == |mem| && forall i {:trigger r[i]} :: 0 <= i < |mem| ==> r[i] == if lo <= i < hi then 0 else mem[i]
  {
    seq(|mem|, i requires 0 <= i < |mem| => if lo <= i < hi then 0 else mem[i])
  }

  function Destroyed(k: Params, s: State, e: nat): State
    requires Shaped(k, s) && e < NR_ENCLAVES
  {
    s.(enclaves := s.enclaves[e := s.enclaves[e].(status := Free, secLo := 0, secHi := 0)],
       mem := Erased(s.mem, s.enclaves[e].secLo, s.enclaves[e].secHi), pmp := FreeRegion(s.pmp, e))
  }

  /** sys_resume_enclave when its checks pass. */
  function Resumed(k: Params, s: State, e: nat): State
    requires Shaped(k, s) && e < NR_ENCLAVES
  {
    var x := s.enclaves[e];
    s.(mode := true, current := e, enclaves := s.enclaves[e := x.(status := Running)], host := s.cpu, cpu := x.saved,
       pmp := RemapShared(k, Chmod(s.pmp, e, PMPCFG_R + PMPCFG_W + PMPCFG_X), x.shLo, x.shHi))
  }

  function ZeroGprs(): Gprs {
    seq(31, _ => 0)
  }

  /** sys_run_enclave prepares the entry point and resumes. */
  function Started(s: State, e: nat): State
    requires e < |s.enclaves|
  {
    var x := s.enclaves[e];
    s.(enclaves := s.enclaves[e := x.(status := Idle, saved := x.saved.(mepc := x.entry, regs := ZeroGprs()))])
  }

  function Exited(k: Params, s: State): State
    requires Shaped(k, s) && s.mode
  {
    var e := s.current;
    s.(mode := false, current := -1, enclaves := s.enclaves[e := s.enclaves[e].(status := Idle, saved := s.cpu)],
      cpu := s.host,
       pmp := RemapOs(k, Chmod(s.pmp, e, 0)))
  }

  // ---------------------------------------------------------------- traps.c

  const NR_CREATE := 9
  const NR_DESTROY := 10
  const NR_RUN := 11
  const NR_EXIT := 12
  const NR_RESUME := 13
  const EINVAL: U64 := 0xffff_ffff_ffff_ffea
  const ENOSYS: U64 := 0xffff_ffff_ffff_ffda

  datatype Result = Result(s: State, r: U64)

  /** The switch of do_trap_ecall_s on `nr` and the arguments in `a`; calls below 9 return `sbi`. */
  function Call(k: Params, s: State, nr: U64, a: Gprs, sbi: U64): Result
    requires Shaped(k, s)
  {
    var e := a[A0];
    if nr <= 8 then Result(s, sbi)
    else if nr == NR_CREATE then
      if CreateOk(k, s, e, a[A0 + 2], a[A0 + 3], a[A0 + 4], a[A0 + 5]) then
        Result(Created(k, s, e, a[A0 + 1], a[A0 + 2], a[A0 + 3], a[A0 + 4], a[A0 + 5]), 0)
      else Result(s, EINVAL)
    else if nr == NR_DESTROY then if Startable(s, e) then Result(Destroyed(k, s, e), 0) else Result(s, EINVAL)
    else if nr == NR_RUN then if Startable(s, e) then Result(Resumed(k, Started(s, e), e), 0) else Result(s, EINVAL)
    else if nr == NR_EXIT then if s.mode then Result(Exited(k, s), 0) else Result(s, EINVAL)
    else if nr == NR_RESUME then
      if !s.mode && e < NR_ENCLAVES && s.enclaves[e].status == Idle then Result(Resumed(k, s, e), 0)
        else Result(s, EINVAL)
    else Result(s, ENOSYS)
  }

  /** The result goes to whoever runs now; mepc moves past the ecall except for run. */
  function Returned(t: Result, nr: U64): State {
    var c := t.s.cpu;
    t.s.(cpu := c.(regs := c.regs[A0 := t.r], mepc := if nr == NR_RUN then c.mepc else Mod64(c.mepc as int + 4)))
  }

  /** do_trap_ecall_s. */
  function Trap(k: Params, s: State, sbi: U64): State
    requires Shaped(k, s)
  {
    Returned(Call(k, s, s.cpu.regs[A7], s.cpu.regs, sbi), s.cpu.regs[A7])
  }

  // ---------------------------------------------------------------- boot

  /** From reset, all entries OFF, to the first instruction of the payload. */
  function Boot(k: Params, mem: seq<Byte>, cpu: Cpu): State
    requires k.Valid() && |mem| == k.payload
  {
    var none := Enclave(Free, 0, 0, 0, 0, 0, cpu);
    State([none, none, none], false, 0, cpu, cpu, RemapOs(k, Pmp([0, 0, 0, 0, 0, 0, 0, 0], 0)), mem)
  }

  // ---------------------------------------------------------------- what the hart allows

  datatype Access = Access(r: bool, w: bool, x: bool)

  const NONE := Access(false, false, false)

  function AccessOf(cfg: nat): Access {
    Access(cfg % 2 == 1, cfg / 2 % 2 == 1, cfg / 4 % 2 == 1)
  }

  /** Entry `n` is a TOR entry that covers `a`. */
  predicate Matches(p: Pmp, n: nat, a: nat)
    requires n < |p.addr|
  {
    && CfgByte(p.cfg, n) / 8 % 4 == 1
    && (if n == 0 then 0 else p.addr[n - 1] * 4) <= a < p.addr[n] * 4
  }

  /** The lowest-numbered matching entry decides; without one, S-mode has no access. */
  function Lookup(p: Pmp, a: nat, n: nat): Access
    requires n <= |p.addr|
    decreases |p.addr| - n
  {
    if n == |p.addr| then NONE
    else if Matches(p, n, a) then AccessOf(CfgByte(p.cfg, n))
    else Lookup(p, a, n + 1)
  }
}
