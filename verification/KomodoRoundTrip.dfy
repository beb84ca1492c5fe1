/** Registers survive the world switch: what an interrupted enclave is resumed with, and what
    the host gets back, whatever happened in between. */
module KomodoRoundTrip {
  import opened KomodoTypes
  import opened KomodoSpec
  import opened KomodoInvariant
  import opened KomodoTheorems

  ghost predicate Running(s: State, d: Word) {
    s.enclaveMode && s.cur == d
  }

  /** kom_handle_trap takes the hart away from the enclave of dispatcher `d`. */
  ghost predicate Interrupts(s: State, act: Action, d: Word) {
    Running(s, d) && act.Trap? && act.cause != EXC_ECALL_S
  }

  ghost predicate HostTrap(s: State, act: Action) {
    !s.enclaveMode && act.Trap? && act.cause == EXC_ECALL_S
  }

  /** No host call writes an existing dispatcher, and a new one has not been entered. */
  ghost predicate DispatcherKept(s: State, s': State, d: Word)
    requires Shape(s) && Shape(s')
  {
    Typed(s', d, DISPATCHER) ==>
      if Typed(s, d, DISPATCHER) then s'.pages[d] == s.pages[d] else s'.pages[d][ENTERED] == 0
  }

  ghost predicate Keeps(s: State, s': State, d: Word) {
    Shape(s) && Shape(s') && DispatcherKept(s, s', d)
  }

  lemma InitAddrspaceKeeps(s: State, a: Word, l1: Word, d: Word)
    requires OwnersValid(s)
    ensures Keeps(s, InitAddrspace(s, a, l1).0, d)
  {
  }

  lemma InitDispatcherKeeps(s: State, page: Word, a: Word, entrypoint: Word, d: Word)
    requires OwnersValid(s)
    ensures Keeps(s, InitDispatcher(s, page, a, entrypoint).0, d)
  {
  }

  lemma LinkedChildKeeps(s: State, ty: PageType, page: Word, t: Word, i: Word, prot: nat, body: Page, d: Word)
    requires OwnersValid(s) && IsTable(ty) && i < 512 && prot < 1024 && LinkErr(s, ty, page, t, i) == SUCCESS
    ensures Keeps(s, LinkedChild(s, ty, page, t, i, prot, body), d)
  {
  }

  lemma InitTableKeeps(s: State, ty: PageType, page: Word, t: Word, i: Word, d: Word)
    requires OwnersValid(s) && IsTable(ty)
    ensures Keeps(s, InitTable(s, ty, page, t, i).0, d)
  {
    if InitTableErr(s, ty, page, t, i) == SUCCESS {
      LinkedChildKeeps(s, ty, page, t, i, PTE_PRESENT, ZeroPage(), d);
    }
  }

  lemma MapSecureKeeps(s: State, page: Word, t: Word, i: Word, mapping: Word, content: Word, d: Word)
    requires OwnersValid(s)
    ensures Keeps(s, MapSecure(s, page, t, i, mapping, content).0, d)
  {
    if MapSecureErr(s, page, t, i, content) == SUCCESS {
      LinkedChildKeeps(s, L3PTABLE, page, t, i, EnclaveProt(mapping), s.insecure[content], d);
    }
  }

  lemma MapInsecureKeeps(s: State, t: Word, i: Word, mapping: Word, ip: Word, d: Word)
    requires OwnersValid(s)
    ensures Keeps(s, MapInsecure(s, t, i, mapping, ip).0, d)
  {
  }

  lemma RemoveKeeps(s: State, p: Word, d: Word)
    requires OwnersValid(s)
    ensures Keeps(s, Remove(s, p).0, d)
  {
  }

  lemma FinaliseKeeps(s: State, a: Word, d: Word)
    requires OwnersValid(s)
    ensures Keeps(s, Finalise(s, a).0, d)
  {
  }

  lemma StopKeeps(s: State, a: Word, d: Word)
    requires OwnersValid(s)
    ensures Keeps(s, Stop(s, a).0, d)
  {
  }

  lemma HostCallKeeps(s: State, sbi: Word, d: Word)
    requires OwnersValid(s)
    ensures Keeps(s, HostCall(s, sbi).0, d)
  {
    var r := s.regs;
    match r[A7]
    case 12 => InitAddrspaceKeeps(s, r[A0], r[A1], d);
    case 13 => InitDispatcherKeeps(s, r[A0], r[A1], r[A2], d);
    case 14 => InitTableKeeps(s, L1PTABLE, r[A0], r[A1], r[A2], d);
    case 15 => InitTableKeeps(s, L2PTABLE, r[A0], r[A1], r[A2], d);
    case 16 => MapSecureKeeps(s, r[A0], r[A1], r[A2], r[A3], r[A4], d);
    case 17 => MapInsecureKeeps(s, r[A0], r[A1], r[A2], r[A3], d);
    case 20 => RemoveKeeps(s, r[A0], d);
    case 21 => FinaliseKeeps(s, r[A0], d);
    case 29 => StopKeeps(s, r[A0], d);
    case _ =>
  }

  lemma HostCallKeepsDispatcher(s: State, sbi: Word, d: Word)
    requires Inv(s) && !s.enclaveMode
    ensures Inv(HostCall(s, sbi).0)
    ensures DispatcherKept(s, HostCall(s, sbi).0, d)
  {
    HostCallKeepsInv(s, sbi);
    HostCallKeeps(s, sbi, d);
  }

  /** One step and the saved state of a dispatcher that is not running: an interrupt has just
      saved it, or it is what it was. */
  lemma StepKeepsSaved(s: State, act: Action, d: Word)
    requires Inv(s) && Enabled(s, act)
    requires var s' := Next(s, act);
      PageValid(s', d) && |s'.pages| == |s'.pagedb| && Typed(s', d, DISPATCHER) && s'.pages[d][ENTERED] != 0
        && !Running(s', d)
    ensures var s' := Next(s, act);
      if Running(s, d) then
        Interrupts(s, act, d) && DispRegs(s'.pages[d]) == s.regs && DispCsrs(s'.pages[d]) == s.csrs
      else
        Typed(s, d, DISPATCHER) && s'.pages[d] == s.pages[d]
  {
    var s' := Next(s, act);
    match act {
      case Trap(cause, sbi) =>
        if HostTrap(s, act) {
          HartOnlyKeepsInv(s, AdvanceMepc(s));
          HostCallKeepsDispatcher(AdvanceMepc(s), sbi, d);
        }
      case HostRun(_, _, stores) => HostStoresConfined(s, stores);
      case EnclaveRun(_, _, stores) => EnclaveStoresConfined(s, stores);
    }
  }

  /** The interrupt that saved what an entered dispatcher holds, `d` not having run since. */
  lemma {:induction false} SavedByLastInterrupt(ss: seq<State>, acts: seq<Action>, n: nat, d: Word) returns (m: nat)
    requires Run(ss, acts) && n < |ss|
    requires Inv(ss[n]) && Typed(ss[n], d, DISPATCHER) && ss[n].pages[d][ENTERED] != 0 && !Running(ss[n], d)
    ensures m < n && Interrupts(ss[m], acts[m], d)
    ensures DispRegs(ss[n].pages[d]) == ss[m].regs && DispCsrs(ss[n].pages[d]) == ss[m].csrs
    ensures forall k :: m < k <= n ==> !Running(ss[k], d)
  {
    assert n > 0 by {
      RunKeepsInv(ss, acts, 0);
    }
    RunKeepsInv(ss, acts, n - 1);
    assert Steps(ss[n - 1], acts[n - 1], ss[n]);
    StepKeepsSaved(ss[n - 1], acts[n - 1], d);
    if Running(ss[n - 1], d) {
      m := n - 1;
    } else {
      m := SavedByLastInterrupt(ss, acts, n - 1, d);
    }
  }

  /** Whenever resume succeeds, the registers and CSRs the enclave continues with are those it
      had when an interrupt or fault last took the hart from it. */
  lemma ResumeContinues(ss: seq<State>, acts: seq<Action>, n: nat) returns (m: nat)
    requires Run(ss, acts) && n < |acts| && HostTrap(ss[n], acts[n])
    requires OwnersValid(AdvanceMepc(ss[n])) && Resumes(AdvanceMepc(ss[n]))
    ensures var d := ss[n].regs[A0];
      && m < n && Interrupts(ss[m], acts[m], d)
      && ss[n + 1].regs == ss[m].regs && ss[n + 1].csrs == ss[m].csrs
      && forall k :: m < k <= n ==> !Running(ss[k], d)
  {
    RunKeepsInv(ss, acts, n);
    assert Steps(ss[n], acts[n], ss[n + 1]);
    m := SavedByLastInterrupt(ss, acts, n, ss[n].regs[A0]);
  }

  lemma HostTrapEnters(s: State, sbi: Word)
    requires Inv(s) && !s.enclaveMode && SmcTrap(s, sbi).enclaveMode
    ensures SmcTrap(s, sbi).hostRegs == s.regs && SmcTrap(s, sbi).hostCsrs == AdvanceMepc(s).csrs
  {
    HartOnlyKeepsInv(s, AdvanceMepc(s));
    HostCallKeepsInv(AdvanceMepc(s), sbi);
  }

  /** The step into the enclave saves the host; steps inside leave what was saved. */
  lemma EntrantStep(s: State, act: Action)
    requires Inv(s) && Enabled(s, act) && Next(s, act).enclaveMode
    ensures var s' := Next(s, act);
      if s.enclaveMode then s'.hostRegs == s.hostRegs && s'.hostCsrs == s.hostCsrs
      else HostTrap(s, act) && s'.hostRegs == s.regs && s'.hostCsrs == AdvanceMepc(s).csrs
  {
    match act
    case Trap(cause, sbi) =>
      if HostTrap(s, act) {
        HostTrapEnters(s, sbi);
      }
    case HostRun(_, _, stores) => HostStoresConfined(s, stores);
    case EnclaveRun(_, _, stores) => EnclaveStoresConfined(s, stores);
  }

  /** While an enclave runs, host_state holds the registers of the host trap that let it in. */
  lemma {:induction false} HostStateIsTheEntrant(ss: seq<State>, acts: seq<Action>, n: nat) returns (m: nat)
    requires Run(ss, acts) && n < |ss| && ss[n].enclaveMode
    ensures m < n && HostTrap(ss[m], acts[m])
    ensures forall k :: m < k <= n ==> ss[k].enclaveMode
    ensures ss[n].hostRegs == ss[m].regs && ss[n].hostCsrs == AdvanceMepc(ss[m]).csrs
  {
    RunKeepsInv(ss, acts, n - 1);
    assert Steps(ss[n - 1], acts[n - 1], ss[n]);
    EntrantStep(ss[n - 1], acts[n - 1]);
    if ss[n - 1].enclaveMode {
      m := HostStateIsTheEntrant(ss, acts, n - 1);
    } else {
      m := n - 1;
    }
  }

  /** On every return to the host it finds all its CSRs and all its registers but a0 and a1
      as they were at its enter or resume call, with the call instruction stepped over. */
  lemma HostReturns(ss: seq<State>, acts: seq<Action>, n: nat) returns (m: nat)
    requires Run(ss, acts) && n < |acts| && ss[n].enclaveMode && !ss[n + 1].enclaveMode
    ensures m < n && HostTrap(ss[m], acts[m]) && (forall k :: m < k <= n ==> ss[k].enclaveMode)
    ensures ss[n + 1].csrs == AdvanceMepc(ss[m]).csrs
    ensures forall i :: 0 <= i < 31 && i != A0 && i != A1 ==> ss[n + 1].regs[i] == ss[m].regs[i]
    ensures acts[n].Trap?
    ensures ss[n + 1].regs[A0] == if acts[n].cause == EXC_ECALL_S then SUCCESS
      else if acts[n].cause >= 0x8000_0000_0000_0000 then INTERRUPTED else FAULT
    ensures ss[n + 1].regs[A1] == if acts[n].cause == EXC_ECALL_S then ss[n].regs[A0] else acts[n].cause
  {
    RunKeepsInv(ss, acts, n);
    assert Steps(ss[n], acts[n], ss[n + 1]);
    m := HostStateIsTheEntrant(ss, acts, n);
    if acts[n].EnclaveRun? {
      EnclaveStoresConfined(ss[n], acts[n].stores);
      assert false;
    }
  }
}
