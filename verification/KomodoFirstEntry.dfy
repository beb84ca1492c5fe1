/** From the creation of a dispatcher to its first entry. */
module KomodoFirstEntry {
  import opened KomodoTypes
  import opened KomodoSpec
  import opened KomodoInvariant
  import opened KomodoTheorems
  import opened KomodoRoundTrip
  import opened KomodoEffects

  /** A dispatcher that does not run keeps its page. */
  lemma StepKeepsDispatcher(s: State, act: Action, d: Word)
    requires Inv(s) && Enabled(s, act) && Typed(s, d, DISPATCHER) && !Running(s, d)
    requires Typed(Next(s, act), d, DISPATCHER) && !Running(Next(s, act), d)
    ensures |Next(s, act).pages| == |s.pages| && Next(s, act).pages[d] == s.pages[d]
  {
    match act
    case Trap(cause, sbi) =>
      if HostTrap(s, act) {
        HartOnlyKeepsInv(s, AdvanceMepc(s));
        HostCallKeepsDispatcher(AdvanceMepc(s), sbi, d);
      }
    case HostRun(_, _, stores) => HostStoresConfined(s, stores);
    case EnclaveRun(_, _, stores) => EnclaveStoresConfined(s, stores);
  }

  lemma {:induction false} DispatcherUntouched(ss: seq<State>, acts: seq<Action>, m: nat, n: nat, d: Word)
    requires Run(ss, acts) && m <= n < |ss|
    requires forall k :: m <= k <= n ==> Typed(ss[k], d, DISPATCHER) && !Running(ss[k], d)
    ensures |ss[m].pages| > d && |ss[n].pages| > d && ss[n].pages[d] == ss[m].pages[d]
    decreases n
  {
    RunKeepsInv(ss, acts, n);
    if m < n {
      DispatcherUntouched(ss, acts, m, n - 1, d);
      RunKeepsInv(ss, acts, n - 1);
      assert Steps(ss[n - 1], acts[n - 1], ss[n]);
      StepKeepsDispatcher(ss[n - 1], acts[n - 1], d);
    }
  }

  ghost predicate HostCalls(ss: seq<State>, acts: seq<Action>, m: nat, nr: Word)
    requires Run(ss, acts) && m < |acts|
  {
    HostTrap(ss[m], acts[m]) && ss[m].regs[A7] == nr
  }

  /** A dispatcher starts at the entry point it was created with, with the three arguments of the
      first enter in a0 to a2, every other register zero, and its space's root table in satp. */
  lemma FirstEntry(ss: seq<State>, acts: seq<Action>, m: nat, n: nat, d: Word)
    requires Run(ss, acts) && m < n < |acts|
    requires HostCalls(ss, acts, m, 13) && ss[m].regs[A0] == d && ss[m + 1].regs[A0] == SUCCESS
    requires HostCalls(ss, acts, n, 22) && ss[n].regs[A0] == d && ss[n + 1].enclaveMode
    requires forall k :: m < k <= n ==> Typed(ss[k], d, DISPATCHER) && !Running(ss[k], d)
    ensures var a, s' := ss[m].regs[A1], ss[n + 1];
      && s'.cur == d && s'.regs[A0] == ss[n].regs[A1] && s'.regs[A1] == ss[n].regs[A2] && s'.regs[A2] == ss[n].regs[A3]
      && (forall i :: 0 <= i < 31 && i != A0 && i != A1 && i != A2 ==> s'.regs[i] == 0)
      && Typed(ss[m], a, ADDRSPACE) && a < |ss[m].pages|
      && s'.csrs == ZeroCsrs()[MEPC := ss[m].regs[A2]][SIE := 0x222]
           [SATP := 0x8000_0000_0000_0000 + ss[m].lay.securePfn + ss[m].pages[a][L1PT]]
  {
    RunKeepsInv(ss, acts, m);
    RunKeepsInv(ss, acts, n);
    assert Steps(ss[m], acts[m], ss[m + 1]) && Steps(ss[n], acts[n], ss[n + 1]);
    InitDispatcherEffect(ss[m], acts[m].sbi);
    DispatcherUntouched(ss, acts, m + 1, n, d);
    EnterEffect(ss[n], acts[n].sbi);
  }
}
