/** Whole runs of the Keystone monitor: who can change what, and what an enclave finds when it
    comes back. */
module KeystoneTheorems {
  import opened Words
  import opened KeystoneSpec
  import opened KeystoneInvariant

  // ---------------------------------------------------------------- steps

  datatype Store = Store(address: nat, value: Byte)

  /** Whoever runs changes registers and stores where the hart lets it, or traps. */
  datatype Action = User(cpu: Cpu, stores: seq<Store>) | Ecall(sbi: U64)

  function Stored(k: Params, mem: seq<Byte>, p: Pmp, stores: seq<Store>): seq<Byte>
    requires p.Valid()
    decreases |stores|
  {
    if stores == [] then mem
    else
      var w := stores[0];
      var mem' := if Lookup(p, w.address, 0).w
        && k.base <= w.address < k.base + |mem| then mem[w.address - k.base := w.value] else mem;
      Stored(k, mem', p, stores[1..])
  }

  ghost function Next(k: Params, s: State, a: Action): State
    requires Inv(k, s)
  {
    match a
    case User(cpu, stores) => s.(cpu := cpu, mem := Stored(k, s.mem, s.pmp, stores))
    case Ecall(sbi) =>
      InvShaped(k, s);
      Trap(k, s, sbi)
  }

  lemma {:induction false} StoredLength(k: Params, mem: seq<Byte>, p: Pmp, stores: seq<Store>)
    requires p.Valid()
    ensures |Stored(k, mem, p, stores)| == |mem|
    decreases |stores|
  {
    if stores != [] {
      var w := stores[0];
      var mem' := if Lookup(p, w.address, 0).w
        && k.base <= w.address < k.base + |mem| then mem[w.address - k.base := w.value] else mem;
      StoredLength(k, mem', p, stores[1..]);
    }
  }

  lemma NextKeepsInv(k: Params, s: State, a: Action)
    requires Inv(k, s)
    ensures Inv(k, Next(k, s, a))
  {
    match a {
      case User(cpu, stores) =>
        StoredLength(k, s.mem, s.pmp, stores);
        var s' := Next(k, s, a);
        forall f {:trigger PairOk(k, s'.pmp, f, s'.enclaves[f])} | 0 <= f < NR_ENCLAVES
          ensures PairOk(k, s'.pmp, f, s'.enclaves[f]) {
          assert PairOk(k, s.pmp, f, s.enclaves[f]);
        }
      case Ecall(sbi) => TrapKeepsInv(k, s, sbi);
    }
  }

  ghost function Run(k: Params, s: State, acts: seq<Action>): State
    requires Inv(k, s)
    decreases |acts|
  {
    if acts == [] then s
    else
      NextKeepsInv(k, s, acts[0]);
      Run(k, Next(k, s, acts[0]), acts[1..])
  }

  /** From boot, after any calls and any execution, the registers enforce the policy. */
  lemma {:induction false} RunKeepsInv(k: Params, s: State, acts: seq<Action>)
    requires Inv(k, s)
    ensures Inv(k, Run(k, s, acts))
    decreases |acts|
  {
    if acts != [] {
      NextKeepsInv(k, s, acts[0]);
      RunKeepsInv(k, Next(k, s, acts[0]), acts[1..]);
    }
  }

  lemma RunFromBoot(k: Params, mem: seq<Byte>, cpu: Cpu, acts: seq<Action>, a: nat)
    requires k.Valid() && |mem| == k.payload
    ensures Inv(k, Boot(k, mem, cpu)) && Inv(k, Run(k, Boot(k, mem, cpu), acts))
    ensures var s := Run(k, Boot(k, mem, cpu), acts); Lookup(s.pmp, a, 0) == Policy(k, s, a)
  {
    BootEstablishesInv(k, mem, cpu);
    RunKeepsInv(k, Boot(k, mem, cpu), acts);
    PmpIsPolicy(k, Run(k, Boot(k, mem, cpu), acts), a);
  }

  // ---------------------------------------------------------------- memory

  /** Byte `i` lies in the secure region of enclave `e`. */
  predicate SecureByte(s: State, e: nat, i: nat)
    requires e < |s.enclaves|
  {
    Live(s.enclaves[e]) && s.enclaves[e].secLo <= i < s.enclaves[e].secHi
  }

  lemma NoStoreInto(k: Params, s: State, e: nat, i: nat)
    requires Inv(k, s) && e < NR_ENCLAVES && SecureByte(s, e, i) && !(s.mode && s.current == e)
    ensures !Lookup(s.pmp, k.base + i, 0).w
  {
    PmpIsPolicy(k, s, k.base + i);
    assert InSecure(k, s.enclaves[e], k.base + i);
    if s.mode && InSecure(k, s.enclaves[s.current], k.base + i) {
      SecureUnique(k, s, k.base + i, e, s.current);
    }
  }

  lemma {:induction false} StoredKeeps(k: Params, mem: seq<Byte>, p: Pmp, stores: seq<Store>, i: nat)
    requires p.Valid() && i < |mem| && !Lookup(p, k.base + i, 0).w
    ensures |Stored(k, mem, p, stores)| == |mem| && Stored(k, mem, p, stores)[i] == mem[i]
    decreases |stores|
  {
    if stores != [] {
      var w := stores[0];
      var mem' := if Lookup(p, w.address, 0).w
        && k.base <= w.address < k.base + |mem| then mem[w.address - k.base := w.value] else mem;
      StoredKeeps(k, mem', p, stores[1..], i);
    }
  }

  /** The step is the enclave's own execution, or destroys it. */
  predicate Concerns(s: State, a: Action, e: nat) {
    if a.User? then s.mode && s.current == e
    else !s.mode && s.cpu.regs[A7] == NR_DESTROY && s.cpu.regs[A0] == e
  }

  /** Any other step leaves an enclave its region and every byte of it. */
  lemma OthersKeepSecure(k: Params, s: State, a: Action, e: nat, i: nat)
    requires Inv(k, s) && e < NR_ENCLAVES && SecureByte(s, e, i) && !Concerns(s, a, e)
    ensures var s' := Next(k, s, a);
      |s'.enclaves| == NR_ENCLAVES && |s'.mem| == |s.mem| && i < |s.mem| && SecureByte(s', e, i)
        && s'.mem[i] == s.mem[i]
  {
    assert EnclaveOk(k, s.enclaves[e]);
    match a {
      case User(cpu, stores) =>
        NoStoreInto(k, s, e, i);
        StoredKeeps(k, s.mem, s.pmp, stores, i);
      case Ecall(sbi) =>
        InvShaped(k, s);
        EcallKeepsSecure(k, s, sbi, e, i);
    }
  }

  lemma EcallKeepsSecure(k: Params, s: State, sbi: U64, e: nat, i: nat)
    requires Inv(k, s) && Shaped(k, s) && e < NR_ENCLAVES && SecureByte(s, e, i) && i < |s.mem|
    requires !(!s.mode && s.cpu.regs[A7] == NR_DESTROY && s.cpu.regs[A0] == e)
    ensures var s' := Trap(k, s, sbi);
      |s'.enclaves| == NR_ENCLAVES && |s'.mem| == |s.mem| && SecureByte(s', e, i) && s'.mem[i] == s.mem[i]
  {
    var f := s.cpu.regs[A0];
    if s.cpu.regs[A7] == NR_DESTROY && Startable(s, f) && s.enclaves[f].secLo <= i < s.enclaves[f].secHi {
      SecureUnique(k, s, k.base + i, e, f);
    }
  }

  ghost predicate NeverConcerns(k: Params, s: State, acts: seq<Action>, e: nat)
    requires Inv(k, s)
    decreases |acts|
  {
    acts == [] ||
      (!Concerns(s, acts[0], e) && (NextKeepsInv(k, s, acts[0]); NeverConcerns(k, Next(k, s, acts[0]), acts[1..], e)))
  }

  /** Over any run in which an enclave does not execute and is not destroyed, nobody changes a
      byte of its secure region: not the host, not another enclave, not the monitor. */
  lemma {:induction false} RunKeepsSecure(k: Params, s: State, acts: seq<Action>, e: nat, i: nat)
    requires Inv(k, s) && e < NR_ENCLAVES && SecureByte(s, e, i) && NeverConcerns(k, s, acts, e)
    ensures var s' := Run(k, s, acts);
      |s'.enclaves| == NR_ENCLAVES && |s'.mem| == |s.mem| && i < |s.mem| && SecureByte(s', e, i)
        && s'.mem[i] == s.mem[i]
    decreases |acts|
  {
    assert EnclaveOk(k, s.enclaves[e]);
    if acts != [] {
      NextKeepsInv(k, s, acts[0]);
      OthersKeepSecure(k, s, acts[0], e, i);
      RunKeepsSecure(k, Next(k, s, acts[0]), acts[1..], e, i);
    }
  }

  /** An enclave that executes changes its own region and its shared one, except where that is
      another enclave's secure region. */
  lemma EnclaveConfined(k: Params, s: State, a: Action, i: nat)
    requires Inv(k, s) && s.mode && a.User? && i < |s.mem|
    requires !SecureByte(s, s.current, i)
    requires !(s.enclaves[s.current].shLo <= i < s.enclaves[s.current].shHi) || exists e ::
      0 <= e < NR_ENCLAVES && SecureByte(s, e, i)
    ensures |Next(k, s, a).mem| == |s.mem| && Next(k, s, a).mem[i] == s.mem[i]
  {
    PmpIsPolicy(k, s, k.base + i);
    if e :| 0 <= e < NR_ENCLAVES && SecureByte(s, e, i) {
      assert InSecure(k, s.enclaves[e], k.base + i);
    }
    StoredKeeps(k, s.mem, s.pmp, a.stores, i);
  }

  /** Destroying an enclave erases its region before the host can reach it. */
  lemma DestroyErases(k: Params, s: State, sbi: U64, i: nat)
    requires Inv(k, s) && s.cpu.regs[A7] == NR_DESTROY && Startable(s, s.cpu.regs[A0])
    requires SecureByte(s, s.cpu.regs[A0], i)
    ensures Shaped(k, s) && |Trap(k, s, sbi).mem| == |s.mem| && i < |s.mem| && Trap(k, s, sbi).mem[i] == 0
  {
    InvShaped(k, s);
    assert EnclaveOk(k, s.enclaves[s.cpu.regs[A0]]);
  }

  // ---------------------------------------------------------------- processor state

  /** While an enclave runs, nothing touches what the host left. */
  ghost predicate StaysIn(k: Params, s: State, acts: seq<Action>)
    requires Inv(k, s)
    decreases |acts|
  {
    s.mode && (acts == [] || (NextKeepsInv(k, s, acts[0]); StaysIn(k, Next(k, s, acts[0]), acts[1..])))
  }

  lemma InsideKeepsHost(k: Params, s: State, a: Action)
    requires Inv(k, s) && s.mode && Next(k, s, a).mode
    ensures Next(k, s, a).host == s.host && Next(k, s, a).current == s.current
  {
  }

  lemma {:induction false} RunKeepsHost(k: Params, s: State, acts: seq<Action>)
    requires Inv(k, s) && StaysIn(k, s, acts)
    ensures Run(k, s, acts).mode && Run(k, s, acts).host == s.host && Run(k, s, acts).current == s.current
    decreases |acts|
  {
    if acts != [] {
      NextKeepsInv(k, s, acts[0]);
      InsideKeepsHost(k, s, acts[0]);
      RunKeepsHost(k, Next(k, s, acts[0]), acts[1..]);
    }
  }

  predicate Enters(s: State, s': State) {
    !s.mode && s'.mode
  }

  /** The host that enters an enclave gets back what it had, past its ecall and with the result 0,
      whatever the enclave did until its exit. */
  lemma HostReturns(k: Params, s: State, enter: Action, inside: seq<Action>, leave: Action)
    requires Inv(k, s) && Inv(k, Next(k, s, enter)) && Enters(s, Next(k, s, enter))
    requires StaysIn(k, Next(k, s, enter), inside) && Inv(k, Run(k, Next(k, s, enter), inside))
    requires !Next(k, Run(k, Next(k, s, enter), inside), leave).mode
    ensures Next(k, Run(k, Next(k, s, enter), inside), leave).cpu
         == s.cpu.(regs := s.cpu.regs[A0 := 0], mepc := Mod64(s.cpu.mepc as int + 4))
  {
    RunKeepsHost(k, Next(k, s, enter), inside);
  }

  /** Steps that neither are the enclave's own nor run it anew or destroy it keep what it saved. */
  predicate Disturbs(s: State, a: Action, e: nat) {
    (s.mode && s.current == e)
      || (a.Ecall? && !s.mode && s.cpu.regs[A0] == e
         && (s.cpu.regs[A7] == NR_RUN || s.cpu.regs[A7] == NR_DESTROY || s.cpu.regs[A7] == NR_RESUME))
  }

  ghost predicate NeverDisturbs(k: Params, s: State, acts: seq<Action>, e: nat)
    requires Inv(k, s)
    decreases |acts|
  {
    acts == [] ||
      (!Disturbs(s, acts[0], e) && (NextKeepsInv(k, s, acts[0]); NeverDisturbs(k, Next(k, s, acts[0]), acts[1..], e)))
  }

  lemma OthersKeepSaved(k: Params, s: State, a: Action, e: nat)
    requires Inv(k, s) && e < NR_ENCLAVES && s.enclaves[e].status == Idle && !Disturbs(s, a, e)
    ensures var s' := Next(k, s, a);
      |s'.enclaves| == NR_ENCLAVES && s'.enclaves[e].status == Idle && s'.enclaves[e].saved == s.enclaves[e].saved
  {
  }

  lemma {:induction false} RunKeepsSaved(k: Params, s: State, acts: seq<Action>, e: nat)
    requires Inv(k, s) && e < NR_ENCLAVES && s.enclaves[e].status == Idle && NeverDisturbs(k, s, acts, e)
    ensures var s' := Run(k, s, acts);
      |s'.enclaves| == NR_ENCLAVES && s'.enclaves[e].status == Idle && s'.enclaves[e].saved == s.enclaves[e].saved
    decreases |acts|
  {
    if acts != [] {
      NextKeepsInv(k, s, acts[0]);
      OthersKeepSaved(k, s, acts[0], e);
      RunKeepsSaved(k, Next(k, s, acts[0]), acts[1..], e);
    }
  }

  /** An enclave that exits and is resumed goes on with exactly what it had, past its ecall. */
  lemma EnclaveResumes(k: Params, s: State, leave: Action, outside: seq<Action>, resume: Action)
    requires Inv(k, s) && s.mode && Inv(k, Next(k, s, leave)) && !Next(k, s, leave).mode
    requires NeverDisturbs(k, Next(k, s, leave), outside, s.current) && Inv(k, Run(k, Next(k, s, leave), outside))
    requires var t := Run(k, Next(k, s, leave), outside);
      resume.Ecall? && !t.mode && t.cpu.regs[A7] == NR_RESUME && t.cpu.regs[A0] == s.current
    ensures var t' := Next(k, Run(k, Next(k, s, leave), outside), resume);
      t'.mode && t'.current == s.current
        && t'.cpu == s.cpu.(regs := s.cpu.regs[A0 := 0], mepc := Mod64(s.cpu.mepc as int + 4))
  {
    RunKeepsSaved(k, Next(k, s, leave), outside, s.current);
  }

  // ---------------------------------------------------------------- a run that fails

  predicate RunFails(s: State)
    requires |s.enclaves| == NR_ENCLAVES
  {
    s.cpu.regs[A7] == NR_RUN && !Startable(s, s.cpu.regs[A0])
  }

  /** mepc is not moved past a failing run_enclave: the caller executes the same ecall again, and
      since a0 now holds the error, it fails again, for ever. */
  lemma FailedRunRepeats(k: Params, s: State, sbi: U64)
    requires Inv(k, s) && RunFails(s)
    ensures Shaped(k, s) && Trap(k, s, sbi).cpu.mepc == s.cpu.mepc && Inv(k, Trap(k, s, sbi))
    ensures RunFails(Trap(k, s, sbi)) && Trap(k, Trap(k, s, sbi), sbi) == Trap(k, s, sbi)
  {
    InvShaped(k, s);
    TrapKeepsInv(k, s, sbi);
  }

  /** It is the only ecall that stays in its world and stays where it is. */
  lemma OnlyRunStays(k: Params, s: State, sbi: U64)
    requires Inv(k, s)
    ensures Shaped(k, s)
    ensures Trap(k, s, sbi).mode == s.mode ==> (Trap(k, s, sbi).cpu.mepc == s.cpu.mepc <==> RunFails(s))
    ensures RunFails(s) ==> Trap(k, s, sbi).mode == s.mode
  {
    InvShaped(k, s);
  }

  /** Running enclave 5, which there is not, as the first call after boot. */
  lemma FailedRunExample(k: Params, mem: seq<Byte>, cpu: Cpu, sbi: U64)
    requires k.Valid() && |mem| == k.payload && cpu.regs[A7] == 11 && cpu.regs[A0] == 5
    ensures var s := Boot(k, mem, cpu);
      Inv(k, s) && Shaped(k, s) && RunFails(s) && Trap(k, s, sbi).cpu.mepc == cpu.mepc && RunFails(Trap(k, s, sbi))
  {
    BootEstablishesInv(k, mem, cpu);
    FailedRunRepeats(k, Boot(k, mem, cpu), sbi);
  }
}
