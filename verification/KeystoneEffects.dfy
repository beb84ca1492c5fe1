/** What each Keystone call does, in terms of its arguments and the state before it. */
module KeystoneEffects {
  import opened Words
  import opened KeystoneSpec
  import opened KeystoneInvariant
  import opened KeystoneTheorems

  const FULL := Access(true, true, true)
  const SHARED := Access(true, true, false)

  /** The caller after a call that returns to it with `r`. */
  predicate Answered(s: State, s': State, r: U64) {
    s'.cpu == s.cpu.(regs := s.cpu.regs[A0 := r], mepc := Mod64(s.cpu.mepc as int + 4))
  }

  /** What the hart allows at byte `i` of the payload. */
  function AccessAt(k: Params, s: State, i: nat): Access
    requires s.pmp.Valid()
  {
    Lookup(s.pmp, k.base + i, 0)
  }

  predicate Aligned(k: Params, lo: nat, hi: nat) {
    lo % 4 == 0 && hi % 4 == 0 && lo < hi <= k.payload
  }

  /** Byte `i` lies in the secure region of some enclave. */
  ghost predicate AnySecure(s: State, i: nat)
    requires |s.enclaves| == NR_ENCLAVES
  {
    exists f: nat :: f < NR_ENCLAVES && SecureByte(s, f, i)
  }

  // ---------------------------------------------------------------- create

  /** The host asks for a free enclave and two regions, the secure one clear of all others. */
  ghost predicate MayCreate(k: Params, s: State, e: U64, lo: U64, hi: U64, shLo: U64, shHi: U64)
    requires |s.enclaves| == NR_ENCLAVES
  {
    && !s.mode && e < NR_ENCLAVES && s.enclaves[e].status == Free
    && Aligned(k, lo, hi) && Aligned(k, shLo, shHi)
    && forall f: nat, i: nat {:trigger SecureByte(s, f, i)} ::
         f < NR_ENCLAVES && SecureByte(s, f, i) ==> !(lo <= i < hi)
  }

  lemma OverlapIs(k: Params, s: State, f: nat, lo: nat, hi: nat)
    requires Inv(k, s) && f < NR_ENCLAVES && lo < hi
    ensures Overlaps(s.enclaves[f], lo, hi) <==> exists i: nat :: SecureByte(s, f, i) && lo <= i < hi
  {
    var x := s.enclaves[f];
    assert EnclaveOk(k, x);
    if Overlaps(x, lo, hi) {
      assert SecureByte(s, f, if x.secLo < lo then lo else x.secLo);
    }
  }

  lemma MayCreateIs(k: Params, s: State, e: U64, lo: U64, hi: U64, shLo: U64, shHi: U64)
    requires Inv(k, s)
    ensures CreateOk(k, s, e, lo, hi, shLo, shHi) <==> MayCreate(k, s, e, lo, hi, shLo, shHi)
  {
    if lo < hi {
      forall f: nat | f < NR_ENCLAVES
        ensures Overlaps(s.enclaves[f], lo, hi) <==> exists i: nat :: SecureByte(s, f, i) && lo <= i < hi
      {
        OverlapIs(k, s, f, lo, hi);
      }
    }
  }

  lemma CreateAnswers(k: Params, s: State, sbi: U64)
    requires Inv(k, s) && s.cpu.regs[A7] == NR_CREATE
    ensures Shaped(k, s)
    ensures var a, s' := s.cpu.regs, Trap(k, s, sbi);
      var ok := MayCreate(k, s, a[9], a[11], a[12], a[13], a[14]);
      && Answered(s, s', if ok then 0 else EINVAL) && s'.mode == s.mode && s'.mem == s.mem && s'.host == s.host
      && (!ok ==> s'.enclaves == s.enclaves && s'.pmp == s.pmp)
  {
    InvShaped(k, s);
    var a := s.cpu.regs;
    MayCreateIs(k, s, a[9], a[11], a[12], a[13], a[14]);
  }

  /** The secure region is exactly the one asked for, closed to everyone; the rest of memory is as
      accessible as before. */
  lemma CreateEffect(k: Params, s: State, sbi: U64)
    requires Inv(k, s) && s.cpu.regs[A7] == NR_CREATE
    requires var a := s.cpu.regs; MayCreate(k, s, a[9], a[11], a[12], a[13], a[14])
    ensures Shaped(k, s) && Inv(k, Trap(k, s, sbi))
    ensures var a, s' := s.cpu.regs, Trap(k, s, sbi);
      && s'.enclaves[a[9]].status == Fresh && s'.enclaves[a[9]].entry == a[10]
      && s'.enclaves[a[9]].shLo == a[13] && s'.enclaves[a[9]].shHi == a[14]
      && (forall f :: 0 <= f < NR_ENCLAVES && f != a[9] ==> s'.enclaves[f] == s.enclaves[f])
      && (forall i: nat :: SecureByte(s', a[9], i) <==> a[11] <= i < a[12])
      && forall p: nat :: Lookup(s'.pmp, p, 0) ==
           if k.base + a[11] <= p < k.base + a[12] then NONE else Lookup(s.pmp, p, 0)
  {
    InvShaped(k, s);
    var a := s.cpu.regs;
    MayCreateIs(k, s, a[9], a[11], a[12], a[13], a[14]);
    TrapKeepsInv(k, s, sbi);
    var s' := Trap(k, s, sbi);
    forall p: nat ensures Lookup(s'.pmp, p, 0) ==
      if k.base + a[11] <= p < k.base + a[12] then NONE else Lookup(s.pmp, p, 0)
    {
      PmpIsPolicy(k, s, p);
      PmpIsPolicy(k, s', p);
      CreatePolicy(k, s, s', a[9], p);
    }
  }

  lemma CreatePolicy(k: Params, s: State, s': State, e: nat, p: nat)
    requires |s.enclaves| == |s'.enclaves| == NR_ENCLAVES && e < NR_ENCLAVES && !s.mode && !s'.mode
    requires s.enclaves[e].status == Free && Live(s'.enclaves[e])
    requires forall f :: 0 <= f < NR_ENCLAVES && f != e ==> s'.enclaves[f] == s.enclaves[f]
    ensures Policy(k, s', p) == if InSecure(k, s'.enclaves[e], p) then NONE else Policy(k, s, p)
  {
    forall f | 0 <= f < NR_ENCLAVES && f != e ensures InSecure(k, s'.enclaves[f], p) == InSecure(k, s.enclaves[f], p) {
    }
    if InSecure(k, s'.enclaves[e], p) {
      assert 0 <= e < NR_ENCLAVES && InSecure(k, s'.enclaves[e], p);
    }
  }

  // ---------------------------------------------------------------- run and resume

  /** What the hart gives enclave `e` while it runs: its region, and of its shared one what is in
      no secure region. */
  ghost function Granted(k: Params, s: State, e: nat, i: nat): Access
    requires e < |s.enclaves| == NR_ENCLAVES
  {
    if SecureByte(s, e, i) then FULL
    else if AnySecure(s, i) then NONE
    else if s.enclaves[e].shLo <= i < s.enclaves[e].shHi then SHARED
    else NONE
  }

  lemma GrantedIs(k: Params, s: State, i: nat)
    requires Inv(k, s) && s.mode
    ensures AccessAt(k, s, i) == Granted(k, s, s.current, i)
  {
    PmpIsPolicy(k, s, k.base + i);
    forall f: nat | f < NR_ENCLAVES ensures InSecure(k, s.enclaves[f], k.base + i) == SecureByte(s, f, i) {
    }
  }

  /** run starts the enclave at its entry with cleared registers, answers it 0, and keeps the host's
      state for its return. */
  lemma RunEffect(k: Params, s: State, sbi: U64)
    requires Inv(k, s) && s.cpu.regs[A7] == NR_RUN && !s.mode && s.cpu.regs[A0] < NR_ENCLAVES
    requires s.enclaves[s.cpu.regs[A0]].status == Fresh || s.enclaves[s.cpu.regs[A0]].status == Idle
    ensures Shaped(k, s)
    ensures var e, s' := s.cpu.regs[A0], Trap(k, s, sbi);
      && s'.mode && s'.current == e && s'.host == s.cpu && s'.mem == s.mem
      && s'.cpu.mepc == s.enclaves[e].entry && s'.cpu.csrs == s.enclaves[e].saved.csrs
      && (forall r :: 0 <= r < 31 ==> s'.cpu.regs[r] == 0)
      && (forall f: nat, i: nat {:trigger SecureByte(s', f, i)} ::
            f < NR_ENCLAVES ==> SecureByte(s', f, i) == SecureByte(s, f, i))
      && forall i: nat :: AccessAt(k, s', i) == Granted(k, s, e, i)
  {
    InvShaped(k, s);
    TrapKeepsInv(k, s, sbi);
    var e, s' := s.cpu.regs[A0], Trap(k, s, sbi);
    forall i: nat ensures AccessAt(k, s', i) == Granted(k, s, e, i) {
      GrantedIs(k, s', i);
      SameGrant(k, s, s', e, i);
    }
  }

  lemma SameGrant(k: Params, s: State, s': State, e: nat, i: nat)
    requires |s.enclaves| == |s'.enclaves| == NR_ENCLAVES && e < NR_ENCLAVES
    requires s'.enclaves[e].shLo == s.enclaves[e].shLo && s'.enclaves[e].shHi == s.enclaves[e].shHi
    requires forall f: nat :: f < NR_ENCLAVES ==> SecureByte(s', f, i) == SecureByte(s, f, i)
    ensures Granted(k, s', e, i) == Granted(k, s, e, i)
  {
  }

  /** resume continues an idle enclave where it left, past its call, and answers it 0. */
  lemma ResumeEffect(k: Params, s: State, sbi: U64)
    requires Inv(k, s) && s.cpu.regs[A7] == NR_RESUME && !s.mode && s.cpu.regs[A0] < NR_ENCLAVES
    requires s.enclaves[s.cpu.regs[A0]].status == Idle
    ensures Shaped(k, s)
    ensures var e, s' := s.cpu.regs[A0], Trap(k, s, sbi);
      var c := s.enclaves[e].saved;
      && s'.mode && s'.current == e && s'.host == s.cpu && s'.mem == s.mem
      && s'.cpu == c.(regs := c.regs[A0 := 0], mepc := Mod64(c.mepc as int + 4))
      && forall i: nat :: AccessAt(k, s', i) == Granted(k, s, e, i)
  {
    InvShaped(k, s);
    TrapKeepsInv(k, s, sbi);
    var e, s' := s.cpu.regs[A0], Trap(k, s, sbi);
    forall i: nat ensures AccessAt(k, s', i) == Granted(k, s, e, i) {
      GrantedIs(k, s', i);
      SameGrant(k, s, s', e, i);
    }
  }

  /** exit saves the enclave and gives the host back its state, and all memory but the secure regions. */
  lemma ExitEffect(k: Params, s: State, sbi: U64)
    requires Inv(k, s) && s.cpu.regs[A7] == NR_EXIT && s.mode
    ensures Shaped(k, s)
    ensures var e, s', c := s.current, Trap(k, s, sbi), s.host;
      && !s'.mode && s'.mem == s.mem && s'.enclaves[e].status == Idle && s'.enclaves[e].saved == s.cpu
      && s'.cpu == c.(regs := c.regs[A0 := 0], mepc := Mod64(c.mepc as int + 4))
      && forall i: nat :: AccessAt(k, s', i) ==
           if i < k.payload && !AnySecure(s, i) then FULL else NONE
  {
    InvShaped(k, s);
    TrapKeepsInv(k, s, sbi);
    var s' := Trap(k, s, sbi);
    forall i: nat ensures AccessAt(k, s', i) ==
      if i < k.payload && !AnySecure(s, i) then FULL else NONE
    {
      HostAccess(k, s', i);
      SameSecure(s, s', i);
    }
  }

  lemma HostAccess(k: Params, s: State, i: nat)
    requires Inv(k, s) && !s.mode
    ensures AccessAt(k, s, i) ==
      if i < k.payload && !AnySecure(s, i) then FULL else NONE
  {
    PmpIsPolicy(k, s, k.base + i);
    forall f: nat | f < NR_ENCLAVES ensures InSecure(k, s.enclaves[f], k.base + i) == SecureByte(s, f, i) {
    }
    forall f: nat | f < NR_ENCLAVES && SecureByte(s, f, i) ensures i < k.payload {
      assert EnclaveOk(k, s.enclaves[f]);
    }
  }

  lemma SameSecure(s: State, s': State, i: nat)
    requires |s.enclaves| == |s'.enclaves| == NR_ENCLAVES
    requires forall f: nat :: f < NR_ENCLAVES ==> SecureByte(s', f, i) == SecureByte(s, f, i)
    ensures AnySecure(s', i) == AnySecure(s, i)
  {
  }

  // ---------------------------------------------------------------- destroy

  /** destroy zeroes the region, no other byte, and gives it back to the host. */
  lemma DestroyEffect(k: Params, s: State, sbi: U64)
    requires Inv(k, s) && s.cpu.regs[A7] == NR_DESTROY && !s.mode && s.cpu.regs[A0] < NR_ENCLAVES
    requires s.enclaves[s.cpu.regs[A0]].status == Fresh || s.enclaves[s.cpu.regs[A0]].status == Idle
    ensures Shaped(k, s)
    ensures var e, s' := s.cpu.regs[A0], Trap(k, s, sbi);
      && Answered(s, s', 0) && !s'.mode && s'.enclaves[e].status == Free && |s'.mem| == |s.mem|
      && (forall f :: 0 <= f < NR_ENCLAVES && f != e ==> s'.enclaves[f] == s.enclaves[f])
      && (forall i: nat :: i < |s.mem| ==> s'.mem[i] == if SecureByte(s, e, i) then 0 else s.mem[i])
      && forall i: nat :: SecureByte(s, e, i) ==> AccessAt(k, s', i) == FULL
  {
    InvShaped(k, s);
    TrapKeepsInv(k, s, sbi);
    var e, s' := s.cpu.regs[A0], Trap(k, s, sbi);
    assert EnclaveOk(k, s.enclaves[e]);
    forall i: nat | SecureByte(s, e, i) ensures AccessAt(k, s', i) == FULL {
      HostAccess(k, s', i);
      forall f: nat | f < NR_ENCLAVES ensures !SecureByte(s', f, i) {
        if f != e && SecureByte(s, f, i) {
          SecureUnique(k, s, k.base + i, e, f);
        }
      }
    }
  }

  // ---------------------------------------------------------------- everything else

  /** When a call other than create is served. */
  predicate Served(s: State, nr: U64, e: U64)
    requires |s.enclaves| == NR_ENCLAVES
  {
    if nr == NR_EXIT then s.mode
    else
      && !s.mode && e < NR_ENCLAVES
      && (s.enclaves[e].status == Idle || (s.enclaves[e].status == Fresh && nr != NR_RESUME))
  }

  /** A call that is not served changes nothing but the caller's result and, except for run, mepc. */
  lemma RefusedEffect(k: Params, s: State, sbi: U64)
    requires Inv(k, s) && s.cpu.regs[A7] != NR_CREATE
    requires var nr := s.cpu.regs[A7]; NR_DESTROY <= nr <= NR_RESUME ==> !Served(s, nr, s.cpu.regs[A0])
    ensures Shaped(k, s)
    ensures var nr, s' := s.cpu.regs[A7], Trap(k, s, sbi);
      var r := if nr <= 8 then sbi else if nr <= 13 then EINVAL else ENOSYS;
      && s' == s.(cpu := s'.cpu)
      && s'.cpu == s.cpu.(regs := s.cpu.regs[A0 := r],
        mepc := if nr == 11 then s.cpu.mepc else Mod64(s.cpu.mepc as int + 4))
  {
    InvShaped(k, s);
  }

  // ---------------------------------------------------------------- from create to run

  /** Nobody but a run, resume or destroy of it, or the enclave itself, changes what is kept of it. */
  lemma OthersKeepEnclave(k: Params, s: State, a: Action, e: nat)
    requires Inv(k, s) && e < NR_ENCLAVES && Live(s.enclaves[e]) && !Disturbs(s, a, e)
    ensures |Next(k, s, a).enclaves| == NR_ENCLAVES && Next(k, s, a).enclaves[e] == s.enclaves[e]
  {
  }

  lemma {:induction false} RunKeepsEnclave(k: Params, s: State, acts: seq<Action>, e: nat)
    requires Inv(k, s) && e < NR_ENCLAVES && Live(s.enclaves[e]) && NeverDisturbs(k, s, acts, e)
    ensures |Run(k, s, acts).enclaves| == NR_ENCLAVES && Run(k, s, acts).enclaves[e] == s.enclaves[e]
    decreases |acts|
  {
    if acts != [] {
      NextKeepsInv(k, s, acts[0]);
      OthersKeepEnclave(k, s, acts[0], e);
      RunKeepsEnclave(k, Next(k, s, acts[0]), acts[1..], e);
    }
  }

  /** An enclave created with some arguments and, after whatever else has happened, run for the
      first time starts at the entry given, with cleared registers, and reaches the bytes of the
      secure region given, those of the shared region given that are in no secure region, and no
      other. */
  lemma CreatedThenRun(k: Params, s: State, sbi: U64, acts: seq<Action>, sbi': U64, i: nat)
    requires Inv(k, s) && s.cpu.regs[A7] == NR_CREATE
    requires var a := s.cpu.regs; MayCreate(k, s, a[9], a[11], a[12], a[13], a[14])
    requires Shaped(k, s) && Inv(k, Trap(k, s, sbi)) && NeverDisturbs(k, Trap(k, s, sbi), acts, s.cpu.regs[9])
    requires var t := Run(k, Trap(k, s, sbi), acts);
      !t.mode && t.cpu.regs[A7] == NR_RUN && t.cpu.regs[A0] == s.cpu.regs[9]
    ensures Shaped(k, Run(k, Trap(k, s, sbi), acts))
    ensures var a, t := s.cpu.regs, Run(k, Trap(k, s, sbi), acts);
      var t' := Trap(k, t, sbi');
      && t'.mode && t'.current == a[9] && t'.cpu.mepc == a[10]
      && (forall r :: 0 <= r < 31 ==> t'.cpu.regs[r] == 0)
      && AccessAt(k, t', i) ==
           if a[11] <= i < a[12] then FULL
           else if AnySecure(t, i) then NONE
           else if a[13] <= i < a[14] then SHARED
           else NONE
  {
    var a, s1 := s.cpu.regs, Trap(k, s, sbi);
    CreateEffect(k, s, sbi);
    RunKeepsEnclave(k, s1, acts, a[9]);
    RunKeepsInv(k, s1, acts);
    var t := Run(k, s1, acts);
    assert SecureByte(t, a[9], i) == SecureByte(s1, a[9], i);
    RunEffect(k, t, sbi');
    assert AccessAt(k, Trap(k, t, sbi'), i) == Granted(k, t, a[9], i);
  }

  /** After boot there are no enclaves and the host has all of the payload. */
  lemma BootEffect(k: Params, mem: seq<Byte>, cpu: Cpu, i: nat)
    requires k.Valid() && |mem| == k.payload
    ensures var s := Boot(k, mem, cpu);
      && !s.mode && s.cpu == cpu && s.mem == mem && |s.enclaves| == NR_ENCLAVES && s.pmp.Valid()
      && (forall e :: 0 <= e < NR_ENCLAVES ==> s.enclaves[e].status == Free)
      && AccessAt(k, s, i) == if i < k.payload then FULL else NONE
  {
    BootEstablishesInv(k, mem, cpu);
    HostAccess(k, Boot(k, mem, cpu), i);
  }
}
