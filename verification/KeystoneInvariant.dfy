/** What every call of the Keystone monitor keeps, and the access policy the PMP registers then
    enforce. */
module KeystoneInvariant {
  import opened Words
  import opened KeystoneSpec

  // ---------------------------------------------------------------- invariant

  ghost predicate EnclaveOk(k: Params, e: Enclave) {
    if e.status == Free then e.secLo == 0 && e.secHi == 0
    else RegionOk(k, e.secLo, e.secHi) && RegionOk(k, e.shLo, e.shHi)
  }

  ghost predicate Enclaves(k: Params, es: seq<Enclave>) {
    && (forall i {:trigger EnclaveOk(k, es[i])} :: 0 <= i < |es| ==> EnclaveOk(k, es[i]))
    && (forall i, j {:trigger es[i], es[j]} :: 0 <= i < j < |es| && Live(es[i]) && Live(es[j]) ==>
       !Overlaps(es[i], es[j].secLo, es[j].secHi))
  }

  /** At most one enclave runs, and it is the current one. */
  ghost predicate ModeOk(s: State) {
    && (s.mode ==> 0 <= s.current < |s.enclaves|)
    && forall i {:trigger s.enclaves[i]} :: 0 <= i < |s.enclaves| ==>
       (s.enclaves[i].status == Running <==> s.mode && i == s.current)
  }

  /** The register pair of enclave `e`. */
  ghost predicate PairOk(k: Params, p: Pmp, e: nat, x: Enclave)
    requires p.Valid() && e < NR_ENCLAVES
  {
    && CfgByte(p.cfg, 2 * e) == 0
    && if x.status == Free then p.addr[2 * e] == 0 && p.addr[2 * e + 1] == 0
       else
         && p.addr[2 * e] == (k.base + x.secLo) / 4 && p.addr[2 * e + 1] == (k.base + x.secHi) / 4
         && CfgByte(p.cfg, 2 * e + 1) == PMPCFG_A_TOR + if x.status == Running then PMPCFG_R + PMPCFG_W + PMPCFG_X
            else 0
  }

  /** The last pair: the whole payload for the host, the shared region for an enclave. */
  ghost predicate LastOk(k: Params, s: State)
    requires s.pmp.Valid() && (s.mode ==> 0 <= s.current < |s.enclaves|)
  {
    && CfgByte(s.pmp.cfg, 6) == 0
    && s.pmp.addr[6] == (k.base + if s.mode then s.enclaves[s.current].shLo else 0) / 4
    && s.pmp.addr[7] == (k.base + if s.mode then s.enclaves[s.current].shHi else k.payload) / 4
    && CfgByte(s.pmp.cfg, 7) == PMPCFG_A_TOR + PMPCFG_R + PMPCFG_W + if s.mode then 0 else PMPCFG_X
  }

  ghost predicate Pairs(k: Params, p: Pmp, es: seq<Enclave>)
    requires p.Valid() && |es| == NR_ENCLAVES
  {
    forall e {:trigger PairOk(k, p, e, es[e])} :: 0 <= e < NR_ENCLAVES ==> PairOk(k, p, e, es[e])
  }

  ghost predicate Inv(k: Params, s: State) {
    && k.Valid() && |s.enclaves| == NR_ENCLAVES && s.pmp.Valid() && |s.mem| == k.payload
    && Enclaves(k, s.enclaves) && ModeOk(s) && Pairs(k, s.pmp, s.enclaves) && LastOk(k, s)
  }

  lemma InvShaped(k: Params, s: State)
    requires Inv(k, s)
    ensures Shaped(k, s)
  {
    forall e {:trigger s.enclaves[e]} | 0 <= e < NR_ENCLAVES ensures s.enclaves[e].secHi <= k.payload {
      assert EnclaveOk(k, s.enclaves[e]);
    }
  }

  // ---------------------------------------------------------------- the policy

  predicate InSecure(k: Params, e: Enclave, a: nat) {
    Live(e) && k.base + e.secLo <= a < k.base + e.secHi
  }

  predicate InShared(k: Params, e: Enclave, a: nat) {
    k.base + e.shLo <= a < k.base + e.shHi
  }

  /** Secure regions belong to their enclave while it runs; outside of them, the host has the
      payload and an enclave may read and write its shared region. */
  function Policy(k: Params, s: State, a: nat): Access
    requires |s.enclaves| == NR_ENCLAVES && (s.mode ==> 0 <= s.current < NR_ENCLAVES)
  {
    if exists e :: 0 <= e < NR_ENCLAVES && InSecure(k, s.enclaves[e], a) then
      if s.mode && InSecure(k, s.enclaves[s.current], a) then Access(true, true, true) else NONE
    else if !s.mode then
      if k.base <= a < k.base + k.payload then Access(true, true, true) else NONE
    else
      if InShared(k, s.enclaves[s.current], a) then Access(true, true, false) else NONE
  }

  /** A secure region has one enclave. */
  lemma SecureUnique(k: Params, s: State, a: nat, e: nat, f: nat)
    requires Enclaves(k, s.enclaves) && e < |s.enclaves| && f < |s.enclaves|
    requires InSecure(k, s.enclaves[e], a) && InSecure(k, s.enclaves[f], a)
    ensures e == f
  {
    var x, y := s.enclaves[e], s.enclaves[f];
    assert Overlaps(x, y.secLo, y.secHi) && Overlaps(y, x.secLo, x.secHi);
  }

  lemma Quarter(base: nat, x: nat)
    requires base % 4 == 0 && x % 4 == 0
    ensures (base + x) / 4 * 4 == base + x
  {
  }

  /** The even entry never matches; the odd one matches the secure region. */
  lemma PairMatches(k: Params, s: State, e: nat, a: nat)
    requires Inv(k, s) && e < NR_ENCLAVES
    ensures !Matches(s.pmp, 2 * e, a)
    ensures Matches(s.pmp, 2 * e + 1, a) <==> InSecure(k, s.enclaves[e], a)
    ensures InSecure(k, s.enclaves[e], a) ==>
      AccessOf(CfgByte(s.pmp.cfg, 2 * e + 1)) == if s.mode && e == s.current then Access(true, true, true) else NONE
  {
    var x := s.enclaves[e];
    assert PairOk(k, s.pmp, e, x) && EnclaveOk(k, x);
    if x.status != Free {
      Quarter(k.base, x.secLo);
      Quarter(k.base, x.secHi);
    }
  }

  lemma LastMatches(k: Params, s: State, a: nat)
    requires Inv(k, s)
    ensures !Matches(s.pmp, 6, a)
    ensures Matches(s.pmp, 7, a)
      <==> if s.mode then InShared(k, s.enclaves[s.current], a) else k.base <= a < k.base + k.payload
    ensures AccessOf(CfgByte(s.pmp.cfg, 7)) == Access(true, true, !s.mode)
  {
    Quarter(k.base, 0);
    Quarter(k.base, k.payload);
    if s.mode {
      assert EnclaveOk(k, s.enclaves[s.current]) && s.enclaves[s.current].status == Running;
      Quarter(k.base, s.enclaves[s.current].shLo);
      Quarter(k.base, s.enclaves[s.current].shHi);
    }
  }

  lemma LookupUnroll(p: Pmp, a: nat)
    requires p.Valid() && !Matches(p, 0, a) && !Matches(p, 2, a) && !Matches(p, 4, a) && !Matches(p, 6, a)
    ensures Lookup(p, a, 0) ==
      if Matches(p, 1, a) then AccessOf(CfgByte(p.cfg, 1))
      else if Matches(p, 3, a) then AccessOf(CfgByte(p.cfg, 3))
      else if Matches(p, 5, a) then AccessOf(CfgByte(p.cfg, 5))
      else if Matches(p, 7, a) then AccessOf(CfgByte(p.cfg, 7))
      else NONE
  {
    assert Lookup(p, a, 8) == NONE;
    assert Lookup(p, a, 6) == Lookup(p, a, 7);
    assert Lookup(p, a, 4) == Lookup(p, a, 5);
    assert Lookup(p, a, 2) == Lookup(p, a, 3);
    assert Lookup(p, a, 0) == Lookup(p, a, 1);
  }

  /** The registers agree with the policy at every address. */
  lemma PmpIsPolicy(k: Params, s: State, a: nat)
    requires Inv(k, s)
    ensures Lookup(s.pmp, a, 0) == Policy(k, s, a)
  {
    PairMatches(k, s, 0, a);
    PairMatches(k, s, 1, a);
    PairMatches(k, s, 2, a);
    LastMatches(k, s, a);
    LookupUnroll(s.pmp, a);
    if e :| 0 <= e < NR_ENCLAVES && InSecure(k, s.enclaves[e], a) {
      forall f | 0 <= f < NR_ENCLAVES && InSecure(k, s.enclaves[f], a) ensures f == e {
        SecureUnique(k, s, a, e, f);
      }
    }
  }

  // ---------------------------------------------------------------- register updates

  lemma SetCfgKeeps(p: Pmp, n: nat, v: nat, m: nat)
    requires v < 0x100
    ensures CfgByte(p.SetCfg(n, v).cfg, m) == if m == n then v else CfgByte(p.cfg, m)
  {
    CfgByteWith(p.cfg, n, v, m);
  }

  /** Two register files agree on a pair. */
  ghost predicate SamePair(p: Pmp, p': Pmp, e: nat)
    requires p.Valid() && p'.Valid() && e < 4
  {
    && p'.addr[2 * e] == p.addr[2 * e] && p'.addr[2 * e + 1] == p.addr[2 * e + 1]
    && CfgByte(p'.cfg, 2 * e) == CfgByte(p.cfg, 2 * e) && CfgByte(p'.cfg, 2 * e + 1) == CfgByte(p.cfg, 2 * e + 1)
  }

  lemma ChmodIs(p: Pmp, e: nat, perm: nat)
    requires p.Valid() && e < NR_ENCLAVES && perm < 8
    ensures var p' := Chmod(p, e, perm);
      && p'.Valid() && p'.addr == p.addr && CfgByte(p'.cfg, 2 * e) == CfgByte(p.cfg, 2 * e)
      && CfgByte(p'.cfg, 2 * e + 1) == PMPCFG_A_TOR + perm
      && forall f :: 0 <= f < 4 && f != e ==> SamePair(p, p', f)
  {
    SetCfgKeeps(p, 2 * e + 1, PMPCFG_A_TOR + perm, 2 * e);
    SetCfgKeeps(p, 2 * e + 1, PMPCFG_A_TOR + perm, 2 * e + 1);
    forall f | 0 <= f < 4 && f != e ensures SamePair(p, Chmod(p, e, perm), f) {
      SetCfgKeeps(p, 2 * e + 1, PMPCFG_A_TOR + perm, 2 * f);
      SetCfgKeeps(p, 2 * e + 1, PMPCFG_A_TOR + perm, 2 * f + 1);
    }
  }

  /** A write to the last pair. */
  lemma LastIs(p: Pmp, lower: nat, upper: nat, v: nat)
    requires p.Valid() && v < 0x100
    ensures var p' := p.SetAddr(6, lower).SetAddr(7, upper).SetCfg(7, v);
      && p'.Valid() && p'.addr[6] == lower / 4 && p'.addr[7] == upper / 4
      && CfgByte(p'.cfg, 6) == CfgByte(p.cfg, 6) && CfgByte(p'.cfg, 7) == v
      && forall f :: 0 <= f < 3 ==> SamePair(p, p', f)
  {
    var q := p.SetAddr(6, lower).SetAddr(7, upper);
    SetCfgKeeps(q, 7, v, 6);
    SetCfgKeeps(q, 7, v, 7);
    forall f | 0 <= f < 3 ensures SamePair(p, q.SetCfg(7, v), f) {
      SetCfgKeeps(q, 7, v, 2 * f);
      SetCfgKeeps(q, 7, v, 2 * f + 1);
    }
  }

  // ---------------------------------------------------------------- the calls keep the invariant

  lemma BootEstablishesInv(k: Params, mem: seq<Byte>, cpu: Cpu)
    requires k.Valid() && |mem| == k.payload
    ensures Inv(k, Boot(k, mem, cpu))
  {
    var p := Pmp([0, 0, 0, 0, 0, 0, 0, 0], 0);
    LastIs(p, k.base, k.base + k.payload, PMPCFG_A_TOR + PMPCFG_R + PMPCFG_W + PMPCFG_X);
    forall n ensures CfgByte(0, n) == 0 {
      ZeroBytes(n);
    }
    var s := Boot(k, mem, cpu);
    forall e {:trigger PairOk(k, s.pmp, e, s.enclaves[e])} | 0 <= e < NR_ENCLAVES
      ensures PairOk(k, s.pmp, e, s.enclaves[e]) {
      assert SamePair(p, s.pmp, e);
    }
  }

  lemma {:induction false} ZeroBytes(n: nat)
    ensures CfgByte(0, n) == 0
  {
    if n > 0 {
      ZeroBytes(n - 1);
    }
  }

  lemma CreatedKeepsInv(k: Params, s: State, e: U64, entry: U64, lo: U64, hi: U64, shLo: U64, shHi: U64)
    requires Inv(k, s) && CreateOk(k, s, e, lo, hi, shLo, shHi) && Shaped(k, s)
    ensures Inv(k, Created(k, s, e, entry, lo, hi, shLo, shHi))
  {
    var s' := Created(k, s, e, entry, lo, hi, shLo, shHi);
    var p1 := Chmod(s.pmp, e, 0);
    ChmodIs(s.pmp, e, 0);
    assert PairOk(k, s.pmp, e, s.enclaves[e]);
    forall f {:trigger PairOk(k, s'.pmp, f, s'.enclaves[f])} | 0 <= f < NR_ENCLAVES
      ensures PairOk(k, s'.pmp, f, s'.enclaves[f]) {
      if f != e {
        assert PairOk(k, s.pmp, f, s.enclaves[f]);
        assert SamePair(s.pmp, p1, f);
      }
    }
    assert SamePair(s.pmp, p1, 3);
    EnclavesCreated(k, s, s', e, lo, hi);
  }

  lemma EnclavesCreated(k: Params, s: State, s': State, e: nat, lo: nat, hi: nat)
    requires Enclaves(k, s.enclaves) && |s.enclaves| == |s'.enclaves| == NR_ENCLAVES && e < NR_ENCLAVES
    requires s'.enclaves == s.enclaves[e := s'.enclaves[e]] && EnclaveOk(k, s'.enclaves[e])
    requires s'.enclaves[e].secLo == lo && s'.enclaves[e].secHi == hi
    requires forall i :: 0 <= i < NR_ENCLAVES ==> !Overlaps(s.enclaves[i], lo, hi)
    ensures Enclaves(k, s'.enclaves)
  {
    forall i {:trigger EnclaveOk(k, s'.enclaves[i])} | 0 <= i < |s'.enclaves| ensures EnclaveOk(k, s'.enclaves[i]) {
      if i != e {
        assert EnclaveOk(k, s.enclaves[i]);
      }
    }
  }

  lemma EnclavesKept(k: Params, es: seq<Enclave>, es': seq<Enclave>, e: nat)
    requires Enclaves(k, es) && e < |es| == |es'| && es' == es[e := es'[e]]
    requires (es'[e].status == Free && es'[e].secLo == 0 && es'[e].secHi == 0)
      || (Live(es[e]) && Live(es'[e]) && es'[e].secLo == es[e].secLo && es'[e].secHi == es[e].secHi
         && es'[e].shLo == es[e].shLo && es'[e].shHi == es[e].shHi)
    ensures Enclaves(k, es')
  {
    forall i {:trigger EnclaveOk(k, es'[i])} | 0 <= i < |es'| ensures EnclaveOk(k, es'[i]) {
      assert EnclaveOk(k, es[i]);
    }
    forall i, j {:trigger es'[i], es'[j]} | 0 <= i < j < |es'| && Live(es'[i]) && Live(es'[j])
      ensures !Overlaps(es'[i], es'[j].secLo, es'[j].secHi)
    {
      assert !Overlaps(es[i], es[j].secLo, es[j].secHi);
    }
  }

  lemma DestroyedKeepsInv(k: Params, s: State, e: U64)
    requires Inv(k, s) && Shaped(k, s) && Startable(s, e)
    ensures Inv(k, Destroyed(k, s, e))
  {
    var s' := Destroyed(k, s, e);
    EnclavesKept(k, s.enclaves, s'.enclaves, e);
    forall f {:trigger PairOk(k, s'.pmp, f, s'.enclaves[f])} | 0 <= f < NR_ENCLAVES
      ensures PairOk(k, s'.pmp, f, s'.enclaves[f]) {
      assert PairOk(k, s.pmp, f, s.enclaves[f]);
    }
  }

  lemma ResumedKeepsInv(k: Params, s: State, e: U64)
    requires Inv(k, s) && Shaped(k, s) && !s.mode && e < NR_ENCLAVES && s.enclaves[e].status == Idle
    ensures Inv(k, Resumed(k, s, e))
  {
    var s', x := Resumed(k, s, e), s.enclaves[e];
    var p1 := Chmod(s.pmp, e, PMPCFG_R + PMPCFG_W + PMPCFG_X);
    EnclavesKept(k, s.enclaves, s'.enclaves, e);
    ChmodIs(s.pmp, e, PMPCFG_R + PMPCFG_W + PMPCFG_X);
    LastIs(p1, k.base + x.shLo, k.base + x.shHi, PMPCFG_A_TOR + PMPCFG_R + PMPCFG_W);
    assert SamePair(s.pmp, p1, 3);
    forall f {:trigger PairOk(k, s'.pmp, f, s'.enclaves[f])} | 0 <= f < NR_ENCLAVES
      ensures PairOk(k, s'.pmp, f, s'.enclaves[f]) {
      assert PairOk(k, s.pmp, f, s.enclaves[f]);
      assert SamePair(p1, s'.pmp, f);
      if f != e {
        assert SamePair(s.pmp, p1, f);
      }
    }
  }

  lemma StartedKeepsInv(k: Params, s: State, e: U64)
    requires Inv(k, s) && Startable(s, e)
    ensures Inv(k, Started(s, e))
  {
    var s' := Started(s, e);
    EnclavesKept(k, s.enclaves, s'.enclaves, e);
    forall f {:trigger PairOk(k, s'.pmp, f, s'.enclaves[f])} | 0 <= f < NR_ENCLAVES
      ensures PairOk(k, s'.pmp, f, s'.enclaves[f]) {
      assert PairOk(k, s.pmp, f, s.enclaves[f]);
    }
  }

  lemma ExitedKeepsInv(k: Params, s: State)
    requires Inv(k, s) && Shaped(k, s) && s.mode
    ensures Inv(k, Exited(k, s))
  {
    var s', e := Exited(k, s), s.current;
    var p1 := Chmod(s.pmp, e, 0);
    EnclavesKept(k, s.enclaves, s'.enclaves, e);
    ChmodIs(s.pmp, e, 0);
    LastIs(p1, k.base, k.base + k.payload, PMPCFG_A_TOR + PMPCFG_R + PMPCFG_W + PMPCFG_X);
    assert SamePair(s.pmp, p1, 3);
    forall f {:trigger PairOk(k, s'.pmp, f, s'.enclaves[f])} | 0 <= f < NR_ENCLAVES
      ensures PairOk(k, s'.pmp, f, s'.enclaves[f]) {
      assert PairOk(k, s.pmp, f, s.enclaves[f]);
      assert SamePair(p1, s'.pmp, f);
      if f != e {
        assert SamePair(s.pmp, p1, f);
      }
    }
  }

  lemma CallKeepsInv(k: Params, s: State, nr: U64, a: Gprs, sbi: U64)
    requires Inv(k, s) && Shaped(k, s)
    ensures Inv(k, Call(k, s, nr, a, sbi).s)
  {
    var e := a[A0];
    if nr == NR_CREATE && CreateOk(k, s, e, a[A0 + 2], a[A0 + 3], a[A0 + 4], a[A0 + 5]) {
      CreatedKeepsInv(k, s, e, a[A0 + 1], a[A0 + 2], a[A0 + 3], a[A0 + 4], a[A0 + 5]);
    } else if nr == NR_DESTROY && Startable(s, e) {
      DestroyedKeepsInv(k, s, e);
    } else if nr == NR_RUN && Startable(s, e) {
      StartedKeepsInv(k, s, e);
      InvShaped(k, Started(s, e));
      ResumedKeepsInv(k, Started(s, e), e);
    } else if nr == NR_EXIT && s.mode {
      ExitedKeepsInv(k, s);
    } else if nr == NR_RESUME && !s.mode && e < NR_ENCLAVES && s.enclaves[e].status == Idle {
      ResumedKeepsInv(k, s, e);
    }
  }

  lemma CpuKeepsInv(k: Params, s: State, cpu: Cpu)
    requires Inv(k, s)
    ensures Inv(k, s.(cpu := cpu))
  {
    var s' := s.(cpu := cpu);
    forall f {:trigger PairOk(k, s'.pmp, f, s'.enclaves[f])} | 0 <= f < NR_ENCLAVES
      ensures PairOk(k, s'.pmp, f, s'.enclaves[f]) {
      assert PairOk(k, s.pmp, f, s.enclaves[f]);
    }
  }

  lemma TrapKeepsInv(k: Params, s: State, sbi: U64)
    requires Inv(k, s)
    ensures Shaped(k, s) && Inv(k, Trap(k, s, sbi))
  {
    InvShaped(k, s);
    var t := Call(k, s, s.cpu.regs[A7], s.cpu.regs, sbi);
    CallKeepsInv(k, s, s.cpu.regs[A7], s.cpu.regs, sbi);
    CpuKeepsInv(k, t.s, Trap(k, s, sbi).cpu);
  }
}
