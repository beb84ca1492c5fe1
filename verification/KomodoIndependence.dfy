/** Two-run independence: what the host learns from the monitor does not depend on enclave
    data, free pages or saved enclave registers. */
module KomodoIndependence {
  import opened KomodoTypes
  import opened KomodoSpec
  import opened KomodoInvariant
  import opened KomodoTheorems

  /** The part of a page that host calls may depend on. */
  ghost predicate PageAgrees(s: State, t: State, p: int)
    requires Shape(s) && Shape(t) && PageValid(s, p) && PageValid(t, p)
  {
    match s.pagedb[p].ty
    case FREE => true
    case DATA => true
    case DISPATCHER => s.pages[p][ENTERED] == t.pages[p][ENTERED]
    case _ => s.pages[p] == t.pages[p]
  }

  ghost predicate Agree(s: State, t: State) {
    && Shape(s) && Shape(t)
    && s.lay == t.lay && s.pagedb == t.pagedb && s.insecure == t.insecure
    && !s.enclaveMode && !t.enclaveMode
    && s.regs == t.regs && s.csrs == t.csrs
    && forall p {:trigger PageAgrees(s, t, p)} :: PageValid(s, p) ==> PageAgrees(s, t, p)
  }

  lemma AgreeAfter(s: State, t: State, s': State, t': State)
    requires Agree(s, t)
    requires Shape(s') && Shape(t') && s'.lay == t'.lay && s'.pagedb == t'.pagedb && s'.insecure == t'.insecure
    requires !s'.enclaveMode && !t'.enclaveMode && s'.regs == t'.regs && s'.csrs == t'.csrs
    requires |s'.pagedb| == |s.pagedb|
    requires forall p {:trigger s'.pages[p]} :: PageValid(s, p) ==>
      (s'.pages[p] == s.pages[p] && t'.pages[p] == t.pages[p]
        && (s'.pagedb[p].ty == s.pagedb[p].ty || s'.pagedb[p].ty == FREE))
      || s'.pages[p] == t'.pages[p]
    ensures Agree(s', t')
  {
    forall p | PageValid(s', p) ensures PageAgrees(s', t', p) {
      assert PageAgrees(s, t, p);
    }
  }

  /** Headers, tables and entered flags are read the same on both sides. */
  lemma SameView(s: State, t: State, p: int)
    requires OwnersValid(s) && OwnersValid(t) && Agree(s, t) && NonFree(s, p)
    ensures NonFree(t, p) && Owner(s, p) == Owner(t, p)
    ensures s.pages[Owner(s, p)] == t.pages[Owner(s, p)]
    ensures IsTable(s.pagedb[p].ty) || s.pagedb[p].ty == ADDRSPACE ==> s.pages[p] == t.pages[p]
    ensures s.pagedb[p].ty == DISPATCHER ==> s.pages[p][ENTERED] == t.pages[p][ENTERED]
  {
    assert NonFree(t, p);
    assert PageAgrees(s, t, p);
    assert Typed(s, Owner(s, p), ADDRSPACE);
    assert PageAgrees(s, t, Owner(s, p));
  }

  ghost predicate CallsAgree(s: State, t: State, r: (State, Word), r': (State, Word)) {
    Agree(r.0, r'.0) && r.1 == r'.1
  }

  lemma InitAddrspaceAgrees(s: State, t: State, a: Word, l1: Word)
    requires OwnersValid(s) && OwnersValid(t) && Agree(s, t)
    ensures CallsAgree(s, t, InitAddrspace(s, a, l1), InitAddrspace(t, a, l1))
  {
    AgreeAfter(s, t, InitAddrspace(s, a, l1).0, InitAddrspace(t, a, l1).0);
  }

  lemma InitDispatcherAgrees(s: State, t: State, page: Word, a: Word, entrypoint: Word)
    requires OwnersValid(s) && OwnersValid(t) && Agree(s, t)
    ensures CallsAgree(s, t, InitDispatcher(s, page, a, entrypoint), InitDispatcher(t, page, a, entrypoint))
  {
    if Typed(s, a, ADDRSPACE) {
      assert NonFree(s, a);
      SameView(s, t, a);
      AgreeAfter(s, t, InitDispatcher(s, page, a, entrypoint).0, InitDispatcher(t, page, a, entrypoint).0);
    }
  }

  lemma LinkAgrees(s: State, t: State, ty: PageType, page: Word, q: Word, i: Word)
    requires OwnersValid(s) && OwnersValid(t) && Agree(s, t) && IsTable(ty)
    ensures LinkErr(s, ty, page, q, i) == LinkErr(t, ty, page, q, i)
  {
    if Typed(s, q, ty) {
      SameView(s, t, q);
    }
  }

  lemma LinkedChildAgrees(s: State, t: State, ty: PageType, page: Word, q: Word, i: Word, prot: nat, body: Page)
    requires OwnersValid(s) && OwnersValid(t) && Agree(s, t)
    requires IsTable(ty) && i < 512 && prot < 1024
    requires LinkErr(s, ty, page, q, i) == SUCCESS && LinkErr(t, ty, page, q, i) == SUCCESS
    ensures Agree(LinkedChild(s, ty, page, q, i, prot, body), LinkedChild(t, ty, page, q, i, prot, body))
  {
    SameView(s, t, q);
    AgreeAfter(s, t, LinkedChild(s, ty, page, q, i, prot, body), LinkedChild(t, ty, page, q, i, prot, body));
  }

  lemma MapInsecureAgrees(s: State, t: State, q: Word, i: Word, mapping: Word, ip: Word)
    requires OwnersValid(s) && OwnersValid(t) && Agree(s, t)
    ensures CallsAgree(s, t, MapInsecure(s, q, i, mapping, ip), MapInsecure(t, q, i, mapping, ip))
  {
    if Typed(s, q, L3PTABLE) {
      SameView(s, t, q);
      AgreeAfter(s, t, MapInsecure(s, q, i, mapping, ip).0, MapInsecure(t, q, i, mapping, ip).0);
    }
  }

  lemma RemoveAgrees(s: State, t: State, p: Word)
    requires OwnersValid(s) && OwnersValid(t) && Agree(s, t)
    ensures CallsAgree(s, t, Remove(s, p), Remove(t, p))
  {
    if NonFree(s, p) {
      SameView(s, t, p);
      AgreeAfter(s, t, Remove(s, p).0, Remove(t, p).0);
    }
  }

  lemma SetStateAgrees(s: State, t: State, a: Word, st: Word)
    requires OwnersValid(s) && OwnersValid(t) && Agree(s, t) && Typed(s, a, ADDRSPACE)
    ensures s.pages[a] == t.pages[a]
    ensures Agree(Linked(s, a, STATE, st), Linked(t, a, STATE, st))
  {
    assert NonFree(s, a);
    SameView(s, t, a);
    AgreeAfter(s, t, Linked(s, a, STATE, st), Linked(t, a, STATE, st));
  }

  lemma DispatcherAgrees(s: State, t: State, d: Word)
    requires OwnersValid(s) && OwnersValid(t) && Agree(s, t)
    ensures EnterErr(s, d) == EnterErr(t, d) && ResumeErr(s, d) == ResumeErr(t, d)
  {
    if Typed(s, d, DISPATCHER) {
      SameView(s, t, d);
    }
  }

  lemma HostCallAgrees(s: State, t: State, sbi: Word)
    requires OwnersValid(s) && OwnersValid(t) && Agree(s, t)
    ensures CallsAgree(s, t, HostCall(s, sbi), HostCall(t, sbi))
  {
    var r := s.regs;
    match r[A7]
    case 12 => InitAddrspaceAgrees(s, t, r[A0], r[A1]);
    case 13 => InitDispatcherAgrees(s, t, r[A0], r[A1], r[A2]);
    case 14 =>
      LinkAgrees(s, t, L1PTABLE, r[A0], r[A1], r[A2]);
      if InitTableErr(s, L1PTABLE, r[A0], r[A1], r[A2]) == SUCCESS {
        LinkedChildAgrees(s, t, L1PTABLE, r[A0], r[A1], r[A2], PTE_PRESENT, ZeroPage());
      }
    case 15 =>
      LinkAgrees(s, t, L2PTABLE, r[A0], r[A1], r[A2]);
      if InitTableErr(s, L2PTABLE, r[A0], r[A1], r[A2]) == SUCCESS {
        LinkedChildAgrees(s, t, L2PTABLE, r[A0], r[A1], r[A2], PTE_PRESENT, ZeroPage());
      }
    case 16 =>
      LinkAgrees(s, t, L3PTABLE, r[A0], r[A1], r[A2]);
      if MapSecureErr(s, r[A0], r[A1], r[A2], r[A4]) == SUCCESS {
        LinkedChildAgrees(s, t, L3PTABLE, r[A0], r[A1], r[A2], EnclaveProt(r[A3]), s.insecure[r[A4]]);
      }
    case 17 => MapInsecureAgrees(s, t, r[A0], r[A1], r[A2], r[A3]);
    case 20 => RemoveAgrees(s, t, r[A0]);
    case 21 =>
      if Typed(s, r[A0], ADDRSPACE) {
        SetStateAgrees(s, t, r[A0], FINAL);
      }
    case 22 => DispatcherAgrees(s, t, r[A0]);
    case 23 => DispatcherAgrees(s, t, r[A0]);
    case 29 =>
      if Typed(s, r[A0], ADDRSPACE) {
        SetStateAgrees(s, t, r[A0], STOPPED);
      }
    case _ =>
  }

  lemma HostStoresAgree(s: State, t: State, stores: seq<HostStore>)
    requires Agree(s, t) && s.pmp5 == t.pmp5 == PMP_TOR
    ensures HostStores(s, stores).insecure == HostStores(t, stores).insecure
    decreases |stores|
  {
    if stores != [] {
      var s1 := PhysWrite(s, stores[0].pfn, stores[0].index % 512, stores[0].value);
      var t1 := PhysWrite(t, stores[0].pfn, stores[0].index % 512, stores[0].value);
      AgreeAfter(s, t, s1, t1);
      HostStoresAgree(s1, t1, stores[1..]);
    }
  }

  /** One host step or host call taken on both sides: either both enter an enclave or both
      stay in the host and still agree, result registers included. */
  lemma StepAgrees(s: State, t: State, act: Action)
    requires Inv(s) && Inv(t) && Agree(s, t) && Enabled(s, act)
    ensures Enabled(t, act)
    ensures Next(s, act).enclaveMode == Next(t, act).enclaveMode
    ensures !Next(s, act).enclaveMode ==> Agree(Next(s, act), Next(t, act))
  {
    match act {
      case Trap(cause, sbi) =>
        if cause == EXC_ECALL_S {
          var s1, t1 := AdvanceMepc(s), AdvanceMepc(t);
          SamePagesOwners(s, s1);
          SamePagesOwners(t, t1);
          AgreeAfter(s, t, s1, t1);
          DispatcherAgrees(s1, t1, s.regs[A0]);
          HostCallAgrees(s1, t1, sbi);
          var (s2, r) := HostCall(s1, sbi);
          var (t2, r') := HostCall(t1, sbi);
          AgreeAfter(s2, t2, Returned(s2, r), Returned(t2, r'));
        }
      case HostRun(regs, csrs, stores) =>
        HostStoresConfined(s, stores);
        HostStoresConfined(t, stores);
        HostStoresAgree(s, t, stores);
        AgreeAfter(s, t, Next(s, act), Next(t, act));
    }
  }

  ghost predicate Follows(ss: seq<State>, acts: seq<Action>) {
    && |ss| == |acts| + 1 && Inv(ss[0])
    && forall i {:trigger acts[i]} :: 0 <= i < |acts| ==> Steps(ss[i], acts[i], ss[i + 1])
  }

  lemma {:induction false} FollowsInv(ss: seq<State>, acts: seq<Action>, n: nat)
    requires Follows(ss, acts) && n < |ss|
    ensures Inv(ss[n])
  {
    if n > 0 {
      FollowsInv(ss, acts, n - 1);
      assert Steps(ss[n - 1], acts[n - 1], ss[n]);
      NextKeepsInv(ss[n - 1], acts[n - 1]);
    }
  }

  /** Two machines that agree and take the same host steps stay in agreement until one of them
      enters an enclave, and then both do, at the same step. */
  lemma {:induction false} HostRunsAgree(ss: seq<State>, tt: seq<State>, acts: seq<Action>, n: nat)
    requires Follows(ss, acts) && Follows(tt, acts) && Agree(ss[0], tt[0]) && n < |ss|
    requires forall k :: 0 <= k < n ==> !ss[k].enclaveMode
    ensures ss[n].enclaveMode == tt[n].enclaveMode
    ensures !ss[n].enclaveMode ==> Agree(ss[n], tt[n])
  {
    if n > 0 {
      HostRunsAgree(ss, tt, acts, n - 1);
      FollowsInv(ss, acts, n - 1);
      FollowsInv(tt, acts, n - 1);
      assert Steps(ss[n - 1], acts[n - 1], ss[n]) && Steps(tt[n - 1], acts[n - 1], tt[n]);
      StepAgrees(ss[n - 1], tt[n - 1], acts[n - 1]);
    }
  }
}
