/** What the Komodo monitor promises over whole runs of the machine. */
module KomodoTheorems {
  import opened KomodoTypes
  import opened KomodoSpec
  import opened KomodoInvariant

  // ---------------------------------------------------------------- stores

  /** The two states differ at most in insecure memory and in data pages owned by `a`. */
  ghost predicate OnlyDataOf(s: State, s': State, a: Word) {
    && Shape(s) && Shape(s')
    && s' == s.(pages := s'.pages, insecure := s'.insecure)
    && forall p {:trigger s'.pages[p]} :: 0 <= p < |s.pages| && s'.pages[p] != s.pages[p] ==>
         s.pagedb[p] == PageDbEntry(DATA, a)
  }

  lemma OnlyDataKeepsInv(s: State, s': State, a: Word)
    requires Inv(s) && OnlyDataOf(s, s', a)
    ensures Inv(s')
  {
    HartOnlyKeepsInv(s, s');
  }

  lemma EnclaveStoreConfined(s: State, st: Store)
    requires Inv(s) && s.enclaveMode
    ensures OnlyDataOf(s, EnclaveStore(s, st), Owner(s, s.cur))
  {
    DispatcherWalkConfined(s, s.cur, st.va);
  }

  lemma {:induction false} EnclaveStoresConfined(s: State, stores: seq<Store>)
    requires Inv(s) && s.enclaveMode
    ensures OnlyDataOf(s, EnclaveStores(s, stores), Owner(s, s.cur))
    decreases |stores|
  {
    if stores != [] {
      var s1 := EnclaveStore(s, stores[0]);
      EnclaveStoreConfined(s, stores[0]);
      OnlyDataKeepsInv(s, s1, Owner(s, s.cur));
      EnclaveStoresConfined(s1, stores[1..]);
    }
  }

  lemma {:induction false} HostStoresConfined(s: State, stores: seq<HostStore>)
    requires Shape(s) && s.pmp5 == PMP_TOR
    ensures var s' := HostStores(s, stores); Shape(s') && s' == s.(insecure := s'.insecure)
    decreases |stores|
  {
    if stores != [] {
      HostStoresConfined(PhysWrite(s, stores[0].pfn, stores[0].index % 512, stores[0].value), stores[1..]);
    }
  }

  // ---------------------------------------------------------------- runs

  lemma NextKeepsInv(s: State, act: Action)
    requires Inv(s) && Enabled(s, act)
    ensures Inv(Next(s, act))
  {
    match act
    case Trap(cause, sbi) => DoTrapKeepsInv(s, cause, sbi);
    case HostRun(regs, csrs, stores) =>
      HostStoresConfined(s, stores);
      HartOnlyKeepsInv(s, Next(s, act));
    case EnclaveRun(regs, csrs, stores) =>
      EnclaveStoresConfined(s, stores);
      HartOnlyKeepsInv(s, Next(s, act));
  }

  /** s' follows s by `act`; the first two conjuncts are page_monvaddr's BUG_ON not firing. */
  ghost predicate Steps(s: State, act: Action, s': State) {
    && OwnersValid(s)
    && (s.enclaveMode ==> s.cur < |s.pages|)
    && Enabled(s, act)
    && s' == Next(s, act)
  }

  ghost predicate Run(ss: seq<State>, acts: seq<Action>) {
    && |ss| == |acts| + 1
    && (exists lay: Layout, insecure, regs, csrs ::
          lay.Valid() && |insecure| == lay.nInsecure && ss[0] == Boot(lay, insecure, regs, csrs))
    && forall i {:trigger acts[i]} :: 0 <= i < |acts| ==> Steps(ss[i], acts[i], ss[i + 1])
  }

  /** Every state of every run satisfies the invariant, so no BUG_ON is ever reached. */
  lemma {:induction false} RunKeepsInv(ss: seq<State>, acts: seq<Action>, n: nat)
    requires Run(ss, acts) && n < |ss|
    ensures Inv(ss[n])
  {
    if n == 0 {
      var lay: Layout, insecure, regs, csrs :|
        lay.Valid() && |insecure| == lay.nInsecure && ss[0] == Boot(lay, insecure, regs, csrs);
      BootEstablishesInv(lay, insecure, regs, csrs);
    } else {
      RunKeepsInv(ss, acts, n - 1);
      assert Steps(ss[n - 1], acts[n - 1], ss[n]);
      NextKeepsInv(ss[n - 1], acts[n - 1]);
    }
  }

  /** Every run goes on with whatever the hart does next: no state of a run is one where the
      monitor stops at a BUG_ON. */
  lemma RunGoesOn(ss: seq<State>, acts: seq<Action>, act: Action)
    requires Run(ss, acts) && Enabled(ss[|acts|], act)
    ensures OwnersValid(ss[|acts|]) && (ss[|acts|].enclaveMode ==> ss[|acts|].cur < |ss[|acts|].pages|)
    ensures Run(ss + [Next(ss[|acts|], act)], acts + [act])
  {
    var s := ss[|acts|];
    RunKeepsInv(ss, acts, |acts|);
    var ss', acts' := ss + [Next(s, act)], acts + [act];
    assert ss'[0] == ss[0];
    forall i {:trigger acts'[i]} | 0 <= i < |acts'| ensures Steps(ss'[i], acts'[i], ss'[i + 1]) {
      if i < |acts| {
        assert acts'[i] == acts[i] && Steps(ss[i], acts[i], ss[i + 1]);
      }
    }
  }

  ghost predicate Reachable(s: State) {
    exists ss, acts :: Run(ss, acts) && ss[|acts|] == s
  }

  lemma ReachableNext(s: State, act: Action)
    requires Reachable(s) && Enabled(s, act)
    ensures Inv(s) && Reachable(Next(s, act))
  {
    var ss, acts :| Run(ss, acts) && ss[|acts|] == s;
    RunKeepsInv(ss, acts, |acts|);
    RunGoesOn(ss, acts, act);
    var ss' := ss + [Next(s, act)];
    assert Run(ss', acts + [act]) && ss'[|acts + [act]|] == Next(s, act);
  }

  /** Isolation along a run.  Whatever the enclave stores, the page database and every page
      but its own data pages keep their words; whatever the host stores, all of them do. */
  lemma RunIsolatesStores(ss: seq<State>, acts: seq<Action>, n: nat)
    requires Run(ss, acts) && n < |acts|
    ensures acts[n].HostRun? ==> ss[n + 1].pagedb == ss[n].pagedb && ss[n + 1].pages == ss[n].pages
    ensures acts[n].EnclaveRun? ==>
      && Inv(ss[n]) && ss[n].enclaveMode
      && ss[n + 1].pagedb == ss[n].pagedb && |ss[n + 1].pages| == |ss[n].pages|
      && (forall p :: 0 <= p < |ss[n].pages| && ss[n + 1].pages[p] != ss[n].pages[p] ==>
            ss[n].pagedb[p] == PageDbEntry(DATA, Owner(ss[n], ss[n].cur)))
  {
    RunKeepsInv(ss, acts, n);
    assert Steps(ss[n], acts[n], ss[n + 1]);
    match acts[n]
    case Trap(_, _) =>
    case HostRun(_, _, stores) => HostStoresConfined(ss[n], stores);
    case EnclaveRun(_, _, stores) => EnclaveStoresConfined(ss[n], stores);
  }

  /** At every point of a run, the tables of a dispatcher whose address space is not stopped,
      walked as the hart would walk them with the dispatcher entered, translate every address to
      a fault, to insecure memory or to a data page of that space; and they do so, or fault, under
      the PMP entry in force. */
  lemma RunIsolatesWalks(ss: seq<State>, acts: seq<Action>, n: nat, d: Word, va: Word)
    requires Run(ss, acts) && n < |ss|
    requires Typed(ss[n], d, DISPATCHER)
    ensures OwnersValid(ss[n])
    ensures OwnerState(ss[n], d) != STOPPED ==>
      && Confined(ss[n], Owner(ss[n], d), Walk(Opened(ss[n]), ss[n].pages[d][DISP_CSRS + SATP], va))
      && Confined(ss[n], Owner(ss[n], d), Walk(ss[n], ss[n].pages[d][DISP_CSRS + SATP], va))
  {
    RunKeepsInv(ss, acts, n);
    if OwnerState(ss[n], d) != STOPPED {
      DispatcherWalkConfined(ss[n], d, va);
    }
  }

  // ---------------------------------------------------------------- page tables are trees

  /** Entry `i` of page table `t`, of any space, stopped or not, refers to page `p`. */
  ghost predicate RawReference(s: State, t: int, i: int, p: int) {
    && PageValid(s, t) && |s.pages| == |s.pagedb| && IsTable(s.pagedb[t].ty)
    && 0 <= i < 512
    && s.pages[t][i] != 0
    && SecureTarget(s.lay, s.pages[t][i]) == p
  }

  /** A page of a live space has exactly one parent entry, one level up and with the same
      owner.  Among all references to the page, the parent is the one in a live table:
      any other reference is a left-over in a table of a stopped space. */
  lemma RunTablesAreTrees(ss: seq<State>, acts: seq<Action>, n: nat, p: int) returns (t: int, i: int)
    requires Run(ss, acts) && n < |ss|
    requires OwnersValid(ss[n]) && Live(ss[n], p) && NeedsParent(ss[n].pagedb[p].ty)
    ensures RawReference(ss[n], t, i, p)
    ensures Child(ss[n].pagedb[t].ty) == ss[n].pagedb[p].ty && ss[n].pagedb[t].owner == ss[n].pagedb[p].owner
    ensures forall t', i' :: RawReference(ss[n], t', i', p) ==>
      ((t', i') == (t, i) <==> OwnerState(ss[n], t') != STOPPED)
  {
    var s := ss[n];
    RunKeepsInv(ss, acts, n);
    assert HasParent(s, p);
    t, i :| RefersTo(s, t, i, p);
    assert EntryOk(s, t, i);
    forall t', i' | RawReference(s, t', i', p)
      ensures (t', i') == (t, i) <==> OwnerState(s, t') != STOPPED
    {
      if OwnerState(s, t') != STOPPED {
        assert Live(s, t');
        assert RefersTo(s, t', i', p);
      }
    }
  }

  /** The host has loaded its argument registers and trapped into the monitor. */
  function Calling(s: State, nr: Word, a0: Word, a1: Word, a2: Word): State {
    AdvanceMepc(s.(regs := s.regs[A7 := nr][A0 := a0][A1 := a1][A2 := a2]))
  }

  lemma ReachableCall(s: State, nr: Word, a0: Word, a1: Word, a2: Word) returns (t: State)
    requires Reachable(s) && !s.enclaveMode && nr != 22 && nr != 23
    ensures Inv(s) && Inv(Calling(s, nr, a0, a1, a2)) && Inv(t) && Reachable(t)
    ensures var (s', r) := HostCall(Calling(s, nr, a0, a1, a2), 0); t == Returned(s', r)
  {
    var load := HostRun(s.regs[A7 := nr][A0 := a0][A1 := a1][A2 := a2], s.csrs, []);
    ReachableNext(s, load);
    var s1 := Next(s, load);
    ReachableNext(s1, Trap(EXC_ECALL_S, 0));
    HartOnlyKeepsInv(s1, AdvanceMepc(s1));
    t := Next(s1, Trap(EXC_ECALL_S, 0));
    NextKeepsInv(s1, Trap(EXC_ECALL_S, 0));
  }

  lemma BootReachable(lay: Layout, insecure: seq<Page>, regs: Regs, csrs: Csrs)
    requires lay.Valid() && |insecure| == lay.nInsecure
    ensures Reachable(Boot(lay, insecure, regs, csrs))
  {
    assert Run([Boot(lay, insecure, regs, csrs)], []);
  }

  /** A space (0) with a root (1). */
  lemma OneSpace(insecure: seq<Page>, regs: Regs, csrs: Csrs) returns (s: State)
    requires |insecure| == 1
    ensures Reachable(s) && Inv(s) && !s.enclaveMode && s.lay == Layout(100, 5, 200, 1)
    ensures s.pagedb == [PageDbEntry(ADDRSPACE, 0), PageDbEntry(L1PTABLE, 0), PageDbEntry(FREE, 0),
                         PageDbEntry(FREE, 0), PageDbEntry(FREE, 0)]
    ensures s.pages[0][STATE] == INIT && s.pages[1] == ZeroPage() && s.pages[0][REFCOUNT] == 2
  {
    var lay := Layout(100, 5, 200, 1);
    s := Boot(lay, insecure, regs, csrs);
    BootReachable(lay, insecure, regs, csrs);
    s := ReachableCall(s, 12, 0, 1, 0);
  }

  /** It gets a second-level table (2). */
  lemma WithTable(insecure: seq<Page>, regs: Regs, csrs: Csrs) returns (s: State)
    requires |insecure| == 1
    ensures Reachable(s) && Inv(s) && !s.enclaveMode && s.lay == Layout(100, 5, 200, 1)
    ensures s.pagedb == [PageDbEntry(ADDRSPACE, 0), PageDbEntry(L1PTABLE, 0), PageDbEntry(L2PTABLE, 0),
                         PageDbEntry(FREE, 0), PageDbEntry(FREE, 0)]
    ensures s.pages[1][0] == Pte(102, PTE_PRESENT) && s.pages[0][STATE] == INIT
  {
    s := OneSpace(insecure, regs, csrs);
    s := ReachableCall(s, 14, 2, 1, 0);
  }

  /** The space is stopped. */
  lemma StoppedSpace(insecure: seq<Page>, regs: Regs, csrs: Csrs) returns (s: State)
    requires |insecure| == 1
    ensures Reachable(s) && Inv(s) && !s.enclaveMode && s.lay == Layout(100, 5, 200, 1)
    ensures s.pagedb == [PageDbEntry(ADDRSPACE, 0), PageDbEntry(L1PTABLE, 0), PageDbEntry(L2PTABLE, 0),
                         PageDbEntry(FREE, 0), PageDbEntry(FREE, 0)]
    ensures s.pages[1][0] == Pte(102, PTE_PRESENT) && s.pages[0][STATE] == STOPPED
  {
    s := WithTable(insecure, regs, csrs);
    s := ReachableCall(s, 29, 0, 0, 0);
  }

  /** The table is removed. */
  lemma StoppedWithHole(insecure: seq<Page>, regs: Regs, csrs: Csrs) returns (s: State)
    requires |insecure| == 1
    ensures Reachable(s) && Inv(s) && !s.enclaveMode && s.lay == Layout(100, 5, 200, 1)
    ensures s.pagedb == [PageDbEntry(ADDRSPACE, 0), PageDbEntry(L1PTABLE, 0), PageDbEntry(FREE, NO_OWNER),
                         PageDbEntry(FREE, 0), PageDbEntry(FREE, 0)]
    ensures s.pages[1][0] == Pte(102, PTE_PRESENT) && s.pages[0][STATE] == STOPPED
  {
    s := StoppedSpace(insecure, regs, csrs);
    s := ReachableCall(s, 20, 2, 0, 0);
  }

  /** Another space (3) with a root (4). */
  lemma TwoSpaces(insecure: seq<Page>, regs: Regs, csrs: Csrs) returns (s: State)
    requires |insecure| == 1
    ensures Reachable(s) && Inv(s) && !s.enclaveMode && s.lay == Layout(100, 5, 200, 1)
    ensures s.pagedb == [PageDbEntry(ADDRSPACE, 0), PageDbEntry(L1PTABLE, 0), PageDbEntry(FREE, NO_OWNER),
                         PageDbEntry(ADDRSPACE, 3), PageDbEntry(L1PTABLE, 3)]
    ensures s.pages[1][0] == Pte(102, PTE_PRESENT) && s.pages[3][STATE] == INIT && s.pages[4] == ZeroPage()
  {
    s := StoppedWithHole(insecure, regs, csrs);
    s := ReachableCall(s, 12, 3, 4, 0);
  }

  /** Such left-overs are reached by a run: the other space uses page 2 for a table of its own. */
  lemma StaleReferenceExample(insecure: seq<Page>, regs: Regs, csrs: Csrs) returns (s: State)
    requires |insecure| == 1
    ensures Reachable(s) && Inv(s)
    ensures Live(s, 2) && s.pagedb[2] == PageDbEntry(L2PTABLE, 3)
    ensures RawReference(s, 1, 0, 2) && RawReference(s, 4, 0, 2)
  {
    s := TwoSpaces(insecure, regs, csrs);
    s := ReachableCall(s, 14, 2, 4, 0);
  }

  // ---------------------------------------------------------------- life cycle

  /** A call that reports an error has changed nothing. */
  lemma FailedCallChangesNothing(s: State, sbi: Word)
    requires OwnersValid(s) && HostCall(s, sbi).1 != SUCCESS
    ensures HostCall(s, sbi).0 == s
  {
  }

  ghost predicate LifeCycle(before: Word, after: Word) {
    before == after || (before == INIT && after == FINAL) || (before <= FINAL && after == STOPPED)
  }

  /** What a host call may do to an existing address space `a`: move it along its life cycle,
      and, once it is final, nothing to the pages it owns nor to its tables and data. */
  ghost predicate CallRespects(s: State, s': State, a: Word)
    requires OwnersValid(s) && OwnersValid(s')
  {
    && (Typed(s, a, ADDRSPACE) && Typed(s', a, ADDRSPACE) ==> LifeCycle(s.pages[a][STATE], s'.pages[a][STATE]))
    && (Typed(s, a, ADDRSPACE) && !Typed(s', a, ADDRSPACE) ==> s.pages[a][STATE] == STOPPED)
    && (Typed(s, a, ADDRSPACE) && s.pages[a][STATE] == FINAL ==>
          && Owned(s', a) == Owned(s, a)
          && (forall p {:trigger s'.pages[p]} {:trigger s'.pagedb[p]} :: p in Owned(s, a) ==>
                && s'.pagedb[p] == s.pagedb[p]
                && (IsTable(s.pagedb[p].ty) || s.pagedb[p].ty == DATA ==> s'.pages[p] == s.pages[p])))
  }

  lemma InitAddrspaceRespects(s: State, a: Word, x: Word, l1: Word)
    requires OwnersValid(s)
    ensures var s' := InitAddrspace(s, x, l1).0; OwnersValid(s') && CallRespects(s, s', a)
  {
    InitAddrspaceOwners(s, x, l1);
    var s' := InitAddrspace(s, x, l1).0;
    if Typed(s, a, ADDRSPACE) {
      assert Owned(s', a) == Owned(s, a);
    }
  }

  lemma InitDispatcherRespects(s: State, a: Word, page: Word, x: Word, entrypoint: Word)
    requires OwnersValid(s)
    ensures var s' := InitDispatcher(s, page, x, entrypoint).0; OwnersValid(s') && CallRespects(s, s', a)
  {
    var (s', err) := InitDispatcher(s, page, x, entrypoint);
    if err == SUCCESS {
      GainedOwners(s, s', page, x);
      if Typed(s, a, ADDRSPACE) && a != x {
        assert Owned(s', a) == Owned(s, a);
      }
    }
  }

  lemma LinkedChildRespects(s: State, a: Word, ty: PageType, page: Word, t: Word, i: Word, prot: nat, body: Page)
    requires OwnersValid(s) && IsTable(ty) && i < 512 && prot < 1024
    requires LinkErr(s, ty, page, t, i) == SUCCESS
    ensures var s' := LinkedChild(s, ty, page, t, i, prot, body); OwnersValid(s') && CallRespects(s, s', a)
  {
    var s' := LinkedChild(s, ty, page, t, i, prot, body);
    GainedOwners(s, s', page, Owner(s, t));
    if Typed(s, a, ADDRSPACE) && a != Owner(s, t) {
      assert Owned(s', a) == Owned(s, a);
    }
  }

  lemma MapInsecureRespects(s: State, a: Word, t: Word, i: Word, mapping: Word, ip: Word)
    requires OwnersValid(s)
    ensures var s' := MapInsecure(s, t, i, mapping, ip).0; OwnersValid(s') && CallRespects(s, s', a)
  {
    var s' := MapInsecure(s, t, i, mapping, ip).0;
    SameDbOwners(s, s');
    assert Owned(s', a) == Owned(s, a);
  }

  lemma RemoveRespects(s: State, a: Word, p: Word)
    requires OwnersValid(s) && RefcountsOk(s)
    ensures var s' := Remove(s, p).0; OwnersValid(s') && CallRespects(s, s', a)
  {
    var (s', err) := Remove(s, p);
    if err == SUCCESS && s.pagedb[p].ty != FREE {
      RemoveOwners(s, p);
      if Typed(s, a, ADDRSPACE) && a != Owner(s, p) {
        assert Owned(s', a) == Owned(s, a);
      }
    }
  }

  lemma SetStateRespects(s: State, a: Word, x: Word, st: Word)
    requires OwnersValid(s) && Typed(s, x, ADDRSPACE) && LifeCycle(s.pages[x][STATE], st)
    ensures var s' := Linked(s, x, STATE, st); OwnersValid(s') && CallRespects(s, s', a)
  {
    var s' := Linked(s, x, STATE, st);
    SameDbOwners(s, s');
    assert Owned(s', a) == Owned(s, a);
  }

  lemma CallRespectsAll(s: State, sbi: Word, a: Word)
    requires Inv(s)
    ensures OwnersValid(HostCall(s, sbi).0) && CallRespects(s, HostCall(s, sbi).0, a)
  {
    var r := s.regs;
    match r[A7]
    case 12 => InitAddrspaceRespects(s, a, r[A0], r[A1]);
    case 13 => InitDispatcherRespects(s, a, r[A0], r[A1], r[A2]);
    case 14 =>
      if InitTableErr(s, L1PTABLE, r[A0], r[A1], r[A2]) == SUCCESS {
        LinkedChildRespects(s, a, L1PTABLE, r[A0], r[A1], r[A2], PTE_PRESENT, ZeroPage());
      }
    case 15 =>
      if InitTableErr(s, L2PTABLE, r[A0], r[A1], r[A2]) == SUCCESS {
        LinkedChildRespects(s, a, L2PTABLE, r[A0], r[A1], r[A2], PTE_PRESENT, ZeroPage());
      }
    case 16 =>
      if MapSecureErr(s, r[A0], r[A1], r[A2], r[A4]) == SUCCESS {
        LinkedChildRespects(s, a, L3PTABLE, r[A0], r[A1], r[A2], EnclaveProt(r[A3]), s.insecure[r[A4]]);
      }
    case 17 => MapInsecureRespects(s, a, r[A0], r[A1], r[A2], r[A3]);
    case 20 => RemoveRespects(s, a, r[A0]);
    case 21 =>
      if FinaliseErr(s, r[A0]) == SUCCESS {
        SetStateRespects(s, a, r[A0], FINAL);
      }
    case 29 =>
      if Typed(s, r[A0], ADDRSPACE) {
        assert HeaderOk(s, r[A0]);
        SetStateRespects(s, a, r[A0], STOPPED);
      }
    case _ =>
  }

  lemma TrapRespects(s: State, cause: Word, sbi: Word, a: Word)
    requires Inv(s) && Inv(DoTrap(s, cause, sbi))
    ensures CallRespects(s, DoTrap(s, cause, sbi), a)
  {
    var s' := DoTrap(s, cause, sbi);
    if cause == EXC_ECALL_S && !s.enclaveMode {
      var s1 := AdvanceMepc(s);
      HartOnlyKeepsInv(s, s1);
      CallRespectsAll(s1, sbi, a);
      assert Owned(s1, a) == Owned(s, a);
      if Enters(s1) || Resumes(s1) {
        assert Owned(s', a) == Owned(s, a);
      } else {
        assert Owned(s', a) == Owned(HostCall(s1, sbi).0, a);
      }
    } else {
      assert Owned(s', a) == Owned(s, a);
    }
  }

  /** Along a run every step respects every address space; an enclave step, which may write
      the data pages of a final space, moves no life cycle and no ownership. */
  lemma RunRespectsLifeCycle(ss: seq<State>, acts: seq<Action>, n: nat, a: Word)
    requires Run(ss, acts) && n < |acts|
    ensures Inv(ss[n]) && Inv(ss[n + 1])
    ensures !acts[n].EnclaveRun? ==> CallRespects(ss[n], ss[n + 1], a)
    ensures acts[n].EnclaveRun? && Typed(ss[n], a, ADDRSPACE) ==>
      Typed(ss[n + 1], a, ADDRSPACE) && ss[n + 1].pages[a] == ss[n].pages[a] && Owned(ss[n + 1], a) == Owned(ss[n], a)
  {
    RunKeepsInv(ss, acts, n);
    RunKeepsInv(ss, acts, n + 1);
    assert Steps(ss[n], acts[n], ss[n + 1]);
    match acts[n] {
      case Trap(cause, sbi) => TrapRespects(ss[n], cause, sbi, a);
      case HostRun(_, _, stores) => HostStoresConfined(ss[n], stores);
      case EnclaveRun(_, _, stores) => EnclaveStoresConfined(ss[n], stores);
    }
    if acts[n].HostRun? || acts[n].EnclaveRun? {
      assert Owned(ss[n + 1], a) == Owned(ss[n], a);
    }
  }

  // ---------------------------------------------------------------- teardown

  ghost function RemoveEach(s: State, order: seq<Word>): (State, seq<Word>)
    requires Inv(s)
    decreases |order|
  {
    if order == [] then (s, [])
    else
      var (s1, err) := Remove(s, order[0]);
      RemoveKeepsInv(s, order[0]);
      var (s2, errs) := RemoveEach(s1, order[1..]);
      (s2, [err] + errs)
  }

  /** Removing one page of a stopped space, not its header. */
  lemma RemoveOwned(s: State, a: Word, p: Word) returns (s1: State)
    requires Inv(s) && Typed(s, a, ADDRSPACE) && s.pages[a][STATE] == STOPPED && p in Owned(s, a) && p != a
    ensures Remove(s, p) == (s1, SUCCESS) && Inv(s1) && Owned(s1, a) == Owned(s, a) - {p}
    ensures Typed(s1, a, ADDRSPACE) && s1.pages[a][STATE] == STOPPED
    ensures s1.pagedb == s.pagedb[p := PageDbEntry(FREE, NO_OWNER)]
    ensures |s1.pages| == |s.pages| && forall q :: 0 <= q < |s.pages| && q != a ==> s1.pages[q] == s.pages[q]
  {
    assert RemoveErr(s, p) == SUCCESS by {
      assert Typed(s, p, ADDRSPACE) ==> p == a;
    }
    s1 := Remove(s, p).0;
    RemoveKeepsInv(s, p);
  }

  /** Once a space is stopped, removing the pages it owns in any order, its header last,
      succeeds at every step and frees them all; of the words of the pages, only the header's
      (its reference count) change. */
  lemma {:induction false} TeardownSucceeds(s: State, a: Word, order: seq<Word>)
    requires Inv(s) && Typed(s, a, ADDRSPACE) && s.pages[a][STATE] == STOPPED
    requires forall i, j :: 0 <= i < j < |order| ==> order[i] != order[j]
    requires forall p: int :: p in order || p == a <==> p in Owned(s, a)
    requires a !in order
    ensures var (s', errs) := RemoveEach(s, order + [a]);
      && (forall i :: 0 <= i < |errs| ==> errs[i] == SUCCESS)
      && |s'.pagedb| == |s.pagedb|
      && (forall p :: 0 <= p < |s.pagedb| ==>
            if p in Owned(s, a) then s'.pagedb[p].ty == FREE else s'.pagedb[p] == s.pagedb[p])
      && |s'.pages| == |s.pages| && (forall p :: 0 <= p < |s.pages| && p != a ==> s'.pages[p] == s.pages[p])
    decreases |order|
  {
    if order == [] {
      assert order + [a] == [a];
      assert Owned(s, a) == {a};
      RemoveKeepsInv(s, a);
      assert [a][1..] == [];
      assert RemoveEach(Remove(s, a).0, [a][1..]) == (Remove(s, a).0, []);
    } else {
      var p := order[0];
      var s1 := RemoveOwned(s, a, p);
      assert (order + [a])[1..] == order[1..] + [a];
      forall q: int ensures q in order[1..] || q == a <==> q in Owned(s1, a) {
        assert q in order <==> q == p || q in order[1..];
      }
      TeardownSucceeds(s1, a, order[1..]);
    }
  }
}
