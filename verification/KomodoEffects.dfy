/** What each Komodo call does, as a trap of the host with its arguments in registers. */
module KomodoEffects {
  import opened KomodoTypes
  import opened KomodoSpec
  import opened KomodoInvariant

  // ---------------------------------------------------------------- answers

  /** An ecall of the host. */
  ghost predicate Calls(s: State, nr: Word) {
    Inv(s) && !s.enclaveMode && s.regs[A7] == nr
  }

  ghost function After(s: State, sbi: Word): State
    requires Inv(s) && !s.enclaveMode
  {
    Next(s, Trap(9, sbi))
  }

  /** The host goes on after its call with `r` in a0; nothing else of the hart has changed. */
  ghost predicate Answers(s: State, s': State, r: Word) {
    s' == s.(pagedb := s'.pagedb, pages := s'.pages, regs := s.regs[A0 := r],
             csrs := s.csrs[MEPC := Wrap(s.csrs[MEPC] as int + 4)])
  }

  ghost predicate NothingMoved(s: State, s': State) {
    s'.pagedb == s.pagedb && s'.pages == s.pages
  }

  /** The page database changes at most at `d`, and the words of pages at most at `p`. */
  ghost predicate OnlyAt(s: State, s': State, d: set<int>, p: set<int>) {
    && |s'.pagedb| == |s.pagedb| && |s'.pages| == |s.pages|
    && (forall q :: 0 <= q < |s.pagedb| && q !in d ==> s'.pagedb[q] == s.pagedb[q])
    && (forall q :: 0 <= q < |s.pages| && q !in p ==> s'.pages[q] == s.pages[q])
  }

  /** A page of words all zero but for the given ones. */
  ghost predicate ZeroBut(p: Page, w: set<int>) {
    forall i :: 0 <= i < 512 && i !in w ==> p[i] == 0
  }

  ghost predicate ZeroAll(p: Page) {
    ZeroBut(p, {})
  }

  /** What taking page `page` for space `a` answers. */
  ghost function TakeCode(s: State, page: Word, a: Word): Word
    requires Shape(s) && a < |s.pages|
  {
    if page >= s.lay.nSecure then INVALID_PAGENO
    else if s.pagedb[page].ty != FREE then PAGEINUSE
    else if s.pages[a][STATE] != INIT then ALREADY_FINAL
    else SUCCESS
  }

  lemma CallIs(s: State, sbi: Word)
    requires Inv(s) && !s.enclaveMode && s.regs[A7] != 22 && s.regs[A7] != 23
    ensures Inv(AdvanceMepc(s))
    ensures var (t, r) := HostCall(AdvanceMepc(s), sbi); After(s, sbi) == Returned(t, r)
  {
    HartOnlyKeepsInv(s, AdvanceMepc(s));
  }

  // ---------------------------------------------------------------- init_addrspace

  lemma InitAddrspaceEffect(s: State, sbi: Word)
    requires Calls(s, 12)
    ensures var s', a, l1, n := After(s, sbi), s.regs[A0], s.regs[A1], s.lay.nSecure;
      var r := if a == l1 || a >= n || l1 >= n then INVALID_PAGENO
               else if s.pagedb[a].ty != FREE || s.pagedb[l1].ty != FREE then PAGEINUSE
               else SUCCESS;
      && Answers(s, s', r)
      && if r != SUCCESS then NothingMoved(s, s')
         else
           && OnlyAt(s, s', {a, l1}, {a, l1})
           && s'.pagedb[a] == PageDbEntry(ADDRSPACE, a) && s'.pagedb[l1] == PageDbEntry(L1PTABLE, a)
           && s'.pages[a][L1PT] == l1 && s'.pages[a][REFCOUNT] == 2 && s'.pages[a][STATE] == INIT
           && ZeroBut(s'.pages[a], {L1PT, REFCOUNT, STATE}) && ZeroAll(s'.pages[l1])
  {
    CallIs(s, sbi);
  }

  // ---------------------------------------------------------------- init_dispatcher

  lemma InitDispatcherEffect(s: State, sbi: Word)
    requires Calls(s, 13)
    ensures var s', page, a, entry := After(s, sbi), s.regs[A0], s.regs[A1], s.regs[A2];
      var r := if !Typed(s, a, ADDRSPACE) then INVALID_ADDRSPACE else TakeCode(s, page, a);
      && Answers(s, s', r)
      && if r != SUCCESS then NothingMoved(s, s')
         else
           && OnlyAt(s, s', {page}, {page, a})
           && s'.pagedb[page] == PageDbEntry(DISPATCHER, a)
           && (forall i :: 0 <= i < 512 && i != REFCOUNT ==> s'.pages[a][i] == s.pages[a][i])
           && s'.pages[page][ENTERED] == 0 && DispRegs(s'.pages[page]) == ZeroRegs()
           && DispCsrs(s'.pages[page]) == ZeroCsrs()[MEPC := entry][SIE := 0x222]
                [SATP := 0x8000_0000_0000_0000 + s.lay.securePfn + s.pages[a][L1PT]]
           && (forall i :: DISP_END <= i < 512 ==> s'.pages[page][i] == 0)
  {
    CallIs(s, sbi);
  }

  // ---------------------------------------------------------------- init_l2ptable and init_l3ptable

  /** What hanging page `page` below entry `i` of table `t` answers. */
  ghost function HangCode(s: State, ty: PageType, page: Word, t: Word, i: Word): Word
    requires Inv(s) && IsTable(ty)
  {
    if !Typed(s, t, ty) then INVALID_PAGENO
    else if i < 512 && s.pages[t][i] != 0 then ADDRINUSE
    else TakeCode(s, page, Owner(s, t))
  }

  /** The page is taken for the owner of `t`, and entry `i` of `t` now has the given word. */
  ghost predicate Hung(s: State, s': State, ty: PageType, page: Word, t: Word, i: Word, e: Word)
    requires Inv(s) && IsTable(ty) && Typed(s, t, ty) && i < 512
  {
    var a := s.pagedb[t].owner;
    && OnlyAt(s, s', {page as int}, {page as int, t as int, a as int}) && page < |s'.pages| && page < |s'.pagedb|
    && t < |s'.pages| && a < |s'.pages| && a < |s.pages| && page != t && page != a && a != t
    && s'.pagedb[page] == PageDbEntry(Child(ty), a)
    && s'.pages[t] == s.pages[t][i := e]
    && (forall j :: 0 <= j < 512 && j != REFCOUNT ==> s'.pages[a][j] == s.pages[a][j])
  }

  lemma LinkCode(s: State, ty: PageType, page: Word, t: Word, i: Word)
    requires Inv(s) && IsTable(ty) && i < 512
    ensures LinkErr(s, ty, page, t, i) == HangCode(s, ty, page, t, i)
  {
  }

  lemma LinkIs(s: State, ty: PageType, page: Word, t: Word, i: Word, prot: nat, body: Page)
    requires Inv(s) && IsTable(ty) && i < 512 && prot < 1024 && LinkErr(s, ty, page, t, i) == SUCCESS
    ensures var s' := LinkedChild(s, ty, page, t, i, prot, body);
      Hung(s, s', ty, page, t, i, (s.lay.securePfn + page) * 1024 + prot) && s'.pages[page] == body
  {
    assert NonFree(s, t);
  }

  /** The registers of the hart play no part. */
  lemma HungMoved(s: State, s1: State, t1: State, t': State, ty: PageType, page: Word, t: Word, i: Word, e: Word)
    requires Inv(s) && Inv(s1) && s1.pagedb == s.pagedb && s1.pages == s.pages && s1.lay == s.lay
    requires IsTable(ty) && i < 512 && HangCode(s1, ty, page, t, i) == SUCCESS && Typed(s1, t, ty)
    requires Hung(s1, t1, ty, page, t, i, e) && t'.pagedb == t1.pagedb && t'.pages == t1.pages
    ensures Hung(s, t', ty, page, t, i, e)
  {
  }

  lemma HangSame(s: State, s1: State, ty: PageType, page: Word, t: Word, i: Word)
    requires Inv(s) && Inv(s1) && s1.pagedb == s.pagedb && s1.pages == s.pages && s1.lay == s.lay && IsTable(ty)
    ensures HangCode(s1, ty, page, t, i) == HangCode(s, ty, page, t, i)
  {
  }

  lemma InitTableEffect(s: State, sbi: Word, nr: Word, ty: PageType)
    requires Calls(s, nr) && ((nr == 14 && ty == L1PTABLE) || (nr == 15 && ty == L2PTABLE))
    ensures var s', page, t, i := After(s, sbi), s.regs[A0], s.regs[A1], s.regs[A2];
      var r := if i >= 512 then INVALID_MAPPING else HangCode(s, ty, page, t, i);
      && Answers(s, s', r)
      && if r != SUCCESS then NothingMoved(s, s')
         else
           && Hung(s, s', ty, page, t, i, (s.lay.securePfn + page) * 1024 + 1)
           && ZeroAll(s'.pages[page])
  {
    var s1, page, t, i := AdvanceMepc(s), s.regs[A0], s.regs[A1], s.regs[A2];
    CallIs(s, sbi);
    if i < 512 {
      LinkCode(s1, ty, page, t, i);
      HangSame(s, s1, ty, page, t, i);
      if HangCode(s1, ty, page, t, i) == SUCCESS {
        LinkIs(s1, ty, page, t, i, 1, ZeroPage());
        HungMoved(s, s1, LinkedChild(s1, ty, page, t, i, 1, ZeroPage()), After(s, sbi), ty, page, t, i,
                  (s.lay.securePfn + page) * 1024 + 1);
      }
    }
  }

  // ---------------------------------------------------------------- map_secure and map_insecure

  /** A leaf: present, accessed and dirty, with the R, W and X bits of the mapping. */
  ghost function LeafWord(pfn: int, mapping: Word): int {
    pfn * 1024 + 0xc1 + mapping / 2 % 8 * 2
  }

  /** map_secure: the new data page holds what the insecure page held. */
  ghost predicate MapSecureDone(s: State, s': State)
    requires Inv(s)
  {
    var page, t, i, mapping, content := s.regs[A0], s.regs[A1], s.regs[A2], s.regs[A3], s.regs[A4];
    var r := if i >= 512 then INVALID_MAPPING
             else if content >= s.lay.nInsecure then INVALID_PAGENO
             else HangCode(s, L3PTABLE, page, t, i);
    && Answers(s, s', r)
    && if r != SUCCESS then NothingMoved(s, s')
       else
         && LeafWord(s.lay.securePfn + page, mapping) < WORD_LIMIT
         && Hung(s, s', L3PTABLE, page, t, i, LeafWord(s.lay.securePfn + page, mapping))
         && s'.pages[page] == s.insecure[content]
  }

  lemma MapSecureEffect(s: State, sbi: Word)
    requires Calls(s, 16)
    ensures MapSecureDone(s, After(s, sbi))
  {
    var s1, page, t, i := AdvanceMepc(s), s.regs[A0], s.regs[A1], s.regs[A2];
    var prot, content := EnclaveProt(s.regs[A3]), s.regs[A4];
    CallIs(s, sbi);
    if i < 512 && content < |s.insecure| {
      LinkCode(s1, L3PTABLE, page, t, i);
      HangSame(s, s1, L3PTABLE, page, t, i);
      if HangCode(s1, L3PTABLE, page, t, i) == SUCCESS {
        LinkIs(s1, L3PTABLE, page, t, i, prot, s.insecure[content]);
        HungMoved(s, s1, LinkedChild(s1, L3PTABLE, page, t, i, prot, s.insecure[content]), After(s, sbi), L3PTABLE,
                  page, t, i, LeafWord(s.lay.securePfn + page, s.regs[A3]));
      }
    }
  }

  lemma MapInsecureEffect(s: State, sbi: Word)
    requires Calls(s, 17)
    ensures var s', t, i, mapping, ip := After(s, sbi), s.regs[A0], s.regs[A1], s.regs[A2], s.regs[A3];
      var r := if ip >= s.lay.nInsecure then INVALID_PAGENO
               else if i >= 512 then INVALID_MAPPING
               else if !Typed(s, t, L3PTABLE) then INVALID_PAGENO
               else if s.pages[t][i] != 0 then ADDRINUSE
               else if s.pages[s.pagedb[t].owner][STATE] != INIT then ALREADY_FINAL
               else SUCCESS;
      && Answers(s, s', r)
      && if r != SUCCESS then NothingMoved(s, s')
         else
           && OnlyAt(s, s', {}, {t}) && LeafWord(s.lay.insecurePfn + ip, mapping) < WORD_LIMIT
           && s'.pages[t] == s.pages[t][i := LeafWord(s.lay.insecurePfn + ip, mapping)]
  {
    CallIs(s, sbi);
  }

  // ---------------------------------------------------------------- remove, finalise, stop

  lemma RemoveEffect(s: State, sbi: Word)
    requires Calls(s, 20)
    ensures var s', p := After(s, sbi), s.regs[A0];
      var r := if p >= s.lay.nSecure then INVALID_PAGENO
               else if s.pagedb[p].ty == FREE then SUCCESS
               else if s.pagedb[p].ty == ADDRSPACE && s.pages[p][REFCOUNT] != 1 then PAGEINUSE
               else if s.pages[s.pagedb[p].owner][STATE] != STOPPED then NOT_STOPPED
               else SUCCESS;
      && Answers(s, s', r)
      && if r != SUCCESS || s.pagedb[p].ty == FREE then NothingMoved(s, s')
         else
           var a := s.pagedb[p].owner;
           && OnlyAt(s, s', {p}, {a}) && s'.pagedb[p].ty == FREE
           && s.pages[a][REFCOUNT] > 0 && s'.pages[a] == s.pages[a][REFCOUNT := s.pages[a][REFCOUNT] - 1]
  {
    CallIs(s, sbi);
    RefcountPositive(s, s.regs[A0]);
  }

  /** The page itself is counted. */
  lemma RefcountPositive(s: State, p: int)
    requires Inv(s)
    ensures NonFree(s, p) ==> s.pages[Owner(s, p)][REFCOUNT] > 0
  {
    if NonFree(s, p) {
      assert p in Owned(s, Owner(s, p));
    }
  }

  lemma FinaliseEffect(s: State, sbi: Word)
    requires Calls(s, 21)
    ensures var s', a := After(s, sbi), s.regs[A0];
      var r := if !Typed(s, a, ADDRSPACE) then INVALID_ADDRSPACE
               else if s.pages[a][STATE] != INIT then ALREADY_FINAL
               else SUCCESS;
      && Answers(s, s', r)
      && if r != SUCCESS then NothingMoved(s, s')
         else OnlyAt(s, s', {}, {a}) && s'.pages[a] == s.pages[a][STATE := FINAL]
  {
    CallIs(s, sbi);
  }

  lemma StopEffect(s: State, sbi: Word)
    requires Calls(s, 29)
    ensures var s', a := After(s, sbi), s.regs[A0];
      var r := if !Typed(s, a, ADDRSPACE) then INVALID_ADDRSPACE else SUCCESS;
      && Answers(s, s', r)
      && if r != SUCCESS then NothingMoved(s, s')
         else OnlyAt(s, s', {}, {a}) && s'.pages[a] == s.pages[a][STATE := STOPPED]
  {
    CallIs(s, sbi);
  }

  /** Every other call number. */
  lemma OtherEffect(s: State, sbi: Word)
    requires Inv(s) && !s.enclaveMode && s.regs[A7] !in {12, 13, 14, 15, 16, 17, 20, 21, 22, 23, 29}
    ensures var s', nr := After(s, sbi), s.regs[A7];
      && NothingMoved(s, s')
      && Answers(s, s', if nr <= 8 then sbi else if nr == 10 then MAGIC else if nr == 11 then s.lay.nSecure
        else MINUS_ENOSYS)
  {
    CallIs(s, sbi);
  }

  // ---------------------------------------------------------------- enter and resume

  /** The hart set up for an enclave, the host's state put away. */
  ghost predicate Inside(s: State, s': State, d: Word) {
    && s'.enclaveMode && s'.cur == d && s'.pmp5 == PMP_TOR_RWX && s'.tvm && s'.mideleg == 0 && s'.medeleg == 0
    && s'.hostRegs == s.regs && s'.hostCsrs == s.csrs[MEPC := Wrap(s.csrs[MEPC] as int + 4)]
    && s'.insecure == s.insecure && s'.pagedb == s.pagedb && s'.lay == s.lay
  }

  /** enter continues the dispatcher from its page, with the three arguments in a0 to a2. */
  lemma EnterEffect(s: State, sbi: Word)
    requires Calls(s, 22)
    ensures var s', d := After(s, sbi), s.regs[A0];
      var r := if !Typed(s, d, DISPATCHER) then INVALID_PAGENO
               else if s.pages[s.pagedb[d].owner][STATE] != FINAL then NOT_FINAL
               else if s.pages[d][ENTERED] != 0 then ALREADY_ENTERED
               else SUCCESS;
      if r != SUCCESS then Answers(s, s', r) && NothingMoved(s, s')
      else
        && Inside(s, s', d) && OnlyAt(s, s', {}, {d})
        && s'.regs == DispRegs(s.pages[d])[A0 := s.regs[A1]][A1 := s.regs[A2]][A2 := s.regs[A3]]
        && s'.csrs == DispCsrs(s.pages[d])
  {
    HartOnlyKeepsInv(s, AdvanceMepc(s));
  }

  lemma ResumeEffect(s: State, sbi: Word)
    requires Calls(s, 23)
    ensures var s', d := After(s, sbi), s.regs[A0];
      var r := if !Typed(s, d, DISPATCHER) then INVALID_PAGENO
               else if s.pages[s.pagedb[d].owner][STATE] != FINAL then NOT_FINAL
               else if s.pages[d][ENTERED] == 0 then NOT_ENTERED
               else SUCCESS;
      if r != SUCCESS then Answers(s, s', r) && NothingMoved(s, s')
      else
        && Inside(s, s', d) && s'.pages == s.pages
        && s'.regs == DispRegs(s.pages[d]) && s'.csrs == DispCsrs(s.pages[d])
  {
    HartOnlyKeepsInv(s, AdvanceMepc(s));
  }

  // ---------------------------------------------------------------- leaving an enclave

  /** Back in the host with its state put away, a0 and a1 replaced; the dispatcher has saved the
      enclave's. */
  ghost predicate Left(s: State, s': State, a0: Word, a1: Word, entered: Word, csrs: Csrs)
    requires s.cur < |s.pages|
  {
    && !s'.enclaveMode && s'.cur == 0 && s'.pmp5 == PMP_TOR && !s'.tvm
    && s'.mideleg == IDELEG_HOST && s'.medeleg == EDELEG_HOST
    && s'.regs == s.hostRegs[A0 := a0][A1 := a1] && s'.csrs == s.hostCsrs
    && s'.insecure == s.insecure && OnlyAt(s, s', {}, {s.cur}) && s.cur < |s'.pages|
    && s'.pages[s.cur][ENTERED] == entered
    && DispRegs(s'.pages[s.cur]) == s.regs && DispCsrs(s'.pages[s.cur]) == csrs
  }

  /** The one call of an enclave hands its a0 to the host with SUCCESS; any other is refused. */
  lemma ExitEffect(s: State, sbi: Word)
    requires Inv(s) && s.enclaveMode
    ensures s.cur < |s.pages|
    ensures var s', csrs := Next(s, Trap(9, sbi)), s.csrs[MEPC := Wrap(s.csrs[MEPC] as int + 4)];
      if s.regs[A7] == 30 then Left(s, s', SUCCESS, s.regs[A0], 0, csrs)
      else s' == s.(regs := s.regs[A0 := MINUS_ENOSYS], csrs := csrs)
  {
  }

  /** Any other trap of an enclave leaves it entered, and tells the host the cause and whether it was
      an interrupt. */
  lemma InterruptEffect(s: State, cause: Word, sbi: Word)
    requires Inv(s) && s.enclaveMode && cause != 9
    ensures s.cur < |s.pages|
    ensures Left(s, Next(s, Trap(cause, sbi)), if cause >= 0x8000_0000_0000_0000 then INTERRUPTED else FAULT, cause, 1,
      s.csrs)
  {
  }

  /** After boot every page is free and zero, and secure memory is closed to the host. */
  lemma BootEffect(lay: Layout, insecure: seq<Page>, regs: Regs, csrs: Csrs)
    requires lay.Valid() && |insecure| == lay.nInsecure
    ensures var s := Boot(lay, insecure, regs, csrs);
      && !s.enclaveMode && s.regs == regs && s.csrs == csrs && s.insecure == insecure
      && |s.pagedb| == |s.pages| == lay.nSecure
      && (forall p :: 0 <= p < lay.nSecure ==> s.pagedb[p].ty == FREE && ZeroAll(s.pages[p]))
      && forall pfn, i :: lay.securePfn <= pfn < lay.securePfn + lay.nSecure && 0 <= i < 512 ==> !PhysRead(s, pfn, i).0
  {
  }
}
