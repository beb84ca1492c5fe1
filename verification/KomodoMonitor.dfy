/** The monitor as the source has it: global state updated in place, word by word.  Every call
    is proved to take the state where the specification functions say, and the trap entry
    point to keep the invariant. */
module KomodoMonitor {
  import opened KomodoTypes
  import opened KomodoSpec
  import opened KomodoInvariant

  class Monitor {
    const lay: Layout

    // g_pagedb, secure_pages and the payload memory
    var pagedb: seq<PageDbEntry>
    var pages: seq<Page>
    var insecure: seq<Page>

    var enclaveMode: bool
    var cur: Word
    var hostRegs: Regs
    var hostCsrs: Csrs

    // the hart: registers at trap entry and exit, and the CSRs the monitor programs
    var regs: Regs
    var csrs: Csrs
    var pmp5: Word
    var tvm: bool
    var mideleg: Word
    var medeleg: Word

    ghost function St(): State
      reads this
    {
      State(lay, pagedb, pages, insecure, enclaveMode, cur, hostRegs, hostCsrs, regs, csrs, pmp5, tvm, mideleg, medeleg)
    }

    ghost predicate Valid()
      reads this
    {
      Inv(St())
    }

    /** init_monitor and pmp_init. */
    constructor (l: Layout, payload: seq<Page>, hartRegs: Regs, hartCsrs: Csrs)
      requires l.Valid() && |payload| == l.nInsecure
      ensures St() == Boot(l, payload, hartRegs, hartCsrs) && Valid()
    {
      lay := l;
      enclaveMode, cur := false, 0;
      pagedb := seq(l.nSecure, _ => PageDbEntry(FREE, 0));
      pages := seq(l.nSecure, _ => ZeroPage());
      hostRegs, hostCsrs := ZeroRegs(), ZeroCsrs();
      insecure, regs, csrs := payload, hartRegs, hartCsrs;
      pmp5, tvm, mideleg, medeleg := PMP_TOR, false, IDELEG_HOST, EDELEG_HOST;
      new;
      BootEstablishesInv(l, payload, hartRegs, hartCsrs);
    }

    method SetWord(p: nat, i: nat, w: Word)
      requires p < |pages| && i < 512
      modifies this`pages
      ensures pages == old(pages)[p := old(pages)[p][i := w]]
    {
      pages := pages[p := pages[p][i := w]];
    }

    predicate IsTyped(p: Word, ty: PageType)
      reads this
    {
      p < |pagedb| && pagedb[p].ty == ty
    }

    /** allocate_page: on success the page is zero. */
    method AllocatePage(page: Word, a: Word, ty: PageType) returns (err: Word)
      requires OwnersValid(St()) && Typed(St(), a, ADDRSPACE)
      modifies this`pagedb, this`pages
      ensures err == AllocateErr(old(St()), page, a)
      ensures err != SUCCESS ==> St() == old(St())
      ensures err == SUCCESS ==> St() == Allocated(old(St()), page, a, ty, ZeroPage())
    {
      if page >= |pagedb| {
        return INVALID_PAGENO;
      }
      if pagedb[page].ty != FREE {
        return PAGEINUSE;
      }
      if pages[a][STATE] != INIT {
        return ALREADY_FINAL;
      }
      pages := pages[page := ZeroPage()];
      pagedb := pagedb[page := pagedb[page].(ty := ty)];
      pagedb := pagedb[page := pagedb[page].(owner := a)];
      SetWord(a, REFCOUNT, Wrap(pages[a][REFCOUNT] as int + 1));
      return SUCCESS;
    }

    method SmcInitAddrspace(a: Word, l1: Word) returns (err: Word)
      requires OwnersValid(St())
      modifies this`pagedb, this`pages
      ensures (St(), err) == InitAddrspace(old(St()), a, l1)
    {
      if a == l1 || a >= |pagedb| || l1 >= |pagedb| {
        return INVALID_PAGENO;
      }
      if pagedb[a].ty != FREE || pagedb[l1].ty != FREE {
        return PAGEINUSE;
      }
      pages := pages[a := ZeroPage()];
      pages := pages[l1 := ZeroPage()];
      pagedb := pagedb[a := PageDbEntry(ADDRSPACE, a)];
      pagedb := pagedb[l1 := PageDbEntry(L1PTABLE, a)];
      SetWord(a, L1PT, l1);
      SetWord(a, REFCOUNT, 2);
      SetWord(a, STATE, INIT);
      assert pages == InitAddrspace(old(St()), a, l1).0.pages;
      return SUCCESS;
    }

    method SmcInitDispatcher(page: Word, a: Word, entrypoint: Word) returns (err: Word)
      requires OwnersValid(St())
      modifies this`pagedb, this`pages
      ensures (St(), err) == InitDispatcher(old(St()), page, a, entrypoint)
    {
      if !IsTyped(a, ADDRSPACE) {
        return INVALID_ADDRSPACE;
      }
      assert Typed(St(), a, ADDRSPACE);
      err := AllocatePage(page, a, DISPATCHER);
      if err != SUCCESS {
        return;
      }
      SetWord(page, DISP_CSRS + MEPC, entrypoint);
      SetWord(page, DISP_CSRS + SATP, SatpFor(lay, pages[a][L1PT]));
      SetWord(page, DISP_CSRS + SIE, IE_S);
      assert pages == InitDispatcher(old(St()), page, a, entrypoint).0.pages;
    }

    method SmcInitTable(ty: PageType, page: Word, t: Word, i: Word) returns (err: Word)
      requires OwnersValid(St()) && (ty == L1PTABLE || ty == L2PTABLE)
      modifies this`pagedb, this`pages
      ensures (St(), err) == InitTable(old(St()), ty, page, t, i)
    {
      if i >= 512 {
        return INVALID_MAPPING;
      }
      if !IsTyped(t, ty) {
        return INVALID_PAGENO;
      }
      if pages[t][i] != 0 {
        return ADDRINUSE;
      }
      assert NonFree(St(), t);
      err := AllocatePage(page, pagedb[t].owner, Child(ty));
      if err != SUCCESS {
        return;
      }
      SetWord(t, i, Pte(lay.securePfn + page, PTE_PRESENT));
    }

    method SmcMapSecure(page: Word, t: Word, i: Word, mapping: Word, content: Word) returns (err: Word)
      requires OwnersValid(St())
      modifies this`pagedb, this`pages
      ensures (St(), err) == MapSecure(old(St()), page, t, i, mapping, content)
    {
      if i >= 512 {
        return INVALID_MAPPING;
      }
      if content >= |insecure| {
        return INVALID_PAGENO;
      }
      if !IsTyped(t, L3PTABLE) {
        return INVALID_PAGENO;
      }
      if pages[t][i] != 0 {
        return ADDRINUSE;
      }
      assert NonFree(St(), t);
      err := AllocatePage(page, pagedb[t].owner, DATA);
      if err != SUCCESS {
        return;
      }
      SetWord(t, i, Pte(lay.securePfn + page, EnclaveProt(mapping)));
      pages := pages[page := insecure[content]];
      assert pages == MapSecure(old(St()), page, t, i, mapping, content).0.pages;
    }

    method SmcMapInsecure(t: Word, i: Word, mapping: Word, ip: Word) returns (err: Word)
      requires OwnersValid(St())
      modifies this`pages
      ensures (St(), err) == MapInsecure(old(St()), t, i, mapping, ip)
    {
      if ip >= |insecure| {
        return INVALID_PAGENO;
      }
      if i >= 512 {
        return INVALID_MAPPING;
      }
      if !IsTyped(t, L3PTABLE) {
        return INVALID_PAGENO;
      }
      if pages[t][i] != 0 {
        return ADDRINUSE;
      }
      assert NonFree(St(), t);
      if pages[pagedb[t].owner][STATE] != INIT {
        return ALREADY_FINAL;
      }
      SetWord(t, i, Pte(lay.insecurePfn + ip, EnclaveProt(mapping)));
      return SUCCESS;
    }

    method SmcRemove(p: Word) returns (err: Word)
      requires OwnersValid(St())
      modifies this`pagedb, this`pages
      ensures (St(), err) == Remove(old(St()), p)
    {
      if p >= |pagedb| {
        return INVALID_PAGENO;
      }
      if pagedb[p].ty == FREE {
        return SUCCESS;
      }
      assert NonFree(St(), p);
      var a := pagedb[p].owner;
      if pagedb[p].ty == ADDRSPACE {
        assert Typed(St(), p, ADDRSPACE);
        if pages[p][REFCOUNT] != 1 {
          return PAGEINUSE;
        }
        if pages[p][STATE] != STOPPED {
          return NOT_STOPPED;
        }
      } else {
        if pages[a][STATE] != STOPPED {
          return NOT_STOPPED;
        }
      }
      SetWord(a, REFCOUNT, Wrap(pages[a][REFCOUNT] as int - 1));
      pagedb := pagedb[p := pagedb[p].(ty := FREE)];
      pagedb := pagedb[p := pagedb[p].(owner := NO_OWNER)];
      assert pagedb == Remove(old(St()), p).0.pagedb;
      return SUCCESS;
    }

    method SmcFinalise(a: Word) returns (err: Word)
      requires OwnersValid(St())
      modifies this`pages
      ensures (St(), err) == Finalise(old(St()), a)
    {
      if !IsTyped(a, ADDRSPACE) {
        return INVALID_ADDRSPACE;
      }
      if pages[a][STATE] != INIT {
        return ALREADY_FINAL;
      }
      SetWord(a, STATE, FINAL);
      return SUCCESS;
    }

    method SmcStop(a: Word) returns (err: Word)
      requires OwnersValid(St())
      modifies this`pages
      ensures (St(), err) == Stop(old(St()), a)
    {
      if !IsTyped(a, ADDRSPACE) {
        return INVALID_ADDRSPACE;
      }
      SetWord(a, STATE, STOPPED);
      return SUCCESS;
    }

    /** The CSRs of the monitor and the world they select. */
    method SwitchWorld(pmp: Word, trap: bool, ideleg: Word, edeleg: Word, enclave: bool, d: Word)
      modifies this`pmp5, this`tvm, this`mideleg, this`medeleg, this`enclaveMode, this`cur
      ensures pmp5 == pmp && tvm == trap && mideleg == ideleg && medeleg == edeleg && enclaveMode == enclave && cur == d
    {
      pmp5, tvm, mideleg, medeleg := pmp, trap, ideleg, edeleg;
      enclaveMode, cur := enclave, d;
    }

    /** enter_secure_world, then mret_with_regs. */
    method EnterSecureWorld(d: Word)
      requires d < |pages|
      modifies this
      ensures St() == EnterWorld(old(St()), d)
    {
      hostRegs, hostCsrs := regs, csrs;
      csrs := DispCsrs(pages[d]);
      SwitchWorld(PMP_TOR_RWX, true, 0, 0, true, d);
      regs := DispRegs(pages[d]);
    }

    /** The stores of leave_secure_world into the current dispatcher: its flag, its registers
        and its CSRs. */
    method SaveEnclave(entered: Word)
      requires cur < |pages|
      modifies this`pages
      ensures pages == old(pages)[cur := DispPage(old(pages)[cur], entered, regs, csrs)]
    {
      SetWord(cur, ENTERED, entered);
      var d := pages[cur];
      pages := pages[cur := d[..1] + regs + d[32..]];
      d := pages[cur];
      pages := pages[cur := d[..32] + csrs + d[43..]];
      assert pages[cur] == DispPage(old(pages)[cur], entered, regs, csrs);
    }

    /** leave_secure_world, then mret_with_regs with the host's registers. */
    method LeaveSecureWorld(entered: Word)
      requires cur < |pages|
      modifies this
      ensures St() == LeaveWorld(old(St()), entered, old(hostRegs)[A0], old(hostRegs)[A1])
    {
      SaveEnclave(entered);
      csrs := hostCsrs;
      SwitchWorld(PMP_TOR, false, IDELEG_HOST, EDELEG_HOST, false, 0);
      regs := hostRegs;
      assert hostRegs[A0 := hostRegs[A0]][A1 := hostRegs[A1]] == hostRegs;
    }

    /** `switched` reports that the call did not return to the host. */
    method SmcEnter(d: Word, arg1: Word, arg2: Word, arg3: Word) returns (err: Word, switched: bool)
      requires OwnersValid(St())
      modifies this
      ensures err == EnterErr(old(St()), d) && switched == (err == SUCCESS)
      ensures St() == if switched then Enter(old(St()), d, arg1, arg2, arg3) else old(St())
    {
      if !IsTyped(d, DISPATCHER) {
        return INVALID_PAGENO, false;
      }
      assert NonFree(St(), d);
      if pages[pagedb[d].owner][STATE] != FINAL {
        return NOT_FINAL, false;
      }
      if pages[d][ENTERED] != 0 {
        return ALREADY_ENTERED, false;
      }
      SetWord(d, DISP_REGS + A0, arg1);
      SetWord(d, DISP_REGS + A1, arg2);
      SetWord(d, DISP_REGS + A2, arg3);
      assert pages == old(pages)[d := WithArgs(old(pages)[d], arg1, arg2, arg3)];
      EnterSecureWorld(d);
      return SUCCESS, true;
    }

    method SmcResume(d: Word) returns (err: Word, switched: bool)
      requires OwnersValid(St())
      modifies this
      ensures err == ResumeErr(old(St()), d) && switched == (err == SUCCESS)
      ensures St() == if switched then EnterWorld(old(St()), d) else old(St())
    {
      if !IsTyped(d, DISPATCHER) {
        return INVALID_PAGENO, false;
      }
      assert NonFree(St(), d);
      if pages[pagedb[d].owner][STATE] != FINAL {
        return NOT_FINAL, false;
      }
      if pages[d][ENTERED] == 0 {
        return NOT_ENTERED, false;
      }
      EnterSecureWorld(d);
      return SUCCESS, true;
    }

    method SvcExit(value: Word)
      requires cur < |pages|
      modifies this
      ensures St() == LeaveWorld(old(St()), 0, SUCCESS, value)
    {
      hostRegs := hostRegs[A0 := SUCCESS];
      hostRegs := hostRegs[A1 := value];
      LeaveSecureWorld(0);
      assert hostRegs == old(hostRegs)[A0 := SUCCESS][A1 := value];
    }

    method HandleTrap(cause: Word)
      requires cur < |pages|
      modifies this
      ensures St() == KomodoSpec.HandleTrap(old(St()), cause)
    {
      var code := if cause >= 0x8000_0000_0000_0000 then INTERRUPTED else FAULT;
      hostRegs := hostRegs[A0 := code];
      hostRegs := hostRegs[A1 := cause];
      LeaveSecureWorld(1);
      assert hostRegs == old(hostRegs)[A0 := code][A1 := cause];
    }

    /** The calls of do_smc_calls that always return to the host. */
    method ReturningCall(sbi: Word) returns (r: Word)
      requires OwnersValid(St()) && regs[A7] != 22 && regs[A7] != 23
      modifies this`pagedb, this`pages
      ensures (St(), r) == HostCall(old(St()), sbi)
    {
      var nr := regs[A7];
      r := MINUS_ENOSYS;
      match nr {
        case 10 => r := MAGIC;
        case 11 => r := Wrap(lay.nSecure);
        case 12 => r := SmcInitAddrspace(regs[A0], regs[A1]);
        case 13 => r := SmcInitDispatcher(regs[A0], regs[A1], regs[A2]);
        case 14 => r := SmcInitTable(L1PTABLE, regs[A0], regs[A1], regs[A2]);
        case 15 => r := SmcInitTable(L2PTABLE, regs[A0], regs[A1], regs[A2]);
        case 16 => r := SmcMapSecure(regs[A0], regs[A1], regs[A2], regs[A3], regs[A4]);
        case 17 => r := SmcMapInsecure(regs[A0], regs[A1], regs[A2], regs[A3]);
        case 20 => r := SmcRemove(regs[A0]);
        case 21 => r := SmcFinalise(regs[A0]);
        case 29 => r := SmcStop(regs[A0]);
        case _ =>
          if nr <= 8 {
            r := sbi;
          }
      }
    }

    method DoSmcCalls(sbi: Word)
      requires OwnersValid(St())
      modifies this
      ensures St() == SmcTrap(old(St()), sbi)
    {
      SamePagesOwners(St(), AdvanceMepc(St()));
      csrs := csrs[MEPC := Wrap(csrs[MEPC] as int + 4)];
      assert St() == AdvanceMepc(old(St()));
      var r, switched := 0, false;
      if regs[A7] == 22 {
        r, switched := SmcEnter(regs[A0], regs[A1], regs[A2], regs[A3]);
      } else if regs[A7] == 23 {
        r, switched := SmcResume(regs[A0]);
      } else {
        r := ReturningCall(sbi);
      }
      if !switched {
        regs := regs[A0 := r];
      }
    }

    method DoSvcCalls()
      requires cur < |pages|
      modifies this
      ensures St() == SvcTrap(old(St()))
    {
      csrs := csrs[MEPC := Wrap(csrs[MEPC] as int + 4)];
      if regs[A7] == 30 {
        SvcExit(regs[A0]);
      } else {
        regs := regs[A0 := MINUS_ENOSYS];
      }
    }

    /** do_trap keeps the invariant, whatever the host or the enclave asked for. */
    method DoTrap(cause: Word, sbi: Word)
      requires Valid()
      modifies this
      ensures Valid()
      ensures St() == KomodoSpec.DoTrap(old(St()), cause, sbi)
    {
      DoTrapKeepsInv(St(), cause, sbi);
      if cause == EXC_ECALL_S {
        if enclaveMode {
          DoSvcCalls();
        } else {
          DoSmcCalls(sbi);
        }
      } else if enclaveMode {
        HandleTrap(cause);
      }
    }
  }
}
