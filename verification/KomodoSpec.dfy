/** The monitor calls and the trap dispatcher as functions on states, and the steps of the
    machine around them.  A call that fails returns the state it was given. */
module KomodoSpec {
  import opened KomodoTypes

  // kom_err_t
  const SUCCESS: Word := 0
  const INVALID_PAGENO: Word := 1
  const PAGEINUSE: Word := 2
  const INVALID_ADDRSPACE: Word := 3
  const ALREADY_FINAL: Word := 4
  const NOT_FINAL: Word := 5
  const INVALID_MAPPING: Word := 6
  const ADDRINUSE: Word := 7
  const NOT_STOPPED: Word := 8
  const INTERRUPTED: Word := 9
  const FAULT: Word := 10
  const ALREADY_ENTERED: Word := 11
  const NOT_ENTERED: Word := 12
  const MAGIC: Word := 0x4b6d_646f
  const MINUS_ENOSYS: Word := 0xffff_ffff_ffff_ffda

  /** What page_monvaddr's BUG_ON needs of every owner it is given. */
  ghost predicate OwnersValid(s: State) {
    && Shape(s)
    && (forall p {:trigger NonFree(s, p)} :: NonFree(s, p) ==> Typed(s, s.pagedb[p].owner, ADDRSPACE))
    && (forall p {:trigger Typed(s, p, ADDRSPACE)} :: Typed(s, p, ADDRSPACE) ==>
          s.pagedb[p].owner == p && s.pages[p][L1PT] < |s.pages|)
  }

  /** The address space that owns a page in use. */
  function Owner(s: State, p: int): (a: Word)
    requires OwnersValid(s) && NonFree(s, p)
    ensures Typed(s, a, ADDRSPACE)
  {
    s.pagedb[p].owner
  }

  /** The registers of the hart are no part of OwnersValid. */
  lemma SamePagesOwners(s: State, s': State)
    requires OwnersValid(s)
    requires s'.lay == s.lay && s'.pagedb == s.pagedb && s'.pages == s.pages && |s'.insecure| == |s.insecure|
    ensures OwnersValid(s')
  {
    forall p | NonFree(s', p) ensures Typed(s', s'.pagedb[p].owner, ADDRSPACE) {
      assert NonFree(s, p);
    }
    forall p | Typed(s', p, ADDRSPACE) ensures s'.pagedb[p].owner == p && s'.pages[p][L1PT] < |s'.pages| {
      assert Typed(s, p, ADDRSPACE);
    }
  }

  /** The life-cycle word of the address space that owns page `p`. */
  function OwnerState(s: State, p: int): Word
    requires OwnersValid(s) && NonFree(s, p)
  {
    s.pages[Owner(s, p)][STATE]
  }

  /** The same machine with another page database and other secure pages. */
  function WithPages(s: State, pagedb: seq<PageDbEntry>, pages: seq<Page>): State {
    s.(pagedb := pagedb, pages := pages)
  }

  // ---------------------------------------------------------------- allocation

  function AllocateErr(s: State, page: Word, a: Word): Word
    requires OwnersValid(s) && Typed(s, a, ADDRSPACE)
  {
    if !PageValid(s, page) then INVALID_PAGENO
    else if s.pagedb[page].ty != FREE then PAGEINUSE
    else if s.pages[a][STATE] != INIT then ALREADY_FINAL
    else SUCCESS
  }

  /** The page becomes `ty` owned by `a` with the given contents, and `a` counts one more. */
  function Allocated(s: State, page: Word, a: Word, ty: PageType, body: Page): State
    requires OwnersValid(s) && Typed(s, a, ADDRSPACE)
    requires AllocateErr(s, page, a) == SUCCESS
  {
    WithPages(s, s.pagedb[page := PageDbEntry(ty, a)],
              s.pages[page := body][a := s.pages[a][REFCOUNT := Wrap(s.pages[a][REFCOUNT] as int + 1)]])
  }

  function Linked(s: State, t: nat, i: nat, e: Word): State
    requires t < |s.pages| && i < 512
  {
    WithPages(s, s.pagedb, s.pages[t := s.pages[t][i := e]])
  }

  // ---------------------------------------------------------------- calls

  function InitAddrspaceErr(s: State, a: Word, l1: Word): Word {
    if a == l1 || !PageValid(s, a) || !PageValid(s, l1) then INVALID_PAGENO
    else if s.pagedb[a].ty != FREE || s.pagedb[l1].ty != FREE then PAGEINUSE
    else SUCCESS
  }

  function InitAddrspace(s: State, a: Word, l1: Word): (State, Word)
    requires OwnersValid(s)
  {
    var err := InitAddrspaceErr(s, a, l1);
    if err != SUCCESS then (s, err)
    else
      (WithPages(s, s.pagedb[a := PageDbEntry(ADDRSPACE, a)][l1 := PageDbEntry(L1PTABLE, a)],
                 s.pages[a := ZeroPage()[L1PT := l1][REFCOUNT := 2][STATE := INIT]][l1 := ZeroPage()]),
       SUCCESS)
  }

  function InitDispatcherErr(s: State, page: Word, a: Word): Word
    requires OwnersValid(s)
  {
    if !Typed(s, a, ADDRSPACE) then INVALID_ADDRSPACE
    else AllocateErr(s, page, a)
  }

  function FreshDispatcher(s: State, a: Word, entrypoint: Word): Page
    requires OwnersValid(s) && Typed(s, a, ADDRSPACE)
  {
    ZeroPage()[DISP_CSRS + MEPC := entrypoint]
             [DISP_CSRS + SATP := SatpFor(s.lay, s.pages[a][L1PT])]
             [DISP_CSRS + SIE := IE_S]
  }

  function InitDispatcher(s: State, page: Word, a: Word, entrypoint: Word): (State, Word)
    requires OwnersValid(s)
  {
    var err := InitDispatcherErr(s, page, a);
    if err != SUCCESS then (s, err)
    else (Allocated(s, page, a, DISPATCHER, FreshDispatcher(s, a, entrypoint)), SUCCESS)
  }

  /** The checks that init_l2ptable, init_l3ptable and map_secure share, for a parent table
      of type `ty`. */
  function LinkErr(s: State, ty: PageType, page: Word, t: Word, i: Word): Word
    requires OwnersValid(s) && IsTable(ty)
  {
    if !Typed(s, t, ty) then INVALID_PAGENO
    else if s.pages[t][i % 512] != 0 then ADDRINUSE
    else AllocateErr(s, page, Owner(s, t))
  }

  function LinkedChild(s: State, ty: PageType, page: Word, t: Word, i: Word, prot: nat, body: Page): State
    requires OwnersValid(s) && IsTable(ty) && i < 512 && prot < 1024
    requires LinkErr(s, ty, page, t, i) == SUCCESS
  {
    Linked(Allocated(s, page, Owner(s, t), Child(ty), body), t, i, Pte(s.lay.securePfn + page, prot))
  }

  function InitTableErr(s: State, ty: PageType, page: Word, t: Word, i: Word): Word
    requires OwnersValid(s) && IsTable(ty)
  {
    if i >= 512 then INVALID_MAPPING else LinkErr(s, ty, page, t, i)
  }

  /** init_l2ptable is InitTable under an L1 table, init_l3ptable under an L2 table. */
  function InitTable(s: State, ty: PageType, page: Word, t: Word, i: Word): (State, Word)
    requires OwnersValid(s) && IsTable(ty)
  {
    var err := InitTableErr(s, ty, page, t, i);
    if err != SUCCESS then (s, err)
    else (LinkedChild(s, ty, page, t, i, PTE_PRESENT, ZeroPage()), SUCCESS)
  }

  function MapSecureErr(s: State, page: Word, t: Word, i: Word, content: Word): Word
    requires OwnersValid(s)
  {
    if i >= 512 then INVALID_MAPPING
    else if content >= |s.insecure| then INVALID_PAGENO
    else LinkErr(s, L3PTABLE, page, t, i)
  }

  function MapSecure(s: State, page: Word, t: Word, i: Word, mapping: Word, content: Word): (State, Word)
    requires OwnersValid(s)
  {
    var err := MapSecureErr(s, page, t, i, content);
    if err != SUCCESS then (s, err)
    else (LinkedChild(s, L3PTABLE, page, t, i, EnclaveProt(mapping), s.insecure[content]), SUCCESS)
  }

  function MapInsecureErr(s: State, t: Word, i: Word, ip: Word): Word
    requires OwnersValid(s)
  {
    if ip >= |s.insecure| then INVALID_PAGENO
    else if i >= 512 then INVALID_MAPPING
    else if !Typed(s, t, L3PTABLE) then INVALID_PAGENO
    else if s.pages[t][i] != 0 then ADDRINUSE
    else if OwnerState(s, t) != INIT then ALREADY_FINAL
    else SUCCESS
  }

  function MapInsecure(s: State, t: Word, i: Word, mapping: Word, ip: Word): (State, Word)
    requires OwnersValid(s)
  {
    var err := MapInsecureErr(s, t, i, ip);
    if err != SUCCESS then (s, err)
    else (Linked(s, t, i, Pte(s.lay.insecurePfn + ip, EnclaveProt(mapping))), SUCCESS)
  }

  function RemoveErr(s: State, p: Word): Word
    requires OwnersValid(s)
  {
    if !PageValid(s, p) then INVALID_PAGENO
    else if s.pagedb[p].ty == FREE then SUCCESS
    else if s.pagedb[p].ty == ADDRSPACE && s.pages[p][REFCOUNT] != 1 then PAGEINUSE
    else if OwnerState(s, p) != STOPPED then NOT_STOPPED
    else SUCCESS
  }

  function Remove(s: State, p: Word): (State, Word)
    requires OwnersValid(s)
  {
    var err := RemoveErr(s, p);
    if err != SUCCESS || s.pagedb[p].ty == FREE then (s, err)
    else
      var a := Owner(s, p);
      (WithPages(s, s.pagedb[p := PageDbEntry(FREE, NO_OWNER)],
                 s.pages[a := s.pages[a][REFCOUNT := Wrap(s.pages[a][REFCOUNT] as int - 1)]]),
       SUCCESS)
  }

  function FinaliseErr(s: State, a: Word): Word
    requires OwnersValid(s)
  {
    if !Typed(s, a, ADDRSPACE) then INVALID_ADDRSPACE
    else if s.pages[a][STATE] != INIT then ALREADY_FINAL
    else SUCCESS
  }

  function Finalise(s: State, a: Word): (State, Word)
    requires OwnersValid(s)
  {
    var err := FinaliseErr(s, a);
    if err != SUCCESS then (s, err) else (Linked(s, a, STATE, FINAL), SUCCESS)
  }

  function Stop(s: State, a: Word): (State, Word)
    requires OwnersValid(s)
  {
    if !Typed(s, a, ADDRSPACE) then (s, INVALID_ADDRSPACE)
    else (Linked(s, a, STATE, STOPPED), SUCCESS)
  }

  // ---------------------------------------------------------------- world switch

  /** enter_secure_world followed by mret_with_regs. */
  function EnterWorld(s: State, d: Word): State
    requires d < |s.pages|
  {
    s.(hostRegs := s.regs, hostCsrs := s.csrs,
       regs := DispRegs(s.pages[d]), csrs := DispCsrs(s.pages[d]),
       pmp5 := PMP_TOR_RWX, tvm := true, mideleg := 0, medeleg := 0,
       enclaveMode := true, cur := d)
  }

  /** leave_secure_world followed by mret_with_regs, with the two result registers the host
      sees already stored in host_state. */
  function LeaveWorld(s: State, entered: Word, a0: Word, a1: Word): State
    requires s.cur < |s.pages|
  {
    s.(hostRegs := s.hostRegs[A0 := a0][A1 := a1], regs := s.hostRegs[A0 := a0][A1 := a1], csrs := s.hostCsrs,
       pages := s.pages[s.cur := DispPage(s.pages[s.cur], entered, s.regs, s.csrs)],
       pmp5 := PMP_TOR, tvm := false, mideleg := IDELEG_HOST, medeleg := EDELEG_HOST,
       enclaveMode := false, cur := 0)
  }

  function EnterErr(s: State, d: Word): Word
    requires OwnersValid(s)
  {
    if !Typed(s, d, DISPATCHER) then INVALID_PAGENO
    else if OwnerState(s, d) != FINAL then NOT_FINAL
    else if s.pages[d][ENTERED] != 0 then ALREADY_ENTERED
    else SUCCESS
  }

  function WithArgs(p: Page, arg1: Word, arg2: Word, arg3: Word): Page {
    p[DISP_REGS + A0 := arg1][DISP_REGS + A1 := arg2][DISP_REGS + A2 := arg3]
  }

  function Enter(s: State, d: Word, arg1: Word, arg2: Word, arg3: Word): State
    requires OwnersValid(s) && EnterErr(s, d) == SUCCESS
  {
    EnterWorld(WithPages(s, s.pagedb, s.pages[d := WithArgs(s.pages[d], arg1, arg2, arg3)]), d)
  }

  function ResumeErr(s: State, d: Word): Word
    requires OwnersValid(s)
  {
    if !Typed(s, d, DISPATCHER) then INVALID_PAGENO
    else if OwnerState(s, d) != FINAL then NOT_FINAL
    else if s.pages[d][ENTERED] == 0 then NOT_ENTERED
    else SUCCESS
  }

  // ---------------------------------------------------------------- traps

  const EXC_ECALL_S: Word := 9

  function AdvanceMepc(s: State): State {
    s.(csrs := s.csrs[MEPC := Wrap(s.csrs[MEPC] as int + 4)])
  }

  function Returned(s: State, r: Word): State {
    s.(regs := s.regs[A0 := r])
  }

  /** The calls that return to the host, by number; `sbi` is what do_mcall returns. */
  function HostCall(s: State, sbi: Word): (State, Word)
    requires OwnersValid(s)
  {
    var r := s.regs;
    match r[A7]
    case 10 => (s, MAGIC)
    case 11 => (s, Wrap(s.lay.nSecure))
    case 12 => InitAddrspace(s, r[A0], r[A1])
    case 13 => InitDispatcher(s, r[A0], r[A1], r[A2])
    case 14 => InitTable(s, L1PTABLE, r[A0], r[A1], r[A2])
    case 15 => InitTable(s, L2PTABLE, r[A0], r[A1], r[A2])
    case 16 => MapSecure(s, r[A0], r[A1], r[A2], r[A3], r[A4])
    case 17 => MapInsecure(s, r[A0], r[A1], r[A2], r[A3])
    case 20 => Remove(s, r[A0])
    case 21 => Finalise(s, r[A0])
    case 22 => (s, EnterErr(s, r[A0]))
    case 23 => (s, ResumeErr(s, r[A0]))
    case 29 => Stop(s, r[A0])
    case n => (s, if n <= 8 then sbi else MINUS_ENOSYS)
  }

  predicate Enters(s: State)
    requires OwnersValid(s)
  {
    s.regs[A7] == 22 && EnterErr(s, s.regs[A0]) == SUCCESS
  }

  predicate Resumes(s: State)
    requires OwnersValid(s)
  {
    s.regs[A7] == 23 && ResumeErr(s, s.regs[A0]) == SUCCESS
  }

  /** do_smc_calls. */
  function SmcTrap(s: State, sbi: Word): State
    requires OwnersValid(s)
  {
    var s1 := AdvanceMepc(s);
    SamePagesOwners(s, s1);
    if Enters(s1) then Enter(s1, s.regs[A0], s.regs[A1], s.regs[A2], s.regs[A3])
    else if Resumes(s1) then EnterWorld(s1, s.regs[A0])
    else
      var (s2, r) := HostCall(s1, sbi);
      Returned(s2, r)
  }

  /** do_svc_calls: the one call an enclave can make is KOM_SVC_EXIT. */
  function SvcTrap(s: State): State
    requires s.cur < |s.pages|
  {
    var s1 := AdvanceMepc(s);
    if s.regs[A7] == 30 then LeaveWorld(s1, 0, SUCCESS, s.regs[A0])
    else Returned(s1, MINUS_ENOSYS)
  }

  /** kom_handle_trap: interrupts have the top bit of the cause set. */
  function HandleTrap(s: State, cause: Word): State
    requires s.cur < |s.pages|
  {
    LeaveWorld(s, 1, if cause >= 0x8000_0000_0000_0000 then INTERRUPTED else FAULT, cause)
  }

  /** do_trap. */
  function DoTrap(s: State, cause: Word, sbi: Word): State
    requires OwnersValid(s) && (s.enclaveMode ==> s.cur < |s.pages|)
  {
    if cause == EXC_ECALL_S then
      if s.enclaveMode then SvcTrap(s) else SmcTrap(s, sbi)
    else if s.enclaveMode then HandleTrap(s, cause)
    else s
  }

  // ---------------------------------------------------------------- memory seen from S-mode

  /** A 64-bit word at a physical page frame, if PMP entries 3 and 5 let S-mode reach it. */
  function PhysRead(s: State, pfn: int, i: int): (r: (bool, Word))
    requires 0 <= i < 512
  {
    if s.lay.securePfn <= pfn < s.lay.securePfn + |s.pages| && s.pmp5 == PMP_TOR_RWX then
      (true, s.pages[pfn - s.lay.securePfn][i])
    else if s.lay.insecurePfn <= pfn < s.lay.insecurePfn + |s.insecure| then
      (true, s.insecure[pfn - s.lay.insecurePfn][i])
    else (false, 0)
  }

  function PhysWrite(s: State, pfn: int, i: int, w: Word): State
    requires 0 <= i < 512
  {
    if s.lay.securePfn <= pfn < s.lay.securePfn + |s.pages| && s.pmp5 == PMP_TOR_RWX then
      Linked(s, pfn - s.lay.securePfn, i, w)
    else if s.lay.insecurePfn <= pfn < s.lay.insecurePfn + |s.insecure| then
      s.(insecure := s.insecure[pfn - s.lay.insecurePfn := s.insecure[pfn - s.lay.insecurePfn][i := w]])
    else s
  }

  datatype Translation = PageFault | Frame(pfn: nat, flags: nat)

  function Vpn(va: Word, level: nat): nat
    requires level <= 2
  {
    if level == 0 then va / 0x1000 % 512
    else if level == 1 then va / 0x20_0000 % 512
    else va / 0x4000_0000 % 512
  }

  /** A leaf at `level` with frame number `next`: a superpage must be aligned to its size. */
  function LeafAt(next: nat, flags: nat, va: Word, level: nat): Translation {
    if level == 0 then Frame(next, flags)
    else if level == 1 then
      if next % 0x200 != 0 then PageFault else Frame(next + va / 0x1000 % 0x200, flags)
    else
      if next % 0x4_0000 != 0 then PageFault else Frame(next + va / 0x1000 % 0x4_0000, flags)
  }

  /** The address-translation process of section 4.3.2 of the RISC-V Privileged Architecture
      from a table at frame `pfn`. */
  function WalkFrom(s: State, pfn: nat, va: Word, level: nat): Translation
    requires level <= 2
    decreases level
  {
    var (ok, e) := PhysRead(s, pfn, Vpn(va, level));
    var flags, next := e % 1024, e / 1024 % 0x1000_0000_0000;
    if !ok || flags % 2 == 0 || flags / 2 % 4 == 2 then PageFault
    else
      if flags / 2 % 2 == 1 || flags / 8 % 2 == 1 then LeafAt(next, flags, va, level)
      else if level == 0 then PageFault
      else WalkFrom(s, next, va, level - 1)
  }

  /** Sv39 translation; a hart whose satp selects another mode is not modelled further than
      "no translation happened": the frame is then the address itself. */
  function Walk(s: State, satp: Word, va: Word): Translation {
    if satp / 0x1000_0000_0000_0000 != 8 then Frame(va / 0x1000, 6)
    else if 0x40_0000_0000 <= va < 0xffff_ffc0_0000_0000 then PageFault
    else WalkFrom(s, satp % 0x1000_0000_0000, va, 2)
  }

  datatype Store = Store(va: Word, value: Word)

  /** One enclave store: it reaches memory only through a writable Sv39 leaf. */
  function EnclaveStore(s: State, st: Store): State {
    match Walk(s, s.csrs[SATP], st.va)
    case PageFault => s
    case Frame(pfn, flags) =>
      if flags / 4 % 2 == 0 then s else PhysWrite(s, pfn, st.va / 8 % 512, st.value)
  }

  function EnclaveStores(s: State, stores: seq<Store>): State
    decreases |stores|
  {
    if stores == [] then s else EnclaveStores(EnclaveStore(s, stores[0]), stores[1..])
  }

  /** The host builds its own page tables, so its stores are physical, limited by PMP only. */
  datatype HostStore = HostStore(pfn: nat, index: nat, value: Word)

  function HostStores(s: State, stores: seq<HostStore>): State
    decreases |stores|
  {
    if stores == [] then s
    else HostStores(PhysWrite(s, stores[0].pfn, stores[0].index % 512, stores[0].value), stores[1..])
  }

  // ---------------------------------------------------------------- the machine

  datatype Action =
    | Trap(cause: Word, sbi: Word)
    | HostRun(hostRegs: Regs, hostCsrs: Csrs, hostStores: seq<HostStore>)
    | EnclaveRun(regs: Regs, csrs: Csrs, stores: seq<Store>)

  /** With mstatus.TVM set an S-mode write of satp traps, so satp keeps its value. */
  predicate Enabled(s: State, act: Action) {
    match act
    case Trap(_, _) => true
    case HostRun(_, _, _) => !s.enclaveMode
    case EnclaveRun(_, csrs, _) => s.enclaveMode && (s.tvm ==> csrs[SATP] == s.csrs[SATP])
  }

  function Next(s: State, act: Action): State
    requires OwnersValid(s) && (s.enclaveMode ==> s.cur < |s.pages|)
  {
    match act
    case Trap(cause, sbi) => DoTrap(s, cause, sbi)
    case HostRun(regs, csrs, stores) => HostStores(s, stores).(regs := regs, csrs := csrs)
    case EnclaveRun(regs, csrs, stores) => EnclaveStores(s, stores).(regs := regs, csrs := csrs)
  }

  /** init_monitor and pmp_init; the host starts with registers of its own. */
  function Boot(lay: Layout, insecure: seq<Page>, regs: Regs, csrs: Csrs): State
    requires |insecure| == lay.nInsecure
  {
    State(lay, seq(lay.nSecure, _ => PageDbEntry(FREE, 0)), seq(lay.nSecure, _ => ZeroPage()), insecure,
          false, 0, ZeroRegs(), ZeroCsrs(), regs, csrs, PMP_TOR, false, IDELEG_HOST, EDELEG_HOST)
  }
}
