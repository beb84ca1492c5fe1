/** The state of the Komodo monitor (monitors/komodo/monitor.h and the globals of monitor.c)
    together with the part of the hart it saves, restores and programs.

    Secure pages are raw 64-bit words.  Address-space headers, dispatchers, page tables and
    enclave data are views of those words, so the same page can be read as any of them. */
module KomodoTypes {

  type Word = x: int | 0 <= x < 0x1_0000_0000_0000_0000

  const WORD_LIMIT := 0x1_0000_0000_0000_0000

  /** 64-bit wrap-around. */
  function Wrap(x: int): Word {
    if 0 <= x < WORD_LIMIT then x else x % WORD_LIMIT
  }

  /** A 4 KiB page: KOM_PAGE_SIZE / sizeof(uint64_t) words. */
  type Page = p: seq<Word> | |p| == 512 witness seq(512, _ => 0)

  function ZeroPage(): Page {
    seq(512, _ => 0)
  }

  datatype PageType =
    | FREE
    | ADDRSPACE
    | DISPATCHER
    | L1PTABLE
    | L2PTABLE
    | L3PTABLE
    | DATA

  datatype PageDbEntry = PageDbEntry(ty: PageType, owner: Word)

  /** The owner recorded for a removed page, ~UINT64_C(0). */
  const NO_OWNER: Word := 0xffff_ffff_ffff_ffff

  // Words of struct kom_addrspace
  const L1PT := 0
  const REFCOUNT := 1
  const STATE := 2

  // kom_addrspace_state_t
  const INIT: Word := 0
  const FINAL: Word := 1
  const STOPPED: Word := 2

  // Words of struct kom_dispatcher: entered, then struct pt_regs, then the CSRs of csrs.h
  const ENTERED := 0
  const DISP_REGS := 1
  const DISP_CSRS := 32
  const DISP_END := 43

  /** struct pt_regs: ra sp gp tp t0-t2 s0 s1 a0-a7 s2-s11 t3-t6. */
  type Regs = r: seq<Word> | |r| == 31 witness seq(31, _ => 0)
  const A0 := 9
  const A1 := 10
  const A2 := 11
  const A3 := 12
  const A4 := 13
  const A7 := 16

  /** csrs.h: mepc satp stvec scounteren stval sip scause sepc sstatus sscratch sie. */
  type Csrs = c: seq<Word> | |c| == 11 witness seq(11, _ => 0)
  const MEPC := 0
  const SATP := 1
  const SIE := 10

  function ZeroRegs(): Regs {
    seq(31, _ => 0)
  }
  
  function ZeroCsrs(): Csrs {
    seq(11, _ => 0)
  }

  // Page-table and satp bits
  const PTE_PRESENT := 1
  const PTE_ACCESSED_DIRTY := 0xc0
  const SATP_MODE_SV39 := 0x8000_0000_0000_0000

  // pmp5cfg with the secure pages closed and open
  const PMP_TOR: Word := 8
  const PMP_TOR_RWX: Word := 15

  const IDELEG_HOST: Word := 0x222
  const EDELEG_HOST: Word := 0xb159
  const IE_S: Word := 0x222

  /** Where the linker put `secure_pages` and `_payload_start`, in page frames, and how many
      pages each holds (KOM_SECURE_NPAGES and KOM_INSECURE_NPAGES). */
  datatype Layout = Layout(securePfn: nat, nSecure: nat, insecurePfn: nat, nInsecure: nat) {
    predicate Valid() {
      && securePfn + nSecure <= 0x1000_0000_0000
      && insecurePfn + nInsecure <= 0x1000_0000_0000
      && (securePfn + nSecure <= insecurePfn || insecurePfn + nInsecure <= securePfn)
    }
  }

  datatype State = State(
    lay: Layout,
    pagedb: seq<PageDbEntry>,
    pages: seq<Page>,
    insecure: seq<Page>,
    enclaveMode: bool,
    cur: Word,
    hostRegs: Regs,
    hostCsrs: Csrs,
    regs: Regs,
    csrs: Csrs,
    pmp5: Word,
    tvm: bool,
    mideleg: Word,
    medeleg: Word)

  ghost predicate Shape(s: State) {
    && s.lay.Valid()
    && |s.pagedb| == s.lay.nSecure
    && |s.pages| == s.lay.nSecure
    && |s.insecure| == s.lay.nInsecure
  }

  predicate PageValid(s: State, p: int) {
    0 <= p < |s.pagedb|
  }

  predicate Typed(s: State, p: int, ty: PageType) {
    PageValid(s, p) && s.pagedb[p].ty == ty
  }

  predicate NonFree(s: State, p: int) {
    PageValid(s, p) && s.pagedb[p].ty != FREE
  }

  predicate IsTable(ty: PageType) {
    ty == L1PTABLE || ty == L2PTABLE || ty == L3PTABLE
  }

  /** What a page-table entry of a table of type `ty` may refer to. */
  function Child(ty: PageType): PageType {
    match ty
    case L1PTABLE => L2PTABLE
    case L2PTABLE => L3PTABLE
    case L3PTABLE => DATA
    case _ => FREE
  }

  /** pfn_pgd, pfn_pmd and pfn_pte: the protection bits lie below _PAGE_PFN_SHIFT. */
  function Pte(pfn: nat, prot: nat): Word
    requires pfn < 0x1000_0000_0000 && prot < 1024
  {
    pfn * 1024 + prot
  }

  /** enclave_prot: the R, W and X bits of the requested mapping, always present. */
  function EnclaveProt(mapping: Word): nat
    ensures EnclaveProt(mapping) < 1024
  {
    mapping / 2 % 8 * 2 + PTE_PRESENT + PTE_ACCESSED_DIRTY
  }

  /** The secure page, or the insecure page, an entry's frame number denotes; out of range
      when it denotes none. */
  function SecureTarget(lay: Layout, e: Word): int {
    e / 1024 - lay.securePfn
  }

  function InsecureTarget(lay: Layout, e: Word): int {
    e / 1024 - lay.insecurePfn
  }

  function SatpFor(lay: Layout, l1pt: nat): Word
    requires lay.Valid() && l1pt < lay.nSecure
  {
    SATP_MODE_SV39 + (lay.securePfn + l1pt)
  }

  function DispRegs(p: Page): Regs {
    p[1..32]
  }

  function DispCsrs(p: Page): Csrs {
    p[32..43]
  }

  /** The dispatcher page after leave_secure_world stores into it. */
  function DispPage(p: Page, entered: Word, regs: Regs, csrs: Csrs): (r: Page)
    ensures r[ENTERED] == entered && DispRegs(r) == regs && DispCsrs(r) == csrs
    ensures r[DISP_END..] == p[DISP_END..]
  {
    [entered] + regs + csrs + p[43..]
  }
}
