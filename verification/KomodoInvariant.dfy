/** The invariant of the Komodo monitor and the proof that booting establishes it and every
    step of the machine keeps it. */
module KomodoInvariant {
  import opened KomodoTypes
  import opened KomodoSpec

  /** The pages an address space owns, its own header page included. */
  ghost function Owned(s: State, a: int): set<int> {
    set p: int | 0 <= p < |s.pagedb| && s.pagedb[p].ty != FREE && s.pagedb[p].owner == a
  }

  /** In use by an address space that has not been stopped. */
  ghost predicate Live(s: State, p: int)
    requires OwnersValid(s)
  {
    NonFree(s, p) && OwnerState(s, p) != STOPPED
  }

  ghost predicate LiveTable(s: State, t: int)
    requires OwnersValid(s)
  {
    Live(s, t) && IsTable(s.pagedb[t].ty)
  }

  /** Entry `i` of table `t`, of a space that has not been stopped, refers to secure page `p`. */
  ghost predicate RefersTo(s: State, t: int, i: int, p: int)
    requires OwnersValid(s)
  {
    && LiveTable(s, t)
    && 0 <= i < 512
    && s.pages[t][i] != 0
    && SecureTarget(s.lay, s.pages[t][i]) == p
  }

  /** An entry is empty, or refers to a page of the level below with the same owner, or (in
      the last level only) to an insecure page. */
  ghost predicate EntryOk(s: State, t: int, i: int)
    requires OwnersValid(s) && LiveTable(s, t) && 0 <= i < 512
  {
    var e := s.pages[t][i];
    var p := SecureTarget(s.lay, e);
    || e == 0
    || (PageValid(s, p) && s.pagedb[p] == PageDbEntry(Child(s.pagedb[t].ty), Owner(s, t))
        && (s.pagedb[t].ty != L3PTABLE ==> e % 1024 == PTE_PRESENT))
    || (s.pagedb[t].ty == L3PTABLE && 0 <= InsecureTarget(s.lay, e) < |s.insecure|)
  }

  ghost predicate RefcountsOk(s: State)
    requires OwnersValid(s)
  {
    forall a {:trigger Owned(s, a)} :: Typed(s, a, ADDRSPACE) ==> s.pages[a][REFCOUNT] == |Owned(s, a)|
  }

  /** A live header names its own root table, a live root table is the one its header names,
      and a live dispatcher translates through the root table of its owner. */
  ghost predicate HeaderOk(s: State, p: int)
    requires OwnersValid(s)
  {
    && (Typed(s, p, ADDRSPACE) ==>
          && s.pages[p][STATE] <= STOPPED
          && (s.pages[p][STATE] != STOPPED ==> s.pagedb[s.pages[p][L1PT]] == PageDbEntry(L1PTABLE, p)))
    && (Typed(s, p, L1PTABLE) && Live(s, p) ==> s.pages[Owner(s, p)][L1PT] == p)
    && (Typed(s, p, DISPATCHER) && Live(s, p) ==>
          && s.pages[p][ENTERED] <= 1
          && s.pages[p][DISP_CSRS + SATP] == SatpFor(s.lay, s.pages[Owner(s, p)][L1PT]))
  }

  ghost predicate HeadersOk(s: State)
    requires OwnersValid(s)
  {
    forall p {:trigger HeaderOk(s, p)} :: HeaderOk(s, p)
  }

  ghost predicate TablesOk(s: State)
    requires OwnersValid(s)
  {
    forall t, i {:trigger EntryOk(s, t, i)} :: LiveTable(s, t) && 0 <= i < 512 ==> EntryOk(s, t, i)
  }

  ghost predicate RefsUnique(s: State)
    requires OwnersValid(s)
  {
    forall p, t, i, t', i' :: PageValid(s, p) && RefersTo(s, t, i, p) && RefersTo(s, t', i', p) ==> t == t' && i == i'
  }

  predicate NeedsParent(ty: PageType) {
    ty == L2PTABLE || ty == L3PTABLE || ty == DATA
  }

  ghost predicate HasParent(s: State, p: int)
    requires OwnersValid(s)
  {
    exists t, i :: RefersTo(s, t, i, p)
  }

  ghost predicate RefsExist(s: State)
    requires OwnersValid(s)
  {
    forall p {:trigger HasParent(s, p)} :: Live(s, p) && NeedsParent(s.pagedb[p].ty) ==> HasParent(s, p)
  }

  /** What the hart looks like in each world. */
  ghost predicate ModeOk(s: State)
    requires OwnersValid(s)
  {
    if s.enclaveMode then
      && Typed(s, s.cur, DISPATCHER)
      && OwnerState(s, s.cur) == FINAL
      && s.csrs[SATP] == s.pages[s.cur][DISP_CSRS + SATP]
      && s.pmp5 == PMP_TOR_RWX && s.tvm
      && s.mideleg == 0 && s.medeleg == 0
    else
      && s.cur == 0
      && s.pmp5 == PMP_TOR && !s.tvm
      && s.mideleg == IDELEG_HOST && s.medeleg == EDELEG_HOST
  }

  ghost predicate Inv(s: State) {
    && OwnersValid(s)
    && RefcountsOk(s)
    && HeadersOk(s)
    && TablesOk(s)
    && RefsUnique(s)
    && RefsExist(s)
    && ModeOk(s)
  }

  // ---------------------------------------------------------------- booting

  lemma BootEstablishesInv(lay: Layout, insecure: seq<Page>, regs: Regs, csrs: Csrs)
    requires lay.Valid() && |insecure| == lay.nInsecure
    ensures Inv(Boot(lay, insecure, regs, csrs))
  {
  }

  // ---------------------------------------------------------------- monitor calls

  /** 0, ..., n-1. */
  ghost function Below(n: nat): (r: set<int>)
    ensures forall x :: x in r <==> 0 <= x < n
    ensures |r| == n
  {
    if n == 0 then {} else Below(n - 1) + {n - 1}
  }

  lemma SubsetSize<T>(a: set<T>, b: set<T>)
    requires a <= b
    ensures |a| <= |b|
  {
    if a != {} {
      var x :| x in a;
      SubsetSize(a - {x}, b - {x});
    }
  }

  lemma OwnedBound(s: State, a: int)
    ensures |Owned(s, a)| <= |s.pagedb|
  {
    SubsetSize(Owned(s, a), Below(|s.pagedb|));
  }

  // Every call below changes the page database at one page at most, from free to owned or
  // back, and leaves the other headers' root and life-cycle words alone.

  ghost predicate SameHeaders(s: State, s': State) {
    && Shape(s) && Shape(s') && s'.lay == s.lay
    && forall a {:trigger Typed(s', a, ADDRSPACE)} :: Typed(s, a, ADDRSPACE) && Typed(s', a, ADDRSPACE) ==>
         s'.pages[a][L1PT] == s.pages[a][L1PT] && s'.pages[a][STATE] == s.pages[a][STATE]
  }

  /** `page` was free and is now owned by `a`; nothing else changed hands. */
  ghost predicate Gained(s: State, s': State, page: int, a: int) {
    && SameHeaders(s, s')
    && Typed(s, page, FREE) && Typed(s, a, ADDRSPACE)
    && !Typed(s', page, FREE) && !Typed(s', page, ADDRSPACE)
    && PageValid(s', page) && s'.pagedb[page].owner == a
    && s'.pagedb == s.pagedb[page := s'.pagedb[page]]
  }

  lemma GainedOwners(s: State, s': State, page: int, a: int)
    requires OwnersValid(s) && Gained(s, s', page, a)
    ensures OwnersValid(s')
  {
    forall p | NonFree(s', p) ensures Typed(s', s'.pagedb[p].owner, ADDRSPACE) {
      assert p == page || NonFree(s, p);
    }
    forall p | Typed(s', p, ADDRSPACE)
      ensures s'.pagedb[p].owner == p && s'.pages[p][L1PT] < |s'.pages|
    {
      assert Typed(s, p, ADDRSPACE);
    }
  }

  lemma OwnedAfterGain(s: State, s': State, page: int, a: int, b: int)
    requires 0 <= page < |s.pagedb| && |s'.pagedb| == |s.pagedb|
    requires s.pagedb[page].ty == FREE && s'.pagedb[page].ty != FREE && s'.pagedb[page].owner == a
    requires s'.pagedb == s.pagedb[page := s'.pagedb[page]]
    ensures |Owned(s', b)| == |Owned(s, b)| + if a == b then 1 else 0
    ensures |Owned(s', b)| <= |s.pagedb|
  {
    assert Owned(s', b) == if a == b then Owned(s, b) + {page} else Owned(s, b);
    OwnedBound(s', b);
  }

  lemma GainedRefcounts(s: State, s': State, page: int, a: int)
    requires OwnersValid(s) && OwnersValid(s') && RefcountsOk(s) && Gained(s, s', page, a)
    requires s'.pages[a][REFCOUNT] == Wrap(s.pages[a][REFCOUNT] as int + 1)
    requires forall b {:trigger s'.pages[b]} :: Typed(s, b, ADDRSPACE) && b != a ==>
      s'.pages[b][REFCOUNT] == s.pages[b][REFCOUNT]
    ensures RefcountsOk(s')
  {
    forall b | Typed(s', b, ADDRSPACE) ensures s'.pages[b][REFCOUNT] == |Owned(s', b)| {
      assert Typed(s, b, ADDRSPACE);
      OwnedAfterGain(s, s', page, a, b);
    }
  }

  lemma GainedHeaders(s: State, s': State, page: int, a: int)
    requires OwnersValid(s) && OwnersValid(s') && HeadersOk(s) && Gained(s, s', page, a)
    requires HeaderOk(s', page)
    requires forall d {:trigger Typed(s, d, DISPATCHER)} :: Typed(s, d, DISPATCHER) ==> s'.pages[d] == s.pages[d]
    ensures HeadersOk(s')
  {
    forall p ensures HeaderOk(s', p) {
      assert HeaderOk(s, p);
      assert NonFree(s, p) ==> Typed(s, Owner(s, p), ADDRSPACE);
      assert NonFree(s', p) ==> Typed(s', Owner(s', p), ADDRSPACE);
      assert Typed(s', p, DISPATCHER) && p != page ==> Typed(s, p, DISPATCHER);
      assert Typed(s', p, ADDRSPACE) ==> Typed(s, p, ADDRSPACE);
    }
  }

  lemma GainedLive(s: State, s': State, page: int, a: int, q: int)
    requires OwnersValid(s) && OwnersValid(s') && Gained(s, s', page, a)
    requires q != page
    ensures Live(s', q) == Live(s, q)
    ensures Live(s, q) ==> s'.pagedb[q] == s.pagedb[q]
  {
    assert NonFree(s', q) == NonFree(s, q);
    assert NonFree(s, q) ==> Typed(s', Owner(s, q), ADDRSPACE);
  }

  /** The tables while `page` is gained: (t, i) is the one entry written, t is -1 if none. */
  ghost predicate GainedLink(s: State, s': State, page: int, a: int, t: int, i: int)
    requires OwnersValid(s) && OwnersValid(s')
  {
    && Gained(s, s', page, a) && s'.insecure == s.insecure
    && (forall q {:trigger s'.pages[q]} :: PageValid(s, q) && IsTable(s.pagedb[q].ty) && q != t ==>
       s'.pages[q] == s.pages[q])
    && (IsTable(s'.pagedb[page].ty) ==> s'.pages[page] == ZeroPage())
    && (if NeedsParent(s'.pagedb[page].ty) then
          && LiveTable(s, t) && 0 <= i < 512 && LiveTable(s', t) && EntryOk(s', t, i)
          && s.pages[t][i] == 0
          && s'.pages[t] == s.pages[t][i := s'.pages[t][i]]
          && s'.pages[t][i] != 0 && SecureTarget(s'.lay, s'.pages[t][i]) == page
        else t == -1)
  }

  /** A reference in s' is the new one or one of s, and only the new one is to `page`. */
  lemma GainedReference(s: State, s': State, page: int, a: int, t: int, i: int, q: int, j: int, p: int)
    requires OwnersValid(s) && OwnersValid(s') && GainedLink(s, s', page, a, t, i) && TablesOk(s)
    requires RefersTo(s', q, j, p) && PageValid(s', p)
    ensures if (q, j) == (t, i) then p == page else RefersTo(s, q, j, p) && p != page
  {
    if (q, j) != (t, i) {
      assert q != page;
      GainedLive(s, s', page, a, q);
      assert EntryOk(s, q, j);
    }
  }

  lemma GainedEntries(s: State, s': State, page: int, a: int, t: int, i: int)
    requires OwnersValid(s) && OwnersValid(s') && GainedLink(s, s', page, a, t, i) && TablesOk(s)
    ensures TablesOk(s')
  {
    forall q, j | LiveTable(s', q) && 0 <= j < 512 ensures EntryOk(s', q, j) {
      if q != page && (q, j) != (t, i) {
        GainedLive(s, s', page, a, q);
        assert EntryOk(s, q, j);
      }
    }
  }

  lemma GainedTables(s: State, s': State, page: int, a: int, t: int, i: int)
    requires OwnersValid(s) && OwnersValid(s') && GainedLink(s, s', page, a, t, i)
    requires TablesOk(s) && RefsUnique(s) && RefsExist(s)
    ensures TablesOk(s') && RefsUnique(s') && RefsExist(s')
  {
    GainedEntries(s, s', page, a, t, i);
    forall p, q, j, q', j' | PageValid(s', p) && RefersTo(s', q, j, p) && RefersTo(s', q', j', p)
      ensures q == q' && j == j'
    {
      GainedReference(s, s', page, a, t, i, q, j, p);
      GainedReference(s, s', page, a, t, i, q', j', p);
    }
    forall p | Live(s', p) && NeedsParent(s'.pagedb[p].ty) ensures HasParent(s', p) {
      if p == page {
        assert RefersTo(s', t, i, p);
      } else {
        GainedLive(s, s', page, a, p);
        assert HasParent(s, p);
        var q, j :| RefersTo(s, q, j, p);
        GainedLive(s, s', page, a, q);
        assert RefersTo(s', q, j, p);
      }
    }
  }

  /** Nothing was allocated.  The live pages of s' are those of s except the pages of the
      space `dead` (-1 if no space died), and live tables keep their words. */
  ghost predicate KeepsLive(s: State, s': State, dead: int)
    requires OwnersValid(s) && OwnersValid(s')
  {
    && s'.lay == s.lay && |s'.insecure| == |s.insecure|
    && (forall p {:trigger Live(s', p)} {:trigger Live(s, p)} ::
          Live(s', p) <==> Live(s, p) && s.pagedb[p].owner != dead)
    && (forall p {:trigger Live(s', p)} :: Live(s', p) ==>
          s'.pagedb[p] == s.pagedb[p] && (LiveTable(s', p) ==> s'.pages[p] == s.pages[p]))
  }

  lemma KeepsLiveTables(s: State, s': State, dead: int)
    requires OwnersValid(s) && OwnersValid(s') && KeepsLive(s, s', dead)
    requires TablesOk(s) && RefsUnique(s) && RefsExist(s)
    ensures TablesOk(s') && RefsUnique(s') && RefsExist(s')
  {
    forall q, j | LiveTable(s', q) && 0 <= j < 512 ensures EntryOk(s', q, j) {
      assert EntryOk(s, q, j);
      var p := SecureTarget(s.lay, s.pages[q][j]);
      if PageValid(s, p) && s.pagedb[p] == PageDbEntry(Child(s.pagedb[q].ty), Owner(s, q)) {
        assert Live(s, p);
        assert Live(s', p);
      }
    }
    forall p, q, j, q', j' | PageValid(s', p) && RefersTo(s', q, j, p) && RefersTo(s', q', j', p)
      ensures q == q' && j == j'
    {
      assert RefersTo(s, q, j, p) && RefersTo(s, q', j', p);
    }
    forall p | Live(s', p) && NeedsParent(s'.pagedb[p].ty) ensures HasParent(s', p) {
      assert HasParent(s, p);
      var q, j :| RefersTo(s, q, j, p);
      assert EntryOk(s, q, j);
      assert Live(s', q);
      assert RefersTo(s', q, j, p);
    }
  }

  // ---------------------------------------------------------------- the calls one by one

  lemma InitDispatcherKeepsInv(s: State, page: Word, a: Word, entrypoint: Word)
    requires Inv(s)
    ensures Inv(InitDispatcher(s, page, a, entrypoint).0)
  {
    var (s', err) := InitDispatcher(s, page, a, entrypoint);
    if err == SUCCESS {
      assert Gained(s, s', page, a);
      GainedOwners(s, s', page, a);
      GainedRefcounts(s, s', page, a);
      assert HeaderOk(s', page);
      GainedHeaders(s, s', page, a);
      GainedTables(s, s', page, a, -1, 0);
    }
  }

  /** init_l2ptable, init_l3ptable and map_secure. */
  lemma LinkedChildKeepsInv(s: State, ty: PageType, page: Word, t: Word, i: Word, prot: nat, body: Page)
    requires Inv(s) && IsTable(ty) && i < 512 && 0 < prot < 1024
    requires LinkErr(s, ty, page, t, i) == SUCCESS
    requires ty != L3PTABLE ==> prot == PTE_PRESENT && body == ZeroPage()
    ensures Inv(LinkedChild(s, ty, page, t, i, prot, body))
  {
    var s', a := LinkedChild(s, ty, page, t, i, prot, body), Owner(s, t);
    assert Gained(s, s', page, a);
    GainedOwners(s, s', page, a);
    GainedRefcounts(s, s', page, a);
    assert HeaderOk(s', page);
    GainedHeaders(s, s', page, a);
    assert EntryOk(s', t, i);
    GainedTables(s, s', page, a, t, i);
  }

  lemma InitTableKeepsInv(s: State, ty: PageType, page: Word, t: Word, i: Word)
    requires Inv(s) && (ty == L1PTABLE || ty == L2PTABLE)
    ensures Inv(InitTable(s, ty, page, t, i).0)
  {
    if InitTableErr(s, ty, page, t, i) == SUCCESS {
      LinkedChildKeepsInv(s, ty, page, t, i, PTE_PRESENT, ZeroPage());
    }
  }

  lemma MapSecureKeepsInv(s: State, page: Word, t: Word, i: Word, mapping: Word, content: Word)
    requires Inv(s)
    ensures Inv(MapSecure(s, page, t, i, mapping, content).0)
  {
    if MapSecureErr(s, page, t, i, content) == SUCCESS {
      LinkedChildKeepsInv(s, L3PTABLE, page, t, i, EnclaveProt(mapping), s.insecure[content]);
    }
  }

  /** A fresh address space: neither of its two pages was in use, so nothing refers to them. */
  lemma InitAddrspaceOwners(s: State, a: Word, l1: Word)
    requires OwnersValid(s)
    ensures OwnersValid(InitAddrspace(s, a, l1).0)
  {
    var (s', err) := InitAddrspace(s, a, l1);
    if err == SUCCESS {
      forall p | NonFree(s', p) ensures Typed(s', s'.pagedb[p].owner, ADDRSPACE) {
        assert p == a || p == l1 || NonFree(s, p);
      }
      forall p | Typed(s', p, ADDRSPACE)
        ensures s'.pagedb[p].owner == p && s'.pages[p][L1PT] < |s'.pages|
      {
        assert p == a || Typed(s, p, ADDRSPACE);
      }
    }
  }

  lemma InitAddrspaceLive(s: State, a: Word, l1: Word, q: int)
    requires OwnersValid(s) && InitAddrspaceErr(s, a, l1) == SUCCESS
    requires q != a && q != l1
    ensures var s' := InitAddrspace(s, a, l1).0;
      && OwnersValid(s')
      && Live(s', q) == Live(s, q)
      && (Live(s, q) ==>
            && s'.pagedb[q] == s.pagedb[q] && s'.pages[q] == s.pages[q]
            && s'.pages[Owner(s, q)] == s.pages[Owner(s, q)])
  {
    InitAddrspaceOwners(s, a, l1);
    var s' := InitAddrspace(s, a, l1).0;
    assert NonFree(s', q) == NonFree(s, q);
    assert NonFree(s, q) ==> Typed(s, Owner(s, q), ADDRSPACE);
  }

  lemma InitAddrspaceHeaders(s: State, a: Word, l1: Word)
    requires OwnersValid(s) && HeadersOk(s) && RefcountsOk(s) && InitAddrspaceErr(s, a, l1) == SUCCESS
    ensures var s' := InitAddrspace(s, a, l1).0; OwnersValid(s') && HeadersOk(s') && RefcountsOk(s')
  {
    InitAddrspaceOwners(s, a, l1);
    var s' := InitAddrspace(s, a, l1).0;
    forall p ensures HeaderOk(s', p) {
      if p != a && p != l1 {
        InitAddrspaceLive(s, a, l1, p);
        assert HeaderOk(s, p);
      }
    }
    forall b | Typed(s', b, ADDRSPACE) ensures s'.pages[b][REFCOUNT] == |Owned(s', b)| {
      if b == a {
        assert forall p :: NonFree(s, p) ==> s.pagedb[p].owner != a;
        assert Owned(s', a) == {a, l1};
      } else {
        assert Owned(s', b) == Owned(s, b);
        assert Typed(s, b, ADDRSPACE);
      }
    }
  }

  lemma InitAddrspaceTables(s: State, a: Word, l1: Word)
    requires OwnersValid(s) && TablesOk(s) && RefsUnique(s) && RefsExist(s)
    requires InitAddrspaceErr(s, a, l1) == SUCCESS
    ensures var s' := InitAddrspace(s, a, l1).0; OwnersValid(s') && TablesOk(s') && RefsUnique(s') && RefsExist(s')
  {
    InitAddrspaceOwners(s, a, l1);
    var s' := InitAddrspace(s, a, l1).0;
    forall q, j | LiveTable(s', q) && 0 <= j < 512 ensures EntryOk(s', q, j) {
      if q != l1 {
        InitAddrspaceLive(s, a, l1, q);
        assert EntryOk(s, q, j);
      }
    }
    forall p, q, j, q', j' | PageValid(s', p) && RefersTo(s', q, j, p) && RefersTo(s', q', j', p)
      ensures q == q' && j == j'
    {
      InitAddrspaceLive(s, a, l1, q);
      InitAddrspaceLive(s, a, l1, q');
      assert RefersTo(s, q, j, p) && RefersTo(s, q', j', p);
    }
    forall p | Live(s', p) && NeedsParent(s'.pagedb[p].ty) ensures HasParent(s', p) {
      InitAddrspaceLive(s, a, l1, p);
      assert HasParent(s, p);
      var q, j :| RefersTo(s, q, j, p);
      InitAddrspaceLive(s, a, l1, q);
      assert RefersTo(s', q, j, p);
    }
  }

  lemma InitAddrspaceKeepsInv(s: State, a: Word, l1: Word)
    requires Inv(s)
    ensures Inv(InitAddrspace(s, a, l1).0)
  {
    if InitAddrspaceErr(s, a, l1) == SUCCESS {
      InitAddrspaceHeaders(s, a, l1);
      InitAddrspaceTables(s, a, l1);
      assert s.enclaveMode ==> Live(s, s.cur);
      if s.enclaveMode {
        InitAddrspaceLive(s, a, l1, s.cur);
      }
    }
  }

  // Calls that allocate nothing.

  lemma SameDbOwners(s: State, s': State)
    requires OwnersValid(s) && Shape(s') && s'.lay == s.lay && s'.pagedb == s.pagedb
    requires forall a {:trigger s'.pages[a]} :: Typed(s, a, ADDRSPACE) ==> s'.pages[a][L1PT] == s.pages[a][L1PT]
    ensures OwnersValid(s')
  {
    forall p | NonFree(s', p) ensures Typed(s', s'.pagedb[p].owner, ADDRSPACE) {
      assert NonFree(s, p);
    }
    forall p | Typed(s', p, ADDRSPACE) ensures s'.pagedb[p].owner == p && s'.pages[p][L1PT] < |s'.pages| {
      assert Typed(s, p, ADDRSPACE);
    }
  }

  lemma SameDbRefcounts(s: State, s': State)
    requires OwnersValid(s) && OwnersValid(s') && RefcountsOk(s) && s'.pagedb == s.pagedb
    requires forall a {:trigger s'.pages[a]} :: Typed(s, a, ADDRSPACE) ==> s'.pages[a][REFCOUNT] == s.pages[a][REFCOUNT]
    ensures RefcountsOk(s')
  {
    forall a | Typed(s', a, ADDRSPACE) ensures s'.pages[a][REFCOUNT] == |Owned(s', a)| {
      assert Owned(s', a) == Owned(s, a);
      assert Typed(s, a, ADDRSPACE);
    }
  }

  /** A step that may write dispatcher and data pages, insecure memory and the hart, but
      neither the page database nor any header or table. */
  ghost predicate LeafStep(s: State, s': State)
    requires OwnersValid(s)
  {
    && Shape(s') && s'.lay == s.lay && s'.pagedb == s.pagedb
    && (forall p {:trigger s'.pages[p]} :: NonFree(s, p) && s.pagedb[p].ty != DISPATCHER && s.pagedb[p].ty != DATA ==>
          s'.pages[p] == s.pages[p])
    && (forall p {:trigger s'.pages[p]} :: Typed(s, p, DISPATCHER) ==>
          && (s'.pages[p][ENTERED] == s.pages[p][ENTERED] || s'.pages[p][ENTERED] <= 1)
          && s'.pages[p][DISP_CSRS + SATP] == s.pages[p][DISP_CSRS + SATP])
  }

  lemma LeafStepLive(s: State, s': State, p: int)
    requires OwnersValid(s) && OwnersValid(s') && LeafStep(s, s')
    ensures Live(s', p) == Live(s, p)
    ensures NonFree(s, p) ==> OwnerState(s', p) == OwnerState(s, p) && s'.pages[Owner(s, p)] == s.pages[Owner(s, p)]
  {
    assert NonFree(s', p) == NonFree(s, p);
    assert NonFree(s, p) ==> Typed(s, Owner(s, p), ADDRSPACE);
    assert NonFree(s, p) ==> NonFree(s, Owner(s, p));
  }

  lemma LeafStepKeeps(s: State, s': State)
    requires Inv(s) && LeafStep(s, s')
    ensures OwnersValid(s') && RefcountsOk(s') && HeadersOk(s') && TablesOk(s') && RefsUnique(s') && RefsExist(s')
  {
    forall a {:trigger s'.pages[a]} | Typed(s, a, ADDRSPACE) ensures s'.pages[a] == s.pages[a] {
      assert NonFree(s, a);
    }
    SameDbOwners(s, s');
    SameDbRefcounts(s, s');
    forall p ensures HeaderOk(s', p) {
      assert HeaderOk(s, p);
      LeafStepLive(s, s', p);
      assert Typed(s, p, DISPATCHER) == Typed(s', p, DISPATCHER);
      assert Typed(s, p, ADDRSPACE) == Typed(s', p, ADDRSPACE);
    }
    assert KeepsLive(s, s', -1) by {
      forall p ensures Live(s', p) == Live(s, p) && (LiveTable(s', p) ==> s'.pages[p] == s.pages[p]) {
        LeafStepLive(s, s', p);
      }
    }
    KeepsLiveTables(s, s', -1);
  }

  /** finalise and stop: the life-cycle word of one header moves. */
  lemma SetStateLive(s: State, a: Word, st: Word, p: int)
    requires Inv(s) && Typed(s, a, ADDRSPACE) && st <= STOPPED
    ensures var s' := Linked(s, a, STATE, st);
      && OwnersValid(s')
      && NonFree(s', p) == NonFree(s, p)
      && (NonFree(s, p) ==> OwnerState(s', p) == if Owner(s, p) == a then st else OwnerState(s, p))
  {
    var s' := Linked(s, a, STATE, st);
    SameDbOwners(s, s');
    assert NonFree(s', p) == NonFree(s, p);
  }

  lemma SetStateKeeps(s: State, a: Word, st: Word)
    requires Inv(s) && Typed(s, a, ADDRSPACE) && s.pages[a][STATE] != STOPPED && st <= STOPPED
    ensures var s' := Linked(s, a, STATE, st);
      OwnersValid(s') && RefcountsOk(s') && HeadersOk(s') && TablesOk(s') && RefsUnique(s') && RefsExist(s')
  {
    var s' := Linked(s, a, STATE, st);
    SameDbOwners(s, s');
    SameDbRefcounts(s, s');
    forall p ensures HeaderOk(s', p) {
      assert HeaderOk(s, p);
      SetStateLive(s, a, st, p);
      assert Typed(s, p, DISPATCHER) == Typed(s', p, DISPATCHER);
      assert Typed(s, p, ADDRSPACE) == Typed(s', p, ADDRSPACE);
    }
    var dead := if st == STOPPED then a else -1;
    assert KeepsLive(s, s', dead) by {
      forall p ensures Live(s', p) <==> Live(s, p) && s.pagedb[p].owner != dead {
        SetStateLive(s, a, st, p);
      }
      forall p | Live(s', p) ensures LiveTable(s', p) ==> s'.pages[p] == s.pages[p] {
        assert p == a ==> Typed(s, p, ADDRSPACE);
      }
    }
    KeepsLiveTables(s, s', dead);
  }

  lemma FinaliseKeepsInv(s: State, a: Word)
    requires Inv(s)
    ensures Inv(Finalise(s, a).0)
  {
    if FinaliseErr(s, a) == SUCCESS {
      SetStateKeeps(s, a, FINAL);
      if s.enclaveMode {
        SetStateLive(s, a, FINAL, s.cur);
      }
    }
  }

  /** stop is a host call: while an enclave runs no host instruction does. */
  lemma StopKeepsInv(s: State, a: Word)
    requires Inv(s) && !s.enclaveMode
    ensures Inv(Stop(s, a).0)
  {
    if Typed(s, a, ADDRSPACE) {
      if s.pages[a][STATE] == STOPPED {
        assert s.pages[a][STATE := STOPPED] == s.pages[a];
        assert s.pages[a := s.pages[a]] == s.pages;
      } else {
        SetStateKeeps(s, a, STOPPED);
      }
    }
  }

  lemma RemoveOwners(s: State, p: Word)
    requires OwnersValid(s) && RefcountsOk(s)
    requires RemoveErr(s, p) == SUCCESS && s.pagedb[p].ty != FREE
    ensures var s' := Remove(s, p).0; OwnersValid(s') && RefcountsOk(s')
  {
    var s', a := Remove(s, p).0, Owner(s, p);
    if Typed(s, p, ADDRSPACE) {
      // the last page the space owns is its header
      assert p in Owned(s, a);
      assert |Owned(s, a) - {p}| == 0;
    }
    forall q | NonFree(s', q) ensures Typed(s', s'.pagedb[q].owner, ADDRSPACE) {
      assert NonFree(s, q);
      assert q in Owned(s, s.pagedb[q].owner) - {p};
    }
    forall q | Typed(s', q, ADDRSPACE) ensures s'.pagedb[q].owner == q && s'.pages[q][L1PT] < |s'.pages| {
      assert Typed(s, q, ADDRSPACE);
    }
    forall b | Typed(s', b, ADDRSPACE) ensures s'.pages[b][REFCOUNT] == |Owned(s', b)| {
      assert Typed(s, b, ADDRSPACE);
      assert p in Owned(s, a);
      if b == a {
        assert Owned(s', b) == Owned(s, b) - {p};
      } else {
        assert Owned(s', b) == Owned(s, b);
      }
    }
  }

  lemma RemoveLive(s: State, p: Word, q: int)
    requires OwnersValid(s) && RefcountsOk(s)
    requires RemoveErr(s, p) == SUCCESS && s.pagedb[p].ty != FREE
    ensures var s' := Remove(s, p).0;
      && OwnersValid(s')
      && Live(s', q) == Live(s, q)
      && (NonFree(s', q) ==> NonFree(s, q) && s'.pagedb[q] == s.pagedb[q] && OwnerState(s', q) == OwnerState(s, q))
      && (Live(s, q) ==> s'.pages[q] == s.pages[q])
  {
    RemoveOwners(s, p);
    var s' := Remove(s, p).0;
    assert NonFree(s', q) == (NonFree(s, q) && q != p);
    assert NonFree(s, q) ==> Typed(s, Owner(s, q), ADDRSPACE);
  }

  lemma RemoveKeepsInv(s: State, p: Word)
    requires Inv(s)
    ensures Inv(Remove(s, p).0)
  {
    var (s', err) := Remove(s, p);
    if err == SUCCESS && s.pagedb[p].ty != FREE {
      RemoveOwners(s, p);
      forall q ensures HeaderOk(s', q) {
        assert HeaderOk(s, q);
        RemoveLive(s, p, q);
        if Typed(s', q, ADDRSPACE) && s'.pages[q][STATE] != STOPPED {
          assert Typed(s, q, ADDRSPACE);
          RemoveLive(s, p, s.pages[q][L1PT]);
        }
        assert Typed(s', q, DISPATCHER) ==> Typed(s, q, DISPATCHER);
      }
      assert KeepsLive(s, s', -1) by {
        forall q ensures Live(s', q) == Live(s, q)
          && (Live(s', q) ==> s'.pagedb[q] == s.pagedb[q] && s'.pages[q] == s.pages[q]) {
          RemoveLive(s, p, q);
        }
      }
      KeepsLiveTables(s, s', -1);
      if s.enclaveMode {
        RemoveLive(s, p, s.cur);
      }
    }
  }

  lemma MapInsecureHeaders(s: State, t: Word, i: Word, mapping: Word, ip: Word)
    requires Inv(s) && MapInsecureErr(s, t, i, ip) == SUCCESS
    ensures var s' := MapInsecure(s, t, i, mapping, ip).0; OwnersValid(s') && RefcountsOk(s') && HeadersOk(s')
    ensures var s' := MapInsecure(s, t, i, mapping, ip).0; forall p :: Live(s', p) == Live(s, p)
  {
    var s' := MapInsecure(s, t, i, mapping, ip).0;
    SameDbOwners(s, s');
    SameDbRefcounts(s, s');
    forall p ensures NonFree(s', p) == NonFree(s, p) && Live(s', p) == Live(s, p) && HeaderOk(s', p) {
      assert HeaderOk(s, p);
      assert NonFree(s, p) ==> Typed(s, Owner(s, p), ADDRSPACE);
      assert Typed(s, p, DISPATCHER) == Typed(s', p, DISPATCHER);
    }
  }

  lemma MapInsecureKeepsInv(s: State, t: Word, i: Word, mapping: Word, ip: Word)
    requires Inv(s)
    ensures Inv(MapInsecure(s, t, i, mapping, ip).0)
  {
    var (s', err) := MapInsecure(s, t, i, mapping, ip);
    if err == SUCCESS {
      MapInsecureHeaders(s, t, i, mapping, ip);
      forall q, j | LiveTable(s', q) && 0 <= j < 512 ensures EntryOk(s', q, j) {
        assert EntryOk(s, q, j);
      }
      forall p, q, j | PageValid(s', p) && RefersTo(s', q, j, p) ensures RefersTo(s, q, j, p) {
      }
      forall p | Live(s', p) && NeedsParent(s'.pagedb[p].ty) ensures HasParent(s', p) {
        assert HasParent(s, p);
        var q, j :| RefersTo(s, q, j, p);
        assert RefersTo(s', q, j, p);
      }
      assert s.enclaveMode ==> Live(s, s.cur);
    }
  }

  // ---------------------------------------------------------------- the machine

  lemma HartOnlyKeepsInv(s: State, s': State)
    requires Inv(s) && LeafStep(s, s')
    requires s'.enclaveMode == s.enclaveMode && s'.cur == s.cur && s'.pmp5 == s.pmp5 && s'.tvm == s.tvm
    requires s'.mideleg == s.mideleg && s'.medeleg == s.medeleg
    requires s.enclaveMode ==> s'.csrs[SATP] == s.csrs[SATP]
    ensures Inv(s')
  {
    LeafStepKeeps(s, s');
    if s.enclaveMode {
      LeafStepLive(s, s', s.cur);
    }
  }

  /** EnterWorld changes the hart only. */
  lemma EnterWorldKeepsInv(s: State, d: Word)
    requires Inv(s) && !s.enclaveMode
    requires Typed(s, d, DISPATCHER) && OwnerState(s, d) == FINAL
    ensures Inv(EnterWorld(s, d))
  {
    LeafStepKeeps(s, EnterWorld(s, d));
    LeafStepLive(s, EnterWorld(s, d), d);
  }

  lemma EnterKeepsInv(s: State, d: Word, arg1: Word, arg2: Word, arg3: Word)
    requires Inv(s) && !s.enclaveMode && EnterErr(s, d) == SUCCESS
    ensures Inv(Enter(s, d, arg1, arg2, arg3))
  {
    var s1 := WithPages(s, s.pagedb, s.pages[d := WithArgs(s.pages[d], arg1, arg2, arg3)]);
    HartOnlyKeepsInv(s, s1);
    LeafStepLive(s, s1, d);
    EnterWorldKeepsInv(s1, d);
  }

  lemma LeaveWorldKeepsInv(s: State, entered: Word, a0: Word, a1: Word)
    requires Inv(s) && s.enclaveMode && entered <= 1
    ensures Inv(LeaveWorld(s, entered, a0, a1))
  {
    var s' := LeaveWorld(s, entered, a0, a1);
    assert s'.pages[s.cur][DISP_CSRS + SATP] == DispCsrs(s'.pages[s.cur])[SATP];
    LeafStepKeeps(s, s');
  }

  lemma HostCallKeepsInv(s: State, sbi: Word)
    requires Inv(s) && !s.enclaveMode
    ensures Inv(HostCall(s, sbi).0)
    ensures var s' := HostCall(s, sbi).0;
      && s'.regs == s.regs && s'.csrs == s.csrs && !s'.enclaveMode
      && s'.insecure == s.insecure && s'.hostRegs == s.hostRegs && s'.hostCsrs == s.hostCsrs
  {
    var r := s.regs;
    match r[A7]
    case 12 => InitAddrspaceKeepsInv(s, r[A0], r[A1]);
    case 13 => InitDispatcherKeepsInv(s, r[A0], r[A1], r[A2]);
    case 14 => InitTableKeepsInv(s, L1PTABLE, r[A0], r[A1], r[A2]);
    case 15 => InitTableKeepsInv(s, L2PTABLE, r[A0], r[A1], r[A2]);
    case 16 => MapSecureKeepsInv(s, r[A0], r[A1], r[A2], r[A3], r[A4]);
    case 17 => MapInsecureKeepsInv(s, r[A0], r[A1], r[A2], r[A3]);
    case 20 => RemoveKeepsInv(s, r[A0]);
    case 21 => FinaliseKeepsInv(s, r[A0]);
    case 29 => StopKeepsInv(s, r[A0]);
    case _ =>
  }

  lemma SmcTrapKeepsInv(s: State, sbi: Word)
    requires Inv(s) && !s.enclaveMode
    ensures Inv(SmcTrap(s, sbi))
  {
    var s1 := AdvanceMepc(s);
    HartOnlyKeepsInv(s, s1);
    if Enters(s1) {
      EnterKeepsInv(s1, s.regs[A0], s.regs[A1], s.regs[A2], s.regs[A3]);
    } else if Resumes(s1) {
      EnterWorldKeepsInv(s1, s.regs[A0]);
    } else {
      HostCallKeepsInv(s1, sbi);
      var (s2, r) := HostCall(s1, sbi);
      HartOnlyKeepsInv(s2, Returned(s2, r));
    }
  }

  lemma DoTrapKeepsInv(s: State, cause: Word, sbi: Word)
    requires Inv(s)
    ensures Inv(DoTrap(s, cause, sbi))
  {
    if cause == EXC_ECALL_S {
      if s.enclaveMode {
        HartOnlyKeepsInv(s, AdvanceMepc(s));
        if s.regs[A7] == 30 {
          LeaveWorldKeepsInv(AdvanceMepc(s), 0, SUCCESS, s.regs[A0]);
        } else {
          HartOnlyKeepsInv(s, SvcTrap(s));
        }
      } else {
        SmcTrapKeepsInv(s, sbi);
      }
    } else if s.enclaveMode {
      LeaveWorldKeepsInv(s, 1, if cause >= 0x8000_0000_0000_0000 then INTERRUPTED else FAULT, cause);
    }
  }

  // ---------------------------------------------------------------- isolation

  /** Where a walk from the root table of a live space can end. */
  ghost predicate Confined(s: State, a: Word, w: Translation) {
    w.Frame? ==>
      || s.lay.insecurePfn <= w.pfn < s.lay.insecurePfn + |s.insecure|
      || (s.lay.securePfn <= w.pfn < s.lay.securePfn + |s.pages| && |s.pages| <= |s.pagedb|
          && s.pagedb[w.pfn - s.lay.securePfn] == PageDbEntry(DATA, a))
  }

  function Level(ty: PageType): nat {
    if ty == L1PTABLE then 2 else if ty == L2PTABLE then 1 else 0
  }

  lemma LeafFrame(s: State, pfn: nat, va: Word)
    ensures var (ok, e) := PhysRead(s, pfn, Vpn(va, 0));
      WalkFrom(s, pfn, va, 0) == PageFault
      || (ok && e != 0 && WalkFrom(s, pfn, va, 0) == Frame(e / 1024 % 0x1000_0000_0000, e % 1024))
  {
  }

  /** Below a live table of an upper level the walk faults or goes on at a live table of the
      next level with the same owner. */
  lemma InnerStep(s: State, t: nat, va: Word)
    requires OwnersValid(s) && TablesOk(s) && LiveTable(s, t) && s.pagedb[t].ty != L3PTABLE
    ensures var ty := s.pagedb[t].ty;
      var p := SecureTarget(s.lay, s.pages[t][Vpn(va, Level(ty))]);
      var w := WalkFrom(s, s.lay.securePfn + t, va, Level(ty));
      || w == PageFault
      || (PageValid(s, p) && LiveTable(s, p)
          && s.pagedb[p] == PageDbEntry(Child(ty), Owner(s, t))
          && w == WalkFrom(s, s.lay.securePfn + p, va, Level(Child(ty))))
  {
    var i := Vpn(va, Level(s.pagedb[t].ty));
    assert EntryOk(s, t, i);
    var e := s.pages[t][i];
    if s.pmp5 == PMP_TOR_RWX && e != 0 {
      var p := SecureTarget(s.lay, e);
      assert Live(s, p);
      assert e / 1024 % 0x1000_0000_0000 == s.lay.securePfn + p;
    }
  }

  lemma LastStep(s: State, t: nat, va: Word)
    requires OwnersValid(s) && TablesOk(s) && LiveTable(s, t) && s.pagedb[t].ty == L3PTABLE
    ensures Confined(s, Owner(s, t), WalkFrom(s, s.lay.securePfn + t, va, 0))
  {
    LeafFrame(s, s.lay.securePfn + t, va);
    var i := Vpn(va, 0);
    assert EntryOk(s, t, i);
    var e := s.pages[t][i];
    if PhysRead(s, s.lay.securePfn + t, i).0 && e != 0 {
      assert PhysRead(s, s.lay.securePfn + t, i).1 == e;
      assert e / 1024 < 0x1000_0000_0000;
    }
  }

  lemma MiddleConfined(s: State, t: nat, va: Word)
    requires OwnersValid(s) && TablesOk(s) && LiveTable(s, t) && s.pagedb[t].ty == L2PTABLE
    ensures Confined(s, Owner(s, t), WalkFrom(s, s.lay.securePfn + t, va, 1))
  {
    InnerStep(s, t, va);
    var p := SecureTarget(s.lay, s.pages[t][Vpn(va, 1)]);
    if PageValid(s, p) && LiveTable(s, p) && s.pagedb[p] == PageDbEntry(L3PTABLE, Owner(s, t)) {
      LastStep(s, p, va);
    }
  }

  lemma RootConfined(s: State, t: nat, va: Word)
    requires OwnersValid(s) && TablesOk(s) && LiveTable(s, t) && s.pagedb[t].ty == L1PTABLE
    ensures Confined(s, Owner(s, t), WalkFrom(s, s.lay.securePfn + t, va, 2))
  {
    InnerStep(s, t, va);
    var p := SecureTarget(s.lay, s.pages[t][Vpn(va, 2)]);
    if PageValid(s, p) && LiveTable(s, p) && s.pagedb[p] == PageDbEntry(L2PTABLE, Owner(s, t)) {
      MiddleConfined(s, p, va);
    }
  }

  lemma SatpFields(pfn: nat)
    requires pfn < 0x1000_0000_0000
    ensures (SATP_MODE_SV39 + pfn) / 0x1000_0000_0000_0000 == 8
    ensures (SATP_MODE_SV39 + pfn) % 0x1000_0000_0000 == pfn
  {
  }

  lemma SatpWalk(s: State, l1: nat, va: Word)
    requires s.lay.Valid() && l1 < s.lay.nSecure
    ensures var w := Walk(s, SatpFor(s.lay, l1), va);
      w == PageFault || w == WalkFrom(s, s.lay.securePfn + l1, va, 2)
  {
    SatpFields(s.lay.securePfn + l1);
  }

  /** The machine as a hart with secure memory open to it would walk it: the PMP entry an
      enclave runs under. */
  function Opened(s: State): State {
    s.(pmp5 := PMP_TOR_RWX)
  }

  lemma OpenedTables(s: State)
    requires OwnersValid(s) && TablesOk(s)
    ensures OwnersValid(Opened(s)) && TablesOk(Opened(s))
    ensures forall t :: LiveTable(s, t) ==> LiveTable(Opened(s), t)
  {
    var s' := Opened(s);
    SamePagesOwners(s, s');
    forall t, i {:trigger EntryOk(s', t, i)} | LiveTable(s', t) && 0 <= i < 512 ensures EntryOk(s', t, i) {
      assert LiveTable(s, t) && EntryOk(s, t, i);
    }
  }

  /** Komodo isolation: translation through a live dispatcher's satp faults, or reaches
      insecure memory, or reaches a data page of the dispatcher's own address space; whether the
      enclave runs now or would be entered now. */
  lemma DispatcherWalkConfined(s: State, d: Word, va: Word)
    requires Inv(s) && Typed(s, d, DISPATCHER) && Live(s, d)
    ensures Confined(s, Owner(s, d), Walk(s, s.pages[d][DISP_CSRS + SATP], va))
    ensures Confined(s, Owner(s, d), Walk(Opened(s), s.pages[d][DISP_CSRS + SATP], va))
  {
    assert HeaderOk(s, d);
    var a := Owner(s, d);
    assert HeaderOk(s, a);
    var l1 := s.pages[a][L1PT];
    assert NonFree(s, l1);
    SatpWalk(s, l1, va);
    RootConfined(s, l1, va);
    OpenedTables(s);
    SatpWalk(Opened(s), l1, va);
    RootConfined(Opened(s), l1, va);
  }
}
