/** What the enclave sees of a mapping call: the translation of every address that comes to the
    entry the call filled. */
module KomodoMapping {
  import opened KomodoTypes
  import opened KomodoSpec
  import opened KomodoInvariant
  import opened KomodoEffects

  /** Translation of `va` from the table at frame `pfn` comes to entry `i` of secure page `t`, a last-level
      table: every entry on the way is present and none is a leaf. */
  ghost predicate LeadsTo(s: State, pfn: nat, va: Word, level: nat, t: nat, i: nat)
    requires level <= 2
    decreases level
  {
    if level == 0 then pfn == s.lay.securePfn + t && Vpn(va, 0) == i
    else
      var (ok, e) := PhysRead(s, pfn, Vpn(va, level));
      ok && e % 16 == 1 && LeadsTo(s, e / 1024 % 0x1000_0000_0000, va, level - 1, t, i)
  }

  /** The same from a satp value. */
  ghost predicate ComesTo(s: State, satp: Word, va: Word, t: nat, i: nat) {
    && satp / 0x1000_0000_0000_0000 == 8 && !(0x40_0000_0000 <= va < 0xffff_ffc0_0000_0000)
    && LeadsTo(s, satp % 0x1000_0000_0000, va, 2, t, i)
  }

  /** An entry that is present and has none of R, W and X. */
  lemma Pointer(e: Word)
    requires e % 16 == 1
    ensures e % 1024 % 2 == 1 && e % 1024 / 2 % 4 == 0 && e % 1024 / 2 % 2 == 0 && e % 1024 / 8 % 2 == 0
  {
    var x, f := e / 1024, e % 1024;
    Sixteen(64 * x + f / 16, f % 16, e);
  }

  lemma {:induction false} LeadsWalk(s: State, pfn: nat, va: Word, level: nat, t: nat, i: nat)
    requires level <= 2 && LeadsTo(s, pfn, va, level, t, i)
    ensures WalkFrom(s, pfn, va, level) == WalkFrom(s, s.lay.securePfn + t, va, 0) && Vpn(va, 0) == i
    decreases level
  {
    if level > 0 {
      var e := PhysRead(s, pfn, Vpn(va, level)).1;
      Pointer(e);
      LeadsWalk(s, e / 1024 % 0x1000_0000_0000, va, level - 1, t, i);
    }
  }

  function TableType(level: nat): PageType {
    if level == 2 then L1PTABLE else if level == 1 then L2PTABLE else L3PTABLE
  }

  /** One level down from a live table. */
  lemma LeadsDown(s: State, p: nat, va: Word, level: nat, t: nat, i: nat) returns (q: nat)
    requires OwnersValid(s) && TablesOk(s) && 0 < level <= 2
    requires LiveTable(s, p) && s.pagedb[p].ty == TableType(level)
    requires LeadsTo(Opened(s), s.lay.securePfn + p, va, level, t, i)
    ensures LiveTable(s, q) && s.pagedb[q].ty == TableType(level - 1)
    ensures s.pages[p][Vpn(va, level)] == (s.lay.securePfn + q) * 1024 + 1
    ensures LeadsTo(Opened(s), s.lay.securePfn + q, va, level - 1, t, i)
  {
    var j := Vpn(va, level);
    assert EntryOk(s, p, j);
    var e := s.pages[p][j];
    q := SecureTarget(s.lay, e);
    assert Live(s, q);
    assert e / 1024 % 0x1000_0000_0000 == s.lay.securePfn + q;
  }

  /** The upper tables are as before. */
  ghost predicate SameAbove(s: State, s': State)
    requires OwnersValid(s)
  {
    && s'.lay == s.lay && |s'.pages| == |s.pages| && s'.insecure == s.insecure
    && forall q :: LiveTable(s, q) && s.pagedb[q].ty != L3PTABLE ==> s'.pages[q] == s.pages[q]
  }

  lemma {:induction false} LeadsKept(s: State, s': State, p: nat, va: Word, level: nat, t: nat, i: nat)
    requires OwnersValid(s) && TablesOk(s) && level <= 2 && SameAbove(s, s')
    requires LiveTable(s, p) && s.pagedb[p].ty == TableType(level)
    requires LeadsTo(Opened(s), s.lay.securePfn + p, va, level, t, i)
    ensures LeadsTo(Opened(s'), s.lay.securePfn + p, va, level, t, i)
    decreases level
  {
    if level > 0 {
      var q := LeadsDown(s, p, va, level, t, i);
      LeadsKept(s, s', q, va, level - 1, t, i);
      Entry(s.lay.securePfn + q);
    }
  }

  lemma Entry(x: nat)
    requires x < 0x1000_0000_0000
    ensures (x * 1024 + 1) % 16 == 1 && (x * 1024 + 1) / 1024 % 0x1000_0000_0000 == x
  {
    Fields(x, 1);
    Sixteen(64 * x, 1, x * 1024 + 1);
  }

  lemma Sixteen(y: nat, r: nat, z: nat)
    requires r < 16 && z == 16 * y + r
    ensures z % 16 == r
  {
  }

  lemma Fields(x: nat, f: nat)
    requires f < 1024
    ensures (x * 1024 + f) / 1024 == x && (x * 1024 + f) % 1024 == f
  {
  }

  /** A live dispatcher translates through a live root table. */
  lemma RootOf(s: State, d: Word) returns (l1: nat)
    requires Inv(s) && Typed(s, d, DISPATCHER) && Live(s, d)
    ensures LiveTable(s, l1) && s.pagedb[l1].ty == L1PTABLE
    ensures var satp := s.pages[d][DISP_CSRS + SATP];
      satp / 0x1000_0000_0000_0000 == 8 && satp % 0x1000_0000_0000 == s.lay.securePfn + l1
  {
    assert HeaderOk(s, d);
    var a := Owner(s, d);
    assert HeaderOk(s, a);
    l1 := s.pages[a][L1PT];
    assert NonFree(s, l1);
    SatpFields(s.lay.securePfn + l1);
  }

  /** With the upper tables as before, the translation is what the last entry says. */
  lemma WalkAfter(s: State, s': State, d: Word, va: Word, t: nat, i: nat)
    requires Inv(s) && SameAbove(s, s') && Typed(s, d, DISPATCHER) && Live(s, d) && t < |s.pages| && i < 512
    requires ComesTo(Opened(s), s.pages[d][DISP_CSRS + SATP], va, t, i)
    ensures Walk(Opened(s'), s.pages[d][DISP_CSRS + SATP], va) == LeafMeans(s'.pages[t][i])
  {
    var l1 := RootOf(s, d);
    RootAfter(s, s', l1, va, t, i);
  }

  lemma RootAfter(s: State, s': State, l1: nat, va: Word, t: nat, i: nat)
    requires OwnersValid(s) && TablesOk(s) && SameAbove(s, s') && LiveTable(s, l1) && s.pagedb[l1].ty == L1PTABLE
    requires t < |s.pages| && i < 512 && LeadsTo(Opened(s), s.lay.securePfn + l1, va, 2, t, i)
    ensures WalkFrom(Opened(s'), s.lay.securePfn + l1, va, 2) == LeafMeans(s'.pages[t][i])
  {
    LeadsKept(s, s', l1, va, 2, t, i);
    LeadsWalk(Opened(s'), s.lay.securePfn + l1, va, 2, t, i);
    LastWalk(s', va, t, i);
  }

  lemma LastWalk(s: State, va: Word, t: nat, i: nat)
    requires t < |s.pages| && i < 512 && Vpn(va, 0) == i
    ensures WalkFrom(Opened(s), s.lay.securePfn + t, va, 0) == LeafMeans(s.pages[t][i])
  {
    assert PhysRead(Opened(s), s.lay.securePfn + t, i) == (true, s.pages[t][i]);
    LeafBits(s.pages[t][i]);
  }

  lemma LeafBits(e: Word)
    ensures var f, rwx := e % 1024, e / 2 % 8;
      && f % 2 == e % 2 && (f / 2 % 4 == 2 <==> rwx % 4 == 2) && (f / 2 % 2 == 1 <==> rwx % 2 == 1)
      && (f / 8 % 2 == 1 <==> rwx / 4 == 1)
  {
    var x, f := e / 1024, e % 1024;
    var g := f / 2;
    Halves(x, f, g);
    Eighths(g);
    assert f / 8 == g / 4;
  }

  lemma Halves(x: nat, f: nat, g: nat)
    requires f < 1024 && g == f / 2
    ensures (1024 * x + f) % 2 == f % 2 && (1024 * x + f) / 2 % 8 == g % 8
  {
    assert (1024 * x + f) / 2 == 512 * x + g;
    assert 512 * x + g == 8 * (64 * x) + g;
  }

  lemma Eighths(g: nat)
    ensures g % 4 == g % 8 % 4 && g % 2 == g % 8 % 2 && g / 4 % 2 == g % 8 / 4
  {
    var q, r := g / 8, g % 8;
    assert g == 8 * q + r;
    assert g / 4 == 2 * q + r / 4;
  }

  /** What a last-level entry means to the hart. */
  function LeafMeans(e: Word): Translation {
    var rwx := e / 2 % 8;
    if e % 2 == 0 || rwx == 0 || rwx % 4 == 2 then PageFault else Frame(e / 1024 % 0x1000_0000_0000, e % 1024)
  }

  /** R, W and X as the mapping asks: a frame if they make a leaf, with exactly them set. */
  ghost predicate Mapped(w: Translation, pfn: nat, mapping: Word) {
    var r, wr, x := mapping / 2 % 2 == 1, mapping / 4 % 2 == 1, mapping / 8 % 2 == 1;
    if (r || x) && (wr ==> r) then
      && w.Frame? && w.pfn == pfn
      && (w.flags / 2 % 2 == 1 <==> r) && (w.flags / 4 % 2 == 1 <==> wr) && (w.flags / 8 % 2 == 1 <==> x)
    else w == PageFault
  }

  lemma LeafIs(pfn: nat, mapping: Word)
    requires pfn < 0x1000_0000_0000
    ensures LeafWord(pfn, mapping) < WORD_LIMIT && Mapped(LeafMeans(LeafWord(pfn, mapping)), pfn, mapping)
  {
    var m := mapping / 2 % 8;
    MappingBits(mapping, m);
    LeafFields(pfn, m);
    FlagBits(m);
  }

  lemma MappingBits(mapping: Word, m: nat)
    requires m == mapping / 2 % 8
    ensures mapping / 2 % 2 == m % 2 && mapping / 4 % 2 == m / 2 % 2 && mapping / 8 % 2 == m / 4
  {
    var g := mapping / 2;
    Eighths(g);
    Quarters(g);
    assert mapping / 4 == g / 2 && mapping / 8 == g / 4;
  }

  lemma Quarters(g: nat)
    ensures g / 2 % 2 == g % 8 / 2 % 2
  {
    HalfOf(g / 8, g % 8, g % 8 / 2);
  }

  lemma HalfOf(q: nat, r: nat, h: nat)
    requires r < 8 && h == r / 2
    ensures (8 * q + r) / 2 % 2 == h % 2
  {
    assert (8 * q + r) / 2 == 2 * (2 * q) + h;
  }

  lemma LeafFields(pfn: nat, m: nat)
    requires m < 8
    ensures var e := pfn * 1024 + 0xc1 + m * 2;
      e % 2 == 1 && e / 2 % 8 == m && e / 1024 == pfn && e % 1024 == 0xc1 + 2 * m
  {
    Fields(pfn, 0xc1 + 2 * m);
    var e := pfn * 1024 + 0xc1 + m * 2;
    assert e / 2 == 8 * (pfn * 64 + 12) + m;
  }

  lemma FlagBits(m: nat)
    requires m < 8
    ensures var f := 0xc1 + 2 * m; f / 2 % 2 == m % 2 && f / 4 % 2 == m / 2 % 2 && f / 8 % 2 == m / 4
  {
  }

  lemma HungKeeps(s: State, s': State, page: Word, t: Word, i: Word, e: Word, d: Word)
    requires Inv(s) && Typed(s, t, L3PTABLE) && i < 512 && Hung(s, s', L3PTABLE, page, t, i, e)
    requires s'.lay == s.lay && s'.insecure == s.insecure && s.pagedb[page].ty == FREE && Typed(s, d, DISPATCHER)
    ensures SameAbove(s, s') && s'.pages[t][i] == e && s'.pages[d] == s.pages[d]
  {
    assert NonFree(s, t);
  }

  lemma HungMaps(s: State, s': State, page: Word, t: Word, i: Word, mapping: Word, d: Word, va: Word)
    requires Inv(s) && Typed(s, t, L3PTABLE) && i < 512 && LeafWord(s.lay.securePfn + page, mapping) < WORD_LIMIT
    requires Hung(s, s', L3PTABLE, page, t, i, LeafWord(s.lay.securePfn + page, mapping))
    requires s'.lay == s.lay && s'.insecure == s.insecure && s.pagedb[page].ty == FREE
    requires Typed(s, d, DISPATCHER) && Live(s, d) && ComesTo(Opened(s), s.pages[d][DISP_CSRS + SATP], va, t, i)
    ensures s'.pages[d] == s.pages[d]
    ensures Mapped(Walk(Opened(s'), s.pages[d][DISP_CSRS + SATP], va), s.lay.securePfn + page, mapping)
  {
    HungKeeps(s, s', page, t, i, LeafWord(s.lay.securePfn + page, mapping), d);
    WalkAfter(s, s', d, va, t, i);
    LeafIs(s.lay.securePfn + page, mapping);
  }

  lemma DoneMaps(s: State, s': State, d: Word, va: Word)
    requires Inv(s) && MapSecureDone(s, s') && s'.regs[A0] == SUCCESS
    requires Typed(s, d, DISPATCHER) && Live(s, d)
    requires ComesTo(Opened(s), s.pages[d][DISP_CSRS + SATP], va, s.regs[A1], s.regs[A2])
    ensures var page := s.regs[A0];
      && d < |s'.pages| && s'.pages[d] == s.pages[d]
      && Mapped(Walk(Opened(s'), s.pages[d][DISP_CSRS + SATP], va), s.lay.securePfn + page, s.regs[A3])
      && page < |s'.pages| && s.regs[A4] < |s.insecure| && s'.pages[page] == s.insecure[s.regs[A4]]
  {
    HungMaps(s, s', s.regs[A0], s.regs[A1], s.regs[A2], s.regs[A3], d, va);
  }

  /** After map_secure, every address that comes to the entry is translated to the new page, with the
      access asked for, by every dispatcher; and the page holds what the insecure one held. */
  lemma MapSecureMaps(s: State, sbi: Word, d: Word, va: Word)
    requires Calls(s, 16) && After(s, sbi).regs[A0] == SUCCESS
    requires Typed(s, d, DISPATCHER) && Live(s, d)
    requires ComesTo(Opened(s), s.pages[d][DISP_CSRS + SATP], va, s.regs[A1], s.regs[A2])
    ensures var s', page := After(s, sbi), s.regs[A0];
      && d < |s'.pages| && s'.pages[d] == s.pages[d]
      && Mapped(Walk(Opened(s'), s.pages[d][DISP_CSRS + SATP], va), s.lay.securePfn + page, s.regs[A3])
      && page < |s'.pages| && s.regs[A4] < |s.insecure| && s'.pages[page] == s.insecure[s.regs[A4]]
  {
    MapSecureEffect(s, sbi);
    DoneMaps(s, After(s, sbi), d, va);
  }

  /** After map_insecure likewise, to the insecure page. */
  lemma MapInsecureMaps(s: State, sbi: Word, d: Word, va: Word)
    requires Calls(s, 17) && After(s, sbi).regs[A0] == SUCCESS
    requires Typed(s, d, DISPATCHER) && Live(s, d)
    requires ComesTo(Opened(s), s.pages[d][DISP_CSRS + SATP], va, s.regs[A0], s.regs[A1])
    ensures var s' := After(s, sbi);
      && d < |s'.pages| && s'.pages[d] == s.pages[d]
      && Mapped(Walk(Opened(s'), s.pages[d][DISP_CSRS + SATP], va), s.lay.insecurePfn + s.regs[A3], s.regs[A2])
  {
    MapInsecureEffect(s, sbi);
    var s', t, i := After(s, sbi), s.regs[A0], s.regs[A1];
    assert SameAbove(s, s');
    WalkAfter(s, s', d, va, t, i);
    LeafIs(s.lay.insecurePfn + s.regs[A3], s.regs[A2]);
  }
}
