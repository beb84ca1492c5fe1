/** The free ranges, memory minus reserved, in the order __next_mem_range_rev visits them. */
module MemblockFree {
  import opened MemblockSpec
  import Words

  datatype Range = Range(start: int, end: int)

  predicate Within(a: int, g: Range) {
    g.start <= a < g.end
  }

  predicate Free(mem: seq<Region>, res: seq<Region>, a: int) {
    Covers(mem, a) && !Covers(res, a)
  }

  // ---------------------------------------------------------------- gaps

  /** The gap before reservation `j`; the last one ends the address space. */
  function Gap(res: seq<Region>, j: nat): Range
    requires j <= |res|
  {
    Range(if j > 0 then End(res[j - 1]) else 0, if j < |res| then res[j].base else PHYS_ADDR_MAX)
  }

  function Gaps(res: seq<Region>): (gs: seq<Range>)
    ensures |gs| == |res| + 1 && forall j {:trigger gs[j]} :: 0 <= j <= |res| ==> gs[j] == Gap(res, j)
  {
    seq(|res| + 1, j requires 0 <= j <= |res| => Gap(res, j))
  }

  /** Ascending; only a gap at either end of the address space can be empty. */
  ghost predicate GapOk(g: Range) {
    && 0 <= g.start <= g.end <= PHYS_ADDR_MAX
    && (g.start < g.end || g.end == 0 || g.start == PHYS_ADDR_MAX)
  }

  ghost predicate GapsOk(gs: seq<Range>) {
    && (forall j {:trigger GapOk(gs[j])} :: 0 <= j < |gs| ==> GapOk(gs[j]))
    && (forall i, j {:trigger gs[i], gs[j]} :: 0 <= i < j < |gs| ==> gs[i].end <= gs[j].start)
    && (forall i, j {:trigger gs[i], gs[j]} :: 0 <= i < j < |gs| && gs[j].start > 0 ==> gs[i].end < gs[j].start)
  }

  lemma GapIsOk(res: seq<Region>, j: nat)
    requires Canonical(res) && j <= |res|
    ensures GapOk(Gap(res, j))
  {
    if !IsEmpty(res) {
      if j > 0 {
        assert RegionOk(res[j - 1]);
      }
      if 0 < j < |res| {
        assert End(res[j - 1]) < res[j].base;
      }
    }
  }

  lemma GapOrder(res: seq<Region>, i: nat, j: nat)
    requires Canonical(res) && i < j <= |res|
    ensures Gap(res, i).end <= Gap(res, j).start
    ensures Gap(res, j).start > 0 ==> Gap(res, i).end < Gap(res, j).start
  {
    if !IsEmpty(res) {
      assert RegionOk(res[j - 1]);
      if i < j - 1 {
        assert End(res[i]) < res[j - 1].base;
        assert RegionOk(res[i]);
      }
    }
  }

  lemma GapsAreOk(res: seq<Region>)
    requires Canonical(res)
    ensures GapsOk(Gaps(res))
  {
    var gs := Gaps(res);
    forall j {:trigger GapOk(gs[j])} | 0 <= j < |gs| ensures GapOk(gs[j]) {
      GapIsOk(res, j);
    }
    forall i, j {:trigger gs[i], gs[j]} | 0 <= i < j < |gs|
      ensures gs[i].end <= gs[j].start && (gs[j].start > 0 ==> gs[i].end < gs[j].start)
    {
      GapOrder(res, i, j);
    }
  }

  /** `a` lies in one of the first `n` gaps, or of the first `n` regions. */
  ghost predicate InGaps(gs: seq<Range>, n: int, a: int)
    requires n <= |gs|
  {
    exists j :: 0 <= j < n && Within(a, gs[j])
  }

  ghost predicate InMem(mem: seq<Region>, n: int, a: int)
    requires n <= |mem|
  {
    exists i :: 0 <= i < n && In(a, mem[i])
  }

  lemma {:induction false} FirstAbove(res: seq<Region>, a: int, n: nat) returns (j: nat)
    requires n <= |res| && !InMem(res, |res|, a) && (n > 0 ==> End(res[n - 1]) <= a)
    ensures n <= j <= |res| && (j > 0 ==> End(res[j - 1]) <= a) && (j < |res| ==> a < res[j].base)
    decreases |res| - n
  {
    j := n;
    if n < |res| && a >= res[n].base {
      assert !In(a, res[n]);
      j := FirstAbove(res, a, n + 1);
    }
  }

  lemma RegionBesideGap(res: seq<Region>, a: int, i: nat, j: nat)
    requires Canonical(res) && i < |res| && j <= |res| && In(a, res[i])
    ensures !Within(a, Gap(res, j))
  {
    if !IsEmpty(res) {
      if i < j - 1 {
        assert End(res[i]) < res[j - 1].base && RegionOk(res[j - 1]);
      } else if j < i {
        assert End(res[j]) < res[i].base && RegionOk(res[j]);
      }
    }
  }

  /** The gaps are exactly what is not reserved. */
  lemma GapsAreFree(res: seq<Region>, a: int)
    requires Canonical(res) && 0 <= a < PHYS_ADDR_MAX
    ensures InGaps(Gaps(res), |res| + 1, a) <==> !InMem(res, |res|, a)
  {
    var gs := Gaps(res);
    if InMem(res, |res|, a) {
      var i :| 0 <= i < |res| && In(a, res[i]);
      forall j | 0 <= j < |gs| ensures !Within(a, gs[j]) {
        RegionBesideGap(res, a, i, j);
      }
    } else {
      var j := FirstAbove(res, a, 0);
      assert Within(a, gs[j]);
    }
  }

  // ---------------------------------------------------------------- the iteration

  /** The ranges found in the first `na` regions and the first `nb` gaps, from the highest down. */
  function FreeFrom(mem: seq<Region>, gs: seq<Range>, na: int, nb: int): seq<Range>
    requires na <= |mem| && nb <= |gs|
    decreases na, nb
  {
    if na <= 0 then []
    else if nb <= 0 then FreeFrom(mem, gs, na - 1, nb)
    else
      var m, g := mem[na - 1], gs[nb - 1];
      if g.end <= m.base then FreeFrom(mem, gs, na - 1, nb)
      else if End(m) > g.start then
        [Range(Max(m.base, g.start), Min(End(m), g.end))]
        + if m.base >= g.start then FreeFrom(mem, gs, na - 1, nb) else FreeFrom(mem, gs, na, nb - 1)
      else FreeFrom(mem, gs, na, nb - 1)
  }

  function FreeRanges(mem: seq<Region>, res: seq<Region>): seq<Range> {
    FreeFrom(mem, Gaps(res), |mem|, |res| + 1)
  }

  predicate InRanges(fs: seq<Range>, a: int) {
    |fs| > 0 && (Within(a, fs[0]) || InRanges(fs[1..], a))
  }

  lemma InRangesCons(g: Range, fs: seq<Range>, a: int)
    ensures InRanges([g] + fs, a) <==> Within(a, g) || InRanges(fs, a)
  {
    assert ([g] + fs)[1..] == fs;
  }

  lemma {:induction false} InRangesIndex(fs: seq<Range>, a: int)
    ensures InRanges(fs, a) <==> exists i :: 0 <= i < |fs| && Within(a, fs[i])
    decreases |fs|
  {
    if |fs| > 0 {
      InRangesIndex(fs[1..], a);
      if InRanges(fs[1..], a) {
        var i :| 0 <= i < |fs[1..]| && Within(a, fs[1..][i]);
        assert Within(a, fs[i + 1]);
      }
      if i :| 0 <= i < |fs| && Within(a, fs[i]) {
        if i > 0 {
          assert Within(a, fs[1..][i - 1]);
        }
      }
    }
  }

  /** Nonempty, descending, and not touching. */
  ghost predicate Descending(fs: seq<Range>) {
    && (forall i {:trigger fs[i]} :: 0 <= i < |fs| ==> 0 <= fs[i].start < fs[i].end <= PHYS_ADDR_MAX)
    && (forall i, j {:trigger fs[i], fs[j]} :: 0 <= i < j < |fs| ==> fs[j].end < fs[i].start)
  }

  ghost predicate EndBelow(fs: seq<Range>, hi: int) {
    forall i {:trigger fs[i]} :: 0 <= i < |fs| ==> fs[i].end < hi
  }

  lemma DescendingCons(g: Range, fs: seq<Range>)
    requires 0 <= g.start < g.end <= PHYS_ADDR_MAX && Descending(fs) && EndBelow(fs, g.start)
    ensures Descending([g] + fs)
  {
  }

  ghost predicate MemOk(mem: seq<Region>) {
    && (forall i {:trigger mem[i]} :: 0 <= i < |mem| ==>
       End(mem[i]) <= PHYS_ADDR_MAX && (mem[i].size == 0 ==> mem[i].base == 0))
    && Apart(mem)
  }

  lemma CanonicalMemOk(mem: seq<Region>)
    requires Canonical(mem)
    ensures MemOk(mem)
  {
    if !IsEmpty(mem) {
      forall i {:trigger mem[i]} | 0 <= i < |mem| ensures End(mem[i]) <= PHYS_ADDR_MAX && mem[i].size > 0 {
        assert RegionOk(mem[i]);
      }
    }
  }

  /** What is left to visit. */
  ghost predicate Left(mem: seq<Region>, gs: seq<Range>, na: int, nb: int, a: int)
    requires na <= |mem| && nb <= |gs|
  {
    InMem(mem, na, a) && InGaps(gs, nb, a)
  }

  /** Lower regions end well before a region starts, and lower gaps before a gap does. */
  lemma MemBelow(mem: seq<Region>, na: int, a: int)
    requires MemOk(mem) && 0 < na <= |mem| && InMem(mem, na - 1, a)
    ensures a + 1 < mem[na - 1].base
  {
  }

  lemma GapBelow(gs: seq<Range>, nb: int, a: int)
    requires GapsOk(gs) && 0 < nb <= |gs| && InGaps(gs, nb - 1, a)
    ensures a < gs[nb - 1].start && (gs[nb - 1].start > 0 ==> a + 1 < gs[nb - 1].start)
  {
  }

  lemma GapBound(gs: seq<Range>, nb: int, a: int)
    requires GapsOk(gs) && 0 < nb <= |gs| && InGaps(gs, nb, a)
    ensures a < gs[nb - 1].end
  {
    assert GapOk(gs[nb - 1]);
    if InGaps(gs, nb - 1, a) {
      GapBelow(gs, nb, a);
    }
  }

  lemma LeftSplit(mem: seq<Region>, gs: seq<Range>, na: int, nb: int, a: int)
    requires 0 < na <= |mem| && 0 < nb <= |gs|
    ensures InMem(mem, na, a) <==> In(a, mem[na - 1]) || InMem(mem, na - 1, a)
    ensures InGaps(gs, nb, a) <==> Within(a, gs[nb - 1]) || InGaps(gs, nb - 1, a)
  {
  }

  /** One step of the scan loses nothing. */
  lemma LeftStep(mem: seq<Region>, gs: seq<Range>, na: int, nb: int, a: int)
    requires MemOk(mem) && GapsOk(gs) && 0 < na <= |mem| && 0 < nb <= |gs|
    ensures var m, g := mem[na - 1], gs[nb - 1];
      var byMem := g.end <= m.base || (g.start < End(m) && g.start <= m.base);
      var next := if byMem then Left(mem, gs, na - 1, nb, a) else Left(mem, gs, na, nb - 1, a);
      Left(mem, gs, na, nb, a) <==> next || (In(a, m) && Within(a, g))
  {
    LeftSplit(mem, gs, na, nb, a);
    if InMem(mem, na - 1, a) {
      MemBelow(mem, na, a);
    }
    if InGaps(gs, nb - 1, a) {
      GapBelow(gs, nb, a);
    }
    if InGaps(gs, nb, a) {
      GapBound(gs, nb, a);
    }
  }

  lemma Overlap(mem: seq<Region>, gs: seq<Range>, na: int, nb: int)
    requires MemOk(mem) && GapsOk(gs) && 0 < na <= |mem| && 0 < nb <= |gs|
    requires mem[na - 1].base < gs[nb - 1].end && gs[nb - 1].start < End(mem[na - 1])
    ensures var m, g := mem[na - 1], gs[nb - 1]; 0 <= Max(m.base, g.start) < Min(End(m), g.end) <= PHYS_ADDR_MAX
  {
    assert GapOk(gs[nb - 1]);
  }

  lemma InRangesLast(fs: seq<Range>, i: nat)
    requires i < |fs| && fs[i].start < fs[i].end
    ensures InRanges(fs, fs[i].end - 1)
  {
    InRangesIndex(fs, fs[i].end - 1);
  }

  ghost predicate Visits(fs: seq<Range>, mem: seq<Region>, gs: seq<Range>, na: int, nb: int)
    requires na <= |mem| && nb <= |gs|
  {
    Descending(fs) && forall a {:trigger InRanges(fs, a)} :: InRanges(fs, a) <==> Left(mem, gs, na, nb, a)
  }

  /** The ranges still to come end before the one just found starts, without touching it. */
  lemma RestBelow(mem: seq<Region>, gs: seq<Range>, na: int, nb: int, fs: seq<Range>)
    requires MemOk(mem) && GapsOk(gs) && 0 < na <= |mem| && 0 < nb <= |gs|
    requires mem[na - 1].base < gs[nb - 1].end && gs[nb - 1].start < End(mem[na - 1])
    requires if gs[nb - 1].start <= mem[na - 1].base then Visits(fs, mem, gs, na - 1, nb)
      else Visits(fs, mem, gs, na, nb - 1)
    ensures EndBelow(fs, Max(mem[na - 1].base, gs[nb - 1].start))
  {
    forall i {:trigger fs[i]} | 0 <= i < |fs| ensures fs[i].end < Max(mem[na - 1].base, gs[nb - 1].start) {
      InRangesLast(fs, i);
      if gs[nb - 1].start <= mem[na - 1].base {
        MemBelow(mem, na, fs[i].end - 1);
      } else {
        GapBelow(gs, nb, fs[i].end - 1);
      }
    }
  }

  /** The ranges found are the addresses left, from the highest down. */
  lemma {:induction false} FreeFromVisits(mem: seq<Region>, gs: seq<Range>, na: int, nb: int)
    requires MemOk(mem) && GapsOk(gs) && na <= |mem| && nb <= |gs|
    ensures Visits(FreeFrom(mem, gs, na, nb), mem, gs, na, nb)
    decreases na, nb
  {
    if na > 0 {
      if nb <= 0 {
        FreeFromVisits(mem, gs, na - 1, nb);
      } else {
        var m, g := mem[na - 1], gs[nb - 1];
        var byMem := g.end <= m.base || (g.start < End(m) && g.start <= m.base);
        var fs;
        if byMem {
          FreeFromVisits(mem, gs, na - 1, nb);
          fs := FreeFrom(mem, gs, na - 1, nb);
        } else {
          FreeFromVisits(mem, gs, na, nb - 1);
          fs := FreeFrom(mem, gs, na, nb - 1);
        }
        StepVisits(mem, gs, na, nb, fs);
      }
    }
  }

  lemma StepVisits(mem: seq<Region>, gs: seq<Range>, na: int, nb: int, fs: seq<Range>)
    requires MemOk(mem) && GapsOk(gs) && 0 < na <= |mem| && 0 < nb <= |gs|
    requires var m, g := mem[na - 1], gs[nb - 1];
      if g.end <= m.base || (g.start < End(m) && g.start <= m.base) then Visits(fs, mem, gs, na - 1, nb)
      else Visits(fs, mem, gs, na, nb - 1)
    ensures var m, g := mem[na - 1], gs[nb - 1];
      if m.base < g.end && g.start < End(m) then Visits([Range(Max(m.base, g.start), Min(End(m), g.end))] + fs, mem,
        gs, na, nb)
      else Visits(fs, mem, gs, na, nb)
  {
    var m, g := mem[na - 1], gs[nb - 1];
    if m.base < g.end && g.start < End(m) {
      var r := Range(Max(m.base, g.start), Min(End(m), g.end));
      Overlap(mem, gs, na, nb);
      RestBelow(mem, gs, na, nb, fs);
      DescendingCons(r, fs);
      forall a ensures InRanges([r] + fs, a) <==> Left(mem, gs, na, nb, a) {
        InRangesCons(r, fs, a);
        LeftStep(mem, gs, na, nb, a);
      }
    } else {
      forall a ensures InRanges(fs, a) <==> Left(mem, gs, na, nb, a) {
        LeftStep(mem, gs, na, nb, a);
      }
    }
  }

  lemma InMemCovers(rs: seq<Region>, a: int)
    ensures InMem(rs, |rs|, a) <==> Covers(rs, a)
  {
    CoversIndex(rs, a);
  }

  lemma MemBound(mem: seq<Region>, a: int)
    requires MemOk(mem) && InMem(mem, |mem|, a)
    ensures 0 <= a < PHYS_ADDR_MAX
  {
  }

  lemma GapsAreUncovered(res: seq<Region>, a: int)
    requires Canonical(res) && 0 <= a < PHYS_ADDR_MAX
    ensures InGaps(Gaps(res), |res| + 1, a) <==> !Covers(res, a)
  {
    GapsAreFree(res, a);
    InMemCovers(res, a);
  }

  lemma LeftIsFree(mem: seq<Region>, res: seq<Region>, a: int)
    requires Canonical(mem) && Canonical(res)
    ensures Left(mem, Gaps(res), |mem|, |res| + 1, a) <==> Free(mem, res, a)
  {
    InMemCovers(mem, a);
    if Covers(mem, a) {
      CanonicalMemOk(mem);
      MemBound(mem, a);
      GapsAreUncovered(res, a);
    }
  }

  /** `fs` are the free addresses, as maximal intervals in descending order. */
  ghost predicate IsFreeList(fs: seq<Range>, mem: seq<Region>, res: seq<Region>) {
    && Descending(fs)
    && forall a {:trigger InRanges(fs, a)} {:trigger Free(mem, res, a)} :: InRanges(fs, a) <==> Free(mem, res, a)
  }

  /** The iteration visits, in descending order, the intervals of memory minus reserved; since
      they do not touch, they are the maximal ones. */
  lemma FreeRangesAre(mem: seq<Region>, res: seq<Region>)
    requires Canonical(mem) && Canonical(res)
    ensures IsFreeList(FreeRanges(mem, res), mem, res)
  {
    var fs := FreeRanges(mem, res);
    assert Visits(fs, mem, Gaps(res), |mem|, |res| + 1) by {
      CanonicalMemOk(mem);
      GapsAreOk(res);
      FreeFromVisits(mem, Gaps(res), |mem|, |res| + 1);
    }
    forall a ensures InRanges(fs, a) <==> Free(mem, res, a) {
      LeftIsFree(mem, res, a);
    }
  }

  // ---------------------------------------------------------------- memblock_find_in_range_node

  function RoundDown(x: nat, align: nat): nat
    requires align > 0
  {
    DownFits(x, align);
    x - x % align
  }

  lemma DownFits(x: nat, align: nat)
    requires align > 0
    ensures 0 <= x % align <= x && (x - x % align) % align == 0
  {
    Words.DivAtMost(x, align);
    Words.ModUnique(x - x % align, align, x / align, 0);
  }

  /** The highest aligned place for `size` bytes in a range, if there is one. */
  predicate Fits(g: Range, size: nat, align: nat)
    requires align > 0
  {
    g.end >= size && RoundDown(g.end - size, align) >= g.start
  }

  function Find(fs: seq<Range>, size: nat, align: nat): nat
    requires align > 0
  {
    if fs == [] then 0
    else if Fits(fs[0], size, align) then RoundDown(fs[0].end - size, align)
    else Find(fs[1..], size, align)
  }

  lemma RoundDownHighest(x: nat, align: nat, c: nat)
    requires align > 0 && c <= x && c % align == 0
    ensures RoundDown(x, align) >= c
  {
    var k := c / align - x / align;
    assert align * k == c - RoundDown(x, align);
    Words.MulAtLeast(align, k);
    Words.MulAtLeast(align, -k);
    assert align * -k == -(align * k);
  }

  lemma {:induction false} FindAtLeast(fs: seq<Range>, size: nat, align: nat, k: nat, c: nat)
    requires align > 0 && Descending(fs) && k < |fs| && fs[k].start <= c && c + size <= fs[k].end && c % align == 0
    ensures Find(fs, size, align) >= c
    decreases |fs|
  {
    if k == 0 {
      RoundDownHighest(fs[0].end - size, align, c);
    } else if Fits(fs[0], size, align) {
      assert fs[k].end < fs[0].start;
    } else {
      FindAtLeast(fs[1..], size, align, k - 1, c);
    }
  }

  lemma {:induction false} FindInRange(fs: seq<Range>, size: nat, align: nat) returns (k: nat)
    requires align > 0 && Find(fs, size, align) != 0
    ensures k < |fs| && fs[k].start <= Find(fs, size, align) && Find(fs, size, align) + size <= fs[k].end
    ensures Find(fs, size, align) % align == 0
    decreases |fs|
  {
    if Fits(fs[0], size, align) {
      DownFits(fs[0].end - size, align);
      k := 0;
    } else {
      k := FindInRange(fs[1..], size, align);
      k := k + 1;
    }
  }

  /** [c, c + size) is free and c is aligned. */
  ghost predicate Suitable(mem: seq<Region>, res: seq<Region>, size: nat, align: nat, c: nat)
    requires align > 0
  {
    c % align == 0 && forall a {:trigger Free(mem, res, a)} :: c <= a < c + size ==> Free(mem, res, a)
  }

  /** The end of a range is in no range. */
  lemma EndNotIn(fs: seq<Range>, k: nat)
    requires Descending(fs) && k < |fs|
    ensures !InRanges(fs, fs[k].end)
  {
    InRangesIndex(fs, fs[k].end);
    forall l | 0 <= l < |fs| ensures !Within(fs[k].end, fs[l]) {
    }
  }

  /** A free block lies in one of the ranges: they are maximal. */
  lemma BlockInRange(fs: seq<Range>, c: nat, size: nat) returns (k: nat)
    requires Descending(fs) && size > 0 && forall a {:trigger InRanges(fs, a)} :: c <= a < c + size ==> InRanges(fs, a)
    ensures k < |fs| && fs[k].start <= c && c + size <= fs[k].end
  {
    assert InRanges(fs, c);
    InRangesIndex(fs, c);
    k :| 0 <= k < |fs| && Within(c, fs[k]);
    EndNotIn(fs, k);
  }

  lemma FindSuitable(fs: seq<Range>, mem: seq<Region>, res: seq<Region>, size: nat, align: nat)
    requires align > 0 && IsFreeList(fs, mem, res) && Find(fs, size, align) != 0
    ensures Suitable(mem, res, size, align, Find(fs, size, align))
  {
    var f := Find(fs, size, align);
    var k := FindInRange(fs, size, align);
    forall a {:trigger Free(mem, res, a)} | f <= a < f + size ensures Free(mem, res, a) {
      InRangesIndex(fs, a);
      assert Within(a, fs[k]);
      assert InRanges(fs, a);
    }
  }

  lemma SuitableBelow(fs: seq<Range>, mem: seq<Region>, res: seq<Region>, size: nat, align: nat, c: nat)
    requires align > 0 && size > 0 && IsFreeList(fs, mem, res) && Suitable(mem, res, size, align, c)
    ensures c <= Find(fs, size, align)
  {
    var k := BlockInRange(fs, c, size);
    FindAtLeast(fs, size, align, k, c);
  }

  /** memblock_find_in_range_node returns the highest positive suitable address, or 0 when there
      is none. */
  lemma FindIsHighest(mem: seq<Region>, res: seq<Region>, size: nat, align: nat)
    requires Canonical(mem) && Canonical(res) && size > 0 && align > 0
    ensures var f := Find(FreeRanges(mem, res), size, align);
      && (f != 0 ==> Suitable(mem, res, size, align, f))
      && forall c: nat :: Suitable(mem, res, size, align, c) ==> c <= f
  {
    var fs := FreeRanges(mem, res);
    FreeRangesAre(mem, res);
    if Find(fs, size, align) != 0 {
      FindSuitable(fs, mem, res, size, align);
    }
    forall c: nat | Suitable(mem, res, size, align, c) ensures c <= Find(fs, size, align) {
      SuitableBelow(fs, mem, res, size, align, c);
    }
  }

  // ---------------------------------------------------------------- allocations

  const SMP_CACHE_BYTES: nat := 64

  datatype Memory = Memory(memory: seq<Region>, reserved: seq<Region>) {
    ghost predicate Valid() {
      Canonical(memory) && Canonical(reserved)
    }
  }

  datatype Call = Add(base: Phys, size: Phys) | Reserve(base: Phys, size: Phys) | Alloc(bytes: Phys, align: Phys)

  datatype Block = Block(start: nat, size: nat, align: nat)

  datatype Outcome = Done(after: Memory, blocks: seq<Block>) | Panic

  function Alignment(align: Phys): nat {
    if align == 0 then SMP_CACHE_BYTES else align
  }

  lemma FoundFits(s: Memory, size: nat, align: nat)
    requires s.Valid() && align > 0
    ensures var f := Find(FreeRanges(s.memory, s.reserved), size, align);
      f + size <= PHYS_ADDR_MAX || f == 0
  {
    FreeRangesAre(s.memory, s.reserved);
    if Find(FreeRanges(s.memory, s.reserved), size, align) != 0 {
      var k := FindInRange(FreeRanges(s.memory, s.reserved), size, align);
    }
  }

  /** One call of memblock_add, memblock_reserve or memblock_alloc. */
  ghost function Apply(s: Memory, c: Call): Outcome
    requires s.Valid()
  {
    match c
    case Add(base, size) => Done(s.(memory := Added(s.memory, base, size)), [])
    case Reserve(base, size) => Done(s.(reserved := Added(s.reserved, base, size)), [])
    case Alloc(size, align) =>
      var f := Find(FreeRanges(s.memory, s.reserved), size, Alignment(align));
      FoundFits(s, size, Alignment(align));
      if f == 0 then Panic
      else Done(s.(reserved := Added(s.reserved, f, size)), [Block(f, size, Alignment(align))])
  }

  lemma ApplyKeepsValid(s: Memory, c: Call)
    requires s.Valid() && Apply(s, c).Done?
    ensures Apply(s, c).after.Valid()
  {
    match c {
      case Add(base, size) => AddedIsUnion(s.memory, base, size);
      case Reserve(base, size) => AddedIsUnion(s.reserved, base, size);
      case Alloc(size, align) =>
        FoundFits(s, size, Alignment(align));
        AddedIsUnion(s.reserved, Find(FreeRanges(s.memory, s.reserved), size, Alignment(align)), size);
    }
  }

  /** The state and the blocks handed out when the calls are made one after the other. */
  ghost function Run(s: Memory, calls: seq<Call>): Outcome
    requires s.Valid()
    decreases |calls|
  {
    if calls == [] then Done(s, [])
    else
      match Apply(s, calls[0])
      case Panic => Panic
      case Done(s1, bs) =>
        ApplyKeepsValid(s, calls[0]);
        match Run(s1, calls[1..])
        case Panic => Panic
        case Done(s2, bs') => Done(s2, bs + bs')
  }

  predicate InBlock(a: int, b: Block) {
    b.start <= a < b.start + b.size
  }

  /** Aligned, and inside memory, and nothing of it reserved. */
  ghost predicate Proper(b: Block, mem: seq<Region>, res: seq<Region>) {
    && b.align > 0 && b.start % b.align == 0
    && forall a {:trigger InBlock(a, b)} :: InBlock(a, b) ==> Covers(mem, a) && !Covers(res, a)
  }

  ghost predicate Grows(rs: seq<Region>, rs': seq<Region>) {
    forall a {:trigger Covers(rs', a)} {:trigger Covers(rs, a)} :: Covers(rs, a) ==> Covers(rs', a)
  }

  /** What a call does to the state, and the block it hands out. */
  ghost predicate StepOk(s: Memory, s1: Memory, bs: seq<Block>) {
    && Grows(s.memory, s1.memory) && Grows(s.reserved, s1.reserved) && |bs| <= 1
    && (|bs| == 1 ==> Proper(bs[0], s.memory, s.reserved) && forall a :: InBlock(a, bs[0]) ==> Covers(s1.reserved, a))
  }

  lemma AddIsOk(s: Memory, base: Phys, size: Phys)
    requires s.Valid()
    ensures StepOk(s, s.(memory := Added(s.memory, base, size)), [])
    ensures StepOk(s, s.(reserved := Added(s.reserved, base, size)), [])
  {
    AddedIsUnion(s.memory, base, size);
    AddedIsUnion(s.reserved, base, size);
  }

  lemma AllocIsOk(s: Memory, b: Block)
    requires s.Valid() && Proper(b, s.memory, s.reserved) && b.start + b.size <= PHYS_ADDR_MAX
    ensures StepOk(s, s.(reserved := Added(s.reserved, b.start, b.size)), [b])
  {
    BlockReserved(s.reserved, b);
  }

  lemma ApplyIsOk(s: Memory, c: Call)
    requires s.Valid() && Apply(s, c).Done?
    ensures StepOk(s, Apply(s, c).after, Apply(s, c).blocks)
  {
    match c {
      case Add(base, size) => AddIsOk(s, base, size);
      case Reserve(base, size) => AddIsOk(s, base, size);
      case Alloc(size, align) =>
        var b := Block(Find(FreeRanges(s.memory, s.reserved), size, Alignment(align)), size, Alignment(align));
        FoundFits(s, size, Alignment(align));
        FoundIsProper(s, b);
        AllocIsOk(s, b);
    }
  }

  lemma FoundIsProper(s: Memory, b: Block)
    requires s.Valid() && b.align > 0 && b.start == Find(FreeRanges(s.memory, s.reserved), b.size, b.align) != 0
    ensures Proper(b, s.memory, s.reserved)
  {
    FreeRangesAre(s.memory, s.reserved);
    FindSuitable(FreeRanges(s.memory, s.reserved), s.memory, s.reserved, b.size, b.align);
    forall a {:trigger InBlock(a, b)} | InBlock(a, b) ensures Covers(s.memory, a) && !Covers(s.reserved, a) {
      assert Free(s.memory, s.reserved, a);
    }
  }

  lemma BlockReserved(res: seq<Region>, b: Block)
    requires Canonical(res) && b.start + b.size <= PHYS_ADDR_MAX
    ensures Grows(res, Added(res, b.start, b.size)) && forall a :: InBlock(a, b) ==>
      Covers(Added(res, b.start, b.size), a)
  {
    AddedIsUnion(res, b.start, b.size);
  }

  ghost predicate AllProper(bs: seq<Block>, mem: seq<Region>, res: seq<Region>) {
    forall i {:trigger bs[i]} :: 0 <= i < |bs| ==> Proper(bs[i], mem, res)
  }

  ghost predicate PairwiseDisjoint(bs: seq<Block>) {
    forall i, j, a {:trigger InBlock(a, bs[i]), InBlock(a, bs[j])} :: 0 <= i < j < |bs| ==>
      !(InBlock(a, bs[i]) && InBlock(a, bs[j]))
  }

  lemma ProperGrows(b: Block, mem: seq<Region>, mem': seq<Region>, res: seq<Region>, res': seq<Region>)
    requires Proper(b, mem', res') && Grows(mem', mem) && Grows(res, res')
    ensures Proper(b, mem, res)
  {
  }

  lemma RunGrows(s: Memory, calls: seq<Call>)
    requires s.Valid() && Run(s, calls).Done?
    ensures Grows(s.memory, Run(s, calls).after.memory)
    decreases |calls|
  {
    if calls != [] {
      ApplyKeepsValid(s, calls[0]);
      ApplyIsOk(s, calls[0]);
      RunGrows(Apply(s, calls[0]).after, calls[1..]);
    }
  }

  /** Any sequence of calls: the blocks handed out are aligned, lie inside memory, avoid what was
      reserved at the start, and never overlap. */
  lemma {:induction false} BlocksNeverOverlap(s: Memory, calls: seq<Call>)
    requires s.Valid() && Run(s, calls).Done?
    ensures var r := Run(s, calls);
      AllProper(r.blocks, r.after.memory, s.reserved) && PairwiseDisjoint(r.blocks)
    decreases |calls|
  {
    if calls != [] {
      ApplyKeepsValid(s, calls[0]);
      ApplyIsOk(s, calls[0]);
      var first := Apply(s, calls[0]);
      var rest := Run(first.after, calls[1..]);
      BlocksNeverOverlap(first.after, calls[1..]);
      RunGrows(first.after, calls[1..]);
      OneMore(first.blocks, rest.blocks, s, first.after, rest.after.memory);
    }
  }

  lemma OneMore(first: seq<Block>, rest: seq<Block>, s: Memory, s1: Memory, mem: seq<Region>)
    requires StepOk(s, s1, first) && Grows(s1.memory, mem)
    requires AllProper(rest, mem, s1.reserved) && PairwiseDisjoint(rest)
    ensures AllProper(first + rest, mem, s.reserved) && PairwiseDisjoint(first + rest)
  {
    var bs := first + rest;
    forall i {:trigger bs[i]} | 0 <= i < |bs| ensures Proper(bs[i], mem, s.reserved) {
      if i < |first| {
        GrowsTrans(s.memory, s1.memory, mem);
        ProperGrows(first[0], mem, s.memory, s.reserved, s.reserved);
      } else {
        assert Proper(rest[i - |first|], mem, s1.reserved);
        ProperGrows(rest[i - |first|], mem, mem, s.reserved, s1.reserved);
      }
    }
    forall i, j, a {:trigger InBlock(a, bs[i]), InBlock(a, bs[j])} | 0 <= i < j < |bs|
      ensures !(InBlock(a, bs[i]) && InBlock(a, bs[j])) {
      if i < |first| {
        assert Proper(rest[j - |first|], mem, s1.reserved);
      } else {
        assert !(InBlock(a, rest[i - |first|]) && InBlock(a, rest[j - |first|]));
      }
    }
  }

  lemma GrowsTrans(a: seq<Region>, b: seq<Region>, c: seq<Region>)
    requires Grows(a, b) && Grows(b, c)
    ensures Grows(a, c)
  {
    forall x {:trigger Covers(c, x)} {:trigger Covers(a, x)} | Covers(a, x) ensures Covers(c, x) {
      assert Covers(b, x);
    }
  }
}
