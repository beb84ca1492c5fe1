/** struct memblock_type and struct memblock, updated in place as kernel/memblock.c does. */
module Memblock {
  import opened Words
  import opened MemblockSpec
  import opened MemblockFree

  lemma {:induction false} SumConcat(a: seq<Region>, b: seq<Region>)
    ensures Sum(a + b) == Sum(a) + Sum(b)
    decreases |a|
  {
    if a == [] {
      assert a + b == b;
    } else {
      SumConcat(a[1..], b);
      assert (a + b)[1..] == a[1..] + b;
    }
  }

  lemma SumInsert(rs: seq<Region>, i: nat, r: Region)
    requires i <= |rs|
    ensures Sum(rs[..i] + [r] + rs[i..]) == Sum(rs) + r.size
  {
    SumConcat(rs[..i] + [r], rs[i..]);
    SumConcat(rs[..i], [r]);
    SumConcat(rs[..i], rs[i..]);
    assert rs[..i] + rs[i..] == rs && [r][1..] == [];
  }

  class MemblockType {
    var cnt: nat
    var totalSize: int
    const max: nat
    const regions: array<Region>

    /** The empty entry that static initialisation leaves. */
    constructor (max: nat)
      requires 0 < max < 0x8000_0000
      ensures Valid() && fresh(regions) && this.max == max && IsEmpty(Contents())
    {
      this.max := max;
      regions := new Region[max](_ => Region(0, 0));
      cnt, totalSize := 1, 0;
      new;
      assert regions[..1][1..] == [];
    }

    function Contents(): (rs: seq<Region>)
      reads this, regions
      requires cnt <= regions.Length
    {
      regions[..cnt]
    }

    ghost predicate Shape()
      reads this
    {
      0 < cnt <= max == regions.Length < 0x8000_0000
    }

    ghost predicate Valid()
      reads this, regions
    {
      Shape() && Canonical(Contents()) && totalSize == Sum(Contents())
    }

    /** memblock_insert_region; its BUG_ON is the precondition. */
    method InsertRegion(idx: nat, base: Phys, size: Phys)
      requires Shape() && idx <= cnt < max
      modifies this, regions
      ensures Shape() && cnt == old(cnt) + 1 && totalSize == old(totalSize) + size
      ensures Contents() == old(Contents())[..idx] + [Region(base, size)] + old(Contents())[idx..]
    {
      forall k | idx < k <= cnt {
        regions[k] := regions[k - 1];
      }
      regions[idx] := Region(base, size);
      cnt := cnt + 1;
      totalSize := totalSize + size;
    }

    /** One turn of the loop in memblock_add_range: region `idx` against [base, end). */
    method PassRegion(idx: nat, base: Phys, end: Phys, insert: bool) returns (next: nat, base': Phys, found: bool)
      requires Shape() && idx < cnt
      requires insert && base < regions[idx].base ==> cnt < max
      modifies this, regions
      ensures Shape()
      ensures var r := old(regions[idx]);
        && found == (base < r.base && base < End(r))
        && base' == (if End(r) > base then Min(End(r), end) else base)
        && next == (if insert && found then idx + 2 else idx + 1)
        && if insert && found then
             Contents() == With(old(Contents()), idx, Region(base, r.base - base))
               && totalSize == old(totalSize) + r.base - base
           else Contents() == old(Contents()) && totalSize == old(totalSize)
    {
      var rbase, rend := regions[idx].base, End(regions[idx]);
      next, base', found := idx, base, false;
      if rend > base {
        if rbase > base {
          found := true;
          if insert {
            InsertRegion(next, base, rbase - base);
            next := next + 1;
          }
        }
        base' := Min(rend, end);
      }
      next := next + 1;
    }

    /** That loop. */
    method PassRegions(obase: Phys, end: Phys, insert: bool) returns (nrNew: nat, idx: nat, base: Phys)
      requires Shape() && obase <= end
      requires insert ==> cnt + Count(Contents(), obase, end) <= max
      modifies this, regions
      ensures Shape() && idx <= cnt && base <= end && (idx < cnt ==> regions[idx].base >= end)
      ensures Passed(old(Contents()), obase, Contents(), idx, base, end, nrNew, insert)
      ensures insert ==> cnt == old(cnt) + nrNew && totalSize == old(totalSize) + Sum(Contents()) - Sum(old(Contents()))
      ensures !insert ==> Contents() == old(Contents()) && totalSize == old(totalSize)
    {
      nrNew, idx, base := 0, 0, obase;
      ghost var rs, cs := Contents(), Contents();
      PassStart(rs, obase, end, insert);
      while idx < cnt && regions[idx].base < end
        invariant Shape() && idx <= cnt && cs == Contents() && base <= end
        invariant Passed(rs, obase, cs, idx, base, end, nrNew, insert)
        invariant insert ==> |rs| + Count(rs, obase, end) <= max && |cs| == |rs| + nrNew
        invariant insert ==> totalSize == old(totalSize) + Sum(cs) - Sum(rs)
        invariant !insert ==> cs == rs && totalSize == old(totalSize)
        decreases cnt - idx
      {
        var found;
        ghost var i, b := idx, base;
        assert regions[idx] == cs[idx];
        PassRoom(rs, obase, cs, idx, base, end, nrNew, insert);
        idx, base, found := PassRegion(idx, base, end, insert);
        PassStep(rs, obase, cs, i, b, end, nrNew, insert);
        if found {
          nrNew := nrNew + 1;
          if insert {
            SumInsert(cs, i, Region(b, cs[i].base - b));
            cs := With(cs, i, Region(b, cs[i].base - b));
          }
        }
      }
    }

    /** One round: counts the parts of [obase, end) that are missing, and puts them in if
        `insert` is set. */
    method Pass(obase: Phys, end: Phys, insert: bool) returns (nrNew: nat)
      requires Shape() && obase <= end
      requires insert ==> cnt + Count(Contents(), obase, end) <= max
      modifies this, regions
      ensures Shape() && nrNew == Count(old(Contents()), obase, end)
      ensures insert ==> Contents() == Inserted(old(Contents()), obase, end)
      ensures insert ==> totalSize == old(totalSize) + Sum(Contents()) - Sum(old(Contents()))
      ensures !insert ==> Contents() == old(Contents()) && totalSize == old(totalSize)
    {
      var idx, base;
      nrNew, idx, base := PassRegions(obase, end, insert);
      ghost var cs := Contents();
      PassEnd(old(Contents()), obase, cs, idx, base, end, nrNew, insert);
      if base < end {
        nrNew := nrNew + 1;
        if insert {
          SumInsert(cs, idx, Region(base, end - base));
          InsertRegion(idx, base, end - base);
        }
      }
    }

    /** memblock_merge_regions. */
    method MergeRegions()
      requires Shape() && Ordered(Contents()) && Sum(Contents()) <= PHYS_ADDR_MAX
      modifies this`cnt, regions
      ensures Shape() && Contents() == Merged(old(Contents()))
    {
      var i := 0;
      ghost var rs := Contents();
      ghost var cs := rs;
      assert cs[0..] == rs;
      while i < cnt - 1
        invariant Shape() && i < cnt && cs == Contents() && Ordered(cs) && Sum(cs[i..]) <= PHYS_ADDR_MAX
        invariant Merged(rs) == cs[..i] + Merged(cs[i..])
        decreases cnt - i
      {
        var this_, next := regions[i], regions[i + 1];
        assert this_ == cs[i] && next == cs[i + 1];
        if End(this_) != next.base {
          MergeSkips(cs, i);
          i := i + 1;
        } else {
          MergeJoins(cs, i);
          JoinInPlace(i);
          cs := JoinedAt(cs, i);
        }
      }
    }

    /** The array part of a merge: region `i` grows over the next one, which the memmove drops. */
    method JoinInPlace(i: nat)
      requires Shape() && i + 1 < cnt && regions[i].size + regions[i + 1].size <= PHYS_ADDR_MAX
      modifies this`cnt, regions
      ensures Shape() && Contents() == JoinedAt(old(Contents()), i)
    {
      ghost var cs := Contents();
      ghost var joined := Region(cs[i].base, cs[i].size + cs[i + 1].size);
      regions[i] := Region(regions[i].base, regions[i].size + regions[i + 1].size);
      assert Contents() == cs[i := joined];
      DropRegion(i + 1);
      DroppedIsJoined(cs, i, joined);
    }

    /** The memmove over region `i`. */
    method DropRegion(i: nat)
      requires Shape() && 0 < i < cnt
      modifies this`cnt, regions
      ensures Shape() && Contents() == old(Contents())[..i] + old(Contents())[i + 1..]
    {
      forall k | i <= k < cnt - 1 {
        regions[k] := regions[k + 1];
      }
      cnt := cnt - 1;
    }

    /** The special case of memblock_add_range for an empty array. */
    method SetFirst(base: Phys, size: Phys)
      requires Shape() && cnt == 1
      modifies this`totalSize, regions
      ensures Contents() == [Region(base, size)] && totalSize == size == Sum(Contents())
    {
      regions[0] := Region(base, size);
      totalSize := size;
      assert Contents() == [Region(base, size)] && Contents()[1..] == [];
    }

    /** The second pass of memblock_add_range and the merge after it. */
    method InsertAndMerge(base: Phys, end: Phys, ghost rs: seq<Region>, ghost ins: seq<Region>)
      requires Shape() && Contents() == rs && base <= end && cnt + Count(rs, base, end) <= max
      requires ins == Inserted(rs, base, end) && Ordered(ins) && Sum(ins) <= PHYS_ADDR_MAX
      requires totalSize == Sum(rs)
      modifies this, regions
      ensures Shape() && Contents() == Merged(ins) && totalSize == Sum(ins)
    {
      var nrNew := Pass(base, end, true);
      MergeRegions();
    }

    /** memblock_add_range; false is the BUG_ON that the array is full. */
    method AddRange(base: Phys, size0: Phys) returns (ok: bool)
      requires Valid()
      modifies this, regions
      ensures ok ==> Valid() && Contents() == Added(old(Contents()), base, size0)
      ensures ok <==> Fitting(old(Contents()), base, size0, max)
      ensures !ok ==> Valid() && Contents() == old(Contents())
    {
      var size := Cap(base, size0);
      var end := base + size;
      ghost var rs := Contents();
      ghost var want := Added(rs, base, size0);
      AddedIsUnion(rs, base, size0);
      CanonicalOrdered(rs);
      if size == 0 {
        return true;
      }
      if regions[0].size == 0 {
        SetFirst(base, size);
        return true;
      }
      ghost var ins := InsertedThenMerged(rs, base, size0, end);
      var nrNew := Pass(base, end, false);
      if nrNew == 0 {
        return true;
      }
      if cnt + nrNew > max {
        return false;
      }
      InsertAndMerge(base, end, rs, ins);
      return true;
    }
  }

  lemma InsertedThenMerged(rs: seq<Region>, base: Phys, size: Phys, end: Phys) returns (ins: seq<Region>)
    requires Canonical(rs) && end == base + Cap(base, size) && end != base && rs[0].size != 0
    ensures ins == Inserted(rs, base, end) && Ordered(ins) && Sum(ins) <= PHYS_ADDR_MAX
    ensures Added(rs, base, size) == Merged(ins) && Sum(Merged(ins)) == Sum(ins)
    ensures Count(rs, base, end) == 0 ==> Merged(ins) == rs
  {
    CanonicalOrdered(rs);
    ins := MergedInserted(rs, base, end);
    AddedIsMerged(rs, base, size, ins);
  }

  lemma AddedIsMerged(rs: seq<Region>, base: Phys, size: Phys, ins: seq<Region>)
    requires Canonical(rs) && Cap(base, size) != 0 && rs[0].size != 0
    requires ins == Inserted(rs, base, base + Cap(base, size)) && Sum(ins) <= PHYS_ADDR_MAX
    ensures Added(rs, base, size) == Merged(ins)
  {
  }

  lemma MergedInserted(rs: seq<Region>, base: Phys, end: Phys) returns (ins: seq<Region>)
    requires Ordered(rs) && Apart(rs) && base <= end
    ensures ins == Inserted(rs, base, end) && Ordered(ins) && Sum(ins) <= PHYS_ADDR_MAX && Sum(Merged(ins)) == Sum(ins)
    ensures Count(rs, base, end) == 0 ==> Merged(ins) == rs
  {
    InsertedFits(rs, base, end);
    ins := Inserted(rs, base, end);
    MergedKeepsSum(ins);
    if Count(rs, base, end) == 0 {
      NothingInserted(rs, base, end);
      MergedAlready(rs);
    }
  }

  lemma MergedKeepsSum(rs: seq<Region>)
    requires Ordered(rs) && Sum(rs) <= PHYS_ADDR_MAX && AtLeast(rs, 0)
    ensures Sum(Merged(rs)) == Sum(rs)
  {
    MergedIsCanonical(rs, 0);
  }

  /** Whether the array has room for what an addition inserts. */
  predicate Fitting(rs: seq<Region>, base: Phys, size: Phys, max: nat)
    requires |rs| > 0
  {
    var s := Cap(base, size);
    s == 0 || rs[0].size == 0 || Count(rs, base, base + s) == 0 || |rs| + Count(rs, base, base + s) <= max
  }

  /** Regions i and i + 1 made one. */
  function JoinedAt(cs: seq<Region>, i: nat): seq<Region>
    requires i + 1 < |cs| && cs[i].size + cs[i + 1].size <= PHYS_ADDR_MAX
  {
    cs[..i] + [Region(cs[i].base, cs[i].size + cs[i + 1].size)] + cs[i + 2..]
  }

  lemma DroppedIsJoined(cs: seq<Region>, i: nat, joined: Region)
    requires i + 1 < |cs| && cs[i].size + cs[i + 1].size <= PHYS_ADDR_MAX
    requires joined == Region(cs[i].base, cs[i].size + cs[i + 1].size)
    ensures cs[i := joined][..i + 1] + cs[i := joined][i + 2..] == JoinedAt(cs, i)
  {
    assert cs[i := joined][..i + 1] == cs[..i] + [joined];
    assert cs[i := joined][i + 2..] == cs[i + 2..];
  }

  lemma JoinedAtOrdered(cs: seq<Region>, i: nat)
    requires i + 1 < |cs| && Ordered(cs) && End(cs[i]) == cs[i + 1].base
    ensures cs[i].size + cs[i + 1].size <= PHYS_ADDR_MAX && Ordered(JoinedAt(cs, i))
  {
    assert RegionOk(cs[i]) && RegionOk(cs[i + 1]);
    var js := JoinedAt(cs, i);
    forall k {:trigger RegionOk(js[k])} | 0 <= k < |js| ensures RegionOk(js[k]) {
      if k < i {
        assert RegionOk(cs[k]);
      } else if k > i {
        assert RegionOk(cs[k + 1]);
      }
    }
    forall k, l {:trigger js[k], js[l]} | 0 <= k < l < |js| ensures End(js[k]) <= js[l].base {
      assert js[k] == (if k < i then cs[k] else if k == i then js[i] else cs[k + 1]);
      assert js[l] == (if l < i then cs[l] else if l == i then js[i] else cs[l + 1]);
    }
  }

  /** One turn of the merge loop, on values. */
  lemma MergeSkips(cs: seq<Region>, i: nat)
    requires i + 1 < |cs| && Sum(cs[i..]) <= PHYS_ADDR_MAX && End(cs[i]) != cs[i + 1].base
    ensures Sum(cs[i + 1..]) <= PHYS_ADDR_MAX && cs[..i] + Merged(cs[i..]) == cs[..i + 1] + Merged(cs[i + 1..])
  {
    TakeOne(cs, i);
    Assoc(cs[..i], [cs[i]], Merged(cs[i + 1..]));
  }

  lemma JoinedParts(cs: seq<Region>, i: nat)
    requires i + 1 < |cs| && cs[i].size + cs[i + 1].size <= PHYS_ADDR_MAX
    ensures JoinedAt(cs, i)[..i] == cs[..i] && JoinedAt(cs, i)[i..] == Joined(cs[i..])
  {
    assert cs[i..][2..] == cs[i + 2..];
  }

  lemma MergeJoins(cs: seq<Region>, i: nat)
    requires i + 1 < |cs| && Ordered(cs) && Sum(cs[i..]) <= PHYS_ADDR_MAX && End(cs[i]) == cs[i + 1].base
    ensures cs[i].size + cs[i + 1].size <= PHYS_ADDR_MAX && Ordered(JoinedAt(cs, i))
    ensures Sum(JoinedAt(cs, i)[i..]) <= PHYS_ADDR_MAX
    ensures cs[..i] + Merged(cs[i..]) == JoinedAt(cs, i)[..i] + Merged(JoinedAt(cs, i)[i..])
  {
    JoinedAtOrdered(cs, i);
    SumTwo(cs[i..]);
    JoinedParts(cs, i);
  }

  /** What the loop of Pass keeps: the first `idx` entries of `cs` are done. */
  ghost predicate Passed(rs: seq<Region>, obase: int, cs: seq<Region>, idx: nat, base: int, end: int, nrNew: nat,
                         insert: bool)
    requires 0 <= obase && 0 <= base && end <= PHYS_ADDR_MAX && idx <= |cs|
  {
    && Count(rs, obase, end) == nrNew + Count(cs[idx..], base, end)
    && (insert ==> Inserted(rs, obase, end) == cs[..idx] + Inserted(cs[idx..], base, end))
  }

  // The turns of that loop, on values.

  lemma Assoc<T>(a: seq<T>, b: seq<T>, c: seq<T>)
    ensures a + (b + c) == a + b + c
  {
  }

  lemma TakeOne(cs: seq<Region>, i: nat)
    requires i < |cs|
    ensures cs[i..][1..] == cs[i + 1..] && cs[..i + 1] == cs[..i] + [cs[i]] && cs[i..] != [] && cs[i..][0] == cs[i]
  {
  }

  lemma PassOver(rs: seq<Region>, obase: int, cs: seq<Region>, i: nat, base: int, end: int, nrNew: nat, insert: bool)
    requires i < |cs| && cs[i].base < end && End(cs[i]) <= base && 0 <= obase && 0 <= base && end <= PHYS_ADDR_MAX
    requires Passed(rs, obase, cs, i, base, end, nrNew, insert)
    ensures Passed(rs, obase, cs, i + 1, base, end, nrNew, insert)
    ensures Count(cs[i..], base, end) == Count(cs[i + 1..], base, end)
  {
    TakeOne(cs, i);
    Assoc(cs[..i], [cs[i]], Inserted(cs[i + 1..], base, end));
  }

  lemma PassInside(rs: seq<Region>, obase: int, cs: seq<Region>, i: nat, base: int, end: int, nrNew: nat, insert: bool)
    requires i < |cs| && cs[i].base < end && cs[i].base <= base < End(cs[i]) && 0 <= obase && 0 <= base
    requires end <= PHYS_ADDR_MAX
    requires Passed(rs, obase, cs, i, base, end, nrNew, insert)
    ensures Passed(rs, obase, cs, i + 1, Min(End(cs[i]), end), end, nrNew, insert)
    ensures Count(cs[i..], base, end) == Count(cs[i + 1..], Min(End(cs[i]), end), end)
  {
    TakeOne(cs, i);
    var rest := Inserted(cs[i + 1..], Min(End(cs[i]), end), end);
    assert Piece(base, cs[i].base) == [] && [] + [cs[i]] + rest == [cs[i]] + rest;
    Assoc(cs[..i], [cs[i]], rest);
  }

  function With(cs: seq<Region>, i: nat, p: Region): seq<Region>
    requires i <= |cs|
  {
    cs[..i] + [p] + cs[i..]
  }

  lemma WithParts(cs: seq<Region>, i: nat, p: Region)
    requires i < |cs|
    ensures With(cs, i, p)[i + 2..] == cs[i + 1..] && With(cs, i, p)[..i + 2] == cs[..i] + ([p] + [cs[i]])
  {
  }

  lemma PassBefore(rs: seq<Region>, obase: int, cs: seq<Region>, i: nat, base: int, end: int, nrNew: nat, insert: bool)
    requires i < |cs| && base < cs[i].base < end && base < End(cs[i]) && 0 <= obase && 0 <= base && end <= PHYS_ADDR_MAX
    requires Passed(rs, obase, cs, i, base, end, nrNew, insert)
    ensures var base' := Min(End(cs[i]), end);
      && Count(cs[i..], base, end) == 1 + Count(cs[i + 1..], base', end)
      && if insert then Passed(rs, obase, With(cs, i, Region(base, cs[i].base - base)), i + 2, base', end, nrNew + 1,
         insert)
         else Passed(rs, obase, cs, i + 1, base', end, nrNew + 1, insert)
  {
    TakeOne(cs, i);
    var p := Region(base, cs[i].base - base);
    var rest := Inserted(cs[i + 1..], Min(End(cs[i]), end), end);
    assert Piece(base, cs[i].base) == [p];
    if insert {
      WithParts(cs, i, p);
      Assoc(cs[..i], [p] + [cs[i]], rest);
    }
  }

  lemma PassStart(rs: seq<Region>, obase: int, end: int, insert: bool)
    requires 0 <= obase && end <= PHYS_ADDR_MAX
    ensures Passed(rs, obase, rs, 0, obase, end, 0, insert)
  {
    assert rs[0..] == rs;
  }

  lemma PassRoom(rs: seq<Region>, obase: int, cs: seq<Region>, i: nat, base: int, end: int, nrNew: nat, insert: bool)
    requires i < |cs| && cs[i].base < end && 0 <= obase && 0 <= base && end <= PHYS_ADDR_MAX
    requires Passed(rs, obase, cs, i, base, end, nrNew, insert)
    ensures base < cs[i].base ==> nrNew < Count(rs, obase, end)
  {
    TakeOne(cs, i);
  }

  /** One turn of the loop of Pass. */
  lemma PassStep(rs: seq<Region>, obase: int, cs: seq<Region>, i: nat, base: int, end: int, nrNew: nat, insert: bool)
    requires i < |cs| && cs[i].base < end && 0 <= obase && 0 <= base && end <= PHYS_ADDR_MAX
    requires Passed(rs, obase, cs, i, base, end, nrNew, insert)
    ensures var r := cs[i];
      var base' := if End(r) > base then Min(End(r), end) else base;
      if !(base < r.base && base < End(r)) then Passed(rs, obase, cs, i + 1, base', end, nrNew, insert)
      else if insert then Passed(rs, obase, With(cs, i, Region(base, r.base - base)), i + 2, base', end, nrNew + 1,
        insert)
      else Passed(rs, obase, cs, i + 1, base', end, nrNew + 1, insert)
  {
    if End(cs[i]) <= base {
      PassOver(rs, obase, cs, i, base, end, nrNew, insert);
    } else if cs[i].base <= base {
      PassInside(rs, obase, cs, i, base, end, nrNew, insert);
    } else {
      PassBefore(rs, obase, cs, i, base, end, nrNew, insert);
    }
  }

  lemma PassEnd(rs: seq<Region>, obase: int, cs: seq<Region>, i: nat, base: int, end: int, nrNew: nat, insert: bool)
    requires i <= |cs| && (i < |cs| ==> cs[i].base >= end) && 0 <= obase && 0 <= base && end <= PHYS_ADDR_MAX
    requires Passed(rs, obase, cs, i, base, end, nrNew, insert)
    ensures Count(cs[i..], base, end) == |Piece(base, end)| && Count(rs, obase, end) == nrNew + |Piece(base, end)|
    ensures insert ==> Inserted(rs, obase, end) == cs[..i] + Piece(base, end) + cs[i..]
    ensures insert && base >= end ==> Inserted(rs, obase, end) == cs
  {
    assert cs[..i] + cs[i..] == cs;
  }

  // ---------------------------------------------------------------- the iterator

  const ULLONG_MAX: U64 := 0xffff_ffff_ffff_ffff

  /** Both indices of the iterator in one word: (uint32_t)idx_a | (uint64_t)idx_b << 32. */
  function Pack(ia: int, ib: int): U64 {
    Join(Mod32(ib), Mod32(ia))
  }

  function IndexA(idx: U64): int {
    Signed32(Lo(idx))
  }

  function IndexB(idx: U64): int {
    Signed32(Hi(idx))
  }

  lemma PackIndices(ia: int, ib: int)
    requires -1 <= ia < 0x8000_0000 && 0 <= ib < 0x8000_0000
    ensures Pack(ia, ib) != ULLONG_MAX && IndexA(Pack(ia, ib)) == ia && IndexB(Pack(ia, ib)) == ib
  {
  }

  /** The indices a call of the iterator starts from. */
  function StartA(idx: U64, na: nat): int {
    if idx == ULLONG_MAX then na - 1 else IndexA(idx)
  }

  function StartB(idx: U64, nb: nat): int {
    if idx == ULLONG_MAX then nb else IndexB(idx)
  }

  /** The ranges that calls starting from `idx` still yield. */
  ghost function Yields(mem: seq<Region>, res: seq<Region>, idx: U64): seq<Range>
    requires StartA(idx, |mem|) < |mem| && StartB(idx, |res|) <= |res|
  {
    FreeFrom(mem, Gaps(res), StartA(idx, |mem|) + 1, StartB(idx, |res|) + 1)
  }

  /** The inner loop: the areas before each reservation, from `ib0` down, up to the first that
      meets region `m` or lies below it. */
  method ScanGaps(m: Region, b: MemblockType, ib0: int, ghost gs: seq<Range>)
    returns (ib: int, rStart: int, rEnd: int, hit: bool)
    requires b.Shape() && ib0 <= b.cnt && gs == Gaps(b.Contents())
    ensures ib <= ib0 && (-1 <= ib0 ==> -1 <= ib) && forall j :: ib < j <= ib0 && 0 <= j ==>
      End(m) <= gs[j].start && m.base < gs[j].end
    ensures if hit then 0 <= ib && gs[ib] == Range(rStart, rEnd) && rEnd > m.base && End(m) > rStart
            else ib < 0 || gs[ib].end <= m.base
  {
    ib, rStart, rEnd, hit := ib0, 0, 0, false;
    while ib >= 0
      invariant ib <= ib0 && (-1 <= ib0 ==> -1 <= ib)
      invariant forall j :: ib < j <= ib0 && 0 <= j ==> End(m) <= gs[j].start && m.base < gs[j].end
      decreases ib
    {
      rStart := if ib != 0 then End(b.regions[ib - 1]) else 0;
      rEnd := if ib < b.cnt then b.regions[ib].base else PHYS_ADDR_MAX;
      assert Range(rStart, rEnd) == gs[ib];
      if rEnd <= m.base {
        return;
      }
      if End(m) > rStart {
        hit := true;
        return;
      }
      ib := ib - 1;
    }
  }

  /** Gaps above the region add nothing. */
  lemma {:induction false} FreePast(mem: seq<Region>, gs: seq<Range>, na: int, nb: int, nb': int)
    requires 0 < na <= |mem| && nb' <= nb <= |gs| && (nb > 0 ==> nb' >= 0)
    requires forall j :: nb' <= j < nb && 0 <= j ==> End(mem[na - 1]) <= gs[j].start && mem[na - 1].base < gs[j].end
    ensures FreeFrom(mem, gs, na, nb) == FreeFrom(mem, gs, na, nb') || nb <= 0
    decreases nb
  {
    if nb > 0 && nb' < nb {
      FreePast(mem, gs, na, nb - 1, nb');
    }
  }

  lemma FreeSkip(mem: seq<Region>, gs: seq<Range>, na: int, nb: int)
    requires 0 < na <= |mem| && nb <= |gs| && (nb > 0 ==> gs[nb - 1].end <= mem[na - 1].base)
    ensures FreeFrom(mem, gs, na, nb) == FreeFrom(mem, gs, na - 1, nb)
  {
  }

  lemma FreeHit(mem: seq<Region>, gs: seq<Range>, na: int, nb: int)
    requires 0 < na <= |mem| && 0 < nb <= |gs| && gs[nb - 1].end > mem[na - 1].base
    requires End(mem[na - 1]) > gs[nb - 1].start
    ensures var m, g, fs := mem[na - 1], gs[nb - 1], FreeFrom(mem, gs, na, nb);
      && fs != [] && fs[0] == Range(Max(m.base, g.start), Min(End(m), g.end))
      && fs[1..] == if m.base >= g.start then FreeFrom(mem, gs, na - 1, nb) else FreeFrom(mem, gs, na, nb - 1)
  {
  }

  /** The iterator's word for the indices it stopped at. */
  method GoOnFrom(ia: int, ib: int, ghost mem: seq<Region>, ghost res: seq<Region>) returns (next: U64)
    requires -1 <= ia < |mem| < 0x8000_0000 && 0 <= ib <= |res| < 0x8000_0000
    ensures next != ULLONG_MAX && IndexA(next) < |mem| && 0 <= IndexB(next) <= |res|
    ensures Yields(mem, res, next) == FreeFrom(mem, Gaps(res), ia + 1, ib + 1)
  {
    PackIndices(ia, ib);
    next := Pack(ia, ib);
  }

  /** One turn of the outer loop: region `ia` against the gaps from `ib0` down. */
  method ScanRegion(m: Region, b: MemblockType, ia: nat, ib0: int, ghost mem: seq<Region>, ghost gs: seq<Range>)
    returns (hit: bool, start: int, end: int, ja: int, jb: int)
    requires b.Shape() && gs == Gaps(b.Contents()) && ia < |mem| && m == mem[ia] && -1 <= ib0 < |gs|
    ensures -1 <= ja <= ia && -1 <= jb <= ib0 && (hit ==> jb >= 0) && (!hit ==> ja < ia)
    ensures Turn(mem, gs, ia, ib0, hit, Range(start, end), ja, jb)
  {
    var rStart, rEnd;
    assert gs[0].start == 0;
    ja, start, end := ia, 0, 0;
    jb, rStart, rEnd, hit := ScanGaps(m, b, ib0, gs);
    ghost var ib := jb;
    if hit {
      start, end := Max(m.base, rStart), Min(End(m), rEnd);
      if m.base >= rStart {
        ja := ja - 1;
      } else {
        jb := jb - 1;
      }
    } else {
      ja := ja - 1;
    }
    TurnIs(mem, gs, ia, ib0, ib, hit, Range(start, end), ja, jb);
  }

  /** What a turn of the outer loop does to the ranges still to come. */
  ghost predicate Turn(mem: seq<Region>, gs: seq<Range>, ia: nat, ib0: int, hit: bool, r: Range, ja: int, jb: int)
    requires ia < |mem| && ib0 < |gs| && ja < |mem| && jb < |gs|
  {
    var fs, rest := FreeFrom(mem, gs, ia + 1, ib0 + 1), FreeFrom(mem, gs, ja + 1, jb + 1);
    if hit then |fs| > 0 && fs[0] == r && fs[1..] == rest else fs == rest
  }

  lemma TurnIs(mem: seq<Region>, gs: seq<Range>, ia: nat, ib0: int, ib: int, hit: bool, r: Range, ja: int, jb: int)
    requires ia < |mem| && -1 <= ib <= ib0 < |gs|
    requires forall j :: ib < j <= ib0 && 0 <= j ==> End(mem[ia]) <= gs[j].start && mem[ia].base < gs[j].end
    requires if hit then
        && 0 <= ib && gs[ib].end > mem[ia].base && End(mem[ia]) > gs[ib].start
        && r == Range(Max(mem[ia].base, gs[ib].start), Min(End(mem[ia]), gs[ib].end))
        && (if mem[ia].base >= gs[ib].start then ja == ia - 1 && jb == ib else ja == ia && jb == ib - 1)
      else (ib < 0 || gs[ib].end <= mem[ia].base) && ja == ia - 1 && jb == ib
    ensures Turn(mem, gs, ia, ib0, hit, r, ja, jb)
  {
    FreePast(mem, gs, ia + 1, ib0 + 1, ib + 1);
    if hit {
      FreeHit(mem, gs, ia + 1, ib + 1);
    } else {
      FreeSkip(mem, gs, ia + 1, ib + 1);
    }
  }

  /** __next_mem_range_rev: the next range of `a` that is not in `b`, and the indices to go on
      from. */
  method NextMemRangeRev(idx: U64, a: MemblockType, b: MemblockType, ghost mem: seq<Region>, ghost res: seq<Region>)
    returns (next: U64, start: int, end: int)
    requires a.Shape() && b.Shape() && mem == a.Contents() && res == b.Contents()
    requires StartA(idx, |mem|) < |mem| && 0 <= StartB(idx, |res|) <= |res|
    ensures var fs := Yields(mem, res, idx);
      if fs == [] then next == ULLONG_MAX
      else
        && next != ULLONG_MAX && IndexA(next) < |mem| && 0 <= IndexB(next) <= |res|
        && Range(start, end) == fs[0] && Yields(mem, res, next) == fs[1..]
  {
    var ia, ib := StartA(idx, a.cnt), StartB(idx, b.cnt);
    ghost var gs := Gaps(res);
    ghost var fs := FreeFrom(mem, gs, ia + 1, ib + 1);
    start, end := 0, 0;
    var hit := false;
    while ia >= 0
      invariant ia < |mem| && -1 <= ib < |gs| && FreeFrom(mem, gs, ia + 1, ib + 1) == fs
      decreases ia
    {
      hit, start, end, ia, ib := ScanRegion(a.regions[ia], b, ia, ib, mem, gs);
      if hit {
        next := GoOnFrom(ia, ib, mem, res);
        return;
      }
    }
    next := ULLONG_MAX;
  }

  // ---------------------------------------------------------------- allocation

  class Memblock {
    const memory: MemblockType
    const reserved: MemblockType

    constructor (max: nat)
      requires 0 < max < 0x8000_0000
      ensures Valid() && fresh(memory) && fresh(reserved) && fresh(memory.regions) && fresh(reserved.regions)
    {
      memory := new MemblockType(max);
      reserved := new MemblockType(max);
    }

    ghost predicate Valid()
      reads this, memory, reserved, memory.regions, reserved.regions
    {
      && memory.Valid() && reserved.Valid()
      && memory != reserved && memory.regions != reserved.regions
    }

    ghost function State(): Memory
      reads this, memory, reserved, memory.regions, reserved.regions
      requires Valid()
    {
      Memory(memory.Contents(), reserved.Contents())
    }

    /** memblock_find_in_range_node. */
    method FindInRangeNode(size: Phys, align: Phys) returns (found: Phys)
      requires Valid() && align > 0
      ensures found == Find(FreeRanges(memory.Contents(), reserved.Contents()), size, align)
    {
      ghost var mem, res := memory.Contents(), reserved.Contents();
      ghost var all := FreeRanges(mem, res);
      FoundFits(State(), size, align);
      var idx, start, end := NextMemRangeRev(ULLONG_MAX, memory, reserved, mem, res);
      ghost var fs := all;
      while idx != ULLONG_MAX
        invariant Find(all, size, align) == Find(fs, size, align)
        invariant if idx == ULLONG_MAX then fs == []
          else
            && IndexA(idx) < |mem| && 0 <= IndexB(idx) <= |res| && |fs| > 0 && fs[0] == Range(start, end)
            && Yields(mem, res, idx) == fs[1..]
        decreases |fs|
      {
        if end >= size {
          var cand := end - size - (end - size) % align;
          if cand >= start {
            return cand;
          }
        }
        fs := fs[1..];
        idx, start, end := NextMemRangeRev(idx, memory, reserved, mem, res);
      }
      return 0;
    }

    /** memblock_add and memblock_reserve; false is the BUG_ON that the array is full. */
    method Add(base: Phys, size: Phys) returns (ok: bool)
      requires Valid()
      modifies memory, memory.regions
      ensures Valid() && reserved.Contents() == old(reserved.Contents())
      ensures ok <==> Fitting(old(memory.Contents()), base, size, memory.max)
      ensures State() == if ok then Apply(old(State()), Call.Add(base, size)).after else old(State())
    {
      ok := memory.AddRange(base, size);
    }

    method Reserve(base: Phys, size: Phys) returns (ok: bool)
      requires Valid()
      modifies reserved, reserved.regions
      ensures Valid() && memory.Contents() == old(memory.Contents())
      ensures ok <==> Fitting(old(reserved.Contents()), base, size, reserved.max)
      ensures State() == if ok then Apply(old(State()), Call.Reserve(base, size)).after else old(State())
    {
      ok := reserved.AddRange(base, size);
    }

    /** memblock_alloc; false is the panic, either for want of a free block or of an entry to
        reserve it in. */
    method Alloc(size: Phys, align0: Phys) returns (ok: bool, found: Phys)
      requires Valid()
      modifies reserved, reserved.regions
      ensures Valid()
      ensures var r := Apply(old(State()), Call.Alloc(size, align0));
        if ok then r == Done(State(), [Block(found, size, Alignment(align0))])
        else
          && State() == old(State())
          && (r.Done? ==> !Fitting(old(reserved.Contents()), r.blocks[0].start, size, reserved.max))
    {
      var align := if align0 == 0 then SMP_CACHE_BYTES else align0;
      found := FindInRangeNode(size, align);
      ok := false;
      if found != 0 {
        ok := reserved.AddRange(found, size);
      }
    }
  }
}
