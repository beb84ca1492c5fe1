/** What memblock_add, memblock_reserve and memblock_alloc do, in terms of their arguments. */
module MemblockEffects {
  import opened MemblockSpec
  import opened MemblockFree
  import opened Memblock

  // ---------------------------------------------------------------- adding

  /** The range is cut off where addresses end. */
  predicate InCapped(a: int, base: Phys, size: Phys) {
    base <= a < base + if size < PHYS_ADDR_MAX - base then size else PHYS_ADDR_MAX - base
  }

  lemma AddEffect(rs: seq<Region>, base: Phys, size: Phys, a: int)
    requires Canonical(rs)
    ensures Canonical(Added(rs, base, size))
    ensures Covers(Added(rs, base, size), a) <==> Covers(rs, a) || InCapped(a, base, size)
  {
    AddedIsUnion(rs, base, size);
  }

  /** memblock_add grows memory and memblock_reserve what is reserved, each by its range. */
  lemma AddCalls(s: Memory, base: Phys, size: Phys, a: int)
    requires s.Valid()
    ensures var r := Apply(s, Call.Add(base, size));
      && r.Done? && r.blocks == [] && r.after.reserved == s.reserved && Canonical(r.after.memory)
      && (Covers(r.after.memory, a) <==> Covers(s.memory, a) || InCapped(a, base, size))
    ensures var r := Apply(s, Call.Reserve(base, size));
      && r.Done? && r.blocks == [] && r.after.memory == s.memory && Canonical(r.after.reserved)
      && (Covers(r.after.reserved, a) <==> Covers(s.reserved, a) || InCapped(a, base, size))
  {
    AddEffect(s.memory, base, size, a);
    AddEffect(s.reserved, base, size, a);
  }

  // ---------------------------------------------------------------- when the array is full

  /** Where something is inserted, an address was not covered. */
  lemma {:induction false} NewIsUncovered(rs: seq<Region>, base: int, end: int, lo: int) returns (a: int)
    requires Ordered(rs) && AtLeast(rs, lo) && 0 <= base <= end <= PHYS_ADDR_MAX && Count(rs, base, end) > 0
    ensures base <= a < end && !Covers(rs, a)
    decreases |rs|
  {
    if rs == [] || rs[0].base >= end {
      a := base;
      assert AtLeast(rs, end);
      CoversAtLeast(rs, end, base);
    } else {
      OrderedTail(rs);
      if End(rs[0]) > base && base < rs[0].base {
        a := base;
        CoversAtLeast(rs[1..], End(rs[0]), base);
      } else {
        a := NewIsUncovered(rs[1..], if End(rs[0]) <= base then base else Min(End(rs[0]), end), end, End(rs[0]));
      }
    }
  }

  /** Nothing is inserted just when the range was covered already. */
  lemma NothingNew(rs: seq<Region>, base: int, end: int, a: int)
    requires Ordered(rs) && 0 <= base <= a < end <= PHYS_ADDR_MAX && Count(rs, base, end) == 0
    ensures Covers(rs, a)
  {
    InsertedFits(rs, base, end);
    NothingInserted(rs, base, end);
    assert Covers(Inserted(rs, base, end), a);
  }

  ghost predicate AllThere(rs: seq<Region>, base: Phys, size: Phys) {
    forall a {:trigger InCapped(a, base, size)} :: InCapped(a, base, size) ==> Covers(rs, a)
  }

  ghost predicate NoneThere(rs: seq<Region>) {
    forall a {:trigger Covers(rs, a)} :: !Covers(rs, a)
  }

  lemma NothingNewIs(rs: seq<Region>, base: Phys, size: Phys, end: int)
    requires Ordered(rs) && end == base + Cap(base, size)
    ensures Count(rs, base, end) == 0 <==> AllThere(rs, base, size)
  {
    if Count(rs, base, end) == 0 {
      forall a {:trigger InCapped(a, base, size)} | InCapped(a, base, size) ensures Covers(rs, a) {
        NothingNew(rs, base, end, a);
      }
    } else {
      var a := NewIsUncovered(rs, base, end, 0);
      assert InCapped(a, base, size);
    }
  }

  lemma NoneThereIs(rs: seq<Region>)
    requires Canonical(rs)
    ensures NoneThere(rs) <==> rs[0].size == 0
  {
    CanonicalOrdered(rs);
    if rs[0].size == 0 {
      assert rs[1..] == [];
      assert forall a {:trigger Covers(rs, a)} :: !Covers(rs, a);
    } else {
      assert RegionOk(rs[0]);
      assert Covers(rs, rs[0].base);
    }
  }

  /** The array has room for an addition just when the range is empty or covered already, or it is
      the first one, or all regions with the new ones between them, before any merging, are at most max. */
  lemma FittingIs(rs: seq<Region>, base: Phys, size: Phys, max: nat)
    requires Canonical(rs)
    ensures Fitting(rs, base, size, max) <==>
      AllThere(rs, base, size) || NoneThere(rs) || |Inserted(rs, base, base + Cap(base, size))| <= max
  {
    var s := Cap(base, size);
    NoneThereIs(rs);
    CanonicalOrdered(rs);
    CountInserted(rs, base, base + s);
    if rs[0].size != 0 {
      NothingNewIs(rs, base, size, base + s);
    }
    if s == 0 {
      assert AllThere(rs, base, size);
    }
  }

  // ---------------------------------------------------------------- allocating

  /** The alignment a caller gets: the one asked for, or 64 if none. */
  predicate AlignedFor(c: nat, align: Phys) {
    if align > 0 then c % align == 0 else c % 64 == 0
  }

  /** Address `c` would do: aligned as asked, and all of the block memory that is not reserved. */
  ghost predicate WouldDo(s: Memory, size: nat, align: Phys, c: nat) {
    AlignedFor(c, align) && forall a :: c <= a < c + size ==> Covers(s.memory, a) && !Covers(s.reserved, a)
  }

  lemma WouldDoIs(s: Memory, size: nat, align: Phys, c: nat)
    ensures WouldDo(s, size, align, c) <==> Suitable(s.memory, s.reserved, size, Alignment(align), c)
  {
    forall a ensures Free(s.memory, s.reserved, a) <==> Covers(s.memory, a) && !Covers(s.reserved, a) {
    }
  }

  /** memblock_alloc hands out the highest address that would do, reserves exactly the block, and
      panics just when no positive address would do. */
  lemma AllocEffect(s: Memory, size: Phys, align: Phys)
    requires s.Valid() && size > 0
    ensures var r := Apply(s, Call.Alloc(size, align));
      match r
      case Panic => forall c: nat :: WouldDo(s, size, align, c) ==> c == 0
      case Done(s', bs) =>
        && |bs| == 1 && bs[0].size == size && bs[0].start > 0 && WouldDo(s, size, align, bs[0].start)
        && (forall c: nat :: WouldDo(s, size, align, c) ==> c <= bs[0].start)
        && s'.memory == s.memory && Canonical(s'.reserved)
        && forall a :: Covers(s'.reserved, a) <==> Covers(s.reserved, a) || bs[0].start <= a < bs[0].start + size
  {
    var al := Alignment(align);
    var f := Find(FreeRanges(s.memory, s.reserved), size, al);
    FindIsHighest(s.memory, s.reserved, size, al);
    FoundFits(s, size, al);
    forall c: nat ensures WouldDo(s, size, align, c) <==> Suitable(s.memory, s.reserved, size, al, c) {
      WouldDoIs(s, size, align, c);
    }
    if f != 0 {
      AddedIsUnion(s.reserved, f, size);
    }
  }

  /** An empty block is aligned as asked too. */
  lemma EmptyBlock(s: Memory, align: Phys)
    requires s.Valid() && Apply(s, Call.Alloc(0, align)).Done?
    ensures var bs := Apply(s, Call.Alloc(0, align)).blocks;
      |bs| == 1 && bs[0].start > 0 && AlignedFor(bs[0].start, align)
  {
    FreeRangesAre(s.memory, s.reserved);
    FindSuitable(FreeRanges(s.memory, s.reserved), s.memory, s.reserved, 0, Alignment(align));
  }

  /** The allocations among the calls, in order. */
  function Requests(calls: seq<Call>): seq<Call> {
    if calls == [] then []
    else (if calls[0].Alloc? then [calls[0]] else []) + Requests(calls[1..])
  }

  predicate Meets(b: Block, c: Call) {
    c.Alloc? && b.size == c.bytes && AlignedFor(b.start, c.align)
  }

  lemma ApplyMeets(s: Memory, c: Call)
    requires s.Valid() && Apply(s, c).Done?
    ensures var bs := Apply(s, c).blocks; if c.Alloc? then |bs| == 1 && Meets(bs[0], c) else bs == []
  {
    if c.Alloc? {
      if c.bytes == 0 {
        EmptyBlock(s, c.align);
      } else {
        AllocEffect(s, c.bytes, c.align);
      }
    }
  }

  /** Over any sequence of calls the blocks handed out are one for each request, of the size and
      alignment asked for; they lie inside memory, clear of what was reserved, and never overlap. */
  lemma {:induction false} BlocksAsAsked(s: Memory, calls: seq<Call>)
    requires s.Valid() && Run(s, calls).Done?
    ensures var r, rq := Run(s, calls), Requests(calls);
      && |r.blocks| == |rq| && (forall i :: 0 <= i < |rq| ==> Meets(r.blocks[i], rq[i]))
      && AllProper(r.blocks, r.after.memory, s.reserved) && PairwiseDisjoint(r.blocks)
    decreases |calls|
  {
    BlocksNeverOverlap(s, calls);
    if calls != [] {
      ApplyKeepsValid(s, calls[0]);
      ApplyMeets(s, calls[0]);
      var first := Apply(s, calls[0]);
      BlocksAsAsked(first.after, calls[1..]);
      var rest, rq := Run(first.after, calls[1..]).blocks, Requests(calls[1..]);
      MeetsAll(first.blocks, if calls[0].Alloc? then [calls[0]] else [], rest, rq);
    }
  }

  lemma MeetsAll(bs: seq<Block>, cs: seq<Call>, bs': seq<Block>, cs': seq<Call>)
    requires |bs| == |cs| && |bs'| == |cs'|
    requires forall i :: 0 <= i < |cs| ==> Meets(bs[i], cs[i])
    requires forall i :: 0 <= i < |cs'| ==> Meets(bs'[i], cs'[i])
    ensures forall i :: 0 <= i < |cs + cs'| ==> Meets((bs + bs')[i], (cs + cs')[i])
  {
  }
}
