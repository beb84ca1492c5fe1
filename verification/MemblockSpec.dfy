/** Sorted arrays of memory regions as kernel/memblock.c keeps them, and the sets of addresses
    they stand for. */
module MemblockSpec {

  const PHYS_ADDR_MAX := 0xffff_ffff_ffff_ffff

  type Phys = a: int | 0 <= a <= PHYS_ADDR_MAX

  datatype Region = Region(base: Phys, size: Phys)

  /** The first address past a region. */
  const End: Region -> int := (r: Region) => r.base + r.size

  function Min(x: int, y: int): int {
    if x < y then x else y
  }

  function Max(x: int, y: int): int {
    if x < y then y else x
  }

  predicate In(a: int, r: Region) {
    r.base <= a < End(r)
  }

  /** Some region covers address `a`. */
  predicate Covers(rs: seq<Region>, a: int) {
    |rs| > 0 && (In(a, rs[0]) || Covers(rs[1..], a))
  }

  function Sum(rs: seq<Region>): nat {
    if rs == [] then 0 else rs[0].size + Sum(rs[1..])
  }

  ghost predicate RegionOk(r: Region) {
    r.size > 0 && End(r) <= PHYS_ADDR_MAX
  }

  /** Nonempty regions in ascending order, without overlap; neighbours may touch. */
  ghost predicate Ordered(rs: seq<Region>) {
    && (forall i {:trigger RegionOk(rs[i])} :: 0 <= i < |rs| ==> RegionOk(rs[i]))
    && (forall i, j {:trigger rs[i], rs[j]} :: 0 <= i < j < |rs| ==> End(rs[i]) <= rs[j].base)
  }

  /** Neighbours do not touch either. */
  ghost predicate Apart(rs: seq<Region>) {
    forall i, j {:trigger rs[i], rs[j]} :: 0 <= i < j < |rs| ==> End(rs[i]) < rs[j].base
  }

  /** The array before anything is added: one empty entry. */
  predicate IsEmpty(rs: seq<Region>) {
    |rs| == 1 && rs[0].base == 0 && rs[0].size == 0
  }

  /** What every call leaves behind: sorted, disjoint, minimal. */
  ghost predicate Canonical(rs: seq<Region>) {
    IsEmpty(rs) || (|rs| > 0 && Ordered(rs) && Apart(rs))
  }

  ghost predicate AtLeast(rs: seq<Region>, lo: int) {
    forall i {:trigger rs[i]} :: 0 <= i < |rs| ==> lo <= rs[i].base
  }

  lemma OrderedTail(rs: seq<Region>)
    requires |rs| > 0 && Ordered(rs)
    ensures Ordered(rs[1..]) && RegionOk(rs[0]) && AtLeast(rs[1..], End(rs[0]))
  {
    var t := rs[1..];
    assert RegionOk(rs[0]);
    forall i {:trigger RegionOk(t[i])} | 0 <= i < |t| ensures RegionOk(t[i]) {
      assert RegionOk(rs[i + 1]);
    }
  }

  lemma OrderedCons(r: Region, rs: seq<Region>)
    requires RegionOk(r) && Ordered(rs) && AtLeast(rs, End(r))
    ensures Ordered([r] + rs)
  {
    var t := [r] + rs;
    forall i {:trigger RegionOk(t[i])} | 0 <= i < |t| ensures RegionOk(t[i]) {
      assert i > 0 ==> t[i] == rs[i - 1] && RegionOk(rs[i - 1]);
    }
  }

  lemma CoversCons(r: Region, rs: seq<Region>, a: int)
    ensures Covers([r] + rs, a) <==> In(a, r) || Covers(rs, a)
  {
    assert ([r] + rs)[1..] == rs;
  }

  lemma SumCons(r: Region, rs: seq<Region>)
    ensures Sum([r] + rs) == r.size + Sum(rs)
  {
    assert ([r] + rs)[1..] == rs;
  }

  /** Nothing below the least base is covered. */
  lemma {:induction false} CoversAtLeast(rs: seq<Region>, lo: int, a: int)
    requires AtLeast(rs, lo) && a < lo
    ensures !Covers(rs, a)
    decreases |rs|
  {
    if |rs| > 0 {
      CoversAtLeast(rs[1..], lo, a);
    }
  }

  lemma {:induction false} CoversIndex(rs: seq<Region>, a: int)
    ensures Covers(rs, a) <==> exists i :: 0 <= i < |rs| && In(a, rs[i])
    decreases |rs|
  {
    if |rs| > 0 {
      CoversIndex(rs[1..], a);
      if Covers(rs[1..], a) {
        var i :| 0 <= i < |rs[1..]| && In(a, rs[1..][i]);
        assert In(a, rs[i + 1]);
      }
      if i :| 0 <= i < |rs| && In(a, rs[i]) {
        if i > 0 {
          assert In(a, rs[1..][i - 1]);
        }
      }
    }
  }

  // ---------------------------------------------------------------- the insertion pass

  function Piece(base: int, end: int): (ps: seq<Region>)
    requires 0 <= base && end <= PHYS_ADDR_MAX
  {
    if base < end then [Region(base, end - base)] else []
  }

  /** The array after the parts of [base, end) that `rs` leaves out have been put in. */
  function Inserted(rs: seq<Region>, base: int, end: int): seq<Region>
    requires 0 <= base && end <= PHYS_ADDR_MAX
  {
    if rs == [] || rs[0].base >= end then Piece(base, end) + rs
    else if End(rs[0]) <= base then [rs[0]] + Inserted(rs[1..], base, end)
    else Piece(base, rs[0].base) + [rs[0]] + Inserted(rs[1..], Min(End(rs[0]), end), end)
  }

  /** How many parts that are: the counting pass. */
  function Count(rs: seq<Region>, base: int, end: int): nat
    requires 0 <= base && end <= PHYS_ADDR_MAX
  {
    if rs == [] || rs[0].base >= end then |Piece(base, end)|
    else if End(rs[0]) <= base then Count(rs[1..], base, end)
    else |Piece(base, rs[0].base)| + Count(rs[1..], Min(End(rs[0]), end), end)
  }

  lemma {:induction false} CountInserted(rs: seq<Region>, base: int, end: int)
    requires 0 <= base && end <= PHYS_ADDR_MAX
    ensures |Inserted(rs, base, end)| == |rs| + Count(rs, base, end)
    decreases |rs|
  {
    if rs != [] && rs[0].base < end {
      CountInserted(rs[1..], if End(rs[0]) <= base then base else Min(End(rs[0]), end), end);
    }
  }

  /** Nothing to insert: the array is as it was. */
  lemma {:induction false} NothingInserted(rs: seq<Region>, base: int, end: int)
    requires 0 <= base && end <= PHYS_ADDR_MAX && Count(rs, base, end) == 0
    ensures Inserted(rs, base, end) == rs
    decreases |rs|
  {
    if rs != [] && rs[0].base < end {
      NothingInserted(rs[1..], if End(rs[0]) <= base then base else Min(End(rs[0]), end), end);
      assert rs == [rs[0]] + rs[1..];
    }
  }

  lemma PieceCons(base: int, end: int, rs: seq<Region>, lo: int)
    requires 0 <= base <= end <= PHYS_ADDR_MAX && Ordered(rs) && AtLeast(rs, end) && lo <= base
    ensures Ordered(Piece(base, end) + rs) && AtLeast(Piece(base, end) + rs, lo)
    ensures forall a :: Covers(Piece(base, end) + rs, a) <==> base <= a < end || Covers(rs, a)
    ensures Sum(Piece(base, end) + rs) == (end - base) + Sum(rs)
  {
    if base < end {
      var r := Region(base, end - base);
      OrderedCons(r, rs);
      SumCons(r, rs);
      forall a ensures Covers([r] + rs, a) <==> base <= a < end || Covers(rs, a) {
        CoversCons(r, rs, a);
      }
    } else {
      assert Piece(base, end) + rs == rs;
    }
  }

  /** `all` covers what `rs` does, and [base, end). */
  ghost predicate IsUnion(all: seq<Region>, rs: seq<Region>, base: int, end: int) {
    forall a {:trigger Covers(all, a)} {:trigger Covers(rs, a)} :: Covers(all, a) <==> Covers(rs, a) || base <= a < end
  }

  /** The first region is passed by or ends inside the range. */
  lemma UnionCons(r: Region, t: seq<Region>, done: seq<Region>, base: int, end: int)
    requires IsUnion(done, t, base, end)
    ensures IsUnion([r] + done, [r] + t, base, end)
  {
    forall a ensures Covers([r] + done, a) <==> Covers([r] + t, a) || base <= a < end {
      CoversCons(r, done, a);
      CoversCons(r, t, a);
    }
  }

  lemma BeforeCovers(base: int, r: Region, done: seq<Region>, a: int)
    requires 0 <= base
    ensures Covers(Piece(base, r.base) + [r] + done, a) <==> base <= a < r.base || In(a, r) || Covers(done, a)
  {
    CoversCons(r, done, a);
    assert Piece(base, r.base) + [r] + done == Piece(base, r.base) + ([r] + done);
    if base < r.base {
      CoversCons(Region(base, r.base - base), [r] + done, a);
    } else {
      assert Piece(base, r.base) + ([r] + done) == [r] + done;
    }
  }

  lemma AtLeastCons(r: Region, rs: seq<Region>, lo: int)
    requires lo <= r.base && AtLeast(rs, r.base)
    ensures AtLeast([r] + rs, lo)
  {
  }

  lemma BeforeOrdered(base: int, r: Region, done: seq<Region>, lo: int)
    requires RegionOk(r) && Ordered(done) && AtLeast(done, End(r)) && 0 <= base && lo <= base && lo <= r.base
    ensures Ordered(Piece(base, r.base) + [r] + done) && AtLeast(Piece(base, r.base) + [r] + done, lo)
  {
    OrderedCons(r, done);
    assert Piece(base, r.base) + [r] + done == Piece(base, r.base) + ([r] + done);
    AtLeastCons(r, done, r.base);
    if base < r.base {
      OrderedCons(Region(base, r.base - base), [r] + done);
      AtLeastCons(Region(base, r.base - base), [r] + done, lo);
    } else {
      AtLeastCons(r, done, lo);
      assert Piece(base, r.base) + ([r] + done) == [r] + done;
    }
  }

  lemma InsertedAt(r: Region, t: seq<Region>, done: seq<Region>, base: int, end: int)
    requires RegionOk(r) && 0 <= base < End(r) && r.base < end <= PHYS_ADDR_MAX
    requires IsUnion(done, t, Min(End(r), end), end)
    ensures IsUnion(Piece(base, r.base) + [r] + done, [r] + t, base, end)
  {
    var all := Piece(base, r.base) + [r] + done;
    forall a ensures Covers(all, a) <==> Covers([r] + t, a) || base <= a < end {
      BeforeCovers(base, r, done, a);
      CoversCons(r, t, a);
    }
  }

  /** The insertion pass is a set union that keeps the order. */
  lemma {:induction false} InsertedIsUnion(rs: seq<Region>, base: int, end: int, lo: int)
    requires Ordered(rs) && 0 <= base <= end <= PHYS_ADDR_MAX && lo <= base && AtLeast(rs, lo)
    ensures Ordered(Inserted(rs, base, end)) && AtLeast(Inserted(rs, base, end), lo)
    ensures IsUnion(Inserted(rs, base, end), rs, base, end)
    decreases |rs|
  {
    if rs == [] || rs[0].base >= end {
      assert AtLeast(rs, end);
      PieceCons(base, end, rs, lo);
    } else {
      OrderedTail(rs);
      var r, t := rs[0], rs[1..];
      assert rs == [r] + t;
      if End(r) <= base {
        InsertedIsUnion(t, base, end, End(r));
        UnionCons(r, t, Inserted(t, base, end), base, end);
        OrderedCons(r, Inserted(t, base, end));
      } else {
        if End(r) <= end {
          InsertedIsUnion(t, End(r), end, End(r));
        } else {
          InsertedPast(t, end);
        }
        InsertedAt(r, t, Inserted(t, Min(End(r), end), end), base, end);
        BeforeOrdered(base, r, Inserted(t, Min(End(r), end), end), lo);
      }
    }
  }

  /** Regions past the end are left alone. */
  lemma InsertedPast(t: seq<Region>, end: int)
    requires Ordered(t) && 0 <= end <= PHYS_ADDR_MAX && AtLeast(t, end)
    ensures Inserted(t, end, end) == t
  {
    assert Piece(end, end) + t == t;
  }

  // ---------------------------------------------------------------- merging

  function Merged(rs: seq<Region>): seq<Region>
    requires Sum(rs) <= PHYS_ADDR_MAX
    decreases |rs|
  {
    if |rs| < 2 then rs
    else if End(rs[0]) != rs[1].base then
      [rs[0]] + Merged(rs[1..])
    else
      SumTwo(rs);
      Merged([Region(rs[0].base, rs[0].size + rs[1].size)] + rs[2..])
  }

  lemma SumTwo(rs: seq<Region>)
    requires |rs| >= 2
    ensures Sum(rs) == rs[0].size + rs[1].size + Sum(rs[2..])
    ensures rs[0].size + rs[1].size <= PHYS_ADDR_MAX ==>
      Sum([Region(rs[0].base, rs[0].size + rs[1].size)] + rs[2..]) == Sum(rs)
  {
    assert rs[1..][1..] == rs[2..];
    if rs[0].size + rs[1].size <= PHYS_ADDR_MAX {
      SumCons(Region(rs[0].base, rs[0].size + rs[1].size), rs[2..]);
    }
  }

  /** Disjoint regions below the maximum do not add up to more. */
  lemma {:induction false} SumFits(rs: seq<Region>, lo: int)
    requires Ordered(rs) && AtLeast(rs, lo) && 0 <= lo <= PHYS_ADDR_MAX
    ensures Sum(rs) <= PHYS_ADDR_MAX - lo
    decreases |rs|
  {
    if rs != [] {
      OrderedTail(rs);
      SumFits(rs[1..], End(rs[0]));
    }
  }

  function Joined(rs: seq<Region>): seq<Region>
    requires |rs| >= 2 && rs[0].size + rs[1].size <= PHYS_ADDR_MAX
  {
    [Region(rs[0].base, rs[0].size + rs[1].size)] + rs[2..]
  }

  lemma JoinedKeeps(rs: seq<Region>)
    requires |rs| >= 2 && Ordered(rs) && End(rs[0]) == rs[1].base
    ensures rs[0].size + rs[1].size <= PHYS_ADDR_MAX && Ordered(Joined(rs)) && Sum(Joined(rs)) == Sum(rs)
    ensures forall a :: Covers(Joined(rs), a) <==> Covers(rs, a)
  {
    assert RegionOk(rs[0]) && RegionOk(rs[1]);
    SumTwo(rs);
    var t := rs[2..];
    OrderedTail(rs);
    OrderedTail(rs[1..]);
    assert rs[1..][1..] == t;
    var r := Region(rs[0].base, rs[0].size + rs[1].size);
    assert AtLeast(t, End(r));
    OrderedCons(r, t);
    forall a ensures Covers(Joined(rs), a) <==> Covers(rs, a) {
      CoversCons(r, t, a);
      assert Covers(rs, a) <==> In(a, rs[0]) || In(a, rs[1]) || Covers(t, a);
    }
  }

  lemma ApartCons(r: Region, rs: seq<Region>)
    requires Apart(rs) && AtLeast(rs, End(r) + 1)
    ensures Apart([r] + rs)
  {
  }

  lemma OrderedAtLeast(rs: seq<Region>, lo: int)
    requires Ordered(rs) && |rs| > 0 && lo <= rs[0].base
    ensures AtLeast(rs, lo)
  {
    assert RegionOk(rs[0]);
  }

  /** Merging makes the array minimal and keeps the addresses and the total size. */
  lemma {:induction false} MergedIsCanonical(rs: seq<Region>, lo: int)
    requires Ordered(rs) && Sum(rs) <= PHYS_ADDR_MAX && AtLeast(rs, lo)
    ensures Ordered(Merged(rs)) && Apart(Merged(rs)) && AtLeast(Merged(rs), lo)
    ensures Sum(Merged(rs)) == Sum(rs) && (rs != [] ==> Merged(rs) != [])
    ensures forall a :: Covers(Merged(rs), a) <==> Covers(rs, a)
    decreases |rs|
  {
    if |rs| >= 2 {
      OrderedTail(rs);
      if End(rs[0]) != rs[1].base {
        var r, t := rs[0], rs[1..];
        OrderedAtLeast(t, End(r) + 1);
        MergedIsCanonical(t, End(r) + 1);
        OrderedCons(r, Merged(t));
        ApartCons(r, Merged(t));
        SumCons(r, Merged(t));
        forall a ensures Covers(Merged(rs), a) <==> Covers(rs, a) {
          CoversCons(r, Merged(t), a);
        }
      } else {
        JoinedKeeps(rs);
        MergedIsCanonical(Joined(rs), lo);
      }
    }
  }

  lemma {:induction false} MergedAlready(rs: seq<Region>)
    requires Apart(rs) && Sum(rs) <= PHYS_ADDR_MAX
    ensures Merged(rs) == rs
    decreases |rs|
  {
    if |rs| >= 2 {
      assert End(rs[0]) < rs[1].base;
      MergedAlready(rs[1..]);
      assert rs == [rs[0]] + rs[1..];
    }
  }

  // ---------------------------------------------------------------- memblock_add_range

  function Cap(base: Phys, size: Phys): Phys {
    Min(size, PHYS_ADDR_MAX - base)
  }

  lemma InsertedFits(rs: seq<Region>, base: int, end: int)
    requires Ordered(rs) && 0 <= base <= end <= PHYS_ADDR_MAX
    ensures Ordered(Inserted(rs, base, end)) && AtLeast(Inserted(rs, base, end), 0)
    ensures Sum(Inserted(rs, base, end)) <= PHYS_ADDR_MAX
    ensures IsUnion(Inserted(rs, base, end), rs, base, end)
  {
    InsertedIsUnion(rs, base, end, 0);
    SumFits(Inserted(rs, base, end), 0);
  }

  lemma CanonicalOrdered(rs: seq<Region>)
    requires Canonical(rs)
    ensures |rs| > 0 && if rs[0].size == 0 then IsEmpty(rs) else Ordered(rs) && Apart(rs)
  {
    if !IsEmpty(rs) {
      assert RegionOk(rs[0]);
    }
  }

  /** The array memblock_add_range leaves. */
  ghost function Added(rs: seq<Region>, base: Phys, size: Phys): seq<Region>
    requires Canonical(rs)
  {
    var s := Cap(base, size);
    CanonicalOrdered(rs);
    if s == 0 then rs
    else if rs[0].size == 0 then [Region(base, s)]
    else
      InsertedFits(rs, base, base + s);
      Merged(Inserted(rs, base, base + s))
  }

  lemma OnlyOne(r: Region)
    requires RegionOk(r)
    ensures Canonical([r]) && forall a {:trigger Covers([r], a)} :: Covers([r], a) <==> In(a, r)
  {
    forall a ensures Covers([r], a) <==> In(a, r) {
      assert [r][1..] == [];
    }
  }

  lemma EmptyCovers(rs: seq<Region>, a: int)
    requires IsEmpty(rs)
    ensures !Covers(rs, a)
  {
    assert rs[1..] == [];
  }

  lemma AddedToEmpty(rs: seq<Region>, base: Phys, s: Phys)
    requires IsEmpty(rs) && s > 0 && base + s <= PHYS_ADDR_MAX
    ensures Canonical([Region(base, s)]) && IsUnion([Region(base, s)], rs, base, base + s)
  {
    var r := Region(base, s);
    OnlyOne(r);
    forall a ensures Covers([r], a) <==> Covers(rs, a) || base <= a < base + s {
      EmptyCovers(rs, a);
    }
  }

  lemma AddedToRegions(rs: seq<Region>, base: Phys, end: Phys)
    requires |rs| > 0 && Ordered(rs) && base <= end
    ensures Sum(Inserted(rs, base, end)) <= PHYS_ADDR_MAX
    ensures Canonical(Merged(Inserted(rs, base, end))) && IsUnion(Merged(Inserted(rs, base, end)), rs, base, end)
  {
    var all := Inserted(rs, base, end);
    InsertedFits(rs, base, end);
    MergedIsCanonical(all, 0);
    CountInserted(rs, base, end);
    forall a ensures Covers(Merged(all), a) <==> Covers(rs, a) || base <= a < end {
      assert Covers(all, a) <==> Covers(rs, a) || base <= a < end;
    }
  }

  /** memblock_add_range refines set union, and keeps the array sorted, disjoint and minimal. */
  lemma AddedIsUnion(rs: seq<Region>, base: Phys, size: Phys)
    requires Canonical(rs)
    ensures Canonical(Added(rs, base, size))
    ensures IsUnion(Added(rs, base, size), rs, base, base + Cap(base, size))
  {
    var s := Cap(base, size);
    CanonicalOrdered(rs);
    if s != 0 {
      if rs[0].size == 0 {
        AddedToEmpty(rs, base, s);
      } else {
        AddedToRegions(rs, base, base + s);
      }
    }
  }

  // ---------------------------------------------------------------- canonical form

  lemma CanonicalHead(rs: seq<Region>, a: int)
    requires |rs| > 0 && Ordered(rs) && Apart(rs)
    ensures Covers(rs, a) ==> rs[0].base <= a
    ensures Covers(rs, rs[0].base) && !Covers(rs, End(rs[0]))
    ensures Covers(rs[1..], a) <==> Covers(rs, a) && a >= End(rs[0])
  {
    OrderedTail(rs);
    assert AtLeast(rs[1..], End(rs[0]) + 1);
    if a < End(rs[0]) + 1 {
      CoversAtLeast(rs[1..], End(rs[0]) + 1, a);
    }
    CoversAtLeast(rs[1..], End(rs[0]) + 1, End(rs[0]));
  }

  lemma ApartTail(rs: seq<Region>)
    requires |rs| > 0 && Apart(rs)
    ensures Apart(rs[1..])
  {
  }

  lemma SameHead(rs: seq<Region>, ts: seq<Region>)
    requires |rs| > 0 && Ordered(rs) && Apart(rs)
    requires |ts| > 0 && Ordered(ts) && Apart(ts)
    requires forall a :: Covers(rs, a) <==> Covers(ts, a)
    ensures rs[0] == ts[0]
  {
    CanonicalHead(rs, ts[0].base);
    CanonicalHead(ts, rs[0].base);
    assert Covers(ts, rs[0].base) && Covers(rs, ts[0].base);
    assert RegionOk(rs[0]) && RegionOk(ts[0]);
    assert !Covers(ts, End(rs[0])) && !Covers(rs, End(ts[0]));
  }

  lemma SameEmpty(rs: seq<Region>, ts: seq<Region>)
    requires Ordered(rs) && Apart(rs) && Ordered(ts) && Apart(ts)
    requires forall a :: Covers(rs, a) <==> Covers(ts, a)
    ensures rs == [] <==> ts == []
  {
    if rs != [] {
      CanonicalHead(rs, rs[0].base);
    }
    if ts != [] {
      CanonicalHead(ts, ts[0].base);
    }
  }

  lemma {:induction false} OrderedUnique(rs: seq<Region>, ts: seq<Region>)
    requires Ordered(rs) && Apart(rs) && Ordered(ts) && Apart(ts)
    requires forall a :: Covers(rs, a) <==> Covers(ts, a)
    ensures rs == ts
    decreases |rs|
  {
    if rs == [] || ts == [] {
      SameEmpty(rs, ts);
    } else {
      SameHead(rs, ts);
      OrderedTail(rs);
      OrderedTail(ts);
      ApartTail(rs);
      ApartTail(ts);
      forall a ensures Covers(rs[1..], a) <==> Covers(ts[1..], a) {
        CanonicalHead(rs, a);
        CanonicalHead(ts, a);
      }
      OrderedUnique(rs[1..], ts[1..]);
      assert rs == [rs[0]] + rs[1..] && ts == [ts[0]] + ts[1..];
    }
  }

  /** The set of addresses determines the array. */
  lemma CanonicalUnique(rs: seq<Region>, ts: seq<Region>)
    requires Canonical(rs) && Canonical(ts)
    requires forall a :: Covers(rs, a) <==> Covers(ts, a)
    ensures rs == ts
  {
    EmptyOrOrdered(rs);
    EmptyOrOrdered(ts);
    if !IsEmpty(rs) && !IsEmpty(ts) {
      OrderedUnique(rs, ts);
    }
  }

  lemma EmptyOrOrdered(rs: seq<Region>)
    requires Canonical(rs)
    ensures IsEmpty(rs) || Covers(rs, rs[0].base)
    ensures IsEmpty(rs) ==> forall a :: !Covers(rs, a)
  {
    if !IsEmpty(rs) {
      CanonicalHead(rs, rs[0].base);
    } else {
      forall a ensures !Covers(rs, a) {
        assert rs[1..] == [];
      }
    }
  }

  // ---------------------------------------------------------------- any order of adds

  ghost function AddedAll(rs: seq<Region>, adds: seq<Region>): seq<Region>
    requires Canonical(rs)
    decreases |adds|
  {
    if adds == [] then rs
    else
      AddedIsUnion(rs, adds[0].base, adds[0].size);
      AddedAll(Added(rs, adds[0].base, adds[0].size), adds[1..])
  }

  predicate InAny(adds: seq<Region>, a: int) {
    |adds| > 0 && (adds[0].base <= a < adds[0].base + Cap(adds[0].base, adds[0].size) || InAny(adds[1..], a))
  }

  lemma {:induction false} AddedAllIsUnion(rs: seq<Region>, adds: seq<Region>)
    requires Canonical(rs)
    ensures Canonical(AddedAll(rs, adds))
    ensures forall a {:trigger Covers(AddedAll(rs, adds), a)} ::
      Covers(AddedAll(rs, adds), a) <==> Covers(rs, a) || InAny(adds, a)
    decreases |adds|
  {
    if adds != [] {
      var rs' := Added(rs, adds[0].base, adds[0].size);
      AddedIsUnion(rs, adds[0].base, adds[0].size);
      AddedAllIsUnion(rs', adds[1..]);
      forall a ensures Covers(AddedAll(rs, adds), a) <==> Covers(rs, a) || InAny(adds, a) {
        assert Covers(AddedAll(rs', adds[1..]), a) <==> Covers(rs', a) || InAny(adds[1..], a);
      }
    }
  }

  /** Whatever the order, the pieces and the overlaps: the same union gives the same array. */
  lemma OrderDoesNotMatter(rs: seq<Region>, adds: seq<Region>, adds': seq<Region>)
    requires Canonical(rs) && forall a :: InAny(adds, a) <==> InAny(adds', a)
    ensures AddedAll(rs, adds) == AddedAll(rs, adds')
  {
    AddedAllIsUnion(rs, adds);
    AddedAllIsUnion(rs, adds');
    CanonicalUnique(AddedAll(rs, adds), AddedAll(rs, adds'));
  }
}
