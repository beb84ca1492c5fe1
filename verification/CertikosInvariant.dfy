/** What every step of the CertiKOS monitor keeps: the windows partition the pages, the links
    form one ring, pids belong to running owners, and the PMP holds the current window. */
module CertikosInvariant {
  import opened Words
  import opened CertikosSpec

  // ---------------------------------------------------------------- the ring

  function Succ(ring: seq<nat>, i: nat): nat
    requires i < |ring|
  {
    if i + 1 < |ring| then ring[i + 1] else ring[0]
  }

  ghost predicate Linked(procs: seq<Proc>, ring: seq<nat>, i: nat)
    requires i < |ring|
  {
    ring[i] < |procs| && procs[ring[i]].run && procs[ring[i]].next == Succ(ring, i)
  }

  ghost predicate OnRing(ring: seq<nat>, p: nat) {
    exists i :: 0 <= i < |ring| && ring[i] == p
  }

  /** The next links go once through exactly the running processes. */
  ghost predicate IsRing(procs: seq<Proc>, ring: seq<nat>) {
    && |ring| > 0
    && (forall i {:trigger Linked(procs, ring, i)} :: 0 <= i < |ring| ==> Linked(procs, ring, i))
    && (forall i, j {:trigger ring[i], ring[j]} :: 0 <= i < j < |ring| ==> ring[i] != ring[j])
    && (forall p {:trigger OnRing(ring, p)} :: 0 <= p < |procs| && procs[p].run ==> OnRing(ring, p))
  }

  // ---------------------------------------------------------------- the windows

  predicate Has(p: Proc, n: int) {
    p.run && p.lower <= n < p.upper
  }

  ghost predicate WindowOk(k: Params, p: Proc) {
    p.run ==> p.lower <= p.upper <= k.nrPages
  }

  ghost predicate SomeHas(procs: seq<Proc>, n: int) {
    exists p :: 0 <= p < |procs| && Has(procs[p], n)
  }

  /** Every page is in the window of exactly one running process. */
  ghost predicate Partition(k: Params, procs: seq<Proc>) {
    && (forall p {:trigger WindowOk(k, procs[p])} :: 0 <= p < |procs| ==> WindowOk(k, procs[p]))
    && (forall p, q, n {:trigger Has(procs[p], n), Has(procs[q], n)} ::
          0 <= p < q < |procs| ==> !(Has(procs[p], n) && Has(procs[q], n)))
    && (forall n {:trigger SomeHas(procs, n)} :: 0 <= n < k.nrPages ==> SomeHas(procs, n))
  }

  // ---------------------------------------------------------------- the rest

  ghost predicate EntryOk(k: Params, procs: seq<Proc>, p: nat)
    requires p < |procs| && k.nrChildren > 0
  {
    && procs[p].owner == k.Owner(p)
    && (procs[p].run ==> p > 0 && k.Owner(p) < |procs| && procs[k.Owner(p)].run)
    && (!procs[p].run ==> procs[p].csrs == ZeroCsrs())
  }

  ghost predicate Entries(k: Params, procs: seq<Proc>)
    requires k.nrChildren > 0
  {
    forall p {:trigger EntryOk(k, procs, p)} :: 0 <= p < |procs| ==> EntryOk(k, procs, p)
  }

  ghost predicate PmpOk(k: Params, s: State)
    requires s.current < |s.procs|
  {
    s.pmp0 == k.PmpFor(s.procs[s.current].lower) && s.pmp1 == k.PmpFor(s.procs[s.current].upper)
  }

  ghost predicate HasRing(procs: seq<Proc>) {
    exists ring :: IsRing(procs, ring)
  }

  ghost predicate Inv(k: Params, s: State) {
    && k.Valid() && |s.procs| == k.nrProcs && |s.pages| == k.nrPages
    && s.current < k.nrProcs && s.procs[s.current].run
    && HasRing(s.procs) && Partition(k, s.procs) && Entries(k, s.procs) && PmpOk(k, s)
  }

  lemma RingAt(procs: seq<Proc>, ring: seq<nat>, p: nat) returns (i: nat)
    requires IsRing(procs, ring) && p < |procs| && procs[p].run
    ensures i < |ring| && ring[i] == p && procs[p].next == Succ(ring, i)
  {
    assert OnRing(ring, p);
    i :| 0 <= i < |ring| && ring[i] == p;
    assert Linked(procs, ring, i);
  }

  lemma NextRuns(procs: seq<Proc>, p: nat)
    requires HasRing(procs) && p < |procs| && procs[p].run
    ensures procs[p].next < |procs| && procs[procs[p].next].run
  {
    var ring :| IsRing(procs, ring);
    var i := RingAt(procs, ring, p);
    assert Linked(procs, ring, if i + 1 < |ring| then i + 1 else 0);
  }

  lemma InvSane(k: Params, s: State)
    requires Inv(k, s)
    ensures Sane(k, s)
  {
    NextRuns(s.procs, s.current);
    assert WindowOk(k, s.procs[s.current]);
  }

  // ---------------------------------------------------------------- boot

  lemma BootEstablishesInv(k: Params, pages: seq<Page>)
    requires k.Valid() && |pages| == k.nrPages
    ensures Inv(k, Boot(k, pages))
  {
    var s := Boot(k, pages);
    var procs := s.procs;
    assert forall p :: 0 <= p < |procs| ==> (procs[p].run <==> p == PID_IDLE);
    assert IsRing(procs, [PID_IDLE]) by {
      assert Linked(procs, [PID_IDLE], 0);
      assert [PID_IDLE][0] == PID_IDLE;
      assert OnRing([PID_IDLE], PID_IDLE);
    }
    forall n {:trigger SomeHas(procs, n)} | 0 <= n < k.nrPages ensures SomeHas(procs, n) {
      assert Has(procs[PID_IDLE], n);
    }
    forall p {:trigger EntryOk(k, procs, p)} | 0 <= p < |procs| ensures EntryOk(k, procs, p) {
      OwnerOfIdle(k);
    }
  }

  lemma OwnerOfIdle(k: Params)
    requires k.Valid()
    ensures k.Owner(PID_IDLE) == PID_IDLE
  {
  }

  // ---------------------------------------------------------------- spawn

  /** The new process comes right after the current one. */
  function Grown(ring: seq<nat>, c: nat, pid: nat): seq<nat>
    requires c < |ring|
  {
    ring[..c + 1] + [pid] + ring[c + 1..]
  }

  ghost predicate SpawnEffect(k: Params, procs: seq<Proc>, procs': seq<Proc>, cur: nat, pid: nat, top: nat)
    requires cur < |procs| && pid < |procs| && |procs'| == |procs|
  {
    && pid != cur && procs[cur].run && !procs[pid].run && procs[cur].lower <= top <= procs[cur].upper
    && procs'[cur] == procs[cur].(upper := top, next := pid)
    && procs'[pid].run && procs'[pid].next == procs[cur].next && procs'[pid].owner == procs[pid].owner
    && procs'[pid].lower == top && procs'[pid].upper == procs[cur].upper
    && forall p :: 0 <= p < |procs| && p != cur && p != pid ==> procs'[p] == procs[p]
  }

  lemma SpawnKeepsRing(k: Params, procs: seq<Proc>, procs': seq<Proc>, cur: nat, pid: nat, top: nat, ring: seq<nat>,
                       c: nat)
    requires cur < |procs| && pid < |procs| && |procs'| == |procs| && SpawnEffect(k, procs, procs', cur, pid, top)
    requires IsRing(procs, ring) && c < |ring| && ring[c] == cur
    ensures IsRing(procs', Grown(ring, c, pid))
  {
    var g := Grown(ring, c, pid);
    assert Linked(procs, ring, c);
    forall i | 0 <= i < |ring| ensures ring[i] != pid && ring[i] < |procs| {
      assert Linked(procs, ring, i);
    }
    forall i {:trigger Linked(procs', g, i)} | 0 <= i < |g| ensures Linked(procs', g, i) {
      if i < c {
        assert Linked(procs, ring, i);
      } else if i > c + 1 {
        assert Linked(procs, ring, i - 1);
        assert ring[i - 1] != cur;
      }
    }
    forall i, j {:trigger g[i], g[j]} | 0 <= i < j < |g| ensures g[i] != g[j] {
      assert g[i] == (if i <= c then ring[i] else if i == c + 1 then pid else ring[i - 1]);
      assert g[j] == (if j <= c then ring[j] else if j == c + 1 then pid else ring[j - 1]);
    }
    forall p {:trigger OnRing(g, p)} | 0 <= p < |procs'| && procs'[p].run ensures OnRing(g, p) {
      if p == pid {
        assert g[c + 1] == p;
      } else {
        assert OnRing(ring, p);
        var i :| 0 <= i < |ring| && ring[i] == p;
        assert g[if i <= c then i else i + 1] == p;
      }
    }
  }

  lemma SpawnKeepsPartition(k: Params, procs: seq<Proc>, procs': seq<Proc>, cur: nat, pid: nat, top: nat)
    requires cur < |procs| && pid < |procs| && |procs'| == |procs| && SpawnEffect(k, procs, procs', cur, pid, top)
    requires Partition(k, procs)
    ensures Partition(k, procs')
  {
    assert WindowOk(k, procs[cur]);
    forall p {:trigger WindowOk(k, procs'[p])} | 0 <= p < |procs'| ensures WindowOk(k, procs'[p]) {
      assert WindowOk(k, procs[p]);
    }
    forall p, n ensures 0 <= p < |procs| && Has(procs'[p], n) ==> Has(procs[if p == pid then cur else p], n) {
    }
    forall p, q, n {:trigger Has(procs'[p], n), Has(procs'[q], n)} | 0 <= p < q < |procs'|
      ensures !(Has(procs'[p], n) && Has(procs'[q], n))
    {
      var p0, q0 := if p == pid then cur else p, if q == pid then cur else q;
      assert Has(procs'[p], n) ==> Has(procs[p0], n);
      assert Has(procs'[q], n) ==> Has(procs[q0], n);
    }
    forall n {:trigger SomeHas(procs', n)} | 0 <= n < k.nrPages ensures SomeHas(procs', n) {
      assert SomeHas(procs, n);
      var p :| 0 <= p < |procs| && Has(procs[p], n);
      if p == cur && n >= top {
        assert Has(procs'[pid], n);
      } else {
        assert Has(procs'[p], n);
      }
    }
  }

  lemma SpawnKeepsEntries(k: Params, procs: seq<Proc>, procs': seq<Proc>, cur: nat, pid: nat, top: nat)
    requires k.Valid() && 0 < pid < |procs| && cur < |procs| && |procs'| == |procs|
    requires SpawnEffect(k, procs, procs', cur, pid, top)
    requires Entries(k, procs) && procs[pid].owner == cur
    ensures Entries(k, procs')
  {
    forall p {:trigger EntryOk(k, procs', p)} | 0 <= p < |procs'| ensures EntryOk(k, procs', p) {
      assert EntryOk(k, procs, p);
    }
  }

  lemma SpawnedKeepsInv(k: Params, s: State, fileid: U64, quota: U64, pid: U64)
    requires Inv(k, s) && WellSized(k, s) && SpawnOk(k, s, quota, pid) && pid != s.current
    ensures Inv(k, Spawned(k, s, fileid, quota, pid))
  {
    var s' := Spawned(k, s, fileid, quota, pid);
    var top := s.procs[s.current].upper - quota;
    assert SpawnEffect(k, s.procs, s'.procs, s.current, pid, top);
    var ring :| IsRing(s.procs, ring);
    var c := RingAt(s.procs, ring, s.current);
    SpawnKeepsRing(k, s.procs, s'.procs, s.current, pid, top, ring, c);
    SpawnKeepsPartition(k, s.procs, s'.procs, s.current, pid, top);
    SpawnKeepsEntries(k, s.procs, s'.procs, s.current, pid, top);
  }

  // ---------------------------------------------------------------- yield and the other calls

  /** The table changes only in what the ring, the windows and the owners do not depend on. */
  ghost predicate SameTable(procs: seq<Proc>, procs': seq<Proc>) {
    && |procs'| == |procs|
    && forall p {:trigger procs'[p]} {:trigger procs[p]} :: 0 <= p < |procs| ==>
         && procs'[p].run == procs[p].run && procs'[p].next == procs[p].next && procs'[p].owner == procs[p].owner
         && procs'[p].lower == procs[p].lower && procs'[p].upper == procs[p].upper
         && (!procs[p].run ==> procs'[p].csrs == procs[p].csrs)
  }

  lemma SameTableRing(procs: seq<Proc>, procs': seq<Proc>, ring: seq<nat>)
    requires SameTable(procs, procs') && IsRing(procs, ring)
    ensures IsRing(procs', ring)
  {
    forall i {:trigger Linked(procs', ring, i)} | 0 <= i < |ring| ensures Linked(procs', ring, i) {
      assert Linked(procs, ring, i);
    }
    forall p {:trigger OnRing(ring, p)} | 0 <= p < |procs'| && procs'[p].run ensures OnRing(ring, p) {
      assert procs[p].run;
    }
  }

  lemma SameTablePartition(k: Params, procs: seq<Proc>, procs': seq<Proc>)
    requires SameTable(procs, procs') && Partition(k, procs)
    ensures Partition(k, procs')
  {
    forall p {:trigger WindowOk(k, procs'[p])} | 0 <= p < |procs'| ensures WindowOk(k, procs'[p]) {
      assert WindowOk(k, procs[p]);
    }
    forall p, q, n {:trigger Has(procs'[p], n), Has(procs'[q], n)} | 0 <= p < q < |procs'|
      ensures !(Has(procs'[p], n) && Has(procs'[q], n))
    {
      assert !(Has(procs[p], n) && Has(procs[q], n));
    }
    forall n {:trigger SomeHas(procs', n)} | 0 <= n < k.nrPages ensures SomeHas(procs', n) {
      assert SomeHas(procs, n);
      var p :| 0 <= p < |procs| && Has(procs[p], n);
      assert Has(procs'[p], n);
    }
  }

  lemma SameTableEntries(k: Params, procs: seq<Proc>, procs': seq<Proc>)
    requires k.Valid() && SameTable(procs, procs') && Entries(k, procs)
    ensures Entries(k, procs')
  {
    forall p {:trigger EntryOk(k, procs', p)} | 0 <= p < |procs'| ensures EntryOk(k, procs', p) {
      assert EntryOk(k, procs, p);
    }
  }

  lemma SameTableInv(k: Params, s: State, s': State)
    requires Inv(k, s) && SameTable(s.procs, s'.procs) && |s'.pages| == |s.pages|
    requires s'.current < |s'.procs| && s'.procs[s'.current].run && PmpOk(k, s')
    ensures Inv(k, s')
  {
    var ring :| IsRing(s.procs, ring);
    SameTableRing(s.procs, s'.procs, ring);
    SameTablePartition(k, s.procs, s'.procs);
    SameTableEntries(k, s.procs, s'.procs);
  }

  lemma YieldedKeepsInv(k: Params, s: State)
    requires Inv(k, s) && s.procs[s.current].next < |s.procs|
    ensures Inv(k, Yielded(k, s))
  {
    NextRuns(s.procs, s.current);
    SameTableInv(k, s, Yielded(k, s));
  }

  lemma TrapKeepsInv(k: Params, s0: State, sbi: U64)
    requires Inv(k, s0) && Sane(k, s0)
    ensures Inv(k, Trap(k, s0, sbi))
  {
    var s := s0.(csrs := s0.csrs.(mepc := Mod64(s0.csrs.mepc as int + 4)));
    SameTableInv(k, s0, s);
    var nr := s.regs[A7];
    if nr == NR_SPAWN && SpawnOk(k, s, s.regs[A1], s.regs[A2]) {
      SpawnedKeepsInv(k, s, s.regs[A0], s.regs[A1], s.regs[A2]);
      var s1 := Spawned(k, s, s.regs[A0], s.regs[A1], s.regs[A2]);
      SameTableInv(k, s1, SetA0(s1, 0));
    } else if nr == NR_YIELD {
      YieldedKeepsInv(k, s);
    } else {
      SameTableInv(k, s, Trap(k, s0, sbi));
    }
  }

  lemma StepKeepsInv(k: Params, s: State, a: Act)
    requires Inv(k, s) && Allowed(s, a)
    ensures Sane(k, s) && Inv(k, Step(k, s, a))
  {
    InvSane(k, s);
    var s1 := UserRan(s, a.user);
    SameTableInv(k, s, s1);
    InvSane(k, s1);
    TrapKeepsInv(k, s1, a.sbi);
  }
}
