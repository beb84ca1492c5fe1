/** What each CertiKOS call does, in terms of its arguments and the state before it. */
module CertikosEffects {
  import opened Words
  import opened CertikosSpec
  import opened CertikosInvariant
  import opened CertikosTheorems

  /** The static partition of pids, without division: the idle process has those below nrChildren,
      process p the nrChildren ones from p * nrChildren on. */
  predicate MayGive(k: Params, p: nat, pid: nat) {
    if pid < k.nrChildren then p == 1 else p * k.nrChildren <= pid < (p + 1) * k.nrChildren
  }

  lemma OwnerIs(k: Params, p: nat, pid: nat)
    requires k.nrChildren > 0
    ensures k.Owner(pid) == p <==> MayGive(k, p, pid)
  {
    var c := k.nrChildren;
    var q, r := pid / c, pid % c;
    assert pid == c * q + r;
    Commute(c, q);
    if p * c <= pid < (p + 1) * c {
      assert (p + 1) * c == p * c + c;
      Commute(p, c);
      ModUnique(pid, c, p, pid - p * c);
    }
    assert (q + 1) * c == q * c + c;
  }

  /** What the current process may ask for. */
  predicate MaySpawn(k: Params, s: State, quota: U64, pid: U64)
    requires s.current < |s.procs| == k.nrProcs
  {
    && quota <= s.procs[s.current].upper - s.procs[s.current].lower
    && 0 < pid < k.nrProcs && !s.procs[pid].run && MayGive(k, s.current, pid)
  }

  /** Registers, CSRs and PMP of the caller after a call it returns from with `r`. */
  predicate Answered(s: State, s': State, r: U64) {
    && s'.current == s.current && s'.regs == s.regs[A0 := r]
    && s'.csrs == s.csrs.(mepc := Mod64(s.csrs.mepc as int + 4))
  }

  /** spawn answers 0 just when the quota fits, the pid is free and the caller's to give, and
      EINVAL otherwise, changing nothing. */
  lemma SpawnAnswers(k: Params, s: State, sbi: U64)
    requires Inv(k, s) && s.regs[A7] == NR_SPAWN
    ensures Sane(k, s)
    ensures var s', ok := Trap(k, s, sbi), MaySpawn(k, s, s.regs[A1], s.regs[A2]);
      && Answered(s, s', if ok then 0 else EINVAL)
      && (!ok ==> s'.procs == s.procs && s'.pages == s.pages && s'.pmp0 == s.pmp0 && s'.pmp1 == s.pmp1)
  {
    InvSane(k, s);
    var pid := s.regs[A2];
    if 0 < pid < k.nrProcs {
      assert EntryOk(k, s.procs, pid);
      OwnerIs(k, s.current, pid);
    }
  }

  /** The child takes the top of the caller's window, cleared, and its place behind it in the ring;
      it will start at the payload with its file and the address of its first page. */
  lemma SpawnEffect(k: Params, s: State, sbi: U64)
    requires Inv(k, s) && s.regs[A7] == NR_SPAWN && MaySpawn(k, s, s.regs[A1], s.regs[A2])
    ensures Sane(k, s)
    ensures var s', p, pid := Trap(k, s, sbi), s.procs[s.current], s.regs[A2];
      var top := p.upper - s.regs[A1];
      && |s'.procs| == |s.procs| && |s'.pages| == |s.pages| && pid != s.current
      && s'.procs[s.current] == p.(upper := top, next := pid)
      && (var c := s'.procs[pid];
          && c.run && c.lower == top && c.upper == p.upper && c.next == p.next && c.owner == s.procs[pid].owner
          && c.csrs == ZeroCsrs().(mepc := k.payload)
          && c.cpu[A0] == s.regs[A0] && c.cpu[A1] == k.base + top * 4096
          && forall i :: 0 <= i < 31 && i != A0 && i != A1 ==> c.cpu[i] == 0)
      && (forall q :: 0 <= q < |s.procs| && q != pid && q != s.current ==> s'.procs[q] == s.procs[q])
      && (forall n :: 0 <= n < |s.pages| ==> s'.pages[n] == if top <= n < p.upper then ZeroPage() else s.pages[n])
      && s'.pmp0 * 4 == k.base + p.lower * 4096 && s'.pmp1 * 4 == k.base + top * 4096
  {
    InvSane(k, s);
    var pid := s.regs[A2];
    assert EntryOk(k, s.procs, pid);
    OwnerIs(k, s.current, pid);
    PmpScale(k, s.procs[s.current].lower);
    PmpScale(k, s.procs[s.current].upper - s.regs[A1]);
  }

  /** yield saves the caller, past its call, and continues the process its link names with what
      that one saved; nothing else changes. */
  lemma YieldEffect(k: Params, s: State, sbi: U64)
    requires Inv(k, s) && s.regs[A7] == NR_YIELD
    ensures Sane(k, s)
    ensures var s', p, n := Trap(k, s, sbi), s.procs[s.current], s.procs[s.current].next;
      var csrs := s.csrs.(mepc := Mod64(s.csrs.mepc as int + 4));
      && n < |s.procs| && s'.current == n && s'.pages == s.pages
      && s'.procs == s.procs[s.current := p.(cpu := s.regs, csrs := csrs)]
      && (if n == s.current then s'.regs == s.regs && s'.csrs == csrs
          else s'.regs == s.procs[n].cpu && s'.csrs == s.procs[n].csrs)
      && s'.pmp0 * 4 == k.base + s.procs[n].lower * 4096 && s'.pmp1 * 4 == k.base + s.procs[n].upper * 4096
  {
    InvSane(k, s);
    var n := s.procs[s.current].next;
    PmpScale(k, s.procs[n].lower);
    PmpScale(k, s.procs[n].upper);
  }

  /** The calls that only answer. */
  lemma OtherAnswers(k: Params, s: State, sbi: U64)
    requires Inv(k, s) && s.regs[A7] != NR_SPAWN && s.regs[A7] != NR_YIELD
    ensures Sane(k, s)
    ensures var s', nr, p := Trap(k, s, sbi), s.regs[A7], s.procs[s.current];
      && Answered(s, s', if nr <= 8 then sbi else if nr == 10 then p.upper - p.lower else if nr == 13 then s.current
          else ENOSYS)
      && s'.procs == s.procs && s'.pages == s.pages && s'.pmp0 == s.pmp0 && s'.pmp1 == s.pmp1
  {
    InvSane(k, s);
    assert WindowOk(k, s.procs[s.current]);
  }

  /** After boot the idle process runs, with all pages, cleared, and every other entry is free. */
  lemma BootEffect(k: Params, pages: seq<Page>)
    requires k.Valid() && |pages| == k.nrPages
    ensures var s := Boot(k, pages);
      && s.current == 1 && |s.procs| == k.nrProcs && |s.pages| == k.nrPages
      && (forall p :: 0 <= p < k.nrProcs ==> s.procs[p].run == (p == 1) && MayGive(k, s.procs[p].owner, p))
      && s.procs[1].lower == 0 && s.procs[1].upper == k.nrPages && s.procs[1].next == 1
      && s.csrs.mepc == k.payload && s.regs == ZeroRegs()[A1 := k.base]
      && forall n :: 0 <= n < k.nrPages ==> s.pages[n] == ZeroPage()
  {
    var s := Boot(k, pages);
    forall p | 0 <= p < k.nrProcs ensures MayGive(k, s.procs[p].owner, p) {
      OwnerIs(k, k.Owner(p), p);
    }
  }
}
