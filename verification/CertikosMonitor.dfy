/** The monitor itself: the process table, the pages and the hart's registers, updated in place. */
module CertikosMonitor {
  import opened Words
  import opened CertikosSpec
  import opened CertikosInvariant

  class Monitor {
    const k: Params
    const procs: array<Proc>
    const pages: array<Page>
    var currentPid: nat
    var regs: Regs
    var csrs: Csrs
    var pmp0: nat
    var pmp1: nat

    ghost function St(): State
      reads this, procs, pages
    {
      State(procs[..], pages[..], currentPid, regs, csrs, pmp0, pmp1)
    }

    ghost predicate Valid()
      reads this, procs, pages
    {
      Inv(k, St())
    }

    /** main, on whatever the memory holds at reset. */
    constructor (k: Params, memory: seq<Page>)
      requires k.Valid() && |memory| == k.nrPages
      ensures this.k == k && Valid() && St() == Boot(k, memory) && fresh(procs) && fresh(pages)
    {
      this.k := k;
      procs := new Proc[k.nrProcs](i requires 0 <= i < k.nrProcs => InitProc(k, i));
      pages := new Page[k.nrPages](i requires 0 <= i < |memory| => memory[i]);
      currentPid, regs, csrs, pmp0, pmp1 := PID_IDLE, ZeroRegs(), ZeroCsrs(), 0, 0;
      new;
      assert pages[..] == memory;
      ghost var free := procs[..];
      assert free == seq(k.nrProcs, i requires 0 <= i < k.nrProcs => InitProc(k, i));
      ProcNew(PID_IDLE, PID_IDLE, 0, 0, k.nrPages);
      ProcSwitch(PID_IDLE);
      assert St() == Boot(k, memory);
      BootEstablishesInv(k, memory);
    }

    /** proc_new; its BUG_ONs are the preconditions. */
    method ProcNew(pid: nat, next: nat, fileid: U64, lower: nat, upper: nat)
      requires k.Valid() && pid < procs.Length && !procs[pid].run && lower <= upper <= pages.Length == k.nrPages
      modifies procs, pages
      ensures procs[..] == old(procs[..])[pid := NewProc(k, old(procs[pid]), next, fileid, lower, upper)]
      ensures pages[..] == Cleared(old(pages[..]), lower, upper)
    {
      procs[pid] := procs[pid].(run := true, next := next);
      procs[pid] := procs[pid].(lower := lower, upper := upper);
      procs[pid] := procs[pid].(csrs := procs[pid].csrs.(mepc := k.payload));
      procs[pid] := procs[pid].(cpu := ZeroRegs()[A0 := fileid][A1 := k.PageAddress(lower)]);
      forall i | lower <= i < upper {
        pages[i] := ZeroPage();
      }
    }

    /** The PMP address registers of the process window. */
    method SetWindow(pid: nat)
      requires pid < procs.Length
      modifies this`pmp0, this`pmp1
      ensures pmp0 == k.PmpFor(procs[pid].lower) && pmp1 == k.PmpFor(procs[pid].upper)
    {
      pmp0 := k.PageAddress(procs[pid].lower) / 4;
      pmp1 := k.PageAddress(procs[pid].upper) / 4;
    }

    /** proc_switch; mret_with_regs makes the saved registers the live ones. */
    method ProcSwitch(pid: nat)
      requires pid < procs.Length && pid == currentPid
      modifies this`regs, this`csrs, this`pmp0, this`pmp1
      ensures St() == Switch(k, old(St()), pid)
    {
      SetWindow(pid);
      csrs := procs[pid].csrs;
      regs := procs[pid].cpu;
    }

    method SysGetQuota() returns (r: int)
      requires currentPid < procs.Length
      ensures r == Quota(St())
    {
      r := procs[currentPid].upper - procs[currentPid].lower;
    }

    method SysSpawn(fileid: U64, quota: U64, pid: U64) returns (r: U64)
      requires Valid()
      modifies procs, pages, this`pmp0, this`pmp1
      ensures Valid()
      ensures if SpawnOk(k, old(St()), quota, pid) then
          WellSized(k, old(St())) && pid != currentPid && r == 0 && St() == Spawned(k, old(St()), fileid, quota, pid)
        else r == EINVAL && St() == old(St())
    {
      ghost var s := St();
      InvSane(k, s);
      var proc := procs[currentPid];
      if proc.upper - proc.lower < quota {
        return EINVAL;
      }
      if !(pid > 0 && pid < k.nrProcs) {
        return EINVAL;
      }
      if procs[pid].owner != currentPid {
        return EINVAL;
      }
      if procs[pid].run {
        return EINVAL;
      }
      var upper := proc.upper;
      procs[currentPid] := proc.(upper := proc.upper - quota);
      ProcNew(pid, proc.next, fileid, proc.upper - quota, upper);
      procs[currentPid] := procs[currentPid].(next := pid);
      SetWindow(currentPid);
      SpawnedKeepsInv(k, s, fileid, quota, pid);
      SpawnTables(k, s, fileid, quota, pid);
      assert St() == Spawned(k, s, fileid, quota, pid);
      return 0;
    }

    method SysYield()
      requires Valid()
      modifies this, procs
      ensures Valid() && old(St()).procs[old(currentPid)].next < |old(St()).procs| && St() == Yielded(k, old(St()))
    {
      ghost var s := St();
      NextRuns(s.procs, s.current);
      procs[currentPid] := procs[currentPid].(cpu := regs);
      procs[currentPid] := procs[currentPid].(csrs := csrs);
      assert procs[..] == s.procs[s.current := s.procs[s.current].(cpu := s.regs, csrs := s.csrs)];
      currentPid := procs[currentPid].next;
      ProcSwitch(currentPid);
      assert St() == Yielded(k, s);
      YieldedKeepsInv(k, s);
    }

    /** do_trap_ecall_s. */
    method DoTrapEcallS(sbi: U64)
      requires Valid()
      modifies this, procs, pages
      ensures Valid() && Sane(k, old(St())) && St() == Trap(k, old(St()), sbi)
    {
      ghost var s0 := St();
      InvSane(k, s0);
      TrapKeepsInv(k, s0, sbi);
      csrs := csrs.(mepc := Mod64(csrs.mepc as int + 4));
      SameTableInv(k, s0, St());
      var nr, r := regs[A7], ENOSYS;
      if nr <= 8 {
        r := sbi;
      } else if nr == NR_GET_QUOTA {
        var q := SysGetQuota();
        r := q;
      } else if nr == NR_SPAWN {
        r := SysSpawn(regs[A0], regs[A1], regs[A2]);
      } else if nr == NR_YIELD {
        SysYield();
        return;
      } else if nr == NR_GETPID {
        r := currentPid;
      }
      regs := regs[A0 := r];
    }
  }

  /** The table after the writes of sys_spawn in their order. */
  lemma SpawnTables(k: Params, s: State, fileid: U64, quota: U64, pid: U64)
    requires WellSized(k, s) && SpawnOk(k, s, quota, pid) && pid != s.current
    ensures var p := s.procs[s.current];
      var top := p.upper - quota;
      var t1 := s.procs[s.current := p.(upper := top)];
      var t2 := t1[pid := NewProc(k, t1[pid], p.next, fileid, top, p.upper)];
      t2[s.current := t2[s.current].(next := pid)] == Spawned(k, s, fileid, quota, pid).procs
  {
  }
}
