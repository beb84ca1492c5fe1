/** The monitor itself, on mutable enclave table, memory and registers. */
module KeystoneMonitor {
  import opened Words
  import opened KeystoneSpec
  import opened KeystoneInvariant

  class Monitor {
    const k: Params
    const enclaves: array<Enclave>
    const mem: array<Byte>
    const pmpaddr: array<nat>
    var pmpcfg0: nat
    var mode: bool
    var current: int
    var host: Cpu
    var cpu: Cpu

    ghost predicate Arrays()
      reads this
    {
      k.Valid() && enclaves.Length == NR_ENCLAVES && pmpaddr.Length == 8 && mem.Length == k.payload
    }

    ghost function PmpOf(): Pmp
      reads this, pmpaddr
    {
      Pmp(pmpaddr[..], pmpcfg0)
    }

    ghost function St(): State
      reads this, enclaves, mem, pmpaddr
    {
      State(enclaves[..], mode, current, host, cpu, PmpOf(), mem[..])
    }

    ghost predicate Valid()
      reads this, enclaves, mem, pmpaddr
    {
      Arrays() && Inv(k, St())
    }

    /** init_enclave and pmp_init. */
    constructor (k: Params, memory: seq<Byte>, cpu: Cpu)
      requires k.Valid() && |memory| == k.payload
      ensures this.k == k && Valid() && St() == Boot(k, memory, cpu)
      ensures fresh(enclaves) && fresh(mem) && fresh(pmpaddr)
    {
      this.k := k;
      var none := Enclave(Free, 0, 0, 0, 0, 0, cpu);
      enclaves := new Enclave[NR_ENCLAVES](_ => none);
      mem := new Byte[k.payload](i requires 0 <= i < |memory| => memory[i]);
      pmpaddr := new nat[8](_ => 0);
      pmpcfg0, mode, current := 0, false, 0;
      this.host, this.cpu := cpu, cpu;
      new;
      assert mem[..] == memory;
      assert enclaves[..] == [none, none, none];
      assert pmpaddr[..] == [0, 0, 0, 0, 0, 0, 0, 0];
      RemapOsRegion();
      BootEstablishesInv(k, memory, cpu);
    }

    // pmp.c and asm/pmp.h

    method PmpcfgWrite(nr: nat, value: nat)
      requires nr < 8 && value < 0x100
      modifies this`pmpcfg0
      ensures pmpcfg0 == WithByte(old(pmpcfg0), nr, value) && CfgByte(pmpcfg0, nr) == value
    {
      pmpcfg0 := WithByte(pmpcfg0, nr, value);
      CfgByteWith(old(pmpcfg0), nr, value, nr);
    }

    method PmpaddrWrite(nr: nat, address: nat)
      requires Arrays() && nr < 8
      modifies pmpaddr
      ensures PmpOf() == old(PmpOf()).SetAddr(nr, address)
    {
      pmpaddr[nr] := address / 4;
    }

    /** remap_os_region and remap_shared_region. */
    method RemapLast(lower: nat, upper: nat, perm: nat)
      requires Arrays() && perm < 8
      modifies this`pmpcfg0, pmpaddr
      ensures PmpOf() == old(PmpOf()).SetAddr(6, lower).SetAddr(7, upper).SetCfg(7, PMPCFG_A_TOR + perm)
    {
      PmpaddrWrite(6, lower);
      PmpaddrWrite(7, upper);
      PmpcfgWrite(7, PMPCFG_A_TOR + perm);
    }

    method RemapOsRegion()
      requires Arrays() && k.Valid()
      modifies this`pmpcfg0, pmpaddr
      ensures PmpOf() == RemapOs(k, old(PmpOf()))
    {
      RemapLast(k.base, k.base + k.payload, PMPCFG_R + PMPCFG_W + PMPCFG_X);
    }

    method RemapPmpRegion(e: nat, lower: nat, upper: nat)
      requires Arrays() && e < NR_ENCLAVES
      modifies pmpaddr
      ensures PmpOf() == RemapRegion(k, old(PmpOf()), e, lower, upper)
    {
      PmpaddrWrite(2 * e, k.base + lower);
      PmpaddrWrite(2 * e + 1, k.base + upper);
    }

    method FreePmpRegion(e: nat)
      requires Arrays() && e < NR_ENCLAVES
      modifies pmpaddr
      ensures PmpOf() == FreeRegion(old(PmpOf()), e)
    {
      PmpaddrWrite(2 * e, 0);
      PmpaddrWrite(2 * e + 1, 0);
    }

    method ChmodPmpRegion(e: nat, perm: nat)
      requires Arrays() && e < NR_ENCLAVES && perm < 8
      modifies this`pmpcfg0
      ensures PmpOf() == Chmod(old(PmpOf()), e, perm)
    {
      PmpcfgWrite(2 * e + 1, PMPCFG_A_TOR + perm);
    }

    // enclave.c

    method IsRegionOverlap(lower: nat, upper: nat) returns (found: bool)
      requires Arrays()
      ensures found <==> exists i :: 0 <= i < NR_ENCLAVES && Overlaps(enclaves[i], lower, upper)
    {
      var i := 0;
      while i < NR_ENCLAVES
        invariant 0 <= i <= NR_ENCLAVES
        invariant forall j :: 0 <= j < i ==> !Overlaps(enclaves[j], lower, upper)
      {
        if enclaves[i].secHi > lower && upper > enclaves[i].secLo {
          assert Overlaps(enclaves[i], lower, upper);
          return true;
        }
        i := i + 1;
      }
      return false;
    }

    method SysCreateEnclave(e: U64, entry: U64, lo: U64, hi: U64, shLo: U64, shHi: U64) returns (r: U64)
      requires Valid()
      modifies enclaves, pmpaddr, this`pmpcfg0
      ensures Valid() && Shaped(k, old(St()))
      ensures if CreateOk(k, old(St()), e, lo, hi, shLo, shHi) then r == 0
        && St() == Created(k, old(St()), e, entry, lo, hi, shLo, shHi)
              else r == EINVAL && St() == old(St())
    {
      ghost var s := St();
      InvShaped(k, s);
      if mode {
        return EINVAL;
      }
      if !(e < NR_ENCLAVES) {
        return EINVAL;
      }
      if enclaves[e].status != Free {
        return EINVAL;
      }
      if !RegionOk(k, lo, hi) {
        return EINVAL;
      }
      if !RegionOk(k, shLo, shHi) {
        return EINVAL;
      }
      var overlap := IsRegionOverlap(lo, hi);
      assert forall i :: 0 <= i < NR_ENCLAVES ==> enclaves[i] == s.enclaves[i];
      if overlap {
        return EINVAL;
      }
      enclaves[e] := enclaves[e].(secLo := lo, secHi := hi, shLo := shLo, shHi := shHi, entry := entry,
        status := Fresh);
      ChmodPmpRegion(e, 0);
      RemapPmpRegion(e, lo, hi);
      assert St() == Created(k, s, e, entry, lo, hi, shLo, shHi);
      CreatedKeepsInv(k, s, e, entry, lo, hi, shLo, shHi);
      return 0;
    }

    method SysDestroyEnclave(e: U64) returns (r: U64)
      requires Valid()
      modifies enclaves, mem, pmpaddr
      ensures Valid() && Shaped(k, old(St()))
      ensures if Startable(old(St()), e) then r == 0 && St() == Destroyed(k, old(St()), e)
        else r == EINVAL && St() == old(St())
    {
      ghost var s := St();
      InvShaped(k, s);
      if mode {
        return EINVAL;
      }
      if !(e < NR_ENCLAVES) {
        return EINVAL;
      }
      if enclaves[e].status != Idle && enclaves[e].status != Fresh {
        return EINVAL;
      }
      var x := enclaves[e];
      assert x == s.enclaves[e];
      forall i | x.secLo <= i < x.secHi {
        mem[i] := 0;
      }
      enclaves[e] := x.(status := Free, secLo := 0, secHi := 0);
      FreePmpRegion(e);
      assert St() == Destroyed(k, s, e);
      DestroyedKeepsInv(k, s, e);
      return 0;
    }

    method SysResumeEnclave(e: U64) returns (r: U64)
      requires Valid()
      modifies this, enclaves, pmpaddr
      ensures Valid() && Shaped(k, old(St()))
      ensures if !old(mode) && e < NR_ENCLAVES && old(St()).enclaves[e].status == Idle then r == 0
        && St() == Resumed(k, old(St()), e)
              else r == EINVAL && St() == old(St())
    {
      ghost var s := St();
      InvShaped(k, s);
      if mode {
        return EINVAL;
      }
      if !(e < NR_ENCLAVES) {
        return EINVAL;
      }
      if enclaves[e].status != Idle {
        return EINVAL;
      }
      mode := true;
      current := e;
      enclaves[e] := enclaves[e].(status := Running);
      host := cpu;
      cpu := enclaves[e].saved;
      ChmodPmpRegion(e, PMPCFG_R + PMPCFG_W + PMPCFG_X);
      RemapLast(k.base + enclaves[e].shLo, k.base + enclaves[e].shHi, PMPCFG_R + PMPCFG_W);
      assert St() == Resumed(k, s, e);
      ResumedKeepsInv(k, s, e);
      return 0;
    }

    method SysRunEnclave(e: U64) returns (r: U64)
      requires Valid()
      modifies this, enclaves, pmpaddr
      ensures Valid() && Shaped(k, old(St()))
      ensures if Startable(old(St()), e) then r == 0 && Shaped(k, Started(old(St()), e))
        && St() == Resumed(k, Started(old(St()), e), e)
              else r == EINVAL && St() == old(St())
    {
      ghost var s := St();
      InvShaped(k, s);
      if mode {
        return EINVAL;
      }
      if !(e < NR_ENCLAVES) {
        return EINVAL;
      }
      if enclaves[e].status != Idle && enclaves[e].status != Fresh {
        return EINVAL;
      }
      var x := enclaves[e];
      enclaves[e] := x.(saved := x.saved.(mepc := x.entry, regs := ZeroGprs()), status := Idle);
      assert St() == Started(s, e);
      StartedKeepsInv(k, s, e);
      r := SysResumeEnclave(e);
    }

    method SysExitEnclave() returns (r: U64)
      requires Valid()
      modifies this, enclaves, pmpaddr
      ensures Valid() && Shaped(k, old(St()))
      ensures if old(mode) then r == 0 && St() == Exited(k, old(St())) else r == EINVAL && St() == old(St())
    {
      ghost var s := St();
      InvShaped(k, s);
      var e := current;
      if !mode {
        return EINVAL;
      }
      mode := false;
      current := -1;
      enclaves[e] := enclaves[e].(status := Idle);
      enclaves[e] := enclaves[e].(saved := cpu);
      cpu := host;
      ChmodPmpRegion(e, 0);
      RemapOsRegion();
      assert enclaves[..] == s.enclaves[e := s.enclaves[e].(status := Idle, saved := s.cpu)];
      assert St() == Exited(k, s);
      ExitedKeepsInv(k, s);
      return 0;
    }

    /** do_trap_ecall_s. */
    method DoTrapEcallS(sbi: U64)
      requires Valid()
      modifies this, enclaves, mem, pmpaddr
      ensures Valid() && Shaped(k, old(St())) && St() == Trap(k, old(St()), sbi)
    {
      ghost var s := St();
      TrapKeepsInv(k, s, sbi);
      var nr, a, r := cpu.regs[A7], cpu.regs, ENOSYS;
      if nr <= 8 {
        r := sbi;
      } else if nr == NR_CREATE {
        r := SysCreateEnclave(a[A0], a[A0 + 1], a[A0 + 2], a[A0 + 3], a[A0 + 4], a[A0 + 5]);
      } else if nr == NR_DESTROY {
        r := SysDestroyEnclave(a[A0]);
      } else if nr == NR_RUN {
        r := SysRunEnclave(a[A0]);
      } else if nr == NR_EXIT {
        r := SysExitEnclave();
      } else if nr == NR_RESUME {
        r := SysResumeEnclave(a[A0]);
      }
      assert Result(St(), r) == Call(k, s, nr, a, sbi);
      cpu := cpu.(regs := cpu.regs[A0 := r]);
      if nr != NR_RUN {
        cpu := cpu.(mepc := Mod64(cpu.mepc as int + 4));
      }
    }
  }
}
