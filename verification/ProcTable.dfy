/** The process manager on the process table, as it is written. */
module ProcTable {
  import opened ExitWait
  import opened ExitHalts

  class ProcessManager {
    const procTable: array<Proc>
    const init: nat
    ghost var s: Mm

    ghost predicate Valid()
      reads this, procTable
    {
      s.procs == procTable[..] && Inv(s, init)
    }

    constructor (procTable: array<Proc>, init: nat)
      requires Inv(Mm(procTable[..], [], [], []), init)
      ensures Valid() && this.procTable == procTable && this.init == init && s == Mm(procTable[..], [], [], [])
    {
      this.procTable := procTable;
      this.init := init;
      s := Mm(procTable[..], [], [], []);
    }

    /** Tells the parent of i and releases the slot. */
    method CleanUp(i: nat)
      requires s.procs == procTable[..] && i < procTable.Length
      modifies this`s, procTable
      ensures s.procs == procTable[..] && s == Cleanup(old(s), i)
    {
      s := Cleanup(s, i);
      procTable[i] := procTable[i].(flags := {FreeSlot});
    }

    /** Serves an exit request. Returns true when the assertion in it has failed. */
    method DoExit(pid: nat, status: int) returns (halted: bool)
      requires Valid() && Legal(s, Request.DoExit(pid, status), init)
      modifies this`s, procTable
      ensures init < procTable.Length && s.procs == procTable[..]
      ensures (s, halted) == old(ExitAsWritten(s, pid, status, init))
      ensures halted <==> old(Halts(s, pid, init))
      ensures !halted ==> Valid() && s == old(Exit(s, pid, status, init))
    {
      ghost var s0 := s;
      InitThere(s0, init);
      ExitInv(s0, pid, status, init);
      ExitHaltsExactly(s0, pid, status, init);
      hide Inv, Adopted, Delivered, Cleanup, ToldAtOnce, Halts, Hung, Legal;
      Leave(pid, status);
      ghost var s1 := s;
      for i := 0 to procTable.Length
        invariant s.procs == procTable[..] && |s1.procs| == procTable.Length
        invariant (s, false) == AdoptedAsWritten(s1, pid, init, i)
      {
        halted := Adopt(pid, i);
        if halted {
          HaltStays(s1, pid, init, i + 1, procTable.Length);
          return;
        }
      }
      halted := false;
    }

    /** The parent is told that pid has exited, or pid hangs. */
    method Leave(pid: nat, status: int)
      requires s.procs == procTable[..] && pid < procTable.Length && procTable[pid].parent < procTable.Length
      requires IsRunning(s, pid)
      modifies this`s, procTable
      ensures s.procs == procTable[..] && s == old(Left(s, pid, status))
    {
      ghost var s0 := s;
      var p := procTable[pid].parent;
      procTable[pid] := procTable[pid].(exitStatus := status);
      if Waiting in procTable[p].flags {
        procTable[p] := procTable[p].(flags := procTable[p].flags - {Waiting});
        ghost var s1 := s0.(procs := procTable[..], exits := s0.exits + [(pid, status)]);
        s := s1;
        CleanUp(pid);
        assert s.procs == old(Left(s, pid, status)).procs;
      } else {
        procTable[pid] := procTable[pid].(flags := procTable[pid].flags + {Hanging});
        s := Hung(s0, pid, status);
      }
    }

    /** One child is taken over by init. Returns true when that fails the assertion. */
    method Adopt(pid: nat, i: nat) returns (halted: bool)
      requires s.procs == procTable[..] && i < procTable.Length && init < procTable.Length
      modifies this`s, procTable
      ensures s.procs == procTable[..] && s == old(Adopted(s, pid, init, i))
      ensures halted == old(ToldAtOnce(s, pid, init, i))
    {
      ghost var s0 := s;
      halted := false;
      if procTable[i].parent == pid {
        procTable[i] := procTable[i].(parent := init);
        s := s0.(procs := procTable[..]);
        if Waiting in procTable[init].flags && Hanging in procTable[i].flags {
          procTable[init] := procTable[init].(flags := procTable[init].flags - {Waiting});
          s := s0.(procs := procTable[..]);
          CleanUp(i);
          halted := true;
        }
      }
    }

    method DoWait(pid: nat)
      requires Valid() && IsRunning(s, pid)
      modifies this`s, procTable
      ensures Valid() && s == old(Wait(s, pid))
    {
      ghost var s0 := s;
      WaitInv(s0, pid, init);
      hide Inv, Cleanup;
      ghost var s1 := s0.(waits := s0.waits + [pid]);
      s := s1;
      var children := 0;
      for i := 0 to procTable.Length
        invariant s == s1 && procTable[..] == s0.procs
        invariant children > 0 <==> exists j | 0 <= j < i :: s0.procs[j].parent == pid
        invariant forall j | 0 <= j < i :: !(s0.procs[j].parent == pid && IsHanging(s0, j))
      {
        if procTable[i].parent == pid {
          children := children + 1;
          if Hanging in procTable[i].flags {
            HangingChildAt(s1, pid, i, procTable.Length);
            CleanUp(i);
            return;
          }
        }
      }
      HangingChildNone(s1, pid, procTable.Length);
      if children > 0 {
        procTable[pid] := procTable[pid].(flags := procTable[pid].flags + {Waiting});
        s := Flagged(s1, pid, s1.procs[pid].flags + {Waiting});
      } else {
        s := s1.(reports := s1.reports + [NoChild(pid)]);
      }
    }

    /** Returns the number of the child, or -1 when there is no free slot. */
    method DoFork(pid: nat) returns (child: int)
      requires Valid() && IsRunning(s, pid)
      modifies this`s, procTable
      ensures Valid() && s == old(Fork(s, pid))
      ensures -1 <= child < procTable.Length
      ensures child == -1 ==> s == old(s)
      ensures child >= 0 ==> old(procTable[..])[child].flags == {FreeSlot} && procTable[child].parent == pid
    {
      ForkInv(s, pid, init);
      hide Inv;
      var i := 0;
      while i < procTable.Length && procTable[i].flags != {FreeSlot}
        invariant 0 <= i <= procTable.Length
        invariant forall j | 0 <= j < i :: procTable[j].flags != {FreeSlot}
        decreases procTable.Length - i
      {
        i := i + 1;
      }
      FirstFreeSlotAt(s, i, procTable.Length);
      if i == procTable.Length {
        return -1;
      }
      s := Fork(s, pid);
      procTable[i] := procTable[pid].(parent := pid);
      child := i;
    }
  }
}
