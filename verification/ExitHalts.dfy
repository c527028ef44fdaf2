/** The exit as it is written. Where a waiting init takes over a hanging child stands an
    assertion that always fails: which exits get there, and what that means for runs. */
module ExitHalts {
  import opened ExitWait

  /** Process i is a child of pid that hangs, and init waits. */
  predicate ToldAtOnce(s: Mm, pid: nat, init: nat, i: nat) {
    i < |s.procs| && s.procs[i].parent == pid && IsWaiting(s, init) && IsHanging(s, i)
  }

  /** The first n turns of the loop that takes the children of pid over. The second part of the
      result says that the assertion has failed, which ends the loop. */
  function AdoptedAsWritten(s: Mm, pid: nat, init: nat, n: nat): (r: (Mm, bool))
    requires n <= |s.procs| && init < |s.procs|
    ensures |r.0.procs| == |s.procs|
  {
    if n == 0 then (s, false)
    else
      var r := AdoptedAsWritten(s, pid, init, n - 1);
      if r.1 then r else (Adopted(r.0, pid, init, n - 1), ToldAtOnce(r.0, pid, init, n - 1))
  }

  function ExitAsWritten(s: Mm, pid: nat, status: int, init: nat): (Mm, bool)
    requires pid < |s.procs| && s.procs[pid].parent < |s.procs| && init < |s.procs|
  {
    AdoptedAsWritten(Left(s, pid, status), pid, init, |s.procs|)
  }

  /** Init waits, it is not the parent of pid, and a child of pid hangs. */
  predicate Halts(s: Mm, pid: nat, init: nat) {
    && pid < |s.procs| && s.procs[pid].parent != init && IsWaiting(s, init)
    && exists i | 0 <= i < |s.procs| :: s.procs[i].parent == pid && IsHanging(s, i)
  }

  // ---------------------------------------------------------------- one exit

  /** The assertion fails exactly when the loop comes to such a child; until then the loop does
      what it is meant to. */
  lemma {:induction false} LoopHalts(s: Mm, pid: nat, init: nat, n: nat)
    requires n <= |s.procs| && init < |s.procs|
    ensures var r := AdoptedAsWritten(s, pid, init, n);
            && (r.1 <==> exists i | 0 <= i < n :: ToldAtOnce(s, pid, init, i))
            && (!r.1 ==> r.0 == AllAdopted(s, pid, init, n)
                         && (forall j | 0 <= j < |s.procs| :: r.0.procs[j].flags == s.procs[j].flags)
                         && forall j | n <= j < |s.procs| :: r.0.procs[j].parent == s.procs[j].parent)
  {
    hide Delivered;
    if n > 0 {
      LoopHalts(s, pid, init, n - 1);
      var r := AdoptedAsWritten(s, pid, init, n - 1);
      assert !r.1 ==> ToldAtOnce(r.0, pid, init, n - 1) == ToldAtOnce(s, pid, init, n - 1);
    }
  }

  lemma LeftFlags(s: Mm, pid: nat, status: int, init: nat)
    requires Inv(s, init) && Legal(s, DoExit(pid, status), init)
    ensures var t := Left(s, pid, status);
            && (IsWaiting(t, init) <==> IsWaiting(s, init) && s.procs[pid].parent != init)
            && (forall i | 0 <= i < |s.procs| :: t.procs[i].parent == s.procs[i].parent)
            && forall i: nat | i != pid :: IsHanging(t, i) == IsHanging(s, i)
  {
    hide NoMissedExit, ExitsConserved, WaitsConserved;
  }

  /** An exit as written fails the assertion if and only if init waits, is not told about the
      exit itself, and a child of the process hangs. Otherwise it does what it is meant to. */
  lemma ExitHaltsExactly(s: Mm, pid: nat, status: int, init: nat)
    requires Inv(s, init) && Legal(s, DoExit(pid, status), init) && init < |s.procs|
    ensures ExitAsWritten(s, pid, status, init).1 <==> Halts(s, pid, init)
    ensures !Halts(s, pid, init) ==> ExitAsWritten(s, pid, status, init).0 == Exit(s, pid, status, init)
  {
    LeftFlags(s, pid, status, init);
    assert s.procs[pid].parent != pid;
    var t := Left(s, pid, status);
    LoopHalts(t, pid, init, |s.procs|);
    hide Inv, Left, AdoptedAsWritten, AllAdopted;
    if i :| 0 <= i < |s.procs| && ToldAtOnce(t, pid, init, i) {
      assert i != pid && s.procs[i].parent == pid && IsHanging(s, i);
    }
    if Halts(s, pid, init) {
      var i :| 0 <= i < |s.procs| && s.procs[i].parent == pid && IsHanging(s, i);
      assert ToldAtOnce(t, pid, init, i);
    }
  }

  lemma {:induction false} HaltStays(s: Mm, pid: nat, init: nat, i: nat, n: nat)
    requires i <= n <= |s.procs| && init < |s.procs| && AdoptedAsWritten(s, pid, init, i).1
    ensures AdoptedAsWritten(s, pid, init, n) == AdoptedAsWritten(s, pid, init, i)
  {
    if i < n {
      HaltStays(s, pid, init, i, n - 1);
    }
  }

  // ---------------------------------------------------------------- runs

  function StepAsWritten(s: Mm, r: Request, init: nat): (Mm, bool)
    requires Legal(s, r, init) && init < |s.procs|
  {
    if r.DoExit? then ExitAsWritten(s, r.pid, r.status, init) else (Step(s, r, init), false)
  }

  /** The request is an exit that fails the assertion. */
  predicate HaltsAt(s: Mm, r: Request, init: nat) {
    r.DoExit? && Halts(s, r.pid, init)
  }

  lemma StepAgrees(s: Mm, r: Request, init: nat)
    requires Inv(s, init) && Legal(s, r, init) && init < |s.procs|
    ensures StepAsWritten(s, r, init).1 <==> HaltsAt(s, r, init)
    ensures !HaltsAt(s, r, init) ==> StepAsWritten(s, r, init).0 == Step(s, r, init)
    ensures Inv(Step(s, r, init), init)
  {
    StepInv(s, r, init);
    hide Inv, Exit, ExitAsWritten, Halts;
    if r.DoExit? {
      ExitHaltsExactly(s, r.pid, r.status, init);
    }
  }

  /** A run of the code as written; nothing follows a failed assertion. */
  ghost function ExecAsWritten(s: Mm, rs: seq<Request>, init: nat): (Mm, bool)
    requires init < |s.procs| && Inv(s, init) && LegalRun(s, rs, init)
    decreases |rs|
  {
    if rs == [] then (s, false)
    else
      StepAgrees(s, rs[0], init);
      var r := StepAsWritten(s, rs[0], init);
      if r.1 then r else ExecAsWritten(r.0, rs[1..], init)
  }

  /** No request of the run fails the assertion. */
  ghost predicate NeverHalts(s: Mm, rs: seq<Request>, init: nat)
    requires init < |s.procs| && LegalRun(s, rs, init)
    decreases |rs|
  {
    rs == [] || (!HaltsAt(s, rs[0], init) && NeverHalts(Step(s, rs[0], init), rs[1..], init))
  }

  /** A run of the code as written fails the assertion if and only if one of its exits meets the
      condition; every other run is one of the intended protocol, and keeps its invariant. */
  lemma {:induction false} RunsAgree(s: Mm, rs: seq<Request>, init: nat)
    requires init < |s.procs| && Inv(s, init) && LegalRun(s, rs, init)
    ensures ExecAsWritten(s, rs, init).1 <==> !NeverHalts(s, rs, init)
    ensures NeverHalts(s, rs, init) ==>
              ExecAsWritten(s, rs, init).0 == Exec(s, rs, init) && Inv(ExecAsWritten(s, rs, init).0, init)
    decreases |rs|
  {
    hide Inv, Step, StepAsWritten, HaltsAt, Legal;
    if rs != [] {
      StepAgrees(s, rs[0], init);
      if !HaltsAt(s, rs[0], init) {
        RunsAgree(Step(s, rs[0], init), rs[1..], init);
      }
    }
  }

  // ---------------------------------------------------------------- a run that fails

  lemma {:induction false} NobodyAdopted(s: Mm, pid: nat, init: nat, n: nat)
    requires n <= |s.procs| && init < |s.procs| && forall i | 0 <= i < |s.procs| :: s.procs[i].parent != pid
    ensures AllAdopted(s, pid, init, n) == s
  {
    if n > 0 {
      NobodyAdopted(s, pid, init, n - 1);
    }
  }

  lemma ForkTo(s: Mm, pid: nat, i: nat)
    requires pid < |s.procs| && i < |s.procs| && s.procs[i].flags == {FreeSlot}
    requires forall j | 0 <= j < i :: s.procs[j].flags != {FreeSlot}
    ensures Fork(s, pid) == s.(procs := s.procs[i := s.procs[pid].(parent := pid)])
  {
    FirstFreeSlotAt(s, i, |s.procs|);
  }

  lemma LegalCons(s: Mm, r: Request, rs: seq<Request>, init: nat)
    requires init < |s.procs| && Legal(s, r, init) && init < |Step(s, r, init).procs| && LegalRun(Step(s, r, init), rs, init)
    ensures LegalRun(s, [r] + rs, init) && Exec(s, [r] + rs, init) == Exec(Step(s, r, init), rs, init)
  {
    assert ([r] + rs)[1..] == rs;
    hide Step, Legal;
  }

  /** Init and the first n of the processes each forked by the one before it. */
  function Family(n: nat): Mm
    requires n < 4
  {
    Mm(seq(4, i => if i <= n then Proc({}, if i > 0 then i - 1 else 4, 0) else Proc({FreeSlot}, 4, 0)), [], [], [])
  }

  /** Init waits for 1, and 3 hangs, the child of 2. */
  function BeforeHalt(status: int): Mm {
    Mm([Proc({Waiting}, 4, 0), Proc({}, 0, 0), Proc({}, 1, 0), Proc({Hanging}, 2, status)], [(3, status)], [0], [])
  }

  /** Init forks 1, which forks 2, which forks 3; 3 exits, and init waits. */
  function RunToHalt(status: int): seq<Request> {
    [DoFork(0)] + ([DoFork(1)] + ([DoFork(2)] + ([DoExit(3, status)] + ([DoWait(0)] + []))))
  }

  lemma ForkStep(s: Mm, pid: nat, i: nat)
    requires 0 < |s.procs| && Legal(s, DoFork(pid), 0) && i < |s.procs| && s.procs[i].flags == {FreeSlot}
    requires forall j | 0 <= j < i :: s.procs[j].flags != {FreeSlot}
    ensures Step(s, DoFork(pid), 0) == s.(procs := s.procs[i := s.procs[pid].(parent := pid)])
  {
    ForkTo(s, pid, i);
    hide Fork;
  }

  lemma ExitStep(s: Mm, pid: nat, status: int)
    requires Inv(s, 0) && 0 < |s.procs| && Legal(s, DoExit(pid, status), 0) && !IsWaiting(s, s.procs[pid].parent)
    requires forall i | 0 <= i < |s.procs| :: s.procs[i].parent != pid
    ensures Step(s, DoExit(pid, status), 0) == Hung(s, pid, status)
  {
    NobodyAdopted(Hung(s, pid, status), pid, 0, |s.procs|);
    hide Inv, AllAdopted;
  }

  lemma WaitStep(s: Mm, pid: nat, child: nat)
    requires 0 < |s.procs| && Legal(s, DoWait(pid), 0) && child < |s.procs| && s.procs[child].parent == pid
    requires forall i | 0 <= i < |s.procs| :: !(s.procs[i].parent == pid && IsHanging(s, i))
    ensures Step(s, DoWait(pid), 0)
            == Flagged(s.(waits := s.waits + [pid]), pid, s.procs[pid].flags + {Waiting})
  {
    HangingChildNone(s.(waits := s.waits + [pid]), pid, |s.procs|);
    hide HangingChild;
  }

  lemma FamilyGrows(n: nat)
    requires n < 3
    ensures Legal(Family(n), DoFork(n), 0) && Step(Family(n), DoFork(n), 0) == Family(n + 1)
  {
    ForkStep(Family(n), n, n + 1);
  }

  lemma LastExits(status: int)
    ensures Legal(Family(3), DoExit(3, status), 0)
    ensures Step(Family(3), DoExit(3, status), 0) == Hung(Family(3), 3, status)
  {
    assert Start(Family(3), 0);
    StartInv(Family(3), 0);
    ExitStep(Family(3), 3, status);
  }

  lemma InitWaits(status: int)
    ensures var s := Hung(Family(3), 3, status); Legal(s, DoWait(0), 0) && Step(s, DoWait(0), 0) == BeforeHalt(status)
  {
    var s := Hung(Family(3), 3, status);
    assert {} + {Hanging} == {Hanging} && {} + {Waiting} == {Waiting};
    assert s.procs[1].parent == 0;
    WaitStep(s, 0, 1);
    hide Step, Legal;
    assert Flagged(s.(waits := [0]), 0, {Waiting}) == BeforeHalt(status);
  }

  lemma RunToHaltEnds(status: int)
    ensures LegalRun(Family(0), RunToHalt(status), 0) && Exec(Family(0), RunToHalt(status), 0) == BeforeHalt(status)
  {
    hide Step, Exec, LegalRun, Legal, RunToHalt;
    FamilyGrows(0);
    FamilyGrows(1);
    FamilyGrows(2);
    LastExits(status);
    InitWaits(status);
    RunOfFive(Family(0), Family(1), Family(2), Family(3), Hung(Family(3), 3, status), BeforeHalt(status), status);
  }

  /** From the start a run leads to an exit that fails the assertion: 2 exits while init waits
      and 3 hangs. */
  lemma RunThatHalts(status: int)
    ensures var s, rs := Family(0), RunToHalt(status);
            && Start(s, 0) && LegalRun(s, rs, 0) && Legal(Exec(s, rs, 0), DoExit(2, status), 0)
            && 0 < |Exec(s, rs, 0).procs| && ExitAsWritten(Exec(s, rs, 0), 2, status, 0).1
  {
    RunToHaltEnds(status);
    var s5 := BeforeHalt(status);
    hide LegalRun, Exec, Inv, RunToHalt, ExitAsWritten;
    assert s5.procs[3].parent == 2 && IsHanging(s5, 3) && IsWaiting(s5, 0);
    assert Start(Family(0), 0) && Legal(s5, DoExit(2, status), 0) && Halts(s5, 2, 0);
    hide Start, Halts;
    ReachableInv(Family(0), RunToHalt(status), 0);
    ExitHaltsExactly(s5, 2, status, 0);
  }

  lemma RunOfFive(s0: Mm, s1: Mm, s2: Mm, s3: Mm, s4: Mm, s5: Mm, status: int)
    requires |s0.procs| == |s1.procs| == |s2.procs| == |s3.procs| == |s4.procs| == |s5.procs| == 4
    requires Legal(s0, DoFork(0), 0) && Step(s0, DoFork(0), 0) == s1
    requires Legal(s1, DoFork(1), 0) && Step(s1, DoFork(1), 0) == s2
    requires Legal(s2, DoFork(2), 0) && Step(s2, DoFork(2), 0) == s3
    requires Legal(s3, DoExit(3, status), 0) && Step(s3, DoExit(3, status), 0) == s4
    requires Legal(s4, DoWait(0), 0) && Step(s4, DoWait(0), 0) == s5
    ensures LegalRun(s0, RunToHalt(status), 0) && Exec(s0, RunToHalt(status), 0) == s5
  {
    hide Step, Legal;
    LegalCons(s4, DoWait(0), [], 0);
    LegalCons(s3, DoExit(3, status), [DoWait(0)] + [], 0);
    LegalCons(s2, DoFork(2), [DoExit(3, status)] + ([DoWait(0)] + []), 0);
    LegalCons(s1, DoFork(1), [DoFork(2)] + ([DoExit(3, status)] + ([DoWait(0)] + [])), 0);
    LegalCons(s0, DoFork(0), [DoFork(1)] + ([DoFork(2)] + ([DoExit(3, status)] + ([DoWait(0)] + []))), 0);
  }
}
