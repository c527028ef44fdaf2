/** What exit, wait and fork do to the process table, case by case, and that nobody is left without
    a parent. */
module ExitOutcomes {
  import opened ExitWait

  // ---------------------------------------------------------------- parents

  lemma LeftParents(s: Mm, pid: nat, status: int)
    requires pid < |s.procs| && s.procs[pid].parent < |s.procs|
    ensures |Left(s, pid, status).procs| == |s.procs|
    ensures forall i | 0 <= i < |s.procs| :: Left(s, pid, status).procs[i].parent == s.procs[i].parent
  {}

  lemma {:induction false} AllAdoptedParents(s: Mm, pid: nat, init: nat, n: nat)
    requires n <= |s.procs| && init < |s.procs| && pid != init
    ensures forall i | 0 <= i < |s.procs| ::
              AllAdopted(s, pid, init, n).procs[i].parent
              == if i < n && s.procs[i].parent == pid then init else s.procs[i].parent
  {
    if n > 0 {
      AllAdoptedParents(s, pid, init, n - 1);
      hide Delivered;
      AdoptedParent(AllAdopted(s, pid, init, n - 1), pid, init, n - 1);
    }
  }

  lemma AdoptedParent(s: Mm, pid: nat, init: nat, i: nat)
    requires i < |s.procs| && init < |s.procs|
    ensures var s' := Adopted(s, pid, init, i);
            && |s'.procs| == |s.procs| && s'.procs[i].parent == (if s.procs[i].parent == pid then init else s.procs[i].parent)
            && forall j | 0 <= j < |s.procs| && j != i :: s'.procs[j].parent == s.procs[j].parent
  {}

  /** When a process exits, init becomes the parent of its children, and nobody else gets another
      parent. */
  lemma ExitParents(s: Mm, pid: nat, status: int, init: nat)
    requires pid < |s.procs| && s.procs[pid].parent < |s.procs| && init < |s.procs| && pid != init
    ensures |Exit(s, pid, status, init).procs| == |s.procs|
    ensures forall i | 0 <= i < |s.procs| ::
              Exit(s, pid, status, init).procs[i].parent == if s.procs[i].parent == pid then init else s.procs[i].parent
  {
    LeftParents(s, pid, status);
    AllAdoptedParents(Left(s, pid, status), pid, init, |s.procs|);
    hide Left, AllAdopted;
  }

  /** Every process but init and the tasks has a parent in the table. */
  ghost predicate Cared(s: Mm, init: nat, tasks: set<nat>) {
    forall i | 0 <= i < |s.procs| && !IsFree(s, i) && i != init && i !in tasks :: s.procs[i].parent < |s.procs|
  }

  lemma {:induction false} AllAdoptedFree(s: Mm, pid: nat, init: nat, n: nat)
    requires n <= |s.procs| && init < |s.procs|
    ensures forall i: nat | IsFree(s, i) :: IsFree(AllAdopted(s, pid, init, n), i)
  {
    if n > 0 {
      AllAdoptedFree(s, pid, init, n - 1);
    }
  }

  /** Nobody loses the parent: a process without one has been a task from the start. */
  lemma StepCared(s: Mm, r: Request, init: nat, tasks: set<nat>)
    requires Inv(s, init) && Legal(s, r, init) && init < |s.procs| && Cared(s, init, tasks)
    ensures Cared(Step(s, r, init), init, tasks)
  {
    hide NoMissedExit, ExitsConserved, WaitsConserved, HangingChild, FirstFreeSlot;
    match r {
      case DoExit(pid, status) =>
        ExitParents(s, pid, status, init);
        AllAdoptedFree(Left(s, pid, status), pid, init, |s.procs|);
        assert forall i: nat | IsFree(s, i) :: IsFree(Left(s, pid, status), i);
        hide AllAdopted, Left;
      case DoWait(pid) =>
      case DoFork(pid) =>
    }
  }

  lemma {:induction false} RunCared(s: Mm, rs: seq<Request>, init: nat, tasks: set<nat>)
    requires Inv(s, init) && LegalRun(s, rs, init) && Cared(s, init, tasks)
    ensures Cared(Exec(s, rs, init), init, tasks)
    decreases |rs|
  {
    InitThere(s, init);
    hide Inv, Step, Legal, Cared;
    if rs != [] {
      StepInv(s, rs[0], init);
      StepCared(s, rs[0], init, tasks);
      RunCared(Step(s, rs[0], init), rs[1..], init, tasks);
    }
  }

  /** So in every reachable state every running process but init and the tasks can exit: it has a
      parent in the table. */
  lemma ExitsAreLegal(s: Mm, rs: seq<Request>, init: nat, tasks: set<nat>, pid: nat, status: int)
    requires Start(s, init) && LegalRun(s, rs, init) && Cared(s, init, tasks)
    requires IsRunning(Exec(s, rs, init), pid) && pid != init && pid !in tasks
    ensures Legal(Exec(s, rs, init), DoExit(pid, status), init)
  {
    StartInv(s, init);
    RunCared(s, rs, init, tasks);
    hide Inv, Start, Exec, LegalRun;
  }

  // ---------------------------------------------------------------- what a request does, case by case

  /** What has been asked for is written down. */
  lemma StepLedger(s: Mm, r: Request, init: nat)
    requires Legal(s, r, init) && init < |s.procs|
    ensures Step(s, r, init).exits == if r.DoExit? then s.exits + [(r.pid, r.status)] else s.exits
    ensures Step(s, r, init).waits == if r.DoWait? then s.waits + [r.pid] else s.waits
  {
    hide HangingChild, FirstFreeSlot;
    if r.DoExit? {
      AllAdoptedLedger(Left(s, r.pid, r.status), r.pid, init, |s.procs|);
    }
  }

  lemma {:induction false} AllAdoptedLedger(s: Mm, pid: nat, init: nat, n: nat)
    requires n <= |s.procs| && init < |s.procs|
    ensures AllAdopted(s, pid, init, n).exits == s.exits && AllAdopted(s, pid, init, n).waits == s.waits
  {
    if n > 0 {
      AllAdoptedLedger(s, pid, init, n - 1);
    }
  }

  /** A wait is answered at once, with the first child that hangs, whose slot is then free, or with
      no child when there is none; otherwise the process waits, and nothing is reported. */
  lemma WaitOutcome(s: Mm, pid: nat)
    requires FlagsOk(s) && IsRunning(s, pid)
    ensures var s' := Wait(s, pid);
            && |s'.procs| == |s.procs|
            && (forall j | 0 <= j < |s.procs| && j != pid && s'.procs[j] != s.procs[j] ::
                  s.procs[j].parent == pid && IsHanging(s, j) && s'.procs[j] == s.procs[j].(flags := {FreeSlot}))
            && (if exists i | 0 <= i < |s.procs| :: s.procs[i].parent == pid && IsHanging(s, i) then
                  exists i | 0 <= i < |s.procs| ::
                    && s.procs[i].parent == pid && IsHanging(s, i) && IsFree(s', i)
                    && (forall j | 0 <= j < i :: !(s.procs[j].parent == pid && IsHanging(s, j)))
                    && s'.reports == s.reports + [Report(pid, i, s.procs[i].exitStatus)] && IsRunning(s', pid)
                else if HasChild(s, pid) then s'.reports == s.reports && IsWaiting(s', pid)
                else s'.reports == s.reports + [NoChild(pid)] && s'.procs == s.procs)
  {
    hide HangingChild;
    var s1 := s.(waits := s.waits + [pid]);
    var i := HangingChild(s1, pid, |s.procs|);
    assert HasChild(s1, pid) == HasChild(s, pid);
    if i < |s.procs| {
      assert s.procs[i].parent == pid && IsHanging(s1, i) && IsHanging(s, i);
      assert i != pid;
    } else {
      assert forall j | 0 <= j < |s.procs| :: IsHanging(s, j) == IsHanging(s1, j);
    }
  }

  /** A fork makes the first free slot a copy of the process, which is its parent, and changes no
      other; without a free slot it changes nothing. */
  lemma ForkOutcome(s: Mm, pid: nat)
    requires FlagsOk(s) && IsRunning(s, pid)
    ensures var s' := Fork(s, pid);
            && s'.reports == s.reports && |s'.procs| == |s.procs|
            && (if exists i: nat :: IsFree(s, i) then
                  exists i: nat ::
                    && IsFree(s, i) && (forall j | 0 <= j < i :: !IsFree(s, j))
                    && IsRunning(s', i) && s'.procs[i].parent == pid
                    && forall j | 0 <= j < |s.procs| && j != i :: s'.procs[j] == s.procs[j]
                else s' == s)
  {
    hide FirstFreeSlot;
    var i := FirstFreeSlot(s, |s.procs|);
    forall j | 0 <= j < |s.procs| ensures IsFree(s, j) <==> s.procs[j].flags == {FreeSlot} {}
    if i < |s.procs| {
      assert IsFree(s, i) && IsRunning(Fork(s, pid), i);
    }
  }

  /** Process j is as it was, or it waited and waits no more, or it hung and its slot is free. */
  predicate SameOrTold(s: Mm, s': Mm, pid: nat, init: nat, j: nat)
    requires j < |s.procs| == |s'.procs|
  {
    || s'.procs[j].flags == s.procs[j].flags
    || (j == init && s.procs[j].flags == {Waiting} && s'.procs[j].flags == {})
    || (s.procs[j].parent == pid && s.procs[j].flags == {Hanging} && IsWaiting(s, init) && s'.procs[j].flags == {FreeSlot})
  }

  /** What has happened to flags once the first n processes have been looked at. */
  ghost predicate ToldUpTo(s: Mm, s': Mm, pid: nat, init: nat, n: nat) {
    && |s'.procs| == |s.procs| && FlagsOk(s') && (IsWaiting(s', init) ==> IsWaiting(s, init))
    && (forall j | 0 <= j < |s.procs| :: s'.procs[j].exitStatus == s.procs[j].exitStatus && SameOrTold(s, s', pid, init, j))
    && forall j | n <= j < |s.procs| :: s'.procs[j].parent == s.procs[j].parent && (j != init ==> s'.procs[j].flags == s.procs[j].flags)
  }

  lemma AdoptedFlags(s: Mm, s1: Mm, pid: nat, init: nat, i: nat)
    requires init < |s.procs| && i < |s.procs| && ToldUpTo(s, s1, pid, init, i)
    ensures ToldUpTo(s, Adopted(s1, pid, init, i), pid, init, i + 1)
  {
    var s2 := s1.(procs := s1.procs[i := s1.procs[i].(parent := init)]);
    if s1.procs[i].parent == pid && IsWaiting(s2, init) && IsHanging(s2, i) {
      DeliveredShape(s2, init, i);
      DeliveredStatus(s2, init, i);
      assert s1.procs[i].flags == {Hanging} && s1.procs[init].flags == {Waiting};
    }
    hide Delivered;
  }

  lemma DeliveredStatus(s: Mm, w: nat, i: nat)
    requires w < |s.procs| && i < |s.procs|
    ensures forall j | 0 <= j < |s.procs| :: Delivered(s, w, i).procs[j].exitStatus == s.procs[j].exitStatus
  {}

  lemma {:induction false} AllAdoptedFlags(s: Mm, pid: nat, init: nat, n: nat)
    requires n <= |s.procs| && init < |s.procs| && FlagsOk(s)
    ensures ToldUpTo(s, AllAdopted(s, pid, init, n), pid, init, n)
  {
    hide Adopted;
    if n > 0 {
      AllAdoptedFlags(s, pid, init, n - 1);
      hide ToldUpTo;
      AdoptedFlags(s, AllAdopted(s, pid, init, n - 1), pid, init, n - 1);
    }
  }

  /** What an exit does to flags: the process hangs, or is gone when its parent waited; the parent,
      or init, waits no more when it is told, and a child is gone that hung while init waited.
      Nothing else changes. */
  lemma ExitOutcome(s: Mm, pid: nat, status: int, init: nat)
    requires Inv(s, init) && Legal(s, DoExit(pid, status), init) && init < |s.procs|
    ensures var s', p := Exit(s, pid, status, init), s.procs[pid].parent;
            && |s'.procs| == |s.procs| && s'.procs[pid].exitStatus == status
            && s'.procs[pid].flags == (if IsWaiting(s, p) then {FreeSlot} else {Hanging})
            && (IsWaiting(s, p) ==> s'.procs[p].flags == {})
            && forall j | 0 <= j < |s.procs| && j != pid && !(j == p && IsWaiting(s, p)) ::
                 s'.procs[j].exitStatus == s.procs[j].exitStatus && SameOrTold(s, s', pid, init, j)
  {
    var t, p := Left(s, pid, status), s.procs[pid].parent;
    hide NoMissedExit, ExitsConserved, WaitsConserved;
    LeftFlagsOk(s, pid, status, init);
    assert p != pid;
    hide Left;
    AllAdoptedFlags(t, pid, init, |s.procs|);
    hide AllAdopted, FlagsOk;
  }

  lemma LeftFlagsOk(s: Mm, pid: nat, status: int, init: nat)
    requires Inv(s, init) && Legal(s, DoExit(pid, status), init) && init < |s.procs|
    ensures var t, p := Left(s, pid, status), s.procs[pid].parent;
            && FlagsOk(t) && t.procs[pid].exitStatus == status && t.procs[pid].parent == p
            && t.procs[pid].flags == (if IsWaiting(s, p) then {FreeSlot} else {Hanging})
            && (IsWaiting(s, p) ==> t.procs[p].flags == {})
            && (IsWaiting(t, init) ==> IsWaiting(s, init))
            && forall j | 0 <= j < |s.procs| && j != pid && !(j == p && IsWaiting(s, p)) :: t.procs[j] == s.procs[j]
  {
    var p := s.procs[pid].parent;
    HungShape(s, pid, status);
    hide Hung, NoMissedExit, ExitsConserved, WaitsConserved;
    if IsWaiting(s, p) {
      assert Hung(s, pid, status).procs[p] == s.procs[p];
      DeliveredShape(Hung(s, pid, status), p, pid);
    }
    HungStatus(s, pid, status);
  }

  lemma HungStatus(s: Mm, pid: nat, status: int)
    requires pid < |s.procs|
    ensures Hung(s, pid, status).procs[pid].exitStatus == status
  {}
}
