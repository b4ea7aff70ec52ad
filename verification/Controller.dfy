/**
 * run_controller (jsvc-unix.c) and the processes it forks, as one system: the
 * controller, its child with the signals it gets, and the exits it reaps.
 */
module Controller {
  import opened Supervisor
  import Runs

  // ----- The controller's loop on its own -----

  /** How waitpid reports a child, and what a fork comes to. */
  datatype Status = ExitedWith(code: nat) | KilledBy(sig: nat) | Unclear
  datatype Fork = ForkFailed | Forked(status: Status)

  /** The controller's end: it has not come yet, or the code it returns. */
  datatype End = StillForking | Returned(rc: nat)

  /** A child after which the controller forks again. */
  predicate Restarts(f: Fork) {
    f.Forked? && (f.status == ExitedWith(123) || f.status.KilledBy?)
  }

  function EndAfter(f: Fork): End {
    if Restarts(f) then StillForking else if f == Forked(ExitedWith(0)) then Returned(0) else Returned(1)
  }

  /** All these forks but possibly the last lead to another, and end is where the last one leads. */
  predicate LeadsTo(forks: seq<Fork>, end: End) {
    && (forall i :: 0 <= i < |forks| - 1 ==> Restarts(forks[i]))
    && end == if forks == [] then StillForking else EndAfter(forks[|forks| - 1])
  }

  /** The children that exited, and not because another one holds the pid file. */
  function Unlinks(forks: seq<Fork>): nat {
    if forks == [] then 0
    else
      var f := forks[|forks| - 1];
      Unlinks(forks[..|forks| - 1]) + if f.Forked? && f.status.ExitedWith? && f.status.code != 122 then 1 else 0
  }

  lemma UnlinksGrow(forks: seq<Fork>, f: Fork)
    ensures Unlinks(forks + [f]) ==
      Unlinks(forks) + if f.Forked? && f.status.ExitedWith? && f.status.code != 122 then 1 else 0
  {
    assert (forks + [f])[..|forks|] == forks;
  }

  /** One fork more, after forks that have led to it. */
  lemma OneForkMore(forks: seq<Fork>, n: nat)
    requires n < |forks| && LeadsTo(forks[..n], StillForking)
    ensures LeadsTo(forks[..n + 1], EndAfter(forks[n]))
    ensures Unlinks(forks[..n + 1]) ==
      Unlinks(forks[..n])
      + if forks[n].Forked? && forks[n].status.ExitedWith? && forks[n].status.code != 122 then 1 else 0
  {
    assert forks[..n + 1] == forks[..n] + [forks[n]];
    UnlinksGrow(forks[..n], forks[n]);
  }

  /** The forks whose child exited, but not with 122. */
  ghost function ExitsBut122(forks: seq<Fork>): set<nat> {
    set i: nat | i < |forks| && forks[i].Forked? && forks[i].status.ExitedWith? && forks[i].status.code != 122
  }

  lemma {:induction false} UnlinksAre(forks: seq<Fork>)
    ensures Unlinks(forks) ==
      |set i: nat | i < |forks| && forks[i].Forked? && forks[i].status.ExitedWith? && forks[i].status.code != 122|
  {
    if forks != [] {
      var n := |forks| - 1;
      var init := forks[..n];
      UnlinksAre(init);
      var f := forks[n];
      assert ExitsBut122(forks) ==
        ExitsBut122(init) + if f.Forked? && f.status.ExitedWith? && f.status.code != 122 then {n} else {};
      assert n !in ExitsBut122(init);
    }
  }

  /**
   * The loop, on what becomes of its forks one after the other. It forks again
   * after exactly the children that exited 123 or were killed, and returns 0 if and
   * only if the last one exited 0. unlinked counts the removals of the pid file,
   * service says that neither the version nor a check was asked for.
   */
  method RunController(forks: seq<Fork>, service: bool) returns (end: End, used: nat, unlinked: nat)
    ensures used <= |forks| && LeadsTo(forks[..used], end)
    ensures forall i :: 0 <= i < used - 1 ==>
      forks[i].Forked? && (forks[i].status == ExitedWith(123) || forks[i].status.KilledBy?)
    ensures end == StillForking ==> used == |forks|
    ensures end.Returned? <==>
      (used > 0
       && !(forks[used - 1].Forked? && (forks[used - 1].status == ExitedWith(123) || forks[used - 1].status.KilledBy?)))
    ensures end.Returned? ==> end.rc == if forks[used - 1] == Forked(ExitedWith(0)) then 0 else 1
    ensures unlinked == if service then Unlinks(forks[..used]) else 0
  {
    used, unlinked := 0, 0;
    while used < |forks|
      invariant used <= |forks| && LeadsTo(forks[..used], StillForking)
      invariant forall i :: 0 <= i < used ==>
        forks[i].Forked? && (forks[i].status == ExitedWith(123) || forks[i].status.KilledBy?)
      invariant unlinked == if service then Unlinks(forks[..used]) else 0
    {
      var f := forks[used];
      OneForkMore(forks, used);
      used := used + 1;
      if f.ForkFailed? {
        return Returned(1), used, unlinked;
      }
      if f.status.ExitedWith? {
        var status := f.status.code;
        if service && status != 122 {
          unlinked := unlinked + 1;
        }
        if status == 123 {
          continue;
        }
        if status == 0 {
          return Returned(0), used, unlinked;
        }
        return Returned(1), used, unlinked;
      } else {
        if f.status.KilledBy? {
          continue;
        }
        return Returned(1), used, unlinked;
      }
    }
    end := StillForking;
  }

  // ----- The controller among its processes -----

  /** A process that runs, or one that has ended and has not been waited for. */
  datatype Process = Running(child: Child) | Zombie(child: Child, status: Status)

  datatype Phase = Forking | Waiting(pid: nat) | Ended(rc: nat)

  /** A child as it was when waitpid reported it. */
  datatype Reaped = Reaped(child: Child, status: Status)

  /** forks counts the calls of fork, forkFailed says that the last one failed. */
  datatype System = System(
    phase: Phase, procs: map<nat, Process>, reaped: seq<Reaped>,
    forks: nat, forkFailed: bool, unlinked: nat, service: bool)

  predicate Start(s: System) {
    s == System(Forking, map[], [], 0, false, 0, s.service)
  }

  ghost predicate ForkStep(s: System, s': System, pid: nat, child: Child) {
    && s.phase == Forking && pid !in s.procs
    && child == NewChild(s.service, child.stopOk, child.destroyOk)
    && s' == s.(phase := Waiting(pid), procs := s.procs[pid := Running(child)], forks := s.forks + 1)
  }

  predicate ForkFails(s: System, s': System) {
    s.phase == Forking && s' == s.(phase := Ended(1), forks := s.forks + 1, forkFailed := true)
  }

  /** A child's own step, a handler's step, or a signal that arrives; returning from child() ends the process. */
  ghost predicate ChildStep(s: System, s': System, pid: nat, child: Child) {
    && pid in s.procs && s.procs[pid].Running? && Step(s.procs[pid].child, child)
    && var p := if child.phase.Exited? then Zombie(child, ExitedWith(child.phase.code)) else Running(child);
       s' == s.(procs := s.procs[pid := p])
  }

  /** A child is killed, or its JVM exits with a code of its own. */
  predicate DeathStep(s: System, s': System, pid: nat, status: Status) {
    && pid in s.procs && s.procs[pid].Running? && status != Unclear
    && s' == s.(procs := s.procs[pid := Zombie(s.procs[pid].child, status)])
  }

  /** What the controller does about a status. */
  function AfterStatus(status: Status): Phase {
    match status
    case ExitedWith(code) => if code == 123 then Forking else if code == 0 then Ended(0) else Ended(1)
    case KilledBy(_) => Forking
    case Unclear => Ended(1)
  }

  function ReapedFrom(s: System, p: Process, status: Status): System {
    s.(phase := AfterStatus(status), reaped := s.reaped + [Reaped(p.child, status)],
       unlinked := s.unlinked + if s.service && status.ExitedWith? && status.code != 122 then 1 else 0)
  }

  /** waitpid reports the child's end. */
  predicate ReapStep(s: System, s': System) {
    && s.phase.Waiting? && s.phase.pid in s.procs && s.procs[s.phase.pid].Zombie?
    && s' == ReapedFrom(s, s.procs[s.phase.pid], s.procs[s.phase.pid].status).(procs := s.procs - {s.phase.pid})
  }

  /** waitpid reports a child that is neither exited nor killed. */
  predicate UnclearStep(s: System, s': System) {
    && s.phase.Waiting? && s.phase.pid in s.procs && s.procs[s.phase.pid].Running?
    && s' == ReapedFrom(s, s.procs[s.phase.pid], Unclear)
  }

  ghost predicate SystemStep(s: System, s': System) {
    || (exists pid, child :: ForkStep(s, s', pid, child))
    || ForkFails(s, s')
    || (exists pid, child :: ChildStep(s, s', pid, child))
    || (exists pid, status :: DeathStep(s, s', pid, status))
    || ReapStep(s, s')
    || UnclearStep(s, s')
  }

  ghost predicate SystemRun(run: seq<System>) {
    Runs.IsRun(run, (s, s') => SystemStep(s, s')) && Start(run[0])
  }

  // ----- What every state of every run has in common -----

  /** One child at most, and none between a reaped one and the next fork. */
  predicate ProcsFit(phase: Phase, procs: map<nat, Process>) {
    && (forall p, q :: p in procs && q in procs ==> p == q)
    && (phase == Forking ==> forall p :: p !in procs)
    && (phase.Waiting? ==> phase.pid in procs)
  }

  /** The child is as some run of a child leaves it, and its status is its own exit code if it came to exit. */
  predicate ChildFits(child: Child, status: Status) {
    Supervisor.Invariant(child) && (child.phase.Exited? ==> status == ExitedWith(child.phase.code))
  }

  predicate ProcessFits(p: Process) {
    match p
    case Running(child) => Supervisor.Invariant(child) && !child.phase.Exited?
    case Zombie(child, status) => ChildFits(child, status)
  }

  predicate AllFit(procs: map<nat, Process>, reaped: seq<Reaped>) {
    && (forall pid :: pid in procs ==> ProcessFits(procs[pid]))
    && (forall i :: 0 <= i < |reaped| ==> ChildFits(reaped[i].child, reaped[i].status))
  }

  /** What has become of the forks so far. */
  function Outcomes(reaped: seq<Reaped>, forkFailed: bool): seq<Fork> {
    seq(|reaped|, i requires 0 <= i < |reaped| => Forked(reaped[i].status)) + if forkFailed then [ForkFailed] else []
  }

  function EndOf(phase: Phase): End {
    if phase.Ended? then Returned(phase.rc) else StillForking
  }

  /** The controller is where its loop gets to on these outcomes. */
  predicate LoopFits(s: System) {
    && LeadsTo(Outcomes(s.reaped, s.forkFailed), EndOf(s.phase))
    && s.unlinked == (if s.service then Unlinks(Outcomes(s.reaped, s.forkFailed)) else 0)
    && s.forks == |Outcomes(s.reaped, s.forkFailed)| + (if s.phase.Waiting? then 1 else 0)
    && (s.forkFailed ==> s.phase == Ended(1))
  }

  predicate SystemInvariant(s: System) {
    ProcsFit(s.phase, s.procs) && AllFit(s.procs, s.reaped) && LoopFits(s)
  }

  lemma OneOutcomeMore(reaped: seq<Reaped>, r: Reaped)
    ensures Outcomes(reaped + [r], false) == Outcomes(reaped, false) + [Forked(r.status)]
  {
  }

  lemma LoopGoesOn(s: System, p: Process, status: Status)
    requires LoopFits(s) && s.phase.Waiting?
    ensures LoopFits(ReapedFrom(s, p, status))
  {
    OneOutcomeMore(s.reaped, Reaped(p.child, status));
    UnlinksGrow(Outcomes(s.reaped, false), Forked(status));
  }

  lemma ForkKeeps(s: System, s': System, pid: nat, child: Child)
    requires SystemInvariant(s) && ForkStep(s, s', pid, child)
    ensures SystemInvariant(s')
  {
  }

  lemma ForkFailureKeeps(s: System, s': System)
    requires SystemInvariant(s) && ForkFails(s, s')
    ensures SystemInvariant(s')
  {
    assert Outcomes(s.reaped, true) == Outcomes(s.reaped, false) + [ForkFailed];
    UnlinksGrow(Outcomes(s.reaped, false), ForkFailed);
  }

  lemma ProcessKeeps(s: System, s': System, pid: nat, p: Process)
    requires SystemInvariant(s) && pid in s.procs && ProcessFits(p) && s' == s.(procs := s.procs[pid := p])
    ensures SystemInvariant(s')
  {
  }

  lemma ReapKeeps(s: System, s': System)
    requires SystemInvariant(s) && (ReapStep(s, s') || UnclearStep(s, s'))
    ensures SystemInvariant(s')
  {
    var p := s.procs[s.phase.pid];
    LoopGoesOn(s, p, if p.Zombie? then p.status else Unclear);
  }

  lemma SystemInvariantKept(s: System, s': System)
    requires SystemInvariant(s) && SystemStep(s, s')
    ensures SystemInvariant(s')
  {
    if pid, child :| ChildStep(s, s', pid, child) {
      Supervisor.InvariantKept(s.procs[pid].child, child);
      ProcessKeeps(s, s', pid, s'.procs[pid]);
    } else if pid, status :| DeathStep(s, s', pid, status) {
      ProcessKeeps(s, s', pid, s'.procs[pid]);
    } else if ReapStep(s, s') || UnclearStep(s, s') {
      ReapKeeps(s, s');
    } else if ForkFails(s, s') {
      ForkFailureKeeps(s, s');
    } else {
      var pid, child :| ForkStep(s, s', pid, child);
      ForkKeeps(s, s', pid, child);
    }
  }

  lemma SystemRunsKeepInvariant(run: seq<System>, i: nat)
    requires SystemRun(run) && i < |run|
    ensures SystemInvariant(run[i])
  {
    forall s, s' | SystemInvariant(s) && SystemStep(s, s')
      ensures SystemInvariant(s')
    {
      SystemInvariantKept(s, s');
    }
    Runs.Everywhere(run, (s, s') => SystemStep(s, s'), s => SystemInvariant(s), i);
  }

  // ----- What holds of every run -----

  /**
   * In every state of every run: there is at most one child, alive or not yet
   * waited for, and none while the controller forks; every reaped child
   * but the last exited 123 or was killed, and so did the last as long as the
   * controller forks or waits; the controller has returned 0 if and only if the
   * last child it reaped exited 0, and whatever it returns its loop returns on
   * the same outcomes.
   */
  lemma OneControllerOneChild(run: seq<System>, i: nat)
    requires SystemRun(run) && i < |run|
    ensures
      var s := run[i];
      && (forall p, q :: p in s.procs && q in s.procs ==> p == q)
      && (s.phase == Forking ==> forall p :: p !in s.procs)
      && (s.phase.Waiting? ==> s.phase.pid in s.procs)
    ensures
      var s := run[i];
      && (forall j :: 0 <= j < |s.reaped| ==>
            (j < |s.reaped| - 1 || !s.phase.Ended? || s.forkFailed
             <==> s.reaped[j].status == ExitedWith(123) || s.reaped[j].status.KilledBy?))
      && (s.phase == Ended(0) <==> s.reaped != [] && s.reaped[|s.reaped| - 1].status == ExitedWith(0))
      && LeadsTo(Outcomes(s.reaped, s.forkFailed), EndOf(s.phase))
      && s.unlinked == if s.service then Unlinks(Outcomes(s.reaped, s.forkFailed)) else 0
  {
    SystemRunsKeepInvariant(run, i);
    ReapedFit(run[i]);
  }

  lemma ReapedFit(s: System)
    requires LoopFits(s)
    ensures forall j :: 0 <= j < |s.reaped| ==>
      (j < |s.reaped| - 1 || !s.phase.Ended? || s.forkFailed
       <==> s.reaped[j].status == ExitedWith(123) || s.reaped[j].status.KilledBy?)
    ensures s.phase == Ended(0) <==> s.reaped != [] && s.reaped[|s.reaped| - 1].status == ExitedWith(0)
  {
    var fs := Outcomes(s.reaped, s.forkFailed);
    assert forall j :: 0 <= j < |s.reaped| ==> fs[j] == Forked(s.reaped[j].status);
  }

  /**
   * A child that came to exit and stops and destroys well is followed by another
   * call of fork if and only if some HUP found stopping not yet set; if no signal
   * interrupted a handler, if and only if HUP was the first that asked to stop.
   */
  lemma HupMeansAnotherChild(run: seq<System>, i: nat, j: nat)
    requires SystemRun(run) && i < |run| && j < |run[i].reaped|
    requires
      var c := run[i].reaped[j].child;
      c.phase.Exited? && c.served && c.stopOk && c.destroyOk
    ensures
      var c := run[i].reaped[j].child;
      var again := j + 1 < run[i].forks || run[i].phase == Forking;
      && (again <==> Hup in c.signals.passed)
      && (!c.signals.nested ==> (again <==> FirstStop(c.signals.got) == AskedBy(Hup)))
  {
    SystemRunsKeepInvariant(run, i);
    var s := run[i];
    assert ChildFits(s.reaped[j].child, s.reaped[j].status);
    ExitTells(s.reaped[j].child);
    ReapedFit(s);
  }

  /** A child that does not get as far as its signal handlers is the last one. */
  lemma FailedStartEnds(run: seq<System>, i: nat, j: nat)
    requires SystemRun(run) && i < |run| && j < |run[i].reaped|
    requires run[i].reaped[j].child.phase.Exited? && !run[i].reaped[j].child.served
    ensures j == |run[i].reaped| - 1 && run[i].phase.Ended?
    ensures run[i].reaped[j].child.service ==> run[i].phase == Ended(1)
  {
    SystemRunsKeepInvariant(run, i);
    assert ChildFits(run[i].reaped[j].child, run[i].reaped[j].status);
    ReapedFit(run[i]);
  }
}
