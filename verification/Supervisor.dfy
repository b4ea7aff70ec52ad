/**
 * The service child (jsvc-unix.c): its main loop, and the signal handler that
 * interrupts it. Handlers of different signals may interrupt one another.
 */
module Supervisor {
  import Runs

  datatype Signal = Term | Int | Hup | Usr1 | Usr2 | OtherSignal(n: nat)

  predicate AsksToStop(sig: Signal) {
    sig == Term || sig == Int || sig == Hup
  }

  // ----- The handler -----

  /** The static flags that the handler sets. */
  datatype Flags = Flags(stopping: bool, doreload: bool, doreopen: bool, dosignal: bool)

  /** What the handler of a signal does next: look at stopping, set it, set doreload. */
  datatype Stage = Idle | Test | SetStopping | SetReload

  /** The handlers of the three signals that ask to stop; a signal is held back while its own handler runs. */
  datatype Handlers = Handlers(term: Stage, int_: Stage, hup: Stage) {
    predicate AllIdle() {
      term == Idle && int_ == Idle && hup == Idle
    }

    function At(sig: Signal): Stage {
      match sig
      case Term => term
      case Int => int_
      case Hup => hup
      case _ => Idle
    }

    function Put(sig: Signal, stage: Stage): Handlers {
      match sig
      case Term => this.(term := stage)
      case Int => this.(int_ := stage)
      case Hup => this.(hup := stage)
      case _ => this
    }
  }

  /**
   * got is what has arrived since the handlers are installed, passed whose
   * handlers found stopping not yet set, and nested whether a signal arrived
   * while the handler of another was at work.
   */
  datatype Signalled = Signalled(flags: Flags, handlers: Handlers, got: seq<Signal>, passed: set<Signal>, nested: bool)

  function Quiet(): Signalled {
    Signalled(Flags(false, false, false, false), Handlers(Idle, Idle, Idle), [], {}, false)
  }

  /** A signal arrives: a handler that asks to stop begins, another does its one store. */
  function Receive(s: Signalled, sig: Signal): Signalled {
    Signalled(
      if sig == Usr1 then s.flags.(doreopen := true) else if sig == Usr2 then s.flags.(dosignal := true) else s.flags,
      s.handlers.Put(sig, Test), s.got + [sig], s.passed, s.nested || !s.handlers.AllIdle())
  }

  /** One step of a handler at work. */
  function Handle(s: Signalled, sig: Signal): Signalled {
    match s.handlers.At(sig)
    case Idle => s
    case Test =>
      if s.flags.stopping then s.(handlers := s.handlers.Put(sig, Idle))
      else s.(handlers := s.handlers.Put(sig, SetStopping), passed := s.passed + {sig})
    case SetStopping =>
      s.(flags := s.flags.(stopping := true), handlers := s.handlers.Put(sig, if sig == Hup then SetReload else Idle))
    case SetReload =>
      s.(flags := s.flags.(doreload := true), handlers := s.handlers.Put(sig, Idle))
  }

  // ----- The main loop -----

  /** The child's next action; the last ones are taken after the loop. */
  datatype Phase =
    | Starting | CheckStopping | Sleep | Reopen | Forward | Stop | Decide | Destroy(ret: nat) | Exited(code: nat)

  /**
   * served says that the handlers have been installed; stopOk and destroyOk how
   * java_stop and JVM_destroy will end.
   */
  datatype Child = Child(phase: Phase, signals: Signalled, served: bool, service: bool, stopOk: bool, destroyOk: bool)

  function NewChild(service: bool, stopOk: bool, destroyOk: bool): Child {
    Child(Starting, Quiet(), false, service, stopOk, destroyOk)
  }

  /** What the child may exit with before it installs its handlers. */
  predicate IsStartCode(code: nat, service: bool) {
    code in {1, 3, 4, 5, 7, 122, 255} || (!service && code in {0, 2})
  }

  ghost predicate StartStep(c: Child, c': Child) {
    && c.phase == Starting
    && (|| (c.service && c' == c.(phase := CheckStopping, served := true))
        || (c'.phase.Exited? && IsStartCode(c'.phase.code, c.service) && c' == c.(phase := c'.phase)))
  }

  predicate Serving(c: Child) {
    c.phase != Starting && !c.phase.Exited?
  }

  /** Where the child goes on. */
  function NextPhase(c: Child): Phase {
    match c.phase
    case CheckStopping => if c.signals.flags.stopping then Stop else Sleep
    case Sleep => Reopen
    case Reopen => Forward
    case Forward => CheckStopping
    case Stop => if c.stopOk then Decide else Exited(6)
    case Decide => Destroy(if c.signals.flags.doreload then 123 else 0)
    case Destroy(ret) => Exited(if c.destroyOk then ret else 7)
    case p => p
  }

  /** The child's own step, with the flags that it takes back. */
  function Advance(c: Child): Child {
    var f := c.signals.flags;
    var f' := f.(doreopen := f.doreopen && c.phase != Reopen, dosignal := f.dosignal && c.phase != Forward);
    c.(phase := NextPhase(c), signals := c.signals.(flags := f'))
  }

  /** The child itself goes on only when no handler is at work. */
  ghost predicate Step(c: Child, c': Child) {
    || StartStep(c, c')
    || (Serving(c) && c.signals.handlers.AllIdle() && c' == Advance(c))
    || (Serving(c) && exists sig :: c.signals.handlers.At(sig) != Idle && c' == c.(signals := Handle(c.signals, sig)))
    || (Serving(c) && exists sig :: c.signals.handlers.At(sig) == Idle && c' == c.(signals := Receive(c.signals, sig)))
  }

  ghost predicate Run(run: seq<Child>) {
    && Runs.IsRun(run, (c, c') => Step(c, c'))
    && run[0] == NewChild(run[0].service, run[0].stopOk, run[0].destroyOk)
  }

  // ----- What every state of every run has in common -----

  datatype Asked = NotAsked | AskedBy(sig: Signal) {
    function AsSet(): set<Signal> {
      if NotAsked? then {} else {sig}
    }
  }

  /** The first signal that asks to stop. */
  function FirstStop(got: seq<Signal>): Asked {
    if got == [] then NotAsked
    else if AsksToStop(got[0]) then AskedBy(got[0])
    else FirstStop(got[1..])
  }

  lemma {:induction false} FirstStopStays(got: seq<Signal>, sig: Signal)
    ensures FirstStop(got + [sig]) ==
      if FirstStop(got) != NotAsked then FirstStop(got) else if AsksToStop(sig) then AskedBy(sig) else NotAsked
  {
    if got == [] {
      assert ([] + [sig])[1..] == [];
    } else {
      assert (got + [sig])[1..] == got[1..] + [sig];
      FirstStopStays(got[1..], sig);
    }
  }

  /** What the handlers have done so far. */
  predicate FlagsFit(stopping: bool, doreload: bool, h: Handlers, passed: set<Signal>, first: Asked) {
    && h.term != SetReload && h.int_ != SetReload
    && (stopping ==> passed != {})
    && (passed != {} ==> stopping || h.term == SetStopping || h.int_ == SetStopping || h.hup == SetStopping)
    && (doreload ==> stopping && Hup in passed)
    && (Hup in passed ==> doreload || h.hup == SetStopping || h.hup == SetReload)
    && (h.term == SetStopping || h.int_ == SetStopping ==> passed != {})
    && (h.hup == SetStopping || h.hup == SetReload ==> Hup in passed)
    && (h.hup == SetReload ==> stopping)
    && (!h.AllIdle() || passed != {} ==> first != NotAsked)
    && (first != NotAsked ==> stopping || !h.AllIdle())
  }

  /** While handlers run one after the other, only the first signal that asks to stop passes. */
  predicate InTurn(h: Handlers, passed: set<Signal>, first: Asked) {
    && (h.term == Idle || h.int_ == Idle) && (h.term == Idle || h.hup == Idle) && (h.int_ == Idle || h.hup == Idle)
    && (|| passed == first.AsSet()
        || (passed == {} && first.AskedBy? && h.At(first.sig) == Test))
  }

  predicate HandlersFit(s: Signalled) {
    && FlagsFit(s.flags.stopping, s.flags.doreload, s.handlers, s.passed, FirstStop(s.got))
    && (!s.nested ==> InTurn(s.handlers, s.passed, FirstStop(s.got)))
  }

  /** What a child that has served exits with; reload says that a HUP has passed. */
  function ExitCode(reload: bool, stopOk: bool, destroyOk: bool): nat {
    if !stopOk then 6 else if !destroyOk then 7 else if reload then 123 else 0
  }

  predicate LeftLoop(p: Phase) {
    p == Stop || p == Decide || p.Destroy? || p.Exited?
  }

  /** No handler will set a flag any more. */
  predicate Settled(stopping: bool, h: Handlers) {
    && stopping && h.term != SetStopping && h.int_ != SetStopping && h.hup != SetStopping
    && h.term != SetReload && h.int_ != SetReload && h.hup != SetReload
  }

  /** Where the child is in its main function. */
  predicate PhaseFits(c: Child) {
    && (c.phase == Starting ==> !c.served)
    && (c.phase == Starting || c.phase.Exited? ==> c.signals.handlers.AllIdle())
    && (Serving(c) ==> c.served)
    && (LeftLoop(c.phase) && c.served ==> Settled(c.signals.flags.stopping, c.signals.handlers))
    && (c.phase == Decide || c.phase.Destroy? ==> c.stopOk)
    && (c.phase.Destroy? ==> c.phase.ret == if c.signals.flags.doreload then 123 else 0)
    && (c.phase.Exited? ==>
          if c.served then c.phase.code == ExitCode(c.signals.flags.doreload, c.stopOk, c.destroyOk)
          else IsStartCode(c.phase.code, c.service))
  }

  predicate Invariant(c: Child) {
    HandlersFit(c.signals) && PhaseFits(c)
  }

  lemma ReceiveFits(s: Signalled, sig: Signal)
    requires HandlersFit(s) && s.handlers.At(sig) == Idle
    ensures HandlersFit(Receive(s, sig))
  {
    FirstStopStays(s.got, sig);
  }

  lemma HandleFits(s: Signalled, sig: Signal)
    requires HandlersFit(s)
    ensures HandlersFit(Handle(s, sig))
  {
  }

  /** Once the flags are settled a handler changes nothing. */
  lemma HandleSettled(s: Signalled, sig: Signal)
    requires Settled(s.flags.stopping, s.handlers)
    ensures Settled(Handle(s, sig).flags.stopping, Handle(s, sig).handlers) && Handle(s, sig).flags == s.flags
  {
  }

  lemma AdvanceKeeps(c: Child)
    requires Invariant(c) && Serving(c) && c.signals.handlers.AllIdle()
    ensures Invariant(Advance(c))
  {
  }

  lemma HandleKeeps(c: Child, sig: Signal)
    requires Invariant(c) && Serving(c)
    ensures Invariant(c.(signals := Handle(c.signals, sig)))
  {
    HandleFits(c.signals, sig);
    if LeftLoop(c.phase) {
      HandleSettled(c.signals, sig);
    }
  }

  lemma ReceiveKeeps(c: Child, sig: Signal)
    requires Invariant(c) && Serving(c) && c.signals.handlers.At(sig) == Idle
    ensures Invariant(c.(signals := Receive(c.signals, sig)))
  {
    ReceiveFits(c.signals, sig);
  }

  lemma StartKeeps(c: Child, c': Child)
    requires Invariant(c) && StartStep(c, c')
    ensures Invariant(c')
  {
  }

  lemma InvariantKept(c: Child, c': Child)
    requires Invariant(c) && Step(c, c')
    ensures Invariant(c')
  {
    if StartStep(c, c') {
      StartKeeps(c, c');
    } else if c.signals.handlers.AllIdle() && c' == Advance(c) {
      AdvanceKeeps(c);
    } else if sig :| c.signals.handlers.At(sig) != Idle && c' == c.(signals := Handle(c.signals, sig)) {
      HandleKeeps(c, sig);
    } else {
      var sig :| c.signals.handlers.At(sig) == Idle && c' == c.(signals := Receive(c.signals, sig));
      ReceiveKeeps(c, sig);
    }
  }

  lemma RunsKeepInvariant(run: seq<Child>, i: nat)
    requires Run(run) && i < |run|
    ensures Invariant(run[i])
  {
    forall c, c' | Invariant(c) && Step(c, c')
      ensures Invariant(c')
    {
      InvariantKept(c, c');
    }
    Runs.Everywhere(run, (c, c') => Step(c, c'), c => Invariant(c), i);
  }

  // ----- What the exit code tells -----

  /**
   * A child that has served was asked to stop, and exits 123 if and only if it
   * stops and destroys well and some HUP found stopping not yet set. If no
   * signal interrupted a handler, that HUP is the first signal that asked.
   */
  lemma ExitTells(c: Child)
    requires Invariant(c) && c.phase.Exited? && c.served
    ensures FirstStop(c.signals.got) != NotAsked
    ensures c.phase.code == ExitCode(Hup in c.signals.passed, c.stopOk, c.destroyOk)
    ensures !c.signals.nested ==> (Hup in c.signals.passed <==> FirstStop(c.signals.got) == AskedBy(Hup))
  {
  }

  /** The first of the three signals, written out. */
  lemma {:induction false} FirstStopIs(got: seq<Signal>, k: nat)
    requires k < |got| && (got[k] == Term || got[k] == Int || got[k] == Hup)
    requires forall i :: 0 <= i < k ==> got[i] != Term && got[i] != Int && got[i] != Hup
    ensures FirstStop(got) == AskedBy(got[k])
  {
    if k > 0 {
      FirstStopIs(got[1..], k - 1);
    }
  }

  /** Once any of the three has arrived and no handler is at work, the child is stopping. */
  lemma AskedIsStopping(run: seq<Child>, i: nat, k: nat)
    requires Run(run) && i < |run| && run[i].signals.handlers == Handlers(Idle, Idle, Idle)
    requires
      var got := run[i].signals.got;
      k < |got| && (got[k] == Term || got[k] == Int || got[k] == Hup)
    ensures run[i].signals.flags.stopping
  {
    RunsKeepInvariant(run, i);
    SomeStop(run[i].signals.got, k);
  }

  lemma {:induction false} SomeStop(got: seq<Signal>, k: nat)
    requires k < |got| && (got[k] == Term || got[k] == Int || got[k] == Hup)
    ensures FirstStop(got) != NotAsked
  {
    if k > 0 {
      SomeStop(got[1..], k - 1);
    }
  }

  /** USR1 and USR2 only ask for the log files and for the signal to Java. */
  lemma OtherSignals(s: Signalled)
    ensures Receive(s, Usr1).flags == Flags(s.flags.stopping, s.flags.doreload, true, s.flags.dosignal)
    ensures Receive(s, Usr2).flags == Flags(s.flags.stopping, s.flags.doreload, s.flags.doreopen, true)
    ensures Receive(s, Usr1).handlers == s.handlers == Receive(s, Usr2).handlers
  {
  }

  /** A round of the loop that nothing interrupts serves both requests, and leaves nothing else changed. */
  lemma RoundServes(c: Child)
    requires c.phase == CheckStopping && !c.signals.flags.stopping
    ensures Advance(c).phase == Sleep && Advance(Advance(c)).phase == Reopen
    ensures Advance(Advance(Advance(c))) == c.(phase := Forward, signals := c.signals.(flags := c.signals.flags.(doreopen := false)))
    ensures Advance(Advance(Advance(Advance(c)))) ==
      c.(signals := c.signals.(flags := Flags(false, c.signals.flags.doreload, false, false)))
  {
  }

  /** Over every interleaving of signals, handlers and the child's own steps. */
  lemma ReloadIffHupFirst(run: seq<Child>, i: nat)
    requires Run(run) && i < |run| && run[i].phase.Exited? && run[i].served
    ensures FirstStop(run[i].signals.got) != NotAsked
    ensures run[i].phase.code == 123 <==> run[i].stopOk && run[i].destroyOk && Hup in run[i].signals.passed
    ensures !run[i].signals.nested && run[i].stopOk && run[i].destroyOk ==>
      (run[i].phase.code == 123 <==> FirstStop(run[i].signals.got) == AskedBy(Hup))
      && (run[i].phase.code == 0 <==> FirstStop(run[i].signals.got) != AskedBy(Hup))
    ensures !run[i].stopOk ==> run[i].phase.code == 6
    ensures run[i].stopOk && !run[i].destroyOk ==> run[i].phase.code == 7
  {
    RunsKeepInvariant(run, i);
    ExitTells(run[i]);
  }

  /** The three steps that lead a healthy child out once it is asked to stop. */
  lemma Leaves(run: seq<Child>) returns (longer: seq<Child>)
    requires Run(run)
    requires
      var c := run[|run| - 1];
      && c.phase == CheckStopping && c.stopOk && c.destroyOk && c.signals.handlers.AllIdle() && c.signals.flags.stopping
    ensures Run(longer)
    ensures
      var c, c' := run[|run| - 1], longer[|longer| - 1];
      && c'.served == c.served && c'.signals.got == c.signals.got
      && c'.phase == Exited(if c.signals.flags.doreload then 123 else 0)
  {
    var step := (c, c') => Step(c, c');
    var c1 := Advance(run[|run| - 1]);
    var c2 := Advance(c1);
    var c3 := Advance(c2);
    longer := Runs.Extended(run, c1, step);
    longer := Runs.Extended(longer, c2, step);
    longer := Runs.Extended(longer, c3, step);
    longer := Runs.Extended(longer, Advance(c3), step);
  }

  lemma Installed() returns (run: seq<Child>)
    ensures Run(run) && run[|run| - 1] == NewChild(true, true, true).(phase := CheckStopping, served := true)
  {
    var c := NewChild(true, true, true);
    run := Runs.Extended([c], c.(phase := CheckStopping, served := true), (c, c') => Step(c, c'));
  }

  lemma Arrives(run: seq<Child>, sig: Signal) returns (longer: seq<Child>)
    requires Run(run) && Serving(run[|run| - 1]) && run[|run| - 1].signals.handlers.At(sig) == Idle
    ensures Run(longer)
    ensures var c := run[|run| - 1]; longer[|longer| - 1] == c.(signals := Receive(c.signals, sig))
  {
    var c := run[|run| - 1];
    longer := Runs.Extended(run, c.(signals := Receive(c.signals, sig)), (c, c') => Step(c, c'));
  }

  lemma Handles(run: seq<Child>, sig: Signal) returns (longer: seq<Child>)
    requires Run(run) && Serving(run[|run| - 1]) && run[|run| - 1].signals.handlers.At(sig) != Idle
    ensures Run(longer)
    ensures var c := run[|run| - 1]; longer[|longer| - 1] == c.(signals := Handle(c.signals, sig))
  {
    var c := run[|run| - 1];
    longer := Runs.Extended(run, c.(signals := Handle(c.signals, sig)), (c, c') => Step(c, c'));
  }

  /**
   * When handlers interrupt one another the first signal does not decide. A TERM
   * that is interrupted by a HUP before it sets stopping ends in 123.
   */
  lemma HupInterruptsTerm() returns (run: seq<Child>)
    ensures Run(run) && run[|run| - 1].served && run[|run| - 1].phase == Exited(123)
    ensures run[|run| - 1].signals.got == [Term, Hup]
  {
    run := Installed();
    run := Arrives(run, Term);
    run := Handles(run, Term);
    run := Arrives(run, Hup);
    run := Handles(run, Hup);
    run := Handles(run, Hup);
    run := Handles(run, Hup);
    run := Handles(run, Term);
    run := Leaves(run);
  }

  /** A HUP that is interrupted by a TERM before it looks at stopping ends in 0. */
  lemma TermInterruptsHup() returns (run: seq<Child>)
    ensures Run(run) && run[|run| - 1].served && run[|run| - 1].phase == Exited(0)
    ensures run[|run| - 1].signals.got == [Hup, Term]
  {
    run := Installed();
    run := Arrives(run, Hup);
    run := Arrives(run, Term);
    run := Handles(run, Term);
    run := Handles(run, Term);
    run := Handles(run, Hup);
    run := Leaves(run);
  }
}
