/**
 * Starting Java's main in a worker thread (javajni.c): apxJavaStart and
 * __apxJavaWorkerThread as two processes that share a status word and two
 * auto-reset events, and the shortcut that apxJavaWait takes.
 */
module JavaWorker {
  import Runs

  /** The starter's next action. */
  datatype Starter =
    | ClearStatus | MakeEvents | MakeThread | ResumeWorker | WaitInit | ReadStatus | SignalSync
    | Returned(rv: bool)

  /** The worker's next action; leaving main or failing before it both end in Finish and SignalEnd. */
  datatype Worker =
    | Unborn | Suspended | CheckType | Initialise | SetRunning | SignalInit | WaitSync | CallMain | InMain
    | Finish(pastMain: bool) | SignalEnd(pastMain: bool) | Exited(pastMain: bool)

  /** status is dwWorkerStatus, init and sync are the events; jvm says whether the handle is a JVM. */
  datatype State = State(starter: Starter, worker: Worker, status: nat, init: bool, sync: bool, jvm: bool)

  ghost predicate Start(s: State) {
    s.starter == ClearStatus && s.worker == Unborn && !s.init && !s.sync
  }

  ghost predicate StarterStep(s: State, s': State) {
    match s.starter
    case ClearStatus => s' == s.(starter := MakeEvents, status := 0)
    case MakeEvents => s' == s.(starter := MakeThread, init := false, sync := false)
    case MakeThread =>
      || s' == s.(starter := ResumeWorker, worker := Suspended)
      || s' == s.(starter := Returned(false))
    case ResumeWorker => s' == s.(starter := WaitInit, worker := CheckType)
    case WaitInit => s.init && s' == s.(starter := ReadStatus, init := false)
    case ReadStatus => s' == s.(starter := if s.status == 0 then Returned(false) else SignalSync)
    case SignalSync => s' == s.(starter := Returned(true), sync := true)
    case Returned(_) => false
  }

  ghost predicate WorkerStep(s: State, s': State) {
    match s.worker
    case Unborn => false
    case Suspended => false
    case CheckType => s' == s.(worker := if s.jvm then Initialise else Exited(false))
    case Initialise => s' == s.(worker := SetRunning) || s' == s.(worker := Finish(false))
    case SetRunning => s' == s.(worker := SignalInit, status := 1)
    case SignalInit => s' == s.(worker := WaitSync, init := true)
    case WaitSync => s.sync && s' == s.(worker := CallMain, sync := false)
    case CallMain => s' == s.(worker := InMain)
    case InMain => s' == s.(worker := Finish(true))
    case Finish(m) => s' == s.(worker := SignalEnd(m), status := 0)
    case SignalEnd(m) => s' == s.(worker := Exited(m), init := true)
    case Exited(_) => false
  }

  ghost predicate Step(s: State, s': State) {
    StarterStep(s, s') || WorkerStep(s, s')
  }

  /** An interleaving of the two, from the call of apxJavaStart on. */
  ghost predicate Run(run: seq<State>) {
    Runs.IsRun(run, (s, s') => Step(s, s')) && Start(run[0])
  }

  // ----- What every state of every run has in common -----

  predicate BeforeThread(p: Starter) {
    p == ClearStatus || p == MakeEvents || p == MakeThread
  }

  /** The worker has completed its initialisation. */
  predicate Initialised(w: Worker) {
    match w
    case SignalInit => true
    case WaitSync => true
    case CallMain => true
    case InMain => true
    case Finish(m) => m
    case SignalEnd(m) => m
    case Exited(m) => m
    case _ => false
  }

  /** Java's main has been called. */
  predicate MainCalled(w: Worker) {
    w == InMain || (Initialised(w) && (w.Finish? || w.SignalEnd? || w.Exited?))
  }

  ghost predicate Invariant(s: State) {
    && (BeforeThread(s.starter) ==> s.worker == Unborn && !s.init && !s.sync)
    && (s.starter == ResumeWorker ==> s.worker == Suspended && !s.init && !s.sync && s.status == 0)
    && (s.starter == MakeEvents || s.starter == MakeThread ==> s.status == 0)
    && (s.worker == Unborn ==> BeforeThread(s.starter) || s.starter == Returned(false))
    && (s.worker == Suspended ==> s.starter == ResumeWorker)
    && (!s.jvm ==> s.worker in {Unborn, Suspended, CheckType, Exited(false)} && !s.init && !s.sync)
    && (s.worker == Exited(false) && s.starter == WaitInit && s.jvm ==> s.init && s.status == 0)
    && (s.worker == WaitSync && s.starter == WaitInit ==> s.init)
    && (s.starter == WaitInit ==> !s.sync && !MainCalled(s.worker) && s.worker != CallMain)
    && (s.init && s.starter == WaitInit ==> s.worker in {WaitSync, Exited(false)})
    && (s.starter == ReadStatus ==> s.worker in {WaitSync, Exited(false)} && !s.sync)
    && (s.starter == SignalSync ==> s.worker == WaitSync && !s.sync)
    && (s.starter == Returned(true) ==> s.worker in {WaitSync, CallMain} || MainCalled(s.worker))
    && (s.starter == Returned(true) && s.worker == WaitSync ==> s.sync)
    && (s.starter == Returned(false) ==> s.worker in {Unborn, Exited(false)} && !s.sync)
    && (s.starter == WaitInit || s.starter == ReadStatus || s.starter == SignalSync || s.starter == Returned(true) ==>
          (s.status == 1 <==> s.worker in {SignalInit, WaitSync, CallMain, InMain, Finish(true)}) && s.status <= 1)
  }

  lemma StarterKeeps(s: State, s': State)
    requires Invariant(s) && StarterStep(s, s')
    ensures Invariant(s')
  {
  }

  /** Up to the signal that the starter waits for. */
  predicate Early(w: Worker) {
    w == CheckType || w == Initialise || w == SetRunning || w == SignalInit
  }

  lemma EarlyWorkerKeeps(s: State, s': State)
    requires Invariant(s) && WorkerStep(s, s') && Early(s.worker)
    ensures Invariant(s')
  {
  }

  lemma LateWorkerKeeps(s: State, s': State)
    requires Invariant(s) && WorkerStep(s, s') && !Early(s.worker)
    ensures Invariant(s')
  {
  }

  lemma InvariantKept(s: State, s': State)
    requires Invariant(s) && Step(s, s')
    ensures Invariant(s')
  {
    if StarterStep(s, s') {
      StarterKeeps(s, s');
    } else if Early(s.worker) {
      EarlyWorkerKeeps(s, s');
    } else {
      LateWorkerKeeps(s, s');
    }
  }

  lemma RunsKeepInvariant(run: seq<State>, i: nat)
    requires Run(run) && i < |run|
    ensures Invariant(run[i]) && run[i].jvm == run[0].jvm
  {
    var inv := s => Invariant(s) && s.jvm == run[0].jvm;
    forall s, s' | inv(s) && Step(s, s')
      ensures inv(s')
    {
      InvariantKept(s, s');
    }
    Runs.Everywhere(run, (s, s') => Step(s, s'), inv, i);
  }

  // ----- Safety -----

  /**
   * Main is called only after the starter has read the status and is about to
   * return TRUE or has returned it; TRUE is returned only once the worker is
   * initialised, FALSE only if it never will be; and after TRUE the status is
   * zero, so that apxJavaWait takes its shortcut, only once main is behind.
   */
  lemma StartIsSafe(run: seq<State>, i: nat)
    requires Run(run) && i < |run|
    ensures run[i].worker in {CallMain, InMain, Finish(true), SignalEnd(true), Exited(true)} ==>
      run[i].starter == Returned(true)
    ensures run[i].starter == Returned(true) ==>
      run[i].worker in {WaitSync, CallMain, InMain, Finish(true), SignalEnd(true), Exited(true)}
    ensures run[i].starter == Returned(false) ==> run[i].worker == Unborn || run[i].worker == Exited(false)
    ensures run[i].starter == Returned(true) ==>
      (run[i].status == 0 <==> run[i].worker == SignalEnd(true) || run[i].worker == Exited(true))
  {
    RunsKeepInvariant(run, i);
  }

  // ----- Progress -----

  function StarterLeft(p: Starter): nat {
    match p
    case ClearStatus => 7
    case MakeEvents => 6
    case MakeThread => 5
    case ResumeWorker => 4
    case WaitInit => 3
    case ReadStatus => 2
    case SignalSync => 1
    case Returned(_) => 0
  }

  function WorkerLeft(w: Worker): nat {
    match w
    case Unborn => 11
    case Suspended => 10
    case CheckType => 9
    case Initialise => 8
    case SetRunning => 7
    case SignalInit => 6
    case WaitSync => 5
    case CallMain => 4
    case InMain => 3
    case Finish(_) => 2
    case SignalEnd(_) => 1
    case Exited(_) => 0
  }

  function Left(s: State): nat {
    StarterLeft(s.starter) + WorkerLeft(s.worker)
  }

  lemma StepsDecrease(s: State, s': State)
    requires Invariant(s) && Step(s, s')
    ensures Left(s') < Left(s)
  {
  }

  /** Every action is done at most once, so every run is short. */
  lemma {:induction false} RunsAreBounded(run: seq<State>, i: nat)
    requires Run(run) && i < |run|
    ensures i + Left(run[i]) <= 18
  {
    if i > 0 {
      RunsAreBounded(run, i - 1);
      assert Step(run[i - 1], run[i - 1 + 1]);
      RunsKeepInvariant(run, i - 1);
      StepsDecrease(run[i - 1], run[i]);
    }
  }

  ghost predicate CanStep(s: State) {
    exists s' :: Step(s, s')
  }

  predicate Done(s: State) {
    s.starter.Returned? && (s.worker == Unborn || s.worker.Exited?)
  }

  /** A run on a JVM handle can only stop when the starter has returned and the worker, if born, has left. */
  lemma RunsEndDone(run: seq<State>)
    requires Run(run) && run[0].jvm && !CanStep(run[|run| - 1])
    ensures Done(run[|run| - 1])
  {
    var s := run[|run| - 1];
    RunsKeepInvariant(run, |run| - 1);
    if !s.starter.Returned? {
      StarterOrWorkerCanStep(s);
    } else if !Done(s) {
      WorkerCanStep(s);
    }
  }

  lemma StarterOrWorkerCanStep(s: State)
    requires Invariant(s) && s.jvm && !s.starter.Returned?
    ensures CanStep(s)
  {
    match s.starter
    case ClearStatus => assert Step(s, s.(starter := MakeEvents, status := 0));
    case MakeEvents => assert Step(s, s.(starter := MakeThread, init := false, sync := false));
    case MakeThread => assert Step(s, s.(starter := Returned(false)));
    case ResumeWorker => assert Step(s, s.(starter := WaitInit, worker := CheckType));
    case ReadStatus => assert Step(s, s.(starter := if s.status == 0 then Returned(false) else SignalSync));
    case SignalSync => assert Step(s, s.(starter := Returned(true), sync := true));
    case WaitInit =>
      if s.init {
        assert Step(s, s.(starter := ReadStatus, init := false));
      } else {
        WorkerCanStep(s);
      }
  }

  lemma WorkerCanStep(s: State)
    requires Invariant(s) && s.jvm && !Done(s)
    requires s.starter.Returned? || (s.starter == WaitInit && !s.init)
    ensures CanStep(s)
  {
    match s.worker
    case CheckType => assert Step(s, s.(worker := Initialise));
    case Initialise => assert Step(s, s.(worker := SetRunning));
    case SetRunning => assert Step(s, s.(worker := SignalInit, status := 1));
    case SignalInit => assert Step(s, s.(worker := WaitSync, init := true));
    case WaitSync => assert Step(s, s.(worker := CallMain, sync := false));
    case CallMain => assert Step(s, s.(worker := InMain));
    case InMain => assert Step(s, s.(worker := Finish(true)));
    case Finish(m) => assert Step(s, s.(worker := SignalEnd(m), status := 0));
    case SignalEnd(m) => assert Step(s, s.(worker := Exited(m), init := true));
    case _ => assert false;
  }

  /** Some run on a JVM handle comes to this. */
  ghost predicate Reached(p: Starter, w: Worker) {
    exists run: seq<State> :: Run(run) && run[0].jvm && run[|run| - 1].starter == p && run[|run| - 1].worker == w
  }

  /** Each end has its run: no thread, no initialisation, and main left again. */
  lemma EveryEndIsReached()
    ensures Reached(Returned(false), Unborn)
    ensures Reached(Returned(false), Exited(false))
    ensures Reached(Returned(true), Exited(true))
  {
    var s := State(ClearStatus, Unborn, 0, false, false, true);
    NoThreadRun(s);
    var started := StartedRun(s);
    FailedRun(started);
    var ready := ReadyRun(started);
    MainRun(ready);
  }

  lemma NoThreadRun(s: State)
    requires s == State(ClearStatus, Unborn, 0, false, false, true)
    ensures Reached(Returned(false), Unborn)
  {
    var run := [s, s.(starter := MakeEvents), s.(starter := MakeThread), s.(starter := Returned(false))];
    assert Run(run) && run[|run| - 1] == s.(starter := Returned(false));
  }

  lemma StartedRun(s: State) returns (run: seq<State>)
    requires s == State(ClearStatus, Unborn, 0, false, false, true)
    ensures Run(run) && run[0].jvm && run[|run| - 1] == State(WaitInit, Initialise, 0, false, false, true)
  {
    run := [s, s.(starter := MakeEvents), s.(starter := MakeThread), s.(starter := ResumeWorker, worker := Suspended),
            s.(starter := WaitInit, worker := CheckType), s.(starter := WaitInit, worker := Initialise)];
  }

  lemma FailedRun(run: seq<State>)
    requires Run(run) && run[0].jvm && run[|run| - 1] == State(WaitInit, Initialise, 0, false, false, true)
    ensures Reached(Returned(false), Exited(false))
  {
    var step := (s, s') => Step(s, s');
    var s := run[|run| - 1];
    var longer := Runs.Extended(run, s.(worker := Finish(false)), step);
    longer := Runs.Extended(longer, s.(worker := SignalEnd(false)), step);
    s := s.(worker := Exited(false));
    longer := Runs.Extended(longer, s.(init := true), step);
    longer := Runs.Extended(longer, s.(starter := ReadStatus), step);
    longer := Runs.Extended(longer, s.(starter := Returned(false)), step);
  }

  lemma ReadyRun(run: seq<State>) returns (longer: seq<State>)
    requires Run(run) && run[0].jvm && run[|run| - 1] == State(WaitInit, Initialise, 0, false, false, true)
    ensures Run(longer) && longer[0].jvm && longer[|longer| - 1] == State(Returned(true), WaitSync, 1, false, true, true)
  {
    var step := (s, s') => Step(s, s');
    var s := run[|run| - 1];
    longer := Runs.Extended(run, s.(worker := SetRunning), step);
    s := s.(status := 1);
    longer := Runs.Extended(longer, s.(worker := SignalInit), step);
    s := s.(worker := WaitSync);
    longer := Runs.Extended(longer, s.(init := true), step);
    longer := Runs.Extended(longer, s.(starter := ReadStatus), step);
    longer := Runs.Extended(longer, s.(starter := SignalSync), step);
    longer := Runs.Extended(longer, s.(starter := Returned(true), sync := true), step);
  }

  lemma MainRun(run: seq<State>)
    requires Run(run) && run[0].jvm && run[|run| - 1] == State(Returned(true), WaitSync, 1, false, true, true)
    ensures Reached(Returned(true), Exited(true))
  {
    var step := (s, s') => Step(s, s');
    var s := run[|run| - 1].(sync := false);
    var longer := Runs.Extended(run, s.(worker := CallMain), step);
    longer := Runs.Extended(longer, s.(worker := InMain), step);
    longer := Runs.Extended(longer, s.(worker := Finish(true)), step);
    s := s.(status := 0);
    longer := Runs.Extended(longer, s.(worker := SignalEnd(true)), step);
    longer := Runs.Extended(longer, s.(worker := Exited(true), init := true), step);
  }

  ghost predicate Stuck(s: State) {
    !s.starter.Returned? && !CanStep(s)
  }

  /**
   * The starter can be left waiting for ever if and only if the handle is not a
   * JVM: then the worker leaves before it has found the events to signal.
   */
  lemma StuckIffNotJvm(jvm: bool)
    ensures (exists run: seq<State> :: Run(run) && run[0].jvm == jvm && Stuck(run[|run| - 1])) <==> !jvm
  {
    if jvm {
      forall run: seq<State> | Run(run) && run[0].jvm == jvm
        ensures !Stuck(run[|run| - 1])
      {
        if !CanStep(run[|run| - 1]) {
          RunsEndDone(run);
        }
      }
    } else {
      var s := State(ClearStatus, Unborn, 0, false, false, false);
      var run := [s, s.(starter := MakeEvents), s.(starter := MakeThread),
                  s.(starter := ResumeWorker, worker := Suspended),
                  s.(starter := WaitInit, worker := CheckType),
                  s.(starter := WaitInit, worker := Exited(false))];
      assert Run(run);
      assert Stuck(run[5]);
    }
  }
}
