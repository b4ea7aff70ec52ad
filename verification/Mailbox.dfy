/**
 * The one-message mailbox of an event handle (handles.c): a poster that runs
 * apxHandlePostMessage and the thread that runs __apxHandleEventThread.
 */
module Mailbox {
  import Runs

  datatype Message = Message(uMsg: nat, wParam: nat, lParam: nat)

  /** The poster's next action. */
  datatype Poster = Poll | Suspend | PutMsg | PutWParam | PutLParam | Signal | Resume

  /** The event thread's next action; rv is what the callback returned. */
  datatype EventThread = Wait | Look | Call | Forget(rv: bool) | Reset | LastReset | Left

  /**
   * The handle's fields, its manual-reset event, and the two program counters.
   * todo is what the poster has still to post, its first message being the one
   * in hand; posted and delivered record what has happened.
   */
  datatype State = State(
    box: Message, signalled: bool, suspended: bool,
    poster: Poster, thread: EventThread,
    todo: seq<Message>, posted: seq<Message>, delivered: seq<Message>)

  /** The thread calls back only for a message with a number and a parameter. */
  predicate Effective(m: Message) {
    m.uMsg != 0 && (m.wParam != 0 || m.lParam != 0)
  }

  ghost predicate Start(s: State) {
    && s.box == Message(0, 0, 0) && !s.signalled && !s.suspended
    && s.poster == Poll && s.thread == Wait && s.posted == [] && s.delivered == []
  }

  ghost predicate PosterStep(s: State, s': State) {
    s.todo != [] &&
    match s.poster
    case Poll => !s.signalled && s' == s.(poster := Suspend)
    case Suspend => s' == s.(poster := PutMsg, suspended := true)
    case PutMsg => s' == s.(poster := PutWParam, box := s.box.(uMsg := s.todo[0].uMsg))
    case PutWParam => s' == s.(poster := PutLParam, box := s.box.(wParam := s.todo[0].wParam))
    case PutLParam => s' == s.(poster := Signal, box := s.box.(lParam := s.todo[0].lParam))
    case Signal => s' == s.(poster := Resume, signalled := true, posted := s.posted + [s.todo[0]])
    case Resume => s' == s.(poster := Poll, suspended := false, todo := s.todo[1..])
  }

  ghost predicate ThreadStep(s: State, s': State) {
    !s.suspended &&
    match s.thread
    case Wait => s.signalled && s' == s.(thread := Look)
    case Look => s' == s.(thread := if Effective(s.box) then Call else Reset)
    case Call =>
      exists rv :: s' == s.(thread := Forget(rv), delivered := s.delivered + [s.box])
    case Forget(rv) => s' == s.(thread := if rv then Reset else LastReset, box := s.box.(uMsg := 0))
    case Reset => s' == s.(thread := Wait, signalled := false)
    case LastReset => s' == s.(thread := Left, signalled := false)
    case Left => false
  }

  ghost predicate Step(s: State, s': State) {
    PosterStep(s, s') || ThreadStep(s, s')
  }

  ghost predicate Run(run: seq<State>) {
    Runs.IsRun(run, (s, s') => Step(s, s')) && Start(run[0])
  }

  /** The messages for which the callback is due, in order. */
  function Due(ms: seq<Message>): seq<Message> {
    if ms == [] then []
    else Due(ms[..|ms| - 1]) + (if Effective(ms[|ms| - 1]) then [ms[|ms| - 1]] else [])
  }

  /** The signalled message, while its callback is still due. */
  function Pending(s: State): seq<Message> {
    if s.signalled && (s.thread == Wait || s.thread == Look || s.thread == Call) && Effective(s.box) then [s.box] else []
  }

  /** The callback has not yet returned FALSE. */
  predicate Serving(t: EventThread) {
    t != Forget(false) && t != LastReset && t != Left
  }

  ghost predicate Invariant(s: State) {
    && (s.poster in {Suspend, PutMsg, PutWParam, PutLParam, Signal} ==> !s.signalled)
    && (s.poster in {PutMsg, PutWParam, PutLParam, Signal, Resume} <==> s.suspended)
    && (s.poster != Poll ==> s.todo != [])
    && (s.poster in {PutWParam, PutLParam, Signal} ==> s.box.uMsg == s.todo[0].uMsg)
    && (s.poster in {PutLParam, Signal} ==> s.box.wParam == s.todo[0].wParam)
    && (s.poster == Signal ==> s.box == s.todo[0])
    && (!s.signalled ==> s.thread == Wait || s.thread == Left)
    && (s.poster == Resume ==> s.signalled && (s.thread == Wait || s.thread == Left))
    && (s.thread == Call ==> Effective(s.box))
    && (Serving(s.thread) ==> s.delivered + Pending(s) == Due(s.posted))
    && (s.thread == Forget(false) || s.thread == LastReset ==> s.delivered == Due(s.posted))
    && (s.thread == Left && !s.signalled ==> s.delivered == Due(s.posted))
    && (s.thread == Left && s.signalled ==> s.posted != [] && s.delivered == Due(s.posted[..|s.posted| - 1]))
  }

  /** A message is due if it has a number and a parameter; none is left out, none comes twice or earlier. */
  lemma DueGrows(ms: seq<Message>, m: Message)
    ensures Due([]) == []
    ensures Due(ms + [m]) == if m.uMsg != 0 && (m.wParam != 0 || m.lParam != 0) then Due(ms) + [m] else Due(ms)
    ensures (ms + [m])[..|ms|] == ms
  {
    assert (ms + [m])[..|ms|] == ms;
  }

  lemma PosterKeeps(s: State, s': State)
    requires Invariant(s) && PosterStep(s, s')
    ensures Invariant(s')
  {
    DueGrows(s.posted, s.todo[0]);
    if s.poster == Signal {
      assert s'.posted[..|s'.posted| - 1] == s.posted;
    }
  }

  lemma ThreadKeeps(s: State, s': State)
    requires Invariant(s) && ThreadStep(s, s')
    ensures Invariant(s')
  {
  }

  /** What has been posted and what is still to be posted are what there was to post. */
  ghost predicate AllThere(s: State, todo: seq<Message>) {
    s.posted + (if s.poster == Resume && s.todo != [] then s.todo[1..] else s.todo) == todo
  }

  lemma NothingLost(s: State, s': State, todo: seq<Message>)
    requires Invariant(s) && Step(s, s') && AllThere(s, todo)
    ensures AllThere(s', todo)
  {
    if PosterStep(s, s') && s.poster == Signal {
      assert s.posted + s.todo == s'.posted + s.todo[1..];
    }
  }

  lemma RunsKeepInvariant(run: seq<State>, i: nat)
    requires Run(run) && i < |run|
    ensures Invariant(run[i]) && AllThere(run[i], run[0].todo)
  {
    var todo := run[0].todo;
    var inv := s => Invariant(s) && AllThere(s, todo);
    assert [] + todo == todo;
    forall s, s' | inv(s) && Step(s, s')
      ensures inv(s')
    {
      NothingLost(s, s', todo);
      if PosterStep(s, s') {
        PosterKeeps(s, s');
      } else {
        ThreadKeeps(s, s');
      }
    }
    Runs.Everywhere(run, (s, s') => Step(s, s'), inv, i);
  }

  /**
   * In every state of every run, as long as no callback has returned FALSE: what
   * has been delivered, and the message whose delivery is due, are the posted
   * messages with a number and a parameter, in order and once each. Afterwards
   * at most the last posted message is missing.
   */
  lemma DeliveredInOrder(run: seq<State>, i: nat)
    requires Run(run) && i < |run|
    ensures run[i].thread !in {Forget(false), LastReset, Left} ==>
      var s := run[i];
      s.delivered +
        (if s.signalled && s.thread in {Wait, Look, Call} && s.box.uMsg != 0 && (s.box.wParam != 0 || s.box.lParam != 0)
         then [s.box] else [])
      == Due(s.posted)
    ensures run[i].thread in {Forget(false), LastReset, Left} ==>
      || run[i].delivered == Due(run[i].posted)
      || (run[i].posted != [] && run[i].delivered == Due(run[i].posted[..|run[i].posted| - 1]))
  {
    RunsKeepInvariant(run, i);
  }

  // ----- How a run ends -----

  ghost predicate CanStep(s: State) {
    exists s' :: Step(s, s')
  }

  lemma PosterCanStep(s: State)
    requires s.todo != [] && !(s.poster == Poll && s.signalled)
    ensures CanStep(s)
  {
    match s.poster
    case Poll => assert Step(s, s.(poster := Suspend));
    case Suspend => assert Step(s, s.(poster := PutMsg, suspended := true));
    case PutMsg => assert Step(s, s.(poster := PutWParam, box := s.box.(uMsg := s.todo[0].uMsg)));
    case PutWParam => assert Step(s, s.(poster := PutLParam, box := s.box.(wParam := s.todo[0].wParam)));
    case PutLParam => assert Step(s, s.(poster := Signal, box := s.box.(lParam := s.todo[0].lParam)));
    case Signal => assert Step(s, s.(poster := Resume, signalled := true, posted := s.posted + [s.todo[0]]));
    case Resume => assert Step(s, s.(poster := Poll, suspended := false, todo := s.todo[1..]));
  }

  lemma ThreadCanStep(s: State)
    requires !s.suspended && s.thread != Left && s.signalled
    ensures CanStep(s)
  {
    match s.thread
    case Wait => assert Step(s, s.(thread := Look));
    case Look => assert Step(s, s.(thread := if Effective(s.box) then Call else Reset));
    case Call => assert Step(s, s.(thread := Forget(true), delivered := s.delivered + [s.box]));
    case Forget(rv) => assert Step(s, s.(thread := if rv then Reset else LastReset, box := s.box.(uMsg := 0)));
    case Reset => assert Step(s, s.(thread := Wait, signalled := false));
    case LastReset => assert Step(s, s.(thread := Left, signalled := false));
  }

  /** The poster polls, and nothing will ever clear the event. */
  predicate PollsForEver(s: State) {
    s.todo != [] && s.poster == Poll && s.signalled && s.thread == Left
  }

  /** When no step is possible either everything has been posted or the poster polls for ever. */
  lemma QuietMeansDone(run: seq<State>)
    requires Run(run) && !CanStep(run[|run| - 1])
    ensures
      var s := run[|run| - 1];
      if s.todo != [] then PollsForEver(s)
      else s.posted == run[0].todo && (s.thread == Wait ==> s.delivered == Due(run[0].todo))
  {
    var s := run[|run| - 1];
    RunsKeepInvariant(run, |run| - 1);
    assert s.posted + [] == s.posted && s.delivered + [] == s.delivered;
    if s.todo != [] && !(s.poster == Poll && s.signalled) {
      PosterCanStep(s);
    } else if !s.suspended && s.thread != Left && s.signalled {
      ThreadCanStep(s);
    }
  }

  // ----- If no callback returns FALSE -----

  predicate AllTrue(run: seq<State>) {
    forall i :: 0 <= i < |run| ==> run[i].thread != Forget(false)
  }

  lemma {:induction false} ThreadStays(run: seq<State>, i: nat)
    requires Run(run) && AllTrue(run) && i < |run|
    ensures Serving(run[i].thread)
  {
    if i > 0 {
      ThreadStays(run, i - 1);
      assert Step(run[i - 1], run[i - 1 + 1]);
    }
  }

  /** A run that cannot go on has posted every message and delivered every due one. */
  lemma AllTrueDeliversAll(run: seq<State>)
    requires Run(run) && AllTrue(run) && !CanStep(run[|run| - 1])
    ensures run[|run| - 1].todo == [] && run[|run| - 1].delivered == Due(run[0].todo)
  {
    var s := run[|run| - 1];
    QuietMeansDone(run);
    ThreadStays(run, |run| - 1);
    RunsKeepInvariant(run, |run| - 1);
    if s.thread != Wait {
      ThreadCanStep(s);
    }
  }

  // ----- Every run ends -----

  function PosterDone(p: Poster): nat {
    match p
    case Poll => 0
    case Suspend => 1
    case PutMsg => 2
    case PutWParam => 3
    case PutLParam => 4
    case Signal => 5
    case Resume => 6
  }

  function ThreadLeft(s: State): nat {
    match s.thread
    case Wait => if s.signalled then 5 else 0
    case Look => 4
    case Call => 3
    case Forget(_) => 2
    case Reset => 1
    case LastReset => 1
    case Left => 0
  }

  /** The steps that are left at most: seven of the poster and five of the thread for each message. */
  function StepsLeft(s: State): int {
    12 * |s.todo| - PosterDone(s.poster) - (if s.poster == Resume then 5 else 0) + ThreadLeft(s)
  }

  lemma StepsDecrease(s: State, s': State)
    requires Invariant(s) && Step(s, s')
    ensures 0 <= StepsLeft(s') < StepsLeft(s)
  {
  }

  lemma {:induction false} RunsAreBounded(run: seq<State>, i: nat)
    requires Run(run) && i < |run|
    ensures 0 <= i + StepsLeft(run[i]) <= 12 * |run[0].todo|
  {
    if i > 0 {
      RunsAreBounded(run, i - 1);
      RunsKeepInvariant(run, i - 1);
      assert Step(run[i - 1], run[i - 1 + 1]);
      StepsDecrease(run[i - 1], run[i]);
    }
  }

  /** So every run goes on to one that cannot go on. */
  lemma {:induction false} Completed(run: seq<State>) returns (whole: seq<State>)
    requires Run(run)
    ensures Run(whole) && run <= whole && !CanStep(whole[|whole| - 1])
    decreases StepsLeft(run[|run| - 1])
  {
    var s := run[|run| - 1];
    if CanStep(s) {
      var s' :| Step(s, s');
      RunsKeepInvariant(run, |run| - 1);
      StepsDecrease(s, s');
      whole := Runs.Extended(run, s', (s, s') => Step(s, s'));
      whole := Completed(whole);
    } else {
      whole := run;
    }
  }

  // ----- When the poster can be left polling -----

  /** Which message stopped the thread, if one did. */
  ghost predicate StoppedBy(s: State) {
    var n := |s.posted|;
    && (s.thread == Look || s.thread == Call || (s.thread == Wait && s.signalled) ==> n > 0 && s.box == s.posted[n - 1])
    && (s.thread == Call || s.thread == Forget(false) || s.thread == LastReset || (s.thread == Left && !s.signalled) ==>
          n > 0 && Effective(s.posted[n - 1]))
    && (s.thread == Left && s.signalled ==> n > 1 && Effective(s.posted[n - 2]))
  }

  lemma StoppedByKept(s: State, s': State)
    requires Invariant(s) && StoppedBy(s) && Step(s, s')
    ensures StoppedBy(s')
  {
  }

  lemma {:induction false} RunsAreStoppedBy(run: seq<State>, i: nat)
    requires Run(run) && i < |run|
    ensures StoppedBy(run[i])
  {
    if i > 0 {
      RunsAreStoppedBy(run, i - 1);
      RunsKeepInvariant(run, i - 1);
      assert Step(run[i - 1], run[i - 1 + 1]);
      StoppedByKept(run[i - 1], run[i]);
    }
  }

  /** The poster and the thread are between two messages. */
  predicate AtRest(s: State) {
    s.poster == Poll && !s.suspended && (s.thread == Wait || s.thread == Left)
  }

  /** The poster posts its next message. */
  lemma Post(run: seq<State>) returns (longer: seq<State>)
    requires Run(run) && AtRest(run[|run| - 1]) && !run[|run| - 1].signalled && run[|run| - 1].todo != []
    ensures Run(longer) && longer[0] == run[0]
    ensures
      var s := run[|run| - 1];
      longer[|longer| - 1] == s.(box := s.todo[0], signalled := true, todo := s.todo[1..], posted := s.posted + [s.todo[0]])
  {
    var step := (s, s') => Step(s, s');
    var s := run[|run| - 1];
    var m := s.todo[0];
    longer := Runs.Extended(run, s.(poster := Suspend), step);
    s := s.(poster := PutMsg, suspended := true);
    longer := Runs.Extended(longer, s, step);
    s := s.(poster := PutWParam, box := s.box.(uMsg := m.uMsg));
    longer := Runs.Extended(longer, s, step);
    s := s.(poster := PutLParam, box := s.box.(wParam := m.wParam));
    longer := Runs.Extended(longer, s, step);
    s := s.(poster := Signal, box := s.box.(lParam := m.lParam));
    longer := Runs.Extended(longer, s, step);
    s := s.(poster := Resume, signalled := true, posted := s.posted + [m]);
    longer := Runs.Extended(longer, s, step);
    longer := Runs.Extended(longer, s.(poster := Poll, suspended := false, todo := s.todo[1..]), step);
  }

  /** The thread takes the message, and leaves if it is called back for it and the callback returns FALSE. */
  lemma Serve(run: seq<State>, rv: bool) returns (longer: seq<State>)
    requires Run(run) && AtRest(run[|run| - 1]) && run[|run| - 1].signalled && run[|run| - 1].thread == Wait
    ensures Run(longer) && longer[0] == run[0]
    ensures
      var s, s' := run[|run| - 1], longer[|longer| - 1];
      && AtRest(s') && !s'.signalled && s'.todo == s.todo
      && s'.thread == if Effective(s.box) && !rv then Left else Wait
  {
    var step := (s, s') => Step(s, s');
    var s := run[|run| - 1].(thread := Look);
    longer := Runs.Extended(run, s, step);
    if Effective(s.box) {
      s := s.(thread := Call);
      longer := Runs.Extended(longer, s, step);
      s := s.(thread := Forget(rv), delivered := s.delivered + [s.box]);
      longer := Runs.Extended(longer, s, step);
      s := s.(thread := if rv then Reset else LastReset, box := s.box.(uMsg := 0));
      longer := Runs.Extended(longer, s, step);
      longer := Runs.Extended(longer, s.(thread := if rv then Wait else Left, signalled := false), step);
    } else {
      s := s.(thread := Reset);
      longer := Runs.Extended(longer, s, step);
      longer := Runs.Extended(longer, s.(thread := Wait, signalled := false), step);
    }
  }

  /** The callback for message i returns FALSE, the next message is posted, and there is one more. */
  lemma {:induction false} LeftPolling(run: seq<State>, i: nat) returns (longer: seq<State>)
    requires Run(run) && AtRest(run[|run| - 1]) && !run[|run| - 1].signalled && run[|run| - 1].thread == Wait
    requires i + 2 < |run[|run| - 1].todo| && Effective(run[|run| - 1].todo[i])
    ensures Run(longer) && longer[0] == run[0] && PollsForEver(longer[|longer| - 1])
    decreases i
  {
    longer := Post(run);
    longer := Serve(longer, i > 0);
    if i > 0 {
      longer := LeftPolling(longer, i - 1);
    } else {
      longer := Post(longer);
    }
  }

  lemma PollingIsStuck(s: State)
    requires PollsForEver(s)
    ensures !CanStep(s)
  {
  }

  ghost predicate CanBeLeftPolling(todo: seq<Message>) {
    exists run: seq<State> :: Run(run) && run[0].todo == todo && PollsForEver(run[|run| - 1]) && !CanStep(run[|run| - 1])
  }

  /**
   * Some answers of the callbacks leave the poster polling for ever if and only
   * if a message with a number and a parameter has two more behind it.
   */
  lemma LeftPollingIff(todo: seq<Message>)
    ensures CanBeLeftPolling(todo) <==>
      exists i :: 0 <= i < |todo| - 2 && todo[i].uMsg != 0 && (todo[i].wParam != 0 || todo[i].lParam != 0)
  {
    if CanBeLeftPolling(todo) {
      var run: seq<State> :| Run(run) && run[0].todo == todo && PollsForEver(run[|run| - 1]);
      var s := run[|run| - 1];
      RunsKeepInvariant(run, |run| - 1);
      RunsAreStoppedBy(run, |run| - 1);
      assert todo[|s.posted| - 2] == s.posted[|s.posted| - 2];
    }
    if i :| 0 <= i < |todo| - 2 && Effective(todo[i]) {
      var s := State(Message(0, 0, 0), false, false, Poll, Wait, todo, [], []);
      var run := LeftPolling([s], i);
      PollingIsStuck(run[|run| - 1]);
    }
  }

  /** The shortest input: three messages, the first of them with a callback. */
  lemma ThreeMessages()
    ensures CanBeLeftPolling([Message(1, 1, 0), Message(0, 0, 0), Message(0, 0, 0)])
  {
    var todo := [Message(1, 1, 0), Message(0, 0, 0), Message(0, 0, 0)];
    assert Effective(todo[0]);
    LeftPollingIff(todo);
  }
}
