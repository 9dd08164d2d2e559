/** The hooked system call: try, and on EAGAIN arm a timer, register for the event, park the
    fiber, and try again when woken. One fiber makes one call after another; readiness,
    other cancellers and timer callbacks come in between at any point. */
module DoIos {
  import opened Options

  /** A timer's callback: still set, taken out to run, holding a reference to its call's
      record, past its check of the mark, having set the mark and about to cancel the event,
      through, or cancelled in time. */
  datatype Status = Set | InFlight | Held | Passed | Marked | Ran | Cancelled

  /** `call` is the call that made it; `hit` says it set that call's timeout mark. */
  datatype TimerRec = TimerRec(call: nat, status: Status, hit: bool)

  datatype Pc =
    | Outside
    | Trying
    | Adding(timer: Option<nat>)
    | Parked(timer: Option<nat>)
    | Checking

  datatype Outcome = Value | AddFailed | TimedOut

  datatype State = State(
    pc: Pc,
    call: nat,            // the current or last call
    timeout: bool,        // whether it has a timeout
    marks: set<nat>,      // the calls whose timeout mark is set
    timers: map<nat, TimerRec>,
    park: nat,            // how often the fiber has parked
    slot: Option<nat>,    // the park that waits in the event slot
    wakes: seq<nat>,      // the parks for which the fiber was put in the run queue
    lost: bool,           // the park has lost its timeout
    result: Option<Outcome>)

  datatype Action =
    | Begin(timeout: bool)
    | TryDone
    | TryAgain(id: nat)
    | AddFails
    | AddWorks
    | Trigger             // readiness, or a cancel by someone else
    | Expire(id: nat)
    | Hold(id: nat)
    | Test(id: nat)
    | Mark(id: nat)
    | CancelSlot(id: nat)
    | CancelFails(id: nat) // `epoll_ctl` refuses, or the table has no such context any more
    | Resume
    | Check

  function SetStatus(s: State, id: nat, st: Status): State
    requires id in s.timers
  {
    s.(timers := s.timers[id := s.timers[id].(status := st)])
  }

  /** Cancelling a timer has an effect only while it is set. */
  function CancelTimer(s: State, t: Option<nat>): State {
    if t.Some? && t.value in s.timers && s.timers[t.value].status == Set then SetStatus(s, t.value, Cancelled) else s
  }

  /** `triggerEvent`, if someone waits. */
  function Triggered(s: State): State {
    if s.slot.Some? then s.(slot := None, wakes := s.wakes + [s.slot.value]) else s
  }

  predicate Live(s: State, call: nat) { s.call == call && s.pc != Outside }

  /** The callback has a reference to its call's record and has not set the mark. */
  predicate Holds(t: TimerRec) { t.status == Held || t.status == Passed }

  ghost predicate HeldBySome(s: State, call: nat) {
    exists id | id in s.timers :: s.timers[id].call == call && Holds(s.timers[id])
  }

  ghost predicate MarkedBySome(s: State, call: nat) {
    exists id | id in s.timers :: s.timers[id].call == call && s.timers[id].status == Marked
  }

  /** The call's record exists: the call itself or a callback has a reference to it. */
  ghost predicate Alive(s: State, call: nat) {
    Live(s, call) || HeldBySome(s, call) || MarkedBySome(s, call)
  }

  /** A callback will cancel the event: it is past its check, or will pass it. */
  ghost predicate CancellerComing(s: State) {
    exists id | id in s.timers :: Cancels(s, s.timers[id])
  }

  predicate Cancels(s: State, t: TimerRec) {
    t.status == Passed || t.status == Marked || (t.status == Held && t.call !in s.marks)
  }

  function Return(s: State, o: Outcome): State { s.(pc := Outside, result := Some(o)) }

  ghost predicate Step(s: State, a: Action, s': State) {
    match a
    case Begin(timeout) =>
      s.pc == Outside && s' == s.(pc := Trying, call := s.call + 1, timeout := timeout, result := None)
    case TryDone => s.pc == Trying && s' == Return(s, Value)
    case TryAgain(id) =>
      && s.pc == Trying && id !in s.timers
      && s' == if s.timeout then s.(pc := Adding(Some(id)), timers := s.timers[id := TimerRec(s.call, Set, false)])
               else s.(pc := Adding(None))
    case AddFails => s.pc.Adding? && s' == Return(CancelTimer(s, s.pc.timer), AddFailed)
    case AddWorks =>
      && s.pc.Adding? && s.slot == None
      && s' == s.(pc := Parked(s.pc.timer), park := s.park + 1, slot := Some(s.park + 1),
                  lost := s.call in s.marks && !CancellerComing(s))
    case Trigger => s' == Triggered(s)
    case Expire(id) => id in s.timers && s.timers[id].status == Set && s' == SetStatus(s, id, InFlight)
    case Hold(id) =>
      && id in s.timers && s.timers[id].status == InFlight
      && s' == SetStatus(s, id, if Alive(s, s.timers[id].call) then Held else Ran)
    case Test(id) =>
      && id in s.timers && s.timers[id].status == Held
      && s' == SetStatus(s, id, if s.timers[id].call in s.marks then Ran else Passed)
    case Mark(id) =>
      && id in s.timers && s.timers[id].status == Passed
      && var c := s.timers[id].call;
      s' == s.(timers := s.timers[id := TimerRec(c, Marked, true)], marks := s.marks + {c})
    case CancelSlot(id) =>
      id in s.timers && s.timers[id].status == Marked && s' == Triggered(SetStatus(s, id, Ran))
    case CancelFails(id) =>
      && id in s.timers && s.timers[id].status == Marked
      && var s1 := SetStatus(s, id, Ran);
      s' == s1.(lost := s.lost || (s.pc.Parked? && s.call in s.marks && !CancellerComing(s1)))
    case Resume =>
      // the fiber runs again once it has been put in the run queue for this park
      s.pc.Parked? && s.park in s.wakes && s' == CancelTimer(s, s.pc.timer).(pc := Checking)
    case Check =>
      s.pc == Checking && s' == if s.call in s.marks then Return(s, TimedOut) else s.(pc := Trying)
  }

  ghost predicate Init(s: State) {
    && s.pc == Outside && s.call == 0 && s.marks == {} && s.timers == map[] && s.park == 0
    && s.slot == None && s.wakes == [] && !s.lost && s.result == None
  }

  // ---- What a step does to the timers ----------------------------------------------------

  predicate OnTimer(a: Action) { a.Expire? || a.Hold? || a.Test? || a.Mark? || a.CancelSlot? || a.CancelFails? }

  /** A step of a callback changes that timer's record and no other, and never its call. */
  lemma TimerStep(s: State, a: Action, s': State)
    requires Step(s, a, s') && OnTimer(a)
    ensures a.id in s.timers && a.id in s'.timers && s'.timers == s.timers[a.id := s'.timers[a.id]]
    ensures s'.timers[a.id].call == s.timers[a.id].call && (s.timers[a.id].hit ==> s'.timers[a.id].hit)
    ensures s'.call == s.call && s'.pc == s.pc && s'.timeout == s.timeout && s'.result == s.result && s'.park == s.park
    ensures !a.CancelFails? ==> s'.lost == s.lost
    ensures !a.CancelSlot? ==> s'.slot == s.slot && s'.wakes == s.wakes
  {
  }

  predicate SameOrCancelled(t: TimerRec, t': TimerRec) {
    t' == t || (t.status == Set && t' == t.(status := Cancelled))
  }

  /** The fiber's own steps make a timer or cancel one, and leave marks alone. */
  lemma FiberStep(s: State, a: Action, s': State)
    requires Step(s, a, s') && !OnTimer(a)
    ensures s'.marks == s.marks && s'.call == if a.Begin? then s.call + 1 else s.call
    ensures forall id | id in s.timers :: id in s'.timers && SameOrCancelled(s.timers[id], s'.timers[id])
    ensures forall id | id in s'.timers && id !in s.timers :: s'.timers[id] == TimerRec(s.call, Set, false)
  {
  }

  // ---- One answer for each park ----------------------------------------------------------

  ghost predicate Ascending(ws: seq<nat>) { forall i, j | 0 <= i < j < |ws| :: ws[i] < ws[j] }

  /** Each park is answered by at most one enqueue, and the slot never holds an old park. */
  ghost predicate AnsweredOnce(s: State) {
    && Ascending(s.wakes) && (forall i | 0 <= i < |s.wakes| :: s.wakes[i] <= s.park)
    && (s.slot.Some? ==> s.pc.Parked? && s.slot.value == s.park && s.park !in s.wakes)
    && (s.pc.Parked? && s.slot == None ==> s.park in s.wakes)
  }

  lemma TriggerAnswersOnce(s: State)
    requires AnsweredOnce(s)
    ensures AnsweredOnce(Triggered(s))
  {
    if s.slot.Some? {
      assert forall i | 0 <= i < |s.wakes| :: s.wakes[i] in s.wakes;
      assert Triggered(s).wakes[|s.wakes|] == s.park;
    }
  }

  lemma SameAnswers(s: State, s': State)
    requires AnsweredOnce(s) && s'.wakes == s.wakes && s'.park == s.park && s'.slot == s.slot
    requires s'.pc.Parked? == s.pc.Parked? || (s.slot == None && !s'.pc.Parked?)
    ensures AnsweredOnce(s')
  {
  }

  lemma ParkAnswersOnce(s: State, s': State)
    requires AnsweredOnce(s) && Step(s, AddWorks, s')
    ensures AnsweredOnce(s')
  {
    assert s.park + 1 !in s.wakes;
  }

  lemma StepAnswersOnce(s: State, a: Action, s': State)
    requires AnsweredOnce(s) && Step(s, a, s')
    ensures AnsweredOnce(s')
  {
    if a.Trigger? {
      TriggerAnswersOnce(s);
    } else if a.CancelSlot? {
      TriggerAnswersOnce(SetStatus(s, a.id, Ran));
    } else if a.AddWorks? {
      ParkAnswersOnce(s, s');
    } else {
      SameAnswers(s, s');
    }
  }

  // ---- Marks -------------------------------------------------------------------------------

  /** A callback of one of the call's own timers set its mark. */
  ghost predicate Hit(s: State, call: nat) {
    exists id | id in s.timers :: s.timers[id].call == call && s.timers[id].hit
  }

  /** A call's timeout mark is set only by a callback of that very call. */
  ghost predicate MarkEarned(s: State) {
    && (forall c | c in s.marks :: c <= s.call && Hit(s, c))
    && (forall id | id in s.timers :: s.timers[id].call <= s.call)
    && (forall id | id in s.timers && (s.timers[id].status == Marked || s.timers[id].hit) ::
          s.timers[id].call in s.marks)
    && (s.result == Some(TimedOut) ==> s.call in s.marks && s.pc == Outside)
  }

  lemma HitsRemain(s: State, a: Action, s': State, c: nat)
    requires Step(s, a, s') && Hit(s, c)
    ensures Hit(s', c)
  {
    var id :| id in s.timers && s.timers[id].call == c && s.timers[id].hit;
    if OnTimer(a) {
      TimerStep(s, a, s');
    } else {
      FiberStep(s, a, s');
    }
    assert s'.timers[id].call == c && s'.timers[id].hit;
  }

  lemma MarksHit(s: State, a: Action, s': State, c: nat)
    requires MarkEarned(s) && Step(s, a, s') && c in s'.marks
    ensures c <= s'.call && Hit(s', c)
  {
    if c in s.marks {
      HitsRemain(s, a, s', c);
    } else {
      assert a.Mark? && s'.timers[a.id].call == c && s'.timers[a.id].hit;
    }
  }

  lemma TimerStepEarnsMark(s: State, a: Action, s': State)
    requires MarkEarned(s) && Step(s, a, s') && OnTimer(a)
    ensures MarkEarned(s')
  {
    forall c | c in s'.marks ensures c <= s'.call && Hit(s', c) {
      MarksHit(s, a, s', c);
    }
    TimerStep(s, a, s');
  }

  lemma FiberStepEarnsMark(s: State, a: Action, s': State)
    requires MarkEarned(s) && Step(s, a, s') && !OnTimer(a)
    ensures MarkEarned(s')
  {
    forall c | c in s'.marks ensures c <= s'.call && Hit(s', c) {
      MarksHit(s, a, s', c);
    }
    FiberStep(s, a, s');
  }

  lemma StepEarnsMark(s: State, a: Action, s': State)
    requires MarkEarned(s) && Step(s, a, s')
    ensures MarkEarned(s')
  {
    if OnTimer(a) {
      TimerStepEarnsMark(s, a, s');
    } else {
      FiberStepEarnsMark(s, a, s');
    }
  }

  // ---- Timeouts ----------------------------------------------------------------------------

  /** This attempt's timer, while it matters. */
  ghost predicate Armed(s: State, t: Option<nat>) {
    if !s.timeout then t == None
    else
      && t.Some? && t.value in s.timers && s.timers[t.value].call == s.call
      && s.timers[t.value].status != Cancelled
      && (s.timers[t.value].status == Marked || s.timers[t.value].status == Ran ==> s.call in s.marks)
  }

  /** A callback is on its way to the parked fiber. */
  ghost predicate TimeoutComing(s: State)
    requires s.pc.Parked?
  {
    || CancellerComing(s)
    || (s.call !in s.marks && s.pc.timer.Some? && s.pc.timer.value in s.timers
        && (s.timers[s.pc.timer.value].status == Set || s.timers[s.pc.timer.value].status == InFlight))
  }

  ghost predicate TimerArmed(s: State) { s.pc.Adding? || s.pc.Parked? ==> Armed(s, s.pc.timer) }

  /** A waiting fiber with a timeout has one on its way exactly when it has not lost it. */
  ghost predicate OnTimeUnlessLost(s: State) {
    s.pc.Parked? && s.slot.Some? && s.timeout ==> (TimeoutComing(s) <==> !s.lost) && (s.lost ==> s.call in s.marks)
  }

  lemma TimerStepKeepsArmed(s: State, a: Action, s': State)
    requires TimerArmed(s) && MarkEarned(s) && Step(s, a, s') && OnTimer(a)
    ensures TimerArmed(s')
  {
    TimerStep(s, a, s');
  }

  lemma FiberStepKeepsArmed(s: State, a: Action, s': State)
    requires TimerArmed(s) && Step(s, a, s') && !OnTimer(a)
    ensures TimerArmed(s')
  {
    FiberStep(s, a, s');
  }

  /** A canceller on its way stays so until it cancels. */
  lemma CancellerStays(s: State, a: Action, s': State)
    requires Step(s, a, s') && CancellerComing(s) && !a.CancelSlot? && !a.CancelFails?
    ensures CancellerComing(s')
  {
    var id :| id in s.timers && Cancels(s, s.timers[id]);
    if OnTimer(a) {
      TimerStep(s, a, s');
      if a.Mark? && s'.timers[a.id].status == Marked {
        assert Cancels(s', s'.timers[a.id]);
      } else {
        assert Cancels(s', s'.timers[id]);
      }
    } else {
      FiberStep(s, a, s');
      assert Cancels(s', s'.timers[id]);
    }
  }

  /** A new one comes only from a timer of the running call, before the call is marked. */
  lemma CancellerNew(s: State, a: Action, s': State)
    requires Step(s, a, s') && CancellerComing(s') && !CancellerComing(s)
    ensures a.Hold? && a.id in s.timers && s.timers[a.id].call == s.call && s.call !in s.marks
  {
    var id :| id in s'.timers && Cancels(s', s'.timers[id]);
    assert id in s.timers ==> !Cancels(s, s.timers[id]);
    if OnTimer(a) {
      HoldCancels(s, a, s', id);
      if !Live(s, s.timers[id].call) {
        HoldersCancel(s, s.timers[id].call);
      }
    } else {
      FiberStep(s, a, s');
    }
  }

  lemma HoldCancels(s: State, a: Action, s': State, id: nat)
    requires Step(s, a, s') && OnTimer(a) && id in s'.timers && Cancels(s', s'.timers[id])
    requires id in s.timers ==> !Cancels(s, s.timers[id])
    ensures a == Hold(id) && id in s.timers && s.timers[id].call !in s.marks && Alive(s, s.timers[id].call)
  {
    assert a.id in s.timers;
  }

  /** What keeps the record of an unmarked call alive, apart from the call, is a canceller. */
  lemma HoldersCancel(s: State, c: nat)
    requires c !in s.marks && (HeldBySome(s, c) || MarkedBySome(s, c))
    ensures CancellerComing(s)
  {
    if HeldBySome(s, c) {
      var id :| id in s.timers && s.timers[id].call == c && Holds(s.timers[id]);
      assert Cancels(s, s.timers[id]);
    } else {
      var id :| id in s.timers && s.timers[id].call == c && s.timers[id].status == Marked;
      assert Cancels(s, s.timers[id]);
    }
  }

  lemma CancelFailsLeaves(s: State, id: nat, s': State)
    requires Step(s, CancelFails(id), s')
    ensures CancellerComing(s') == CancellerComing(SetStatus(s, id, Ran))
  {
    var s1 := SetStatus(s, id, Ran);
    assert forall i | i in s1.timers :: Cancels(s', s'.timers[i]) <==> Cancels(s1, s1.timers[i]);
  }

  lemma CancelFailsOnTime(s: State, id: nat, s': State)
    requires OnTimeUnlessLost(s) && TimerArmed(s) && Step(s, CancelFails(id), s')
    requires s.pc.Parked? && s.slot.Some? && s.timeout
    ensures OnTimeUnlessLost(s')
  {
    assert Cancels(s, s.timers[id]) && CancellerComing(s);
    var own := s.pc.timer.value;
    assert Cancels(s', s'.timers[own]) ==> CancellerComing(s');
    CancelFailsLeaves(s, id, s');
  }

  lemma TimerStepOnTime(s: State, a: Action, s': State)
    requires OnTimeUnlessLost(s) && TimerArmed(s) && AnsweredOnce(s) && Step(s, a, s') && OnTimer(a)
    ensures OnTimeUnlessLost(s')
  {
    TimerStep(s, a, s');
    if s.pc.Parked? && s.slot.Some? && s.timeout && !a.CancelSlot? {
      if a.CancelFails? {
        CancelFailsOnTime(s, a.id, s');
      } else if CancellerComing(s) {
        CancellerStays(s, a, s');
      } else if CancellerComing(s') {
        CancellerNew(s, a, s');
      } else if !s.lost && a.id == s.pc.timer.value {
        assert a.Hold? ==> Cancels(s', s'.timers[a.id]);
      }
    }
  }

  lemma FiberStepOnTime(s: State, a: Action, s': State)
    requires OnTimeUnlessLost(s) && TimerArmed(s) && AnsweredOnce(s) && Step(s, a, s') && !OnTimer(a)
    ensures OnTimeUnlessLost(s')
  {
    FiberStep(s, a, s');
    if s'.pc.Parked? {
      if CancellerComing(s) {
        CancellerStays(s, a, s');
      } else if CancellerComing(s') {
        CancellerNew(s, a, s');
      }
      assert a.AddWorks? && s.timeout && Cancels(s, s.timers[s.pc.timer.value]) ==> CancellerComing(s);
    }
  }

  lemma StepKeepsTimeout(s: State, a: Action, s': State)
    requires OnTimeUnlessLost(s) && TimerArmed(s) && MarkEarned(s) && AnsweredOnce(s) && Step(s, a, s')
    ensures OnTimeUnlessLost(s') && TimerArmed(s')
  {
    if OnTimer(a) {
      TimerStepKeepsArmed(s, a, s');
      TimerStepOnTime(s, a, s');
    } else {
      FiberStepKeepsArmed(s, a, s');
      FiberStepOnTime(s, a, s');
    }
  }

  // ---- Runs --------------------------------------------------------------------------------

  ghost predicate Inv(s: State) { AnsweredOnce(s) && MarkEarned(s) && TimerArmed(s) && OnTimeUnlessLost(s) }

  ghost predicate StepAt(ss: seq<State>, acts: seq<Action>, i: nat)
    requires i < |acts| && |ss| == |acts| + 1
  {
    Step(ss[i], acts[i], ss[i + 1])
  }

  ghost predicate Path(ss: seq<State>, acts: seq<Action>) {
    |ss| == |acts| + 1 && forall i | 0 <= i < |acts| :: StepAt(ss, acts, i)
  }

  ghost predicate Run(ss: seq<State>, acts: seq<Action>) { Path(ss, acts) && Init(ss[0]) }

  lemma {:induction false} StaysInv(ss: seq<State>, acts: seq<Action>, n: nat)
    requires Path(ss, acts) && Inv(ss[0]) && n < |ss|
    ensures Inv(ss[n])
  {
    if n > 0 {
      StaysInv(ss, acts, n - 1);
      var (s, a, s') := (ss[n - 1], acts[n - 1], ss[n]);
      assert StepAt(ss, acts, n - 1);
      StepAnswersOnce(s, a, s');
      StepEarnsMark(s, a, s');
      StepKeepsTimeout(s, a, s');
    }
  }

  lemma Invariant(ss: seq<State>, acts: seq<Action>, n: nat)
    requires Run(ss, acts) && n < |ss|
    ensures Inv(ss[n])
  {
    StaysInv(ss, acts, n);
  }

  /** No park is answered twice, whichever of readiness, timer and cancel comes first. */
  lemma OneAnswerPerPark(ss: seq<State>, acts: seq<Action>, n: nat, i: nat, j: nat)
    requires Run(ss, acts) && n < |ss| && i < j < |ss[n].wakes|
    ensures ss[n].wakes[i] != ss[n].wakes[j]
  {
    Invariant(ss, acts, n);
  }

  /** A woken call times out if a callback of one of its own timers has set its mark, and
      otherwise tries again. */
  lemma CheckDecides(ss: seq<State>, acts: seq<Action>, n: nat)
    requires Run(ss, acts) && n < |acts| && acts[n] == Check
    ensures if Hit(ss[n], ss[n].call) then ss[n + 1].pc == Outside && ss[n + 1].result == Some(TimedOut)
            else ss[n + 1].pc == Trying && ss[n + 1].call == ss[n].call
  {
    Invariant(ss, acts, n);
    assert StepAt(ss, acts, n);
  }

  /** A call times out only if a callback of one of its own timers set the mark. */
  lemma TimedOutByOwnTimer(ss: seq<State>, acts: seq<Action>, n: nat)
    requires Run(ss, acts) && n < |ss| && ss[n].result == Some(TimedOut)
    ensures Hit(ss[n], ss[n].call)
  {
    Invariant(ss, acts, n);
  }

  /** Registering for the event never finds the slot occupied. */
  lemma SlotFreeWhenAdding(ss: seq<State>, acts: seq<Action>, n: nat)
    requires Run(ss, acts) && n < |ss| && ss[n].pc.Adding?
    ensures ss[n].slot == None
  {
    Invariant(ss, acts, n);
  }

  /** A park begins, or a cancel fails during one, with the mark set and no canceller left. */
  ghost predicate LosesTimeout(s: State, a: Action, s': State) {
    (a.AddWorks? || (a.CancelFails? && s.pc.Parked?)) && s.call in s.marks && !CancellerComing(s')
  }

  ghost predicate LostAt(ss: seq<State>, acts: seq<Action>, k: nat, park: nat)
    requires k < |acts| && |ss| == |acts| + 1
  {
    LosesTimeout(ss[k], acts[k], ss[k + 1]) && ss[k + 1].park == park
  }

  lemma LostByStep(s: State, a: Action, s': State)
    requires Step(s, a, s')
    ensures s'.lost <==> LosesTimeout(s, a, s') || (s.lost && s.park == s'.park)
    ensures s.park <= s'.park
  {
    if a.AddWorks? {
      assert forall id | id in s.timers :: Cancels(s', s'.timers[id]) <==> Cancels(s, s.timers[id]);
    } else if a.CancelFails? {
      CancelFailsLeaves(s, a.id, s');
    }
  }

  /** The flag tells whether an earlier step of this park lost the timeout. */
  lemma {:induction false} LostByRun(ss: seq<State>, acts: seq<Action>, n: nat)
    requires Run(ss, acts) && n < |ss|
    ensures ss[n].lost <==> exists k :: 0 <= k < n && LostAt(ss, acts, k, ss[n].park)
    ensures forall k | 0 <= k <= n :: ss[k].park <= ss[n].park
  {
    if n > 0 {
      LostByRun(ss, acts, n - 1);
      assert StepAt(ss, acts, n - 1);
      LostByStep(ss[n - 1], acts[n - 1], ss[n]);
      assert LostAt(ss, acts, n - 1, ss[n].park) <==> LosesTimeout(ss[n - 1], acts[n - 1], ss[n]);
      if ss[n - 1].park == ss[n].park {
        assert forall k | 0 <= k < n - 1 :: LostAt(ss, acts, k, ss[n].park) <==> LostAt(ss, acts, k, ss[n - 1].park);
      } else {
        forall k | 0 <= k < n - 1 ensures !LostAt(ss, acts, k, ss[n].park) {
          assert ss[k + 1].park <= ss[n - 1].park;
        }
      }
    }
  }

  /** A waiting call with a timeout has one on its way exactly when no step of its park found
      the mark set and no canceller left: neither the registration nor a failed cancel. */
  lemma TimeoutOnItsWay(ss: seq<State>, acts: seq<Action>, n: nat)
    requires Run(ss, acts) && n < |ss| && ss[n].pc.Parked? && ss[n].slot.Some? && ss[n].timeout
    ensures TimeoutComing(ss[n]) <==> !exists k :: 0 <= k < n && LostAt(ss, acts, k, ss[n].park)
  {
    Invariant(ss, acts, n);
    LostByRun(ss, acts, n);
  }

  // ---- Which timer is set -----------------------------------------------------------------------

  /** A timer that is set is that of the attempt going on. */
  ghost predicate SetIsCurrent(s: State) {
    forall id | id in s.timers && s.timers[id].status == Set :: IsCurrent(s, id)
  }

  predicate IsCurrent(s: State, id: nat)
    requires id in s.timers
  {
    (s.pc == Adding(Some(id)) || s.pc == Parked(Some(id))) && s.timers[id].call == s.call
  }

  lemma StepKeepsCurrent(s: State, a: Action, s': State)
    requires SetIsCurrent(s) && Step(s, a, s')
    ensures SetIsCurrent(s')
  {
    if OnTimer(a) {
      TimerStep(s, a, s');
    }
  }

  /** In every state of every run a set timer belongs to the current call and to the attempt it
      is at, so there is at most one, and none once the fiber has resumed or the call returned. */
  lemma {:induction false} SetTimerIsCurrent(ss: seq<State>, acts: seq<Action>, n: nat)
    requires Run(ss, acts) && n < |ss|
    ensures SetIsCurrent(ss[n])
    ensures var ts := ss[n].timers;
      forall i, j | i in ts && j in ts && ts[i].status == Set && ts[j].status == Set :: i == j
  {
    if n > 0 {
      SetTimerIsCurrent(ss, acts, n - 1);
      assert StepAt(ss, acts, n - 1);
      StepKeepsCurrent(ss[n - 1], acts[n - 1], ss[n]);
    }
  }

  /** A call without a timeout has no timers. */
  ghost predicate TimersAsked(s: State) {
    forall id | id in s.timers && s.timers[id].call == s.call :: s.timeout
  }

  lemma StepKeepsAsked(s: State, a: Action, s': State)
    requires MarkEarned(s) && TimersAsked(s) && Step(s, a, s')
    ensures TimersAsked(s')
  {
    if OnTimer(a) {
      TimerStep(s, a, s');
    }
  }

  lemma {:induction false} TimersOnlyIfAsked(ss: seq<State>, acts: seq<Action>, n: nat)
    requires Run(ss, acts) && n < |ss|
    ensures TimersAsked(ss[n])
  {
    if n > 0 {
      TimersOnlyIfAsked(ss, acts, n - 1);
      Invariant(ss, acts, n - 1);
      assert StepAt(ss, acts, n - 1);
      StepKeepsAsked(ss[n - 1], acts[n - 1], ss[n]);
    }
  }

  /** So it never times out, whatever callbacks of earlier calls do. */
  lemma TimesOutOnlyIfAsked(ss: seq<State>, acts: seq<Action>, n: nat)
    requires Run(ss, acts) && n < |ss| && ss[n].result == Some(TimedOut)
    ensures ss[n].timeout
  {
    TimersOnlyIfAsked(ss, acts, n);
    TimedOutByOwnTimer(ss, acts, n);
  }

  /** A timer expires only during the attempt that set it. */
  lemma ExpiresInItsAttempt(ss: seq<State>, acts: seq<Action>, n: nat)
    requires Run(ss, acts) && n < |acts| && acts[n].Expire?
    ensures acts[n].id in ss[n].timers && IsCurrent(ss[n], acts[n].id) && ss[n].timeout
  {
    SetTimerIsCurrent(ss, acts, n);
    Invariant(ss, acts, n);
    assert StepAt(ss, acts, n);
  }

  // ---- Callbacks of calls that have returned -------------------------------------------------

  predicate Finished(s: State, call: nat) { call < s.call || (call == s.call && s.pc == Outside) }

  predicate Over(t: TimerRec) { t.status == Ran || t.status == Cancelled }

  /** The callback can do nothing more: it is over, or it is not past its check and will not
      pass it, because its call is marked or no callback of the call has a reference. */
  ghost predicate Harmless(s: State, id: nat)
    requires id in s.timers
  {
    var t := s.timers[id];
    Over(t) || (t.status != Passed && t.status != Marked && (t.call in s.marks || !HeldBySome(s, t.call)))
  }

  lemma NoNewHolder(s: State, a: Action, s': State, c: nat)
    requires MarkEarned(s) && Step(s, a, s') && Finished(s, c) && c !in s.marks && !HeldBySome(s, c)
    ensures c !in s'.marks && !HeldBySome(s', c)
  {
    if OnTimer(a) {
      TimerNoNewHolder(s, a, s', c);
    } else {
      FiberNoNewHolder(s, a, s', c);
    }
  }

  lemma TimerNoNewHolder(s: State, a: Action, s': State, c: nat)
    requires Step(s, a, s') && OnTimer(a) && !Alive(s, c) && c !in s.marks
    ensures c !in s'.marks && !HeldBySome(s', c)
  {
    assert !HeldBySome(s, c) && a.id in s.timers;
    forall id | id in s'.timers && s'.timers[id].call == c
      ensures !Holds(s'.timers[id])
    {
      assert id in s.timers && s.timers[id].call == c;
      assert id != a.id ==> s'.timers[id] == s.timers[id];
    }
  }

  lemma FiberNoNewHolder(s: State, a: Action, s': State, c: nat)
    requires Step(s, a, s') && !OnTimer(a) && c !in s.marks && !HeldBySome(s, c)
    ensures c !in s'.marks && !HeldBySome(s', c)
  {
    FiberStep(s, a, s');
    forall id | id in s'.timers && s'.timers[id].call == c
      ensures !Holds(s'.timers[id])
    {
      assert id in s.timers ==> SameOrCancelled(s.timers[id], s'.timers[id]);
    }
  }

  lemma HarmlessTimerStep(s: State, a: Action, s': State, id: nat)
    requires MarkEarned(s) && Step(s, a, s') && OnTimer(a)
    requires id in s.timers && Finished(s, s.timers[id].call) && Harmless(s, id)
    ensures id in s'.timers && s'.timers[id].call == s.timers[id].call && Harmless(s', id)
    ensures a != CancelSlot(id) && a != CancelFails(id)
    ensures a.id == id ==> s' == SetStatus(s, id, s'.timers[id].status)
  {
    var t := s.timers[id];
    TimerStep(s, a, s');
    if t.call !in s.marks && !HeldBySome(s, t.call) {
      assert forall i | i in s.timers && s.timers[i].call == t.call :: !Holds(s.timers[i]);
      NoNewHolder(s, a, s', t.call);
    }
  }

  lemma HarmlessFiberStep(s: State, a: Action, s': State, id: nat)
    requires MarkEarned(s) && Step(s, a, s') && !OnTimer(a)
    requires id in s.timers && Finished(s, s.timers[id].call) && Harmless(s, id)
    ensures id in s'.timers && s'.timers[id].call == s.timers[id].call && Harmless(s', id)
  {
    FiberStep(s, a, s');
    if s.timers[id].call !in s.marks && !HeldBySome(s, s.timers[id].call) {
      NoNewHolder(s, a, s', s.timers[id].call);
    }
  }

  lemma FinishedStays(s: State, a: Action, s': State, c: nat)
    requires Step(s, a, s') && Finished(s, c)
    ensures Finished(s', c)
  {
  }

  lemma {:induction false} StaysHarmless(ss: seq<State>, acts: seq<Action>, m: nat, n: nat, id: nat)
    requires Run(ss, acts) && m <= n < |ss| && id in ss[m].timers
    requires Finished(ss[m], ss[m].timers[id].call) && Harmless(ss[m], id)
    ensures id in ss[n].timers && Finished(ss[n], ss[n].timers[id].call) && Harmless(ss[n], id)
    decreases n - m
  {
    if m < n {
      StaysHarmless(ss, acts, m, n - 1, id);
      Invariant(ss, acts, n - 1);
      assert StepAt(ss, acts, n - 1);
      FinishedStays(ss[n - 1], acts[n - 1], ss[n], ss[n - 1].timers[id].call);
      if OnTimer(acts[n - 1]) {
        HarmlessTimerStep(ss[n - 1], acts[n - 1], ss[n], id);
      } else {
        HarmlessFiberStep(ss[n - 1], acts[n - 1], ss[n], id);
      }
    }
  }

  /** From then on a harmless callback changes nothing but its own state. */
  lemma CallbackIsNoOp(ss: seq<State>, acts: seq<Action>, m: nat, n: nat, id: nat)
    requires Run(ss, acts) && m <= n < |acts| && id in ss[m].timers
    requires Finished(ss[m], ss[m].timers[id].call) && Harmless(ss[m], id)
    ensures acts[n] != CancelSlot(id) && acts[n] != CancelFails(id)
    ensures OnTimer(acts[n]) && acts[n].id == id ==>
      id in ss[n].timers && id in ss[n + 1].timers && ss[n + 1] == SetStatus(ss[n], id, ss[n + 1].timers[id].status)
  {
    StaysHarmless(ss, acts, m, n, id);
    Invariant(ss, acts, n);
    assert StepAt(ss, acts, n);
    if OnTimer(acts[n]) {
      HarmlessTimerStep(ss[n], acts[n], ss[n + 1], id);
    }
  }

  lemma Extend(ss: seq<State>, acts: seq<Action>, a: Action, s': State) returns (ss': seq<State>, acts': seq<Action>)
    requires Path(ss, acts) && Step(ss[|acts|], a, s')
    ensures Path(ss', acts') && acts' == acts + [a] && ss' == ss + [s']
  {
    ss', acts' := ss + [s'], acts + [a];
    forall i | 0 <= i < |acts'| ensures StepAt(ss', acts', i) {
      assert i < |acts| ==> StepAt(ss, acts, i);
    }
  }

  /** The last step is the cancel of timer `id`; what it met is what was there at `s`. */
  ghost predicate EndsInCancel(ss: seq<State>, acts: seq<Action>, s: State, id: nat) {
    && Path(ss, acts) && |acts| > 0 && acts[|acts| - 1] == CancelSlot(id)
    && var (e, e') := (ss[|acts| - 1], ss[|acts|]);
      && e.slot == s.slot && e.park == s.park && e.call == s.call && e.pc == s.pc && e.wakes == s.wakes
      && id in s.timers && id in e.timers && e.timers[id].call == s.timers[id].call
      && e'.wakes == Triggered(s).wakes && e'.slot == None
  }

  /** A callback that is past its check, or will pass it, can go through and cancel. */
  lemma CancellerCanCancel(ss: seq<State>, acts: seq<Action>, id: nat) returns (ss': seq<State>, acts': seq<Action>)
    requires Path(ss, acts) && var s := ss[|acts|]; id in s.timers && Cancels(s, s.timers[id])
    ensures ss <= ss' && EndsInCancel(ss', acts', ss[|acts|], id)
    ensures acts <= acts' && forall i | |acts| <= i < |acts'| :: OnTimer(acts'[i])
  {
    ss', acts' := ss, acts;
    var s := ss[|acts|];
    var c := s.timers[id].call;
    if s.timers[id].status == Held {
      s := SetStatus(s, id, Passed);
      ss', acts' := Extend(ss', acts', Test(id), s);
    }
    if s.timers[id].status == Passed {
      s := s.(timers := s.timers[id := TimerRec(c, Marked, true)], marks := s.marks + {c});
      ss', acts' := Extend(ss', acts', Mark(id), s);
    }
    ss', acts' := Extend(ss', acts', CancelSlot(id), Triggered(SetStatus(s, id, Ran)));
  }

  /** A callback still set or in flight can get hold of the record while another holds it. */
  lemma CanHold(ss: seq<State>, acts: seq<Action>, id: nat) returns (ss': seq<State>, acts': seq<Action>)
    requires Path(ss, acts) && id in ss[|acts|].timers && HeldBySome(ss[|acts|], ss[|acts|].timers[id].call)
    requires ss[|acts|].timers[id].status == Set || ss[|acts|].timers[id].status == InFlight
    ensures ss <= ss' && Path(ss', acts') && ss'[|acts'|] == SetStatus(ss[|acts|], id, Held)
  {
    ss', acts' := ss, acts;
    var s := ss[|acts|];
    var (c, s1) := (s.timers[id].call, SetStatus(s, id, InFlight));
    if s.timers[id].status == Set {
      ss', acts' := Extend(ss', acts', Expire(id), s1);
    }
    assert s1.timers == ss'[|acts'|].timers;
    var other :| other in s.timers && s.timers[other].call == c && Holds(s.timers[other]);
    assert s1.timers[other] == s.timers[other] && HeldBySome(s1, c);
    ss', acts' := Extend(ss', acts', Hold(id), SetStatus(s1, id, Held));
    assert s1.timers[id := s.timers[id].(status := Held)] == s.timers[id := s.timers[id].(status := Held)];
  }

  /** One that is not harmless can always still cancel. */
  lemma HarmfulCanCancel(ss: seq<State>, acts: seq<Action>, id: nat) returns (ss': seq<State>, acts': seq<Action>)
    requires Path(ss, acts) && id in ss[|acts|].timers && !Harmless(ss[|acts|], id)
    ensures ss <= ss' && EndsInCancel(ss', acts', ss[|acts|], id)
  {
    ss', acts' := ss, acts;
    var t := ss[|acts|].timers[id];
    if t.status == Set || t.status == InFlight {
      ss', acts' := CanHold(ss', acts', id);
    }
    ss', acts' := CancellerCanCancel(ss', acts', id);
  }

  lemma Bound(ids: set<nat>) returns (n: nat)
    ensures forall x | x in ids :: x < n
    decreases ids
  {
    n := 0;
    if ids != {} {
      var x :| x in ids;
      var m := Bound(ids - {x});
      assert forall y | y in ids :: y == x || y in ids - {x};
      n := if m > x then m else x + 1;
    }
  }

  /** The timers of a call, and all marks, are as they were. */
  ghost predicate Keeps(s: State, e: State, c: nat) {
    && e.marks == s.marks
    && forall i | i in s.timers && s.timers[i].call == c :: i in e.timers && e.timers[i] == s.timers[i]
  }

  predicate Waits(s: State) { s.pc.Parked? && s.slot == Some(s.park) }

  /** A fiber that is trying can park. */
  lemma TryingCanPark(ss: seq<State>, acts: seq<Action>, c: nat) returns (ss': seq<State>, acts': seq<Action>)
    requires Path(ss, acts) && ss[|acts|].pc == Trying && ss[|acts|].slot == None
    ensures ss <= ss' && Path(ss', acts') && Keeps(ss[|acts|], ss'[|acts'|], c)
    ensures Waits(ss'[|acts'|]) && ss'[|acts'|].call == ss[|acts|].call
  {
    var s := ss[|acts|];
    var id := Bound(s.timers.Keys);
    var s1 := if s.timeout then s.(pc := Adding(Some(id)), timers := s.timers[id := TimerRec(s.call, Set, false)])
              else s.(pc := Adding(None));
    ss', acts' := Extend(ss, acts, TryAgain(id), s1);
    ss', acts' := AddingCanPark(ss', acts', c);
  }

  lemma AddingCanPark(ss: seq<State>, acts: seq<Action>, c: nat) returns (ss': seq<State>, acts': seq<Action>)
    requires Path(ss, acts) && ss[|acts|].pc.Adding? && ss[|acts|].slot == None
    ensures ss <= ss' && Path(ss', acts') && Keeps(ss[|acts|], ss'[|acts'|], c)
    ensures Waits(ss'[|acts'|]) && ss'[|acts'|].call == ss[|acts|].call
  {
    var s := ss[|acts|];
    var s1 := s.(pc := Parked(s.pc.timer), park := s.park + 1, slot := Some(s.park + 1),
                 lost := s.call in s.marks && !CancellerComing(s));
    ss', acts' := Extend(ss, acts, AddWorks, s1);
  }

  /** A fiber outside begins its next call and can park. */
  lemma OutsideCanPark(ss: seq<State>, acts: seq<Action>, c: nat) returns (ss': seq<State>, acts': seq<Action>)
    requires Path(ss, acts) && ss[|acts|].pc == Outside && ss[|acts|].slot == None
    ensures ss <= ss' && Path(ss', acts') && Keeps(ss[|acts|], ss'[|acts'|], c)
    ensures Waits(ss'[|acts'|]) && ss'[|acts'|].call > ss[|acts|].call
  {
    var s := ss[|acts|];
    var s1 := s.(pc := Trying, call := s.call + 1, timeout := false, result := None);
    ss', acts' := Extend(ss, acts, Begin(false), s1);
    ss', acts' := TryingCanPark(ss', acts', c);
  }

  lemma CheckingCanPark(ss: seq<State>, acts: seq<Action>, c: nat) returns (ss': seq<State>, acts': seq<Action>)
    requires Path(ss, acts) && ss[|acts|].pc == Checking && ss[|acts|].slot == None
    ensures ss <= ss' && Path(ss', acts') && Keeps(ss[|acts|], ss'[|acts'|], c)
    ensures Waits(ss'[|acts'|]) && ss'[|acts'|].call >= ss[|acts|].call
  {
    var s := ss[|acts|];
    if s.call in s.marks {
      ss', acts' := Extend(ss, acts, Check, Return(s, TimedOut));
      ss', acts' := OutsideCanPark(ss', acts', c);
    } else {
      ss', acts' := Extend(ss, acts, Check, s.(pc := Trying));
      ss', acts' := TryingCanPark(ss', acts', c);
    }
  }

  /** Whatever the fiber is doing, it can come to park for a later call than a finished one,
      with that call's timers as they are. */
  lemma CanParkLater(s: State, c: nat) returns (ss: seq<State>, acts: seq<Action>)
    requires Inv(s) && Finished(s, c)
    ensures Path(ss, acts) && ss[0] == s && Keeps(s, ss[|acts|], c)
    ensures Waits(ss[|acts|]) && ss[|acts|].call > c
  {
    ss, acts := [s], [];
    match s.pc
    case Outside => ss, acts := OutsideCanPark(ss, acts, c);
    case Trying => ss, acts := TryingCanPark(ss, acts, c);
    case Adding(_) => ss, acts := AddingCanPark(ss, acts, c);
    case Checking => ss, acts := CheckingCanPark(ss, acts, c);
    case Parked(t) =>
      if s.slot == None {
        ss, acts := Extend(ss, acts, Resume, CancelTimer(s, t).(pc := Checking));
        ss, acts := CheckingCanPark(ss, acts, c);
      }
  }

  /** A callback of a finished call that is not harmless can wake a later park of the fiber:
      the condition is exact for the harm. */
  lemma HarmfulCanWake(s: State, id: nat) returns (ss: seq<State>, acts: seq<Action>)
    requires Inv(s) && id in s.timers && Finished(s, s.timers[id].call) && !Harmless(s, id)
    ensures Path(ss, acts) && ss[0] == s && |acts| > 0 && acts[|acts| - 1] == CancelSlot(id)
    ensures var (e, e') := (ss[|acts| - 1], ss[|acts|]);
      && Waits(e) && s.timers[id].call < e.call && e.park !in e.wakes && e.park in e'.wakes
  {
    var c := s.timers[id].call;
    ss, acts := CanParkLater(s, c);
    var e := ss[|acts|];
    StaysInv(ss, acts, |acts|);
    KeepsHarmful(s, e, id);
    ss, acts := HarmfulCanCancel(ss, acts, id);
    assert Triggered(e).wakes[|e.wakes|] == e.park;
  }

  lemma KeepsHarmful(s: State, e: State, id: nat)
    requires id in s.timers && !Harmless(s, id) && Keeps(s, e, s.timers[id].call)
    ensures id in e.timers && e.timers[id] == s.timers[id] && !Harmless(e, id)
  {
    var c := s.timers[id].call;
    if HeldBySome(s, c) {
      var i :| i in s.timers && s.timers[i].call == c && Holds(s.timers[i]);
      assert e.timers[i] == s.timers[i];
    }
  }

  // ---- What can happen next ---------------------------------------------------------------------

  predicate OnFiber(a: Action) { !OnTimer(a) && a != Trigger }

  /** The fiber can go on in every state but one: while it waits. */
  lemma FiberGoesOn(ss: seq<State>, acts: seq<Action>, n: nat)
    requires Run(ss, acts) && n < |ss|
    ensures (exists a, s' :: OnFiber(a) && Step(ss[n], a, s')) <==> !Waits(ss[n])
  {
    Invariant(ss, acts, n);
    var s := ss[n];
    match s.pc
    case Outside =>
      assert Step(s, Begin(false), s.(pc := Trying, call := s.call + 1, timeout := false, result := None));
    case Trying => assert Step(s, TryDone, Return(s, Value));
    case Adding(t) => assert Step(s, AddFails, Return(CancelTimer(s, t), AddFailed));
    case Checking => assert Step(s, Check, if s.call in s.marks then Return(s, TimedOut) else s.(pc := Trying));
    case Parked(t) =>
      if !Waits(s) {
        assert Step(s, Resume, CancelTimer(s, t).(pc := Checking));
      }
  }

  /** Readiness, a foreign cancel and the callback's cancel each end the wait. */
  lemma WaitEnds(ss: seq<State>, acts: seq<Action>, n: nat)
    requires Run(ss, acts) && n < |acts| && Waits(ss[n]) && (acts[n].Trigger? || acts[n].CancelSlot?)
    ensures !Waits(ss[n + 1]) && ss[n].park !in ss[n].wakes && ss[n].park in ss[n + 1].wakes
  {
    Invariant(ss, acts, n);
    assert StepAt(ss, acts, n);
    assert Triggered(ss[n]).wakes[|ss[n].wakes|] == ss[n].park;
  }

  ghost predicate ByCallbacks(acts: seq<Action>) { forall i | 0 <= i < |acts| :: OnTimer(acts[i]) }

  /** A timeout on its way can arrive: the callbacks alone can end the wait. */
  lemma TimeoutCanArrive(ss: seq<State>, acts: seq<Action>, n: nat) returns (ts: seq<State>, bs: seq<Action>)
    requires Run(ss, acts) && n < |ss| && Waits(ss[n]) && ss[n].timeout && TimeoutComing(ss[n])
    ensures Path(ts, bs) && ts[0] == ss[n] && ByCallbacks(bs) && !Waits(ts[|bs|])
  {
    var s := ss[n];
    ts, bs := [s], [];
    var id: nat;
    if CancellerComing(s) {
      id :| id in s.timers && Cancels(s, s.timers[id]);
    } else {
      id := s.pc.timer.value;
      Invariant(ss, acts, n);
      ts, bs := CallbackStarts(s, id);
    }
    ts, bs := CancellerCanCancel(ts, bs, id);
  }

  /** The callback of the waiting call's timer gets hold of the record. */
  lemma CallbackStarts(s: State, id: nat) returns (ts: seq<State>, bs: seq<Action>)
    requires Waits(s) && s.call !in s.marks && id in s.timers && s.timers[id].call == s.call
    requires s.timers[id].status == Set || s.timers[id].status == InFlight
    ensures Path(ts, bs) && ts[0] == s && ByCallbacks(bs) && ts[|bs|] == SetStatus(s, id, Held)
  {
    ts, bs := [s], [];
    var s1 := SetStatus(s, id, InFlight);
    if s.timers[id].status == Set {
      ts, bs := Extend(ts, bs, Expire(id), s1);
    }
    assert s1.timers == ts[|bs|].timers;
    ts, bs := Extend(ts, bs, Hold(id), SetStatus(s1, id, Held));
    assert s1.timers[id := s.timers[id].(status := Held)] == s.timers[id := s.timers[id].(status := Held)];
  }

  /** And one that is not on its way never comes: whatever the callbacks do, the fiber waits on. */
  lemma {:induction false} TimeoutNeverArrives(ts: seq<State>, bs: seq<Action>, n: nat)
    requires Path(ts, bs) && ByCallbacks(bs) && n < |ts| && Inv(ts[0])
    requires Waits(ts[0]) && ts[0].timeout && !TimeoutComing(ts[0])
    ensures Waits(ts[n]) && ts[n].timeout && !TimeoutComing(ts[n])
  {
    if n > 0 {
      TimeoutNeverArrives(ts, bs, n - 1);
      var (s, a, s') := (ts[n - 1], bs[n - 1], ts[n]);
      assert StepAt(ts, bs, n - 1);
      StaysInv(ts, bs, n - 1);
      StaysInv(ts, bs, n);
      assert forall id | id in s.timers :: !Cancels(s, s.timers[id]);
      TimerStep(s, a, s');
      LostByStep(s, a, s');
    }
  }

  // ---- Runs that go wrong ----------------------------------------------------------------------

  /** A state of the first call, which has a timeout and one timer. */
  function First(pc: Pc, marked: bool, st: Status, hit: bool, slot: Option<nat>, park: nat, lost: bool): State {
    State(pc, 1, true, if marked then {1} else {}, map[0 := TimerRec(1, st, hit)], park, slot, [], lost, None)
  }

  /** The first call tries in vain and arms its timer. */
  lemma FirstArms() returns (ss: seq<State>, acts: seq<Action>)
    ensures Run(ss, acts) && ss[|acts|] == First(Adding(Some(0)), false, Set, false, None, 0, false)
  {
    var s0 := State(Outside, 0, false, {}, map[], 0, None, [], false, None);
    ss, acts := [s0], [];
    ss, acts := Extend(ss, acts, Begin(true), s0.(pc := Trying, call := 1, timeout := true));
    ss, acts := Extend(ss, acts, TryAgain(0), First(Adding(Some(0)), false, Set, false, None, 0, false));
  }

  /** Its callback takes a reference before the call registers. */
  lemma FirstCallbackEarly() returns (ss: seq<State>, acts: seq<Action>)
    ensures Run(ss, acts) && ss[|acts|] == First(Adding(Some(0)), false, Held, false, None, 0, false)
  {
    ss, acts := FirstArms();
    ss, acts := Extend(ss, acts, Expire(0), First(Adding(Some(0)), false, InFlight, false, None, 0, false));
    ss, acts := Extend(ss, acts, Hold(0), First(Adding(Some(0)), false, Held, false, None, 0, false));
  }

  /** It runs through, and finds nothing to cancel. */
  lemma FirstCallbackInVain() returns (ss: seq<State>, acts: seq<Action>)
    ensures Run(ss, acts) && ss[|acts|] == First(Adding(Some(0)), true, Ran, true, None, 0, false)
  {
    ss, acts := FirstCallbackEarly();
    ss, acts := Extend(ss, acts, Test(0), First(Adding(Some(0)), false, Passed, false, None, 0, false));
    ss, acts := Extend(ss, acts, Mark(0), First(Adding(Some(0)), true, Marked, true, None, 0, false));
    ss, acts := Extend(ss, acts, CancelSlot(0), First(Adding(Some(0)), true, Ran, true, None, 0, false));
  }

  /** So a timeout can be lost: no other callback will come. */
  lemma TimeoutLost() returns (ss: seq<State>, acts: seq<Action>)
    ensures Run(ss, acts) && var s := ss[|acts|]; s.pc.Parked? && s.slot.Some? && s.timeout && !TimeoutComing(s)
  {
    ss, acts := FirstCallbackInVain();
    ss, acts := Extend(ss, acts, AddWorks, First(Parked(Some(0)), true, Ran, true, Some(1), 1, true));
  }

  /** The first call parks, and its callback takes a reference. */
  lemma FirstHeld() returns (ss: seq<State>, acts: seq<Action>)
    ensures Run(ss, acts) && ss[|acts|] == First(Parked(Some(0)), false, Held, false, Some(1), 1, false)
  {
    ss, acts := FirstArms();
    ss, acts := Extend(ss, acts, AddWorks, First(Parked(Some(0)), false, Set, false, Some(1), 1, false));
    ss, acts := Extend(ss, acts, Expire(0), First(Parked(Some(0)), false, InFlight, false, Some(1), 1, false));
    ss, acts := Extend(ss, acts, Hold(0), First(Parked(Some(0)), false, Held, false, Some(1), 1, false));
  }

  /** Readiness wakes it, and it succeeds. */
  lemma FirstSucceeds() returns (ss: seq<State>, acts: seq<Action>)
    ensures Run(ss, acts)
    ensures ss[|acts|]
         == State(Outside, 1, true, {}, map[0 := TimerRec(1, Held, false)], 1, None, [1], false, Some(Value))
  {
    ss, acts := FirstHeld();
    var s := First(Parked(Some(0)), false, Held, false, None, 1, false).(wakes := [1]);
    ss, acts := Extend(ss, acts, Trigger, s);
    ss, acts := Extend(ss, acts, Resume, s.(pc := Checking));
    ss, acts := Extend(ss, acts, Check, s.(pc := Trying));
    ss, acts := Extend(ss, acts, TryDone, s.(pc := Outside, result := Some(Value)));
  }

  /** Or its callback sets the mark. */
  lemma FirstMarked() returns (ss: seq<State>, acts: seq<Action>)
    ensures Run(ss, acts) && ss[|acts|] == First(Parked(Some(0)), true, Marked, true, Some(1), 1, false)
  {
    ss, acts := FirstHeld();
    ss, acts := Extend(ss, acts, Test(0), First(Parked(Some(0)), false, Passed, false, Some(1), 1, false));
    ss, acts := Extend(ss, acts, Mark(0), First(Parked(Some(0)), true, Marked, true, Some(1), 1, false));
  }

  /** A timeout is lost, too, when the callback's cancel fails: the call did not lose it as it
      parked, but now it is marked and no other callback will cancel. */
  lemma TimeoutLostByFailure() returns (ss: seq<State>, acts: seq<Action>)
    ensures Run(ss, acts) && |acts| > 0 && acts[|acts| - 1] == CancelFails(0)
    ensures var (s, s') := (ss[|acts| - 1], ss[|acts|]);
      && s.pc.Parked? && s'.pc.Parked? && s.slot.Some? && s'.slot == s.slot && s.timeout && s'.timeout
      && TimeoutComing(s) && !TimeoutComing(s')
  {
    ss, acts := FirstMarked();
    var s := ss[|acts|];
    assert Cancels(s, s.timers[0]);
    var s' := First(Parked(Some(0)), true, Ran, true, Some(1), 1, true);
    ss, acts := Extend(ss, acts, CancelFails(0), s');
  }

  /** Readiness wakes the marked call, and it times out. */
  lemma FirstTimesOut() returns (ss: seq<State>, acts: seq<Action>)
    ensures Run(ss, acts)
    ensures ss[|acts|]
         == State(Outside, 1, true, {1}, map[0 := TimerRec(1, Marked, true)], 1, None, [1], false, Some(TimedOut))
  {
    ss, acts := FirstMarked();
    var s := First(Parked(Some(0)), true, Marked, true, None, 1, false).(wakes := [1]);
    ss, acts := Extend(ss, acts, Trigger, s);
    ss, acts := Extend(ss, acts, Resume, s.(pc := Checking));
    ss, acts := Extend(ss, acts, Check, s.(pc := Outside, result := Some(TimedOut)));
  }

  /** A state of the first call's second attempt, which has a second timer. */
  function Second(pc: Pc, marks: set<nat>, t: TimerRec, own: Status, slot: Option<nat>, wakes: seq<nat>): State {
    State(pc, 1, true, marks, map[0 := t, 1 := TimerRec(1, own, false)], 2, slot, wakes, false, None)
  }

  /** The first call's timer has expired when readiness wakes it; it tries again and parks. */
  lemma SecondAttempt() returns (ss: seq<State>, acts: seq<Action>)
    ensures Run(ss, acts)
    ensures ss[|acts|] == Second(Parked(Some(1)), {}, TimerRec(1, Held, false), Set, Some(2), [1])
  {
    ss, acts := FirstHeld();
    var s := First(Parked(Some(0)), false, Held, false, None, 1, false).(wakes := [1]);
    var s' := Second(Parked(Some(1)), {}, TimerRec(1, Held, false), Set, Some(2), [1]);
    ss, acts := Extend(ss, acts, Trigger, s);
    ss, acts := Extend(ss, acts, Resume, s.(pc := Checking));
    ss, acts := Extend(ss, acts, Check, s.(pc := Trying));
    ss, acts := Extend(ss, acts, TryAgain(1), s'.(pc := Adding(Some(1)), park := 1, slot := None));
    ss, acts := Extend(ss, acts, AddWorks, s');
  }

  /** The earlier timer's callback sets the mark. */
  lemma SecondMarked() returns (ss: seq<State>, acts: seq<Action>)
    ensures Run(ss, acts)
    ensures ss[|acts|] == Second(Parked(Some(1)), {1}, TimerRec(1, Marked, true), Set, Some(2), [1])
  {
    ss, acts := SecondAttempt();
    var s := Second(Parked(Some(1)), {}, TimerRec(1, Passed, false), Set, Some(2), [1]);
    ss, acts := Extend(ss, acts, Test(0), s);
    ss, acts := Extend(ss, acts, Mark(0), Second(Parked(Some(1)), {1}, TimerRec(1, Marked, true), Set, Some(2), [1]));
  }

  /** So an earlier attempt's timer can time out a later attempt, whose own timer is still set. */
  lemma EarlierAttemptTimesOut() returns (ss: seq<State>, acts: seq<Action>, n: nat)
    ensures Run(ss, acts) && n < |acts| && acts[n] == CancelSlot(0) && Waits(ss[n]) && ss[n].pc.timer == Some(1)
    ensures 1 in ss[n].timers && ss[n].timers[1].status == Set
    ensures ss[|acts|].call == ss[n].call && ss[|acts|].result == Some(TimedOut)
  {
    ss, acts := SecondMarked();
    n := |acts|;
    var woken := Second(Parked(Some(1)), {1}, TimerRec(1, Ran, true), Set, None, [1, 2]);
    ss, acts := Extend(ss, acts, CancelSlot(0), woken);
    var s := Second(Checking, {1}, TimerRec(1, Ran, true), Cancelled, None, [1, 2]);
    ss, acts := Extend(ss, acts, Resume, s);
    ss, acts := Extend(ss, acts, Check, s.(pc := Outside, result := Some(TimedOut)));
  }

  /** The second call, without a timeout, parks. */
  lemma SecondParks(ss: seq<State>, acts: seq<Action>) returns (ss': seq<State>, acts': seq<Action>)
    requires Run(ss, acts) && var s := ss[|acts|]; s.pc == Outside && s.call == 1 && s.park == 1 && s.slot == None
    requires 1 !in ss[|acts|].timers && !ss[|acts|].lost && 2 !in ss[|acts|].marks
    ensures ss <= ss' && Run(ss', acts')
    ensures ss'[|acts'|] == ss[|acts|].(
              pc := Parked(None), call := 2, timeout := false, park := 2, slot := Some(2), result := None)
  {
    var s := ss[|acts|].(pc := Trying, call := 2, timeout := false, result := None);
    ss', acts' := Extend(ss, acts, Begin(false), s);
    ss', acts' := Extend(ss', acts', TryAgain(1), s.(pc := Adding(None)));
    ss', acts' := Extend(ss', acts', AddWorks, s.(pc := Parked(None), park := 2, slot := Some(2)));
  }

  /** The last step is a callback of an earlier call that wakes the parked fiber. */
  ghost predicate WokenByEarlierCall(ss: seq<State>, acts: seq<Action>) {
    && Run(ss, acts) && |acts| > 0 && acts[|acts| - 1] == CancelSlot(0)
    && var (s, s') := (ss[|acts| - 1], ss[|acts|]);
      s.slot == Some(s.park) && 0 in s.timers && s.timers[0].call < s.call && s.park in s'.wakes
  }

  lemma FirstCallbackCancels(ss: seq<State>, acts: seq<Action>) returns (ss': seq<State>, acts': seq<Action>)
    requires Run(ss, acts) && var s := ss[|acts|]; s.slot == Some(s.park) && s.call == 2
    requires 0 in ss[|acts|].timers && ss[|acts|].timers[0] == TimerRec(1, Marked, true)
    ensures ss <= ss' && WokenByEarlierCall(ss', acts')
  {
    var s' := Triggered(SetStatus(ss[|acts|], 0, Ran));
    ss', acts' := Extend(ss, acts, CancelSlot(0), s');
    assert s'.wakes[|s'.wakes| - 1] == ss[|acts|].park;
  }

  /** A callback that is past its check when the call returns still cancels: it can wake
      the next call, though nothing has happened to its descriptor. */
  lemma LateCancelWakesNextCall() returns (ss: seq<State>, acts: seq<Action>)
    ensures WokenByEarlierCall(ss, acts)
  {
    ss, acts := FirstTimesOut();
    ss, acts := SecondParks(ss, acts);
    ss, acts := FirstCallbackCancels(ss, acts);
  }

  /** So does one that has only taken its reference, even if the call succeeded. */
  lemma HeldCallbackWakesNextCall() returns (ss: seq<State>, acts: seq<Action>, n: nat)
    ensures WokenByEarlierCall(ss, acts) && n < |ss| && ss[n].call == 1 && ss[n].result == Some(Value)
    ensures 0 in ss[n].timers && ss[n].timers[0].status == Held
  {
    ss, acts := FirstSucceeds();
    n := |acts|;
    ss, acts := SecondParks(ss, acts);
    var s := ss[|acts|];
    ss, acts := Extend(ss, acts, Test(0), s.(timers := map[0 := TimerRec(1, Passed, false)]));
    ss, acts := Extend(ss, acts, Mark(0), s.(timers := map[0 := TimerRec(1, Marked, true)], marks := {1}));
    ss, acts := FirstCallbackCancels(ss, acts);
  }
}
