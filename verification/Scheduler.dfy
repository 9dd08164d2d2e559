/** The scheduler: workers that share one queue, as a system of atomic steps. A step is a
    section under the lock, or what a worker does between two of them. */
module Schedulers {
  import opened Options

  datatype FiberState = Hold | Exec | Ready | Term | Except

  datatype Task = FiberTask(fiber: nat) | CbTask(cb: nat)

  const ANY: int := -1  // not pinned to a thread

  /** A queue entry; entries are numbered in the order they are pushed. */
  datatype Entry = Entry(serial: nat, task: Task, thread: int)

  /** Where a worker is in `run`. */
  datatype Phase =
    | Head                               // about to test stopping()
    | Scan                               // about to search the queue
    | Holding(entry: Entry)              // popped, not yet switched in
    | Executing(entry: Entry, fiber: nat)
    | Requeue(fiber: nat)                // came back READY, counter already down
    | NoWork
    | InIdle
    | Left

  datatype Worker = Worker(phase: Phase, idleTerm: bool)

  datatype State = State(
    queue: seq<Entry>,
    workers: seq<Worker>,
    fibers: map<nat, FiberState>,
    active: int,
    stopped: bool,
    pushed: nat,         // how many entries were ever pushed
    consumed: set<nat>)  // entries a worker is done with

  /** What worker `me` may take. */
  predicate Eligible(e: Entry, me: int, fibers: map<nat, FiberState>) {
    && (e.thread == ANY || e.thread == me)
    && (e.task.FiberTask? && e.task.fiber in fibers ==> fibers[e.task.fiber] != Exec)
  }

  /** The place of the earliest entry `me` may take, or the length of the queue. */
  function FirstEligible(q: seq<Entry>, me: int, fibers: map<nat, FiberState>): (k: nat)
    ensures k <= |q| && (k < |q| ==> Eligible(q[k], me, fibers))
    ensures forall i | 0 <= i < k :: !Eligible(q[i], me, fibers)
  {
    if q == [] || Eligible(q[0], me, fibers) then 0 else 1 + FirstEligible(q[1..], me, fibers)
  }

  /** The search loop of a worker. It asks for a tickle when it has passed an entry
      pinned to some other thread. */
  method ScanQueue(q: seq<Entry>, me: int, fibers: map<nat, FiberState>) returns (k: nat, tickle: bool)
    ensures k == FirstEligible(q, me, fibers)
    ensures tickle <==> exists i | 0 <= i < k :: q[i].thread != ANY && q[i].thread != me
  {
    k, tickle := 0, false;
    while k < |q|
      invariant k <= |q| && FirstEligible(q, me, fibers) == k + FirstEligible(q[k..], me, fibers)
      invariant tickle <==> exists i | 0 <= i < k :: q[i].thread != ANY && q[i].thread != me
    {
      assert q[k..][1..] == q[k + 1..];
      if q[k].thread != ANY && q[k].thread != me {
        k, tickle := k + 1, true;
      } else if q[k].task.FiberTask? && q[k].task.fiber in fibers && fibers[q[k].task.fiber] == Exec {
        k := k + 1;
      } else {
        return;
      }
    }
  }

  predicate Stopping(s: State) { s.stopped && s.queue == [] && s.active == 0 }

  /** The fiber a worker is about to switch in or to push. */
  function Claim(p: Phase): Option<nat> {
    match p
    case Holding(e) => if e.task.FiberTask? then Some(e.task.fiber) else None
    case Requeue(f) => Some(f)
    case _ => None
  }

  /** No ticket for the fiber is in the queue or in a worker's hands. */
  ghost predicate Unclaimed(s: State, f: nat) {
    && (forall i | 0 <= i < |s.queue| :: s.queue[i].task != FiberTask(f))
    && (forall w | 0 <= w < |s.workers| :: Claim(s.workers[w].phase) != Some(f))
  }

  /** Callers push callbacks freely, and a known fiber when it is not queued already. */
  ghost predicate CanPush(s: State, t: Task) {
    t.FiberTask? ==> t.fiber in s.fibers && Unclaimed(s, t.fiber)
  }

  function Push(s: State, t: Task, thread: int): State {
    s.(queue := s.queue + [Entry(s.pushed, t, thread)], pushed := s.pushed + 1)
  }

  function Move(s: State, w: nat, p: Phase): State
    requires w < |s.workers|
  {
    s.(workers := s.workers[w := s.workers[w].(phase := p)])
  }

  datatype Action =
    | Outside(task: Task, thread: int)
    | Inside(w: nat, task: Task, thread: int)
    | Stop
    | HeadLeave(w: nat)
    | HeadGo(w: nat)
    | Pop(w: nat)
    | ScanNone(w: nat)
    | Start(w: nat, made: nat)
    | Drop(w: nat)
    | Yield(w: nat, st: FiberState)
    | PushBack(w: nat)
    | IdleExit(w: nat)
    | IdleEnter(w: nat)
    | IdleTerm(w: nat)
    | IdleBack(w: nat)

  predicate Dead(st: FiberState) { st == Term || st == Except }

  ghost predicate Step(s: State, a: Action, s': State) {
    match a
    case Outside(t, th) => !s.stopped && CanPush(s, t) && s' == Push(s, t, th)
    case Stop => s' == s.(stopped := true)
    case _ => a.w < |s.workers| && WorkerStep(s, a, s.workers[a.w], s')
  }

  ghost predicate WorkerStep(s: State, a: Action, me: Worker, s': State)
    requires !a.Outside? && !a.Stop? && a.w < |s.workers|
  {
    match a
    case Inside(w, t, th) =>
      // a running fiber, or the idle loop with expired timers and reported events
      (me.phase.Executing? || me.phase == InIdle) && CanPush(s, t) && s' == Push(s, t, th)
    case HeadLeave(w) => me.phase == Head && Stopping(s) && s' == Move(s, w, Left)
    case HeadGo(w) => me.phase == Head && !Stopping(s) && s' == Move(s, w, Scan)
    case Pop(w) =>
      var k := FirstEligible(s.queue, w, s.fibers);
      && me.phase == Scan && k < |s.queue|
      && s' == Move(s, w, Holding(s.queue[k])).(queue := s.queue[..k] + s.queue[k + 1..], active := s.active + 1)
    case ScanNone(w) =>
      me.phase == Scan && FirstEligible(s.queue, w, s.fibers) == |s.queue| && s' == Move(s, w, NoWork)
    case Start(w, made) =>
      && me.phase.Holding?
      && var f := if me.phase.entry.task.FiberTask? then me.phase.entry.task.fiber else made;
      && (if me.phase.entry.task.FiberTask? then f in s.fibers && !Dead(s.fibers[f]) else f !in s.fibers)
      && s' == Move(s, w, Executing(me.phase.entry, f)).(fibers := s.fibers[f := Exec])
    case Drop(w) =>
      && me.phase.Holding? && me.phase.entry.task.FiberTask?
      && me.phase.entry.task.fiber in s.fibers && Dead(s.fibers[me.phase.entry.task.fiber])
      && s' == Move(s, w, Head).(active := s.active - 1, consumed := s.consumed + {me.phase.entry.serial})
    case Yield(w, st) =>
      && me.phase.Executing? && st != Exec && (st == Ready ==> Unclaimed(s, me.phase.fiber))
      && s' == Move(s, w, if st == Ready then Requeue(me.phase.fiber) else Head).(
                 fibers := s.fibers[me.phase.fiber := st], active := s.active - 1,
                 consumed := s.consumed + {me.phase.entry.serial})
    case PushBack(w) => me.phase.Requeue? && s' == Push(Move(s, w, Head), FiberTask(me.phase.fiber), ANY)
    case IdleExit(w) => me.phase == NoWork && me.idleTerm && s' == Move(s, w, Left)
    case IdleEnter(w) => me.phase == NoWork && !me.idleTerm && s' == Move(s, w, InIdle)
    case IdleTerm(w) =>
      me.phase == InIdle && Stopping(s) && s' == s.(workers := s.workers[w := Worker(Head, true)])
    case IdleBack(w) => me.phase == InIdle && s' == Move(s, w, Head)
  }

  ghost predicate Init(s: State) {
    && s.queue == [] && s.active == 0 && !s.stopped && s.pushed == 0 && s.consumed == {}
    && |s.workers| > 0 && (forall w | 0 <= w < |s.workers| :: s.workers[w] == Worker(Head, false))
    && (forall f | f in s.fibers :: s.fibers[f] != Exec)
  }

  /** A worker with nothing in hand. */
  predicate Free(p: Phase) { p == Head || p == Scan || p == NoWork || p == InIdle || p == Left }

  predicate Quiet(a: Action) {
    a.HeadLeave? || a.HeadGo? || a.ScanNone? || a.IdleExit? || a.IdleEnter? || a.IdleTerm? || a.IdleBack?
  }

  /** The steps that only move a worker with nothing in hand. */
  lemma QuietStep(s: State, a: Action, s': State)
    requires Step(s, a, s') && Quiet(a)
    ensures a.w < |s.workers| && Free(s.workers[a.w].phase) && |s'.workers| == |s.workers|
    ensures Free(s'.workers[a.w].phase)
    ensures s' == s.(workers := s.workers[a.w := s'.workers[a.w]])
  {
  }

  // ---- The counter -------------------------------------------------------------

  predicate Busy(p: Phase) { p.Holding? || p.Executing? }

  /** How many workers are between the pop and the decrement. */
  function BusyCount(ws: seq<Worker>): nat {
    if ws == [] then 0 else (if Busy(ws[0].phase) then 1 else 0) + BusyCount(ws[1..])
  }

  lemma {:induction false} BusyUpdate(ws: seq<Worker>, w: nat, x: Worker)
    requires w < |ws|
    ensures BusyCount(ws[w := x]) + (if Busy(ws[w].phase) then 1 else 0)
            == BusyCount(ws) + (if Busy(x.phase) then 1 else 0)
  {
    if w > 0 {
      BusyUpdate(ws[1..], w - 1, x);
      assert ws[w := x][1..] == ws[1..][w - 1 := x];
    } else {
      assert ws[w := x][1..] == ws[1..];
    }
  }

  ghost predicate Counted(s: State) { s.active == BusyCount(s.workers) }

  lemma StepKeepsCounted(s: State, a: Action, s': State)
    requires Counted(s) && Step(s, a, s')
    ensures Counted(s')
  {
    if !a.Outside? && !a.Stop? && !a.Inside? {
      BusyUpdate(s.workers, a.w, s'.workers[a.w]);
      assert s'.workers == s.workers[a.w := s'.workers[a.w]];
    }
  }

  // ---- Conservation --------------------------------------------------------------

  /** The entry a worker has in hand. */
  function Held(p: Phase): Option<nat> {
    if Busy(p) then Some(p.entry.serial) else None
  }

  /** Every entry ever pushed is in exactly one place: the queue, where entries stand in
      the order they were pushed, the hands of one worker, or among the consumed. */
  ghost predicate Conserved(s: State) {
    && (forall i, j | 0 <= i < j < |s.queue| :: s.queue[i].serial < s.queue[j].serial)
    && (forall i | 0 <= i < |s.queue| :: s.queue[i].serial < s.pushed && s.queue[i].serial !in s.consumed)
    && (forall w | 0 <= w < |s.workers| && Held(s.workers[w].phase).Some? ::
          var n := Held(s.workers[w].phase).value;
          n < s.pushed && n !in s.consumed && !InQueue(s, n))
    && (forall v, w | 0 <= v < w < |s.workers| && Held(s.workers[v].phase).Some? ::
          Held(s.workers[v].phase) != Held(s.workers[w].phase))
    && (forall n | n in s.consumed :: n < s.pushed)
    && NoneLost(s)
  }

  ghost predicate NoneLost(s: State) {
    forall n: nat | n < s.pushed :: InQueue(s, n) || InHand(s, n) || n in s.consumed
  }

  ghost predicate InQueue(s: State, n: nat) { exists i | 0 <= i < |s.queue| :: s.queue[i].serial == n }

  ghost predicate InHand(s: State, n: nat) {
    exists w | 0 <= w < |s.workers| :: Held(s.workers[w].phase) == Some(n)
  }

  /** The steps that leave every entry where it is. */
  lemma SamePlaces(s: State, s': State)
    requires Conserved(s) && s'.queue == s.queue && s'.pushed == s.pushed && s'.consumed == s.consumed
    requires |s'.workers| == |s.workers|
    requires forall w | 0 <= w < |s.workers| :: Held(s'.workers[w].phase) == Held(s.workers[w].phase)
    ensures Conserved(s')
  {
    forall n: nat | n < s.pushed ensures InQueue(s', n) || InHand(s', n) || n in s'.consumed {
      if InHand(s, n) {
        var w :| 0 <= w < |s.workers| && Held(s.workers[w].phase) == Some(n);
        assert Held(s'.workers[w].phase) == Some(n);
      } else if InQueue(s, n) {
        var i :| 0 <= i < |s.queue| && s.queue[i].serial == n;
        assert s'.queue[i].serial == n;
      }
    }
    assert forall n :: InQueue(s', n) ==> InQueue(s, n);
  }

  lemma PushConserves(s: State, t: Task, thread: int)
    requires Conserved(s)
    ensures Conserved(Push(s, t, thread))
  {
    var s' := Push(s, t, thread);
    forall n: nat | n < s'.pushed ensures InQueue(s', n) || InHand(s', n) || n in s'.consumed {
      if n == s.pushed {
        assert s'.queue[|s.queue|].serial == n;
      } else if InQueue(s, n) {
        var i :| 0 <= i < |s.queue| && s.queue[i].serial == n;
        assert s'.queue[i].serial == n;
      } else if InHand(s, n) {
        assert InHand(s', n);
      }
    }
    forall n: nat | InQueue(s', n) && n < s.pushed ensures InQueue(s, n) {
      var i :| 0 <= i < |s'.queue| && s'.queue[i].serial == n;
      assert s.queue[i].serial == n;
    }
  }

  lemma PopLosesNone(s: State, w: nat, k: nat, s': State)
    requires NoneLost(s) && w < |s.workers| && k < |s.queue| && Held(s.workers[w].phase) == None
    requires s' == Move(s, w, Holding(s.queue[k])).(queue := s.queue[..k] + s.queue[k + 1..], active := s'.active)
    ensures NoneLost(s')
  {
    forall n: nat | n < s.pushed ensures InQueue(s', n) || InHand(s', n) || n in s'.consumed {
      if n == s.queue[k].serial {
        assert Held(s'.workers[w].phase) == Some(n);
      } else if InQueue(s, n) {
        var i :| 0 <= i < |s.queue| && s.queue[i].serial == n;
        assert s'.queue[if i < k then i else i - 1].serial == n;
      } else if InHand(s, n) {
        var v :| 0 <= v < |s.workers| && Held(s.workers[v].phase) == Some(n);
        assert Held(s'.workers[v].phase) == Some(n);
      }
    }
  }

  lemma PopConserves(s: State, w: nat, k: nat, s': State)
    requires Conserved(s) && w < |s.workers| && k < |s.queue| && Held(s.workers[w].phase) == None
    requires s' == Move(s, w, Holding(s.queue[k])).(queue := s.queue[..k] + s.queue[k + 1..], active := s'.active)
    ensures Conserved(s')
  {
    PopLosesNone(s, w, k, s');
    WithoutOne(s.queue, k);
    assert forall n: nat :: InQueue(s', n) ==> InQueue(s, n);
    assert InQueue(s, s.queue[k].serial);
  }

  /** Taking one entry out of a queue in push order keeps the order and all others. */
  lemma WithoutOne(q: seq<Entry>, k: nat)
    requires k < |q| && forall i, j | 0 <= i < j < |q| :: q[i].serial < q[j].serial
    ensures var q' := q[..k] + q[k + 1..];
      && (forall i, j | 0 <= i < j < |q'| :: q'[i].serial < q'[j].serial)
      && (forall i | 0 <= i < |q'| :: q'[i].serial != q[k].serial && q'[i] in q)
  {
    var q' := q[..k] + q[k + 1..];
    forall i | 0 <= i < |q'| ensures q'[i] == q[if i < k then i else i + 1] {
    }
  }

  lemma ConsumeConserves(s: State, w: nat, p: Phase, s': State)
    requires Conserved(s) && w < |s.workers| && Busy(s.workers[w].phase)
    requires s'.queue == s.queue && s'.pushed == s.pushed
    requires s'.consumed == s.consumed + {s.workers[w].phase.entry.serial}
    requires !Busy(p) && s'.workers == s.workers[w := s.workers[w].(phase := p)]
    ensures Conserved(s')
  {
    var m := s.workers[w].phase.entry.serial;
    assert Held(s.workers[w].phase) == Some(m);
    forall n: nat | n < s.pushed ensures InQueue(s', n) || InHand(s', n) || n in s'.consumed {
      if InQueue(s, n) {
        assert InQueue(s', n);
      } else if n != m && InHand(s, n) {
        var v :| 0 <= v < |s.workers| && Held(s.workers[v].phase) == Some(n);
        assert Held(s'.workers[v].phase) == Some(n);
      }
    }
    forall i | 0 <= i < |s.queue| ensures s.queue[i].serial != m {
      assert s.queue[i].serial == m ==> InQueue(s, m);
    }
    assert forall n :: InQueue(s', n) ==> InQueue(s, n);
  }

  lemma PushBackConserves(s: State, w: nat, s': State)
    requires Conserved(s) && Step(s, PushBack(w), s')
    ensures Conserved(s')
  {
    var moved := Move(s, w, Head);
    SamePlaces(s, moved);
    PushConserves(moved, FiberTask(s.workers[w].phase.fiber), ANY);
  }

  lemma StepConserves(s: State, a: Action, s': State)
    requires Conserved(s) && Step(s, a, s')
    ensures Conserved(s')
  {
    if Quiet(a) {
      QuietStep(s, a, s');
      SamePlaces(s, s');
    } else if a.Stop? || a.Start? {
      SamePlaces(s, s');
    } else if a.Outside? || a.Inside? {
      PushConserves(s, a.task, a.thread);
    } else if a.PushBack? {
      PushBackConserves(s, a.w, s');
    } else if a.Pop? {
      PoppingConserves(s, a.w, s');
    } else {
      ConsumingConserves(s, a, s');
    }
  }

  lemma PoppingConserves(s: State, w: nat, s': State)
    requires Conserved(s) && Step(s, Pop(w), s')
    ensures Conserved(s')
  {
    PopConserves(s, w, FirstEligible(s.queue, w, s.fibers), s');
  }

  lemma ConsumingConserves(s: State, a: Action, s': State)
    requires Conserved(s) && Step(s, a, s') && (a.Drop? || a.Yield?)
    ensures Conserved(s')
  {
    ConsumeConserves(s, a.w, s'.workers[a.w].phase, s');
  }

  // ---- Fibers --------------------------------------------------------------------

  /** A fiber is EXEC exactly while one worker executes it. */
  ghost predicate Exclusive(s: State) {
    && (forall f | f in s.fibers && s.fibers[f] == Exec :: Executed(s, f))
    && (forall w | 0 <= w < |s.workers| && s.workers[w].phase.Executing? ::
          s.workers[w].phase.fiber in s.fibers && s.fibers[s.workers[w].phase.fiber] == Exec)
    && (forall v, w | 0 <= v < w < |s.workers| && s.workers[v].phase.Executing? && s.workers[w].phase.Executing? ::
          s.workers[v].phase.fiber != s.workers[w].phase.fiber)
  }

  ghost predicate Executed(s: State, f: nat) {
    exists w | 0 <= w < |s.workers| :: s.workers[w].phase.Executing? && s.workers[w].phase.fiber == f
  }

  /** A fiber has at most one ticket; a worker about to switch one in finds it not EXEC,
      so the assertion in `swapIn` never fires. */
  ghost predicate OneTicket(s: State) {
    && (forall i | 0 <= i < |s.queue| && s.queue[i].task.FiberTask? :: s.queue[i].task.fiber in s.fibers)
    && (forall i, j | 0 <= i < j < |s.queue| && s.queue[i].task.FiberTask? :: s.queue[i].task != s.queue[j].task)
    && (forall w | 0 <= w < |s.workers| && Claim(s.workers[w].phase).Some? ::
          OneClaim(s, w, Claim(s.workers[w].phase).value))
  }

  ghost predicate OneClaim(s: State, w: nat, f: nat) {
    && f in s.fibers && s.fibers[f] != Exec
    && (forall i | 0 <= i < |s.queue| :: s.queue[i].task != FiberTask(f))
    && (forall v | 0 <= v < |s.workers| && v != w :: Claim(s.workers[v].phase) != Some(f))
  }

  /** A worker that is not executing changes nothing here by moving to another such phase. */
  lemma MoveKeepsExclusive(s: State, w: nat, s': State)
    requires Exclusive(s) && w < |s.workers| && |s'.workers| == |s.workers| && s'.fibers == s.fibers
    requires !s.workers[w].phase.Executing? && !s'.workers[w].phase.Executing?
    requires forall v | 0 <= v < |s.workers| && v != w :: s'.workers[v] == s.workers[v]
    ensures Exclusive(s')
  {
    forall f | f in s.fibers && s.fibers[f] == Exec ensures Executed(s', f) {
      var v :| 0 <= v < |s.workers| && s.workers[v].phase.Executing? && s.workers[v].phase.fiber == f;
      assert s'.workers[v].phase.fiber == f;
    }
  }

  lemma StartKeepsExclusive(s: State, w: nat, e: Entry, f: nat)
    requires Exclusive(s) && w < |s.workers| && !s.workers[w].phase.Executing?
    requires f in s.fibers ==> s.fibers[f] != Exec
    ensures Exclusive(Move(s, w, Executing(e, f)).(fibers := s.fibers[f := Exec]))
  {
    var s' := Move(s, w, Executing(e, f)).(fibers := s.fibers[f := Exec]);
    assert s'.workers[w].phase.fiber == f;
    forall g | g in s.fibers && s.fibers[g] == Exec ensures Executed(s', g) {
      var v :| 0 <= v < |s.workers| && s.workers[v].phase.Executing? && s.workers[v].phase.fiber == g;
      assert s'.workers[v].phase.fiber == g;
    }
  }

  lemma YieldKeepsExclusive(s: State, w: nat, p: Phase, st: FiberState)
    requires Exclusive(s) && w < |s.workers| && s.workers[w].phase.Executing? && !p.Executing? && st != Exec
    ensures Exclusive(Move(s, w, p).(fibers := s.fibers[s.workers[w].phase.fiber := st]))
  {
    var s' := Move(s, w, p).(fibers := s.fibers[s.workers[w].phase.fiber := st]);
    forall g | g in s'.fibers && s'.fibers[g] == Exec ensures Executed(s', g) {
      var v :| 0 <= v < |s.workers| && s.workers[v].phase.Executing? && s.workers[v].phase.fiber == g;
      assert s'.workers[v].phase.fiber == g;
    }
  }

  lemma SameWorkersExclusive(s: State, s': State)
    requires Exclusive(s) && s'.workers == s.workers && s'.fibers == s.fibers
    ensures Exclusive(s')
  {
    assert forall f :: Executed(s, f) ==> Executed(s', f);
  }

  lemma StepKeepsExclusive(s: State, a: Action, s': State)
    requires Exclusive(s) && OneTicket(s) && Step(s, a, s')
    ensures Exclusive(s')
  {
    if Quiet(a) {
      QuietStep(s, a, s');
      MoveKeepsExclusive(s, a.w, s');
    } else if a.Outside? || a.Inside? || a.Stop? {
      SameWorkersExclusive(s, s');
    } else if a.Start? {
      NotExecWhileClaimed(s);
      StartKeepsExclusive(s, a.w, s.workers[a.w].phase.entry, s'.workers[a.w].phase.fiber);
    } else if a.Yield? {
      YieldKeepsExclusive(s, a.w, s'.workers[a.w].phase, a.st);
      SameWorkersExclusive(Move(s, a.w, s'.workers[a.w].phase).(fibers := s'.fibers), s');
    } else {
      MoveKeepsExclusive(s, a.w, s');
    }
  }

  lemma PushKeepsOneTicket(s: State, t: Task, thread: int)
    requires OneTicket(s) && CanPush(s, t)
    ensures OneTicket(Push(s, t, thread))
  {
    var s' := Push(s, t, thread);
    forall w | 0 <= w < |s.workers| && Claim(s.workers[w].phase).Some?
      ensures OneClaim(s', w, Claim(s.workers[w].phase).value)
    {
      assert OneClaim(s, w, Claim(s.workers[w].phase).value);
    }
  }

  /** A worker that gives up its claim, or never had one. */
  lemma UnclaimKeepsOneTicket(s: State, w: nat, s': State)
    requires OneTicket(s) && w < |s.workers| && |s'.workers| == |s.workers| && s'.queue == s.queue
    requires Claim(s'.workers[w].phase) == None
    requires forall v | 0 <= v < |s.workers| && v != w :: s'.workers[v] == s.workers[v]
    requires forall f | f in s.fibers :: f in s'.fibers
    requires forall v | 0 <= v < |s.workers| && v != w && Claim(s.workers[v].phase).Some? ::
      s'.fibers[Claim(s.workers[v].phase).value] != Exec
    ensures OneTicket(s')
  {
    forall v | 0 <= v < |s.workers| && Claim(s'.workers[v].phase).Some?
      ensures OneClaim(s', v, Claim(s'.workers[v].phase).value)
    {
      assert OneClaim(s, v, Claim(s.workers[v].phase).value);
    }
  }

  lemma NotExecWhileClaimed(s: State)
    requires OneTicket(s)
    ensures forall w | 0 <= w < |s.workers| && Claim(s.workers[w].phase).Some? ::
      Claim(s.workers[w].phase).value in s.fibers && s.fibers[Claim(s.workers[w].phase).value] != Exec
  {
    forall w | 0 <= w < |s.workers| && Claim(s.workers[w].phase).Some?
      ensures Claim(s.workers[w].phase).value in s.fibers && s.fibers[Claim(s.workers[w].phase).value] != Exec
    {
      assert OneClaim(s, w, Claim(s.workers[w].phase).value);
    }
  }

  lemma PopKeepsOneTicket(s: State, w: nat, k: nat, s': State)
    requires OneTicket(s) && w < |s.workers| && k < |s.queue| && Eligible(s.queue[k], w, s.fibers)
    requires s' == Move(s, w, Holding(s.queue[k])).(queue := s.queue[..k] + s.queue[k + 1..], active := s'.active)
    ensures OneTicket(s')
  {
    forall v | 0 <= v < |s.workers| && Claim(s'.workers[v].phase).Some?
      ensures OneClaim(s', v, Claim(s'.workers[v].phase).value)
    {
      if v != w {
        assert OneClaim(s, v, Claim(s.workers[v].phase).value);
      }
      assert forall i | 0 <= i < |s'.queue| :: s'.queue[i] == s.queue[if i < k then i else i + 1];
    }
  }

  lemma YieldKeepsOneTicket(s: State, w: nat, st: FiberState, s': State)
    requires Exclusive(s) && OneTicket(s) && w < |s.workers| && Step(s, Yield(w, st), s')
    ensures OneTicket(s')
  {
    var f := s.workers[w].phase.fiber;
    forall v | 0 <= v < |s.workers| && Claim(s'.workers[v].phase).Some?
      ensures OneClaim(s', v, Claim(s'.workers[v].phase).value)
    {
      if v != w {
        assert OneClaim(s, v, Claim(s.workers[v].phase).value);
      }
    }
  }

  lemma StartKeepsOneTicket(s: State, w: nat, made: nat, s': State)
    requires OneTicket(s) && w < |s.workers| && Step(s, Start(w, made), s')
    ensures OneTicket(s')
  {
    var f := s'.workers[w].phase.fiber;
    forall v | 0 <= v < |s.workers| && v != w && Claim(s.workers[v].phase).Some?
      ensures s'.fibers[Claim(s.workers[v].phase).value] != Exec
    {
      assert OneClaim(s, v, Claim(s.workers[v].phase).value);
      assert f in s.fibers ==> Claim(s.workers[w].phase) == Some(f);
    }
    UnclaimKeepsOneTicket(s, w, s');
  }

  lemma PushBackKeepsOneTicket(s: State, w: nat, s': State)
    requires OneTicket(s) && Step(s, PushBack(w), s')
    ensures OneTicket(s')
  {
    NotExecWhileClaimed(s);
    var moved := Move(s, w, Head);
    UnclaimKeepsOneTicket(s, w, moved);
    assert OneClaim(s, w, s.workers[w].phase.fiber);
    PushKeepsOneTicket(moved, FiberTask(s.workers[w].phase.fiber), ANY);
  }

  lemma FreeingKeepsOneTicket(s: State, a: Action, s': State)
    requires OneTicket(s) && Step(s, a, s') && (Quiet(a) || a.Drop?)
    ensures OneTicket(s')
  {
    NotExecWhileClaimed(s);
    if Quiet(a) {
      QuietStep(s, a, s');
    }
    UnclaimKeepsOneTicket(s, a.w, s');
  }

  lemma QueueingKeepsOneTicket(s: State, a: Action, s': State)
    requires OneTicket(s) && Step(s, a, s') && (a.Outside? || a.Inside? || a.Pop? || a.PushBack?)
    ensures OneTicket(s')
  {
    if a.Outside? || a.Inside? {
      PushKeepsOneTicket(s, a.task, a.thread);
    } else if a.Pop? {
      PopKeepsOneTicket(s, a.w, FirstEligible(s.queue, a.w, s.fibers), s');
    } else {
      PushBackKeepsOneTicket(s, a.w, s');
    }
  }

  lemma StepKeepsOneTicket(s: State, a: Action, s': State)
    requires Exclusive(s) && OneTicket(s) && Step(s, a, s')
    ensures OneTicket(s')
  {
    if Quiet(a) || a.Drop? {
      FreeingKeepsOneTicket(s, a, s');
    } else if a.Stop? {
      SameKeepsOneTicket(s, s');
    } else if a.Start? {
      StartKeepsOneTicket(s, a.w, a.made, s');
    } else if a.Yield? {
      YieldKeepsOneTicket(s, a.w, a.st, s');
    } else {
      QueueingKeepsOneTicket(s, a, s');
    }
  }

  lemma SameKeepsOneTicket(s: State, s': State)
    requires OneTicket(s) && s'.queue == s.queue && s'.workers == s.workers && s'.fibers == s.fibers
    ensures OneTicket(s')
  {
    forall w | 0 <= w < |s.workers| && Claim(s.workers[w].phase).Some?
      ensures OneClaim(s', w, Claim(s.workers[w].phase).value)
    {
      assert OneClaim(s, w, Claim(s.workers[w].phase).value);
    }
  }

  // ---- Draining ------------------------------------------------------------------

  /** The worker has left, or is about to for want of work. */
  predicate Gone(w: Worker) { w.phase == Left || (w.phase == NoWork && w.idleTerm) }

  ghost predicate SomeoneStays(s: State) { exists w | 0 <= w < |s.workers| :: !Gone(s.workers[w]) }

  /** As long as an unpinned entry is queued, some worker will look at the queue again. */
  ghost predicate Drains(s: State) {
    && |s.workers| > 0
    && (!s.stopped ==> forall w | 0 <= w < |s.workers| :: s.workers[w].phase != Left && !s.workers[w].idleTerm)
    && ((exists i | 0 <= i < |s.queue| :: s.queue[i].thread == ANY) ==> SomeoneStays(s))
  }

  /** A worker that finds nothing leaves unpinned entries behind only for a worker that is
      executing their fibers. */
  lemma NothingFound(s: State, w: nat, i: nat, s': State)
    requires Exclusive(s) && OneTicket(s) && Step(s, ScanNone(w), s')
    requires i < |s.queue| && s.queue[i].thread == ANY
    ensures SomeoneStays(s')
  {
    assert !Eligible(s.queue[i], w, s.fibers);
    assert Executed(s, s.queue[i].task.fiber);
    var v :| 0 <= v < |s.workers| && s.workers[v].phase.Executing? && s.workers[v].phase.fiber == s.queue[i].task.fiber;
    assert !Gone(s'.workers[v]);
  }

  /** A worker that leaves was gone already, or leaves an empty queue. */
  lemma LeavingKeepsDrains(s: State, a: Action, s': State)
    requires Drains(s) && Step(s, a, s') && (a.IdleExit? || a.HeadLeave?)
    ensures Drains(s')
  {
    forall v | 0 <= v < |s.workers| && !Gone(s.workers[v]) && v != a.w ensures SomeoneStays(s') {
      assert !Gone(s'.workers[v]);
    }
  }

  lemma FindingNothingKeepsDrains(s: State, a: Action, s': State)
    requires Drains(s) && Exclusive(s) && OneTicket(s) && Step(s, a, s') && a.ScanNone?
    ensures Drains(s')
  {
    forall i | 0 <= i < |s.queue| && s.queue[i].thread == ANY ensures SomeoneStays(s') {
      NothingFound(s, a.w, i, s');
    }
  }

  lemma OutsideKeepsDrains(s: State, a: Action, s': State)
    requires Drains(s) && Step(s, a, s') && (a.Stop? || a.Outside?)
    ensures Drains(s')
  {
    assert a.Outside? ==> !Gone(s'.workers[0]);
    assert SomeoneStays(s) ==> SomeoneStays(s');
  }

  lemma StayingKeepsDrains(s: State, w: nat, s': State)
    requires Drains(s) && w < |s.workers| == |s'.workers| && s'.stopped == s.stopped
    requires forall v | 0 <= v < |s.workers| && v != w :: s'.workers[v] == s.workers[v]
    requires !Gone(s'.workers[w]) && (!s.stopped ==> !s'.workers[w].idleTerm)
    ensures Drains(s')
  {
  }

  lemma StepKeepsDrains(s: State, a: Action, s': State)
    requires Drains(s) && Exclusive(s) && OneTicket(s) && Step(s, a, s')
    ensures Drains(s')
  {
    if a.Stop? || a.Outside? {
      OutsideKeepsDrains(s, a, s');
    } else if a.ScanNone? {
      FindingNothingKeepsDrains(s, a, s');
    } else if a.IdleExit? || a.HeadLeave? {
      LeavingKeepsDrains(s, a, s');
    } else {
      StayingKeepsDrains(s, a.w, s');
    }
  }

  // ---- Runs ------------------------------------------------------------------------

  ghost predicate Inv(s: State) { Counted(s) && Conserved(s) && Exclusive(s) && OneTicket(s) && Drains(s) }

  ghost predicate StepAt(ss: seq<State>, acts: seq<Action>, i: nat)
    requires i < |acts| && |ss| == |acts| + 1
  {
    Step(ss[i], acts[i], ss[i + 1])
  }

  ghost predicate Path(ss: seq<State>, acts: seq<Action>) {
    |ss| == |acts| + 1 && forall i | 0 <= i < |acts| :: StepAt(ss, acts, i)
  }

  ghost predicate Run(ss: seq<State>, acts: seq<Action>) { Path(ss, acts) && Init(ss[0]) }

  lemma {:induction false} NoneBusy(ws: seq<Worker>)
    requires forall w | 0 <= w < |ws| :: !Busy(ws[w].phase)
    ensures BusyCount(ws) == 0
  {
    if ws != [] {
      NoneBusy(ws[1..]);
    }
  }

  /** Every state of every run: the counter counts the busy workers, no entry is lost or
      doubled, no fiber runs twice at once, and queued work has a worker to come. */
  lemma {:induction false} Invariant(ss: seq<State>, acts: seq<Action>, n: nat)
    requires Run(ss, acts) && n < |ss|
    ensures Inv(ss[n])
  {
    if n == 0 {
      NoneBusy(ss[0].workers);
    } else {
      Invariant(ss, acts, n - 1);
      var (s, a, s') := (ss[n - 1], acts[n - 1], ss[n]);
      assert StepAt(ss, acts, n - 1);
      StepKeepsCounted(s, a, s');
      StepConserves(s, a, s');
      StepKeepsExclusive(s, a, s');
      StepKeepsOneTicket(s, a, s');
      StepKeepsDrains(s, a, s');
    }
  }

  /** When the last worker has left `run`, only pinned entries can be in the queue. */
  lemma Drained(ss: seq<State>, acts: seq<Action>, n: nat)
    requires Run(ss, acts) && n < |ss|
    requires forall w | 0 <= w < |ss[n].workers| :: ss[n].workers[w].phase == Left
    ensures forall i | 0 <= i < |ss[n].queue| :: ss[n].queue[i].thread != ANY
  {
    Invariant(ss, acts, n);
  }

  /** With unpinned work the queue is empty, and every entry has been consumed. */
  lemma UnpinnedDrained(ss: seq<State>, acts: seq<Action>, n: nat)
    requires Run(ss, acts) && n < |ss|
    requires forall a | a in acts && (a.Outside? || a.Inside?) :: a.thread == ANY
    requires forall w | 0 <= w < |ss[n].workers| :: ss[n].workers[w].phase == Left
    ensures ss[n].queue == [] && ss[n].active == 0 && forall k: nat | k < ss[n].pushed :: k in ss[n].consumed
  {
    var s := ss[n];
    AllUnpinned(ss, acts, n);
    assert s.queue != [] ==> s.queue[0].thread == ANY;
    Drained(ss, acts, n);
    Invariant(ss, acts, n);
    assert s.active == 0 by { NoneBusy(s.workers); }
    forall k: nat | k < s.pushed ensures k in s.consumed {
      assert !InQueue(s, k) && !InHand(s, k);
    }
  }

  ghost predicate Unpinned(s: State) { forall i | 0 <= i < |s.queue| :: s.queue[i].thread == ANY }

  lemma StepKeepsUnpinned(s: State, a: Action, s': State)
    requires Unpinned(s) && Step(s, a, s') && (a.Outside? || a.Inside? ==> a.thread == ANY)
    ensures Unpinned(s')
  {
    if Quiet(a) {
      QuietStep(s, a, s');
    }
  }

  lemma {:induction false} AllUnpinned(ss: seq<State>, acts: seq<Action>, n: nat)
    requires Run(ss, acts) && n < |ss|
    requires forall a | a in acts && (a.Outside? || a.Inside?) :: a.thread == ANY
    ensures Unpinned(ss[n])
  {
    if n > 0 {
      AllUnpinned(ss, acts, n - 1);
      assert StepAt(ss, acts, n - 1);
      assert acts[n - 1] in acts;
      StepKeepsUnpinned(ss[n - 1], acts[n - 1], ss[n]);
    }
  }

  /** A pop takes the entry pushed first among those its worker may take, and a pinned
      entry goes to its own thread only. */
  lemma PopIsEarliest(ss: seq<State>, acts: seq<Action>, n: nat)
    requires Run(ss, acts) && n < |acts| && acts[n].Pop?
    ensures acts[n].w < |ss[n + 1].workers| && ss[n + 1].workers[acts[n].w].phase.Holding?
    ensures var (e, me) := (ss[n + 1].workers[acts[n].w].phase.entry, acts[n].w);
      && Eligible(e, me, ss[n].fibers)
      && forall i | 0 <= i < |ss[n].queue| && Eligible(ss[n].queue[i], me, ss[n].fibers) ::
           e.serial <= ss[n].queue[i].serial
  {
    Invariant(ss, acts, n);
    assert StepAt(ss, acts, n);
  }

  // ---- Pinned work -----------------------------------------------------------------

  /** The worker is in its loop, and its idle fiber has not ended. */
  predicate Staying(w: Worker) { w.phase != Left && !w.idleTerm }

  /** A worker does not leave while anything is queued, unless its idle fiber has ended. */
  lemma StayerStays(s: State, a: Action, s': State, w: nat)
    requires Step(s, a, s') && w < |s.workers| && Staying(s.workers[w]) && s'.queue != []
    ensures w < |s'.workers| && Staying(s'.workers[w])
  {
    if Quiet(a) {
      QuietStep(s, a, s');
    }
  }

  /** An entry found in the queue has been there since it was pushed. */
  lemma QueuedBefore(s: State, a: Action, s': State, e: Entry)
    requires Step(s, a, s') && e in s'.queue && e.serial < s.pushed
    ensures e in s.queue
  {
    if Quiet(a) {
      QuietStep(s, a, s');
    }
  }

  lemma {:induction false} QueuedSince(ss: seq<State>, acts: seq<Action>, m: nat, n: nat, e: Entry)
    requires Run(ss, acts) && m <= n < |ss| && e in ss[n].queue && e.serial < ss[m].pushed
    ensures e in ss[m].queue
    decreases n - m
  {
    if m < n {
      PushedGrows(ss, acts, m, n - 1);
      assert StepAt(ss, acts, n - 1);
      QueuedBefore(ss[n - 1], acts[n - 1], ss[n], e);
      QueuedSince(ss, acts, m, n - 1, e);
    }
  }

  lemma {:induction false} PushedGrows(ss: seq<State>, acts: seq<Action>, m: nat, n: nat)
    requires Run(ss, acts) && m <= n < |ss|
    ensures ss[m].pushed <= ss[n].pushed
    decreases n - m
  {
    if m < n {
      PushedGrows(ss, acts, m, n - 1);
      assert StepAt(ss, acts, n - 1);
    }
  }

  /** A worker that was staying when an entry was pushed stays as long as it is queued. */
  lemma {:induction false} StaysWhileQueued(ss: seq<State>, acts: seq<Action>, m: nat, n: nat, e: Entry, w: nat)
    requires Run(ss, acts) && m < n < |ss| && e in ss[n].queue && e.serial < ss[m + 1].pushed
    requires w < |ss[m].workers| && Staying(ss[m].workers[w])
    ensures w < |ss[n].workers| && Staying(ss[n].workers[w])
    decreases n - m
  {
    if n > m + 1 {
      PushedGrows(ss, acts, m + 1, n - 1);
      QueuedSince(ss, acts, n - 1, n, e);
      StaysWhileQueued(ss, acts, m, n - 1, e, w);
    }
    assert StepAt(ss, acts, n - 1);
    StayerStays(ss[n - 1], acts[n - 1], ss[n], w);
  }

  ghost predicate AllLeft(s: State) { forall w | 0 <= w < |s.workers| :: s.workers[w].phase == Left }

  lemma {:induction false} SameWorkers(ss: seq<State>, acts: seq<Action>, n: nat)
    requires Run(ss, acts) && n < |ss|
    ensures |ss[n].workers| == |ss[0].workers|
  {
    if n > 0 {
      SameWorkers(ss, acts, n - 1);
      assert StepAt(ss, acts, n - 1);
    }
  }

  /** An entry that is still queued when the last worker has left was pushed, by step `m` at
      the latest, when every worker had left already or its idle fiber had ended. */
  lemma LeftBehind(ss: seq<State>, acts: seq<Action>, m: nat, n: nat, e: Entry, w: nat)
    requires Run(ss, acts) && m < n < |ss| && AllLeft(ss[n])
    requires e in ss[n].queue && e.serial < ss[m + 1].pushed && w < |ss[m].workers|
    ensures !Staying(ss[m].workers[w])
  {
    if Staying(ss[m].workers[w]) {
      StaysWhileQueued(ss, acts, m, n, e, w);
    }
  }

  /** So every entry pushed before the stop, pinned or not, has been consumed when the last
      worker has left. */
  lemma PushedBeforeStopDrained(ss: seq<State>, acts: seq<Action>, m: nat, n: nat, k: nat)
    requires Run(ss, acts) && m <= n < |ss| && !ss[m].stopped && k < ss[m].pushed && AllLeft(ss[n])
    ensures !InQueue(ss[n], k) && k in ss[n].consumed
  {
    Invariant(ss, acts, m);
    Invariant(ss, acts, n);
    PushedGrows(ss, acts, m, n);
    SameWorkers(ss, acts, m);
    SameWorkers(ss, acts, n);
    assert m < n;
    PushedGrows(ss, acts, m, m + 1);
    forall i | 0 <= i < |ss[n].queue| && ss[n].queue[i].serial == k ensures !Staying(ss[m].workers[0]) {
      LeftBehind(ss, acts, m, n, ss[n].queue[i], 0);
    }
    assert !InHand(ss[n], k);
  }

  /** No worker of that number is in its loop. */
  predicate Unmanned(s: State, thread: int) {
    thread != ANY && !(0 <= thread < |s.workers| && s.workers[thread].phase != Left)
  }

  lemma UnmannedStep(s: State, a: Action, s': State, e: Entry)
    requires Step(s, a, s') && e in s.queue && Unmanned(s, e.thread)
    ensures e in s'.queue && Unmanned(s', e.thread)
  {
    if Quiet(a) {
      QuietStep(s, a, s');
    } else if a.Pop? {
      var k := FirstEligible(s.queue, a.w, s.fibers);
      var i :| 0 <= i < |s.queue| && s.queue[i] == e;
      assert e == if i < k then s'.queue[i] else s'.queue[i - 1];
    }
  }

  /** An entry pinned to a worker that has left, or to none, is never taken. */
  lemma {:induction false} NeverTaken(ss: seq<State>, acts: seq<Action>, m: nat, n: nat, e: Entry)
    requires Run(ss, acts) && m <= n < |ss| && e in ss[m].queue && Unmanned(ss[m], e.thread)
    ensures e in ss[n].queue && Unmanned(ss[n], e.thread)
    decreases n - m
  {
    if m < n {
      NeverTaken(ss, acts, m, n - 1, e);
      assert StepAt(ss, acts, n - 1);
      UnmannedStep(ss[n - 1], acts[n - 1], ss[n], e);
    }
  }

  /** A worker never has another thread's entry in hand. */
  ghost predicate PinsHonoured(s: State) {
    forall w | 0 <= w < |s.workers| && Busy(s.workers[w].phase) ::
      s.workers[w].phase.entry.thread == ANY || s.workers[w].phase.entry.thread == w
  }

  lemma StepHonoursPins(s: State, a: Action, s': State)
    requires PinsHonoured(s) && Step(s, a, s')
    ensures PinsHonoured(s')
  {
    if Quiet(a) {
      QuietStep(s, a, s');
    } else if !a.Outside? && !a.Stop? {
      assert forall w | 0 <= w < |s.workers| && w != a.w :: s'.workers[w] == s.workers[w];
    }
  }

  lemma {:induction false} PinHonoured(ss: seq<State>, acts: seq<Action>, n: nat)
    requires Run(ss, acts) && n < |ss|
    ensures PinsHonoured(ss[n])
  {
    if n > 0 {
      PinHonoured(ss, acts, n - 1);
      assert StepAt(ss, acts, n - 1);
      StepHonoursPins(ss[n - 1], acts[n - 1], ss[n]);
    }
  }

  /** A push puts one entry at the end, for what its pusher asked, pinned as it asked, exactly
      unless it is the new one of a fiber that came back READY: that is open to every worker. */
  lemma PinAsPushed(ss: seq<State>, acts: seq<Action>, n: nat, me: int)
    requires Run(ss, acts) && n < |acts|
    ensures ss[n + 1].pushed == ss[n].pushed + if Pushes(acts[n]) then 1 else 0
    ensures Pushes(acts[n]) ==>
      && |ss[n + 1].queue| == |ss[n].queue| + 1 && ss[n].queue < ss[n + 1].queue
      && var e := ss[n + 1].queue[|ss[n].queue|];
      && e.serial == ss[n].pushed
      && if acts[n].PushBack? then Claims(ss[n], acts[n].w, e.task) && Eligible(e, me, ss[n + 1].fibers)
         else e.task == acts[n].task && e.thread == acts[n].thread
  {
    Invariant(ss, acts, n);
    NotExecWhileClaimed(ss[n]);
    var (s, a, s') := (ss[n], acts[n], ss[n + 1]);
    assert StepAt(ss, acts, n);
    if Quiet(a) {
      QuietStep(s, a, s');
    } else if a.PushBack? {
      assert Claim(s.workers[a.w].phase).Some?;
    }
  }

  predicate Pushes(a: Action) { a.Outside? || a.Inside? || a.PushBack? }

  /** The worker is about to queue the fiber again. */
  predicate Claims(s: State, w: nat, t: Task) {
    w < |s.workers| && s.workers[w].phase.Requeue? && t == FiberTask(s.workers[w].phase.fiber)
  }

  // ---- What becomes of an entry ------------------------------------------------------

  /** The step ends a turn of the fiber. */
  predicate YieldsOf(s: State, a: Action, f: nat) {
    && a.Yield? && a.w < |s.workers| && s.workers[a.w].phase.Executing? && s.workers[a.w].phase.fiber == f
  }

  /** The step begins one: of the fiber the entry names, or of the one made for a callback. */
  predicate StartsOf(s: State, a: Action, f: nat) {
    && a.Start? && a.w < |s.workers| && s.workers[a.w].phase.Holding?
    && f == match s.workers[a.w].phase.entry.task
            case FiberTask(g) => g
            case CbTask(_) => a.made
  }

  function StateOf(s: State, f: nat): Option<FiberState> { if f in s.fibers then Some(s.fibers[f]) else None }

  /** How the fiber left its last turn, `Exec` during one, or how it was at the start. */
  function Latest(ss: seq<State>, acts: seq<Action>, n: nat, f: nat): Option<FiberState>
    requires n < |ss| == |acts| + 1
  {
    if n == 0 then StateOf(ss[0], f)
    else if YieldsOf(ss[n - 1], acts[n - 1], f) then Some(acts[n - 1].st)
    else if StartsOf(ss[n - 1], acts[n - 1], f) then Some(Exec)
    else Latest(ss, acts, n - 1, f)
  }

  lemma FiberByStep(s: State, a: Action, s': State, f: nat)
    requires Step(s, a, s')
    ensures StateOf(s', f) == if YieldsOf(s, a, f) then Some(a.st) else if StartsOf(s, a, f) then Some(Exec)
                              else StateOf(s, f)
  {
    if Quiet(a) {
      QuietStep(s, a, s');
    }
  }

  /** A fiber's state is what its own turns made it. */
  lemma {:induction false} FiberByHistory(ss: seq<State>, acts: seq<Action>, n: nat, f: nat)
    requires Run(ss, acts) && n < |ss|
    ensures StateOf(ss[n], f) == Latest(ss, acts, n, f)
  {
    if n > 0 {
      FiberByHistory(ss, acts, n - 1, f);
      assert StepAt(ss, acts, n - 1);
      FiberByStep(ss[n - 1], acts[n - 1], ss[n], f);
    }
  }

  /** The fiber's last turn ended in TERM or EXCEPT, or it was so at the start. */
  ghost predicate Ended(ss: seq<State>, acts: seq<Action>, n: nat, f: nat)
    requires n < |ss| == |acts| + 1
  {
    Latest(ss, acts, n, f) == Some(Term) || Latest(ss, acts, n, f) == Some(Except)
  }

  /** Step `k` switches in what entry `serial` asks for. */
  ghost predicate RunAt(ss: seq<State>, acts: seq<Action>, k: nat, serial: nat)
    requires k < |acts| && |ss| == |acts| + 1
  {
    && acts[k].Start? && acts[k].w < |ss[k].workers| && acts[k].w < |ss[k + 1].workers|
    && var (p, p') := (ss[k].workers[acts[k].w].phase, ss[k + 1].workers[acts[k].w].phase);
    && p.Holding? && p.entry.serial == serial && p'.Executing? && p'.entry == p.entry
    && (p.entry.task.FiberTask? ==> p'.fiber == p.entry.task.fiber)
  }

  /** Step `k` drops entry `serial`, whose fiber has ended. */
  ghost predicate DroppedAt(ss: seq<State>, acts: seq<Action>, k: nat, serial: nat)
    requires k < |acts| && |ss| == |acts| + 1
  {
    && acts[k].Drop? && acts[k].w < |ss[k].workers|
    && var p := ss[k].workers[acts[k].w].phase;
    && p.Holding? && p.entry.serial == serial && p.entry.task.FiberTask? && Ended(ss, acts, k, p.entry.task.fiber)
  }

  /** What a worker executes was switched in. */
  lemma {:induction false} ExecutedWasRun(ss: seq<State>, acts: seq<Action>, n: nat, w: nat)
    requires Run(ss, acts) && n < |ss| && w < |ss[n].workers| && ss[n].workers[w].phase.Executing?
    ensures exists k | 0 <= k < n :: RunAt(ss, acts, k, ss[n].workers[w].phase.entry.serial)
  {
    var (s, a, s') := (ss[n - 1], acts[n - 1], ss[n]);
    assert StepAt(ss, acts, n - 1);
    if Quiet(a) {
      QuietStep(s, a, s');
    }
    if a.Start? && a.w == w {
      assert RunAt(ss, acts, n - 1, s'.workers[w].phase.entry.serial);
    } else {
      assert w < |s.workers| && s.workers[w].phase == s'.workers[w].phase;
      ExecutedWasRun(ss, acts, n - 1, w);
    }
  }

  /** An entry that is consumed has been run, unless its fiber had ended when a worker came to
      run it. */
  lemma {:induction false} ConsumedWasRun(ss: seq<State>, acts: seq<Action>, n: nat, serial: nat)
    requires Run(ss, acts) && n < |ss| && serial in ss[n].consumed
    ensures exists k | 0 <= k < n :: RunAt(ss, acts, k, serial) || DroppedAt(ss, acts, k, serial)
  {
    var (s, a) := (ss[n - 1], acts[n - 1]);
    assert StepAt(ss, acts, n - 1);
    if serial in s.consumed {
      ConsumedWasRun(ss, acts, n - 1, serial);
    } else if a.Yield? {
      ExecutedWasRun(ss, acts, n - 1, a.w);
    } else {
      FiberByHistory(ss, acts, n - 1, s.workers[a.w].phase.entry.task.fiber);
      assert DroppedAt(ss, acts, n - 1, serial);
    }
  }

  /** A worker with an entry in hand can switch it in exactly unless it is for a fiber that
      has ended; then it can drop it. */
  lemma HeldCanRun(ss: seq<State>, acts: seq<Action>, n: nat, w: nat, made: nat)
    requires Run(ss, acts) && n < |ss| && w < |ss[n].workers| && ss[n].workers[w].phase.Holding?
    requires made !in ss[n].fibers
    ensures var t := ss[n].workers[w].phase.entry.task;
      && ((exists s' :: Step(ss[n], Start(w, made), s')) <==> !(t.FiberTask? && Ended(ss, acts, n, t.fiber)))
      && ((exists s' :: Step(ss[n], Drop(w), s')) <==> t.FiberTask? && Ended(ss, acts, n, t.fiber))
  {
    var (s, e) := (ss[n], ss[n].workers[w].phase.entry);
    Invariant(ss, acts, n);
    NotExecWhileClaimed(s);
    var dropped := Move(s, w, Head).(active := s.active - 1, consumed := s.consumed + {e.serial});
    if e.task.FiberTask? {
      assert Claim(s.workers[w].phase) == Some(e.task.fiber);
      FiberByHistory(ss, acts, n, e.task.fiber);
      assert Ended(ss, acts, n, e.task.fiber) <==> Dead(s.fibers[e.task.fiber]);
      assert Dead(s.fibers[e.task.fiber]) ==> Step(s, Drop(w), dropped);
      var started := Move(s, w, Executing(e, e.task.fiber)).(fibers := s.fibers[e.task.fiber := Exec]);
      assert !Dead(s.fibers[e.task.fiber]) ==> Step(s, Start(w, made), started);
    } else {
      assert Step(s, Start(w, made), Move(s, w, Executing(e, made)).(fibers := s.fibers[made := Exec]));
    }
  }

  /** A ticket for the fiber that every worker may take is queued, or a worker has one. */
  ghost predicate Comes(s: State, f: nat) {
    || (exists i | 0 <= i < |s.queue| :: s.queue[i].task == FiberTask(f) && s.queue[i].thread == ANY)
    || (exists w | 0 <= w < |s.workers| :: Claim(s.workers[w].phase) == Some(f))
  }

  lemma QueuedComes(s: State, f: nat, i: nat)
    requires i < |s.queue| && s.queue[i].task == FiberTask(f) && s.queue[i].thread == ANY
    ensures Comes(s, f)
  {
  }

  lemma ClaimedComes(s: State, f: nat, w: nat)
    requires w < |s.workers| && Claim(s.workers[w].phase) == Some(f)
    ensures Comes(s, f)
  {
  }

  /** A step other than its start leaves the ticket of a READY fiber in the queue, or in some
      worker's hands. */
  lemma QueuedReadyStep(s: State, a: Action, s': State, f: nat, i: nat)
    requires Step(s, a, s') && i < |s.queue| && s.queue[i].task == FiberTask(f) && s.queue[i].thread == ANY
    ensures Comes(s', f)
  {
    if Quiet(a) {
      QuietStep(s, a, s');
    }
    if a.Pop? {
      var k := FirstEligible(s.queue, a.w, s.fibers);
      if k == i {
        ClaimedComes(s', f, a.w);
      } else {
        QueuedComes(s', f, if i < k then i else i - 1);
      }
    } else {
      QueuedComes(s', f, i);
    }
  }

  lemma ClaimedReadyStep(s: State, a: Action, s': State, f: nat, w: nat)
    requires Step(s, a, s') && w < |s.workers| && Claim(s.workers[w].phase) == Some(f)
    requires f in s.fibers && s.fibers[f] == Ready && !StartsOf(s, a, f)
    ensures Comes(s', f)
  {
    if Quiet(a) {
      QuietStep(s, a, s');
    }
    if a == PushBack(w) {
      QueuedComes(s', f, |s.queue|);
    } else {
      assert s'.workers[w].phase == s.workers[w].phase;
      ClaimedComes(s', f, w);
    }
  }

  /** A fiber that yields READY is switched in again, or its ticket is on the way. */
  lemma {:induction false} ReadyComesBack(ss: seq<State>, acts: seq<Action>, m: nat, n: nat, f: nat)
    requires Run(ss, acts) && m < n < |ss| && YieldsOf(ss[m], acts[m], f) && acts[m].st == Ready
    ensures || (exists k | m < k < n :: StartsOf(ss[k], acts[k], f))
            || (StateOf(ss[n], f) == Some(Ready) && Comes(ss[n], f))
    decreases n - m
  {
    var (s, a, s') := (ss[n - 1], acts[n - 1], ss[n]);
    assert StepAt(ss, acts, n - 1);
    FiberByStep(s, a, s', f);
    if n == m + 1 {
      ClaimedComes(s', f, a.w);
    } else {
      ReadyComesBack(ss, acts, m, n - 1, f);
      if !(exists k | m < k < n :: StartsOf(ss[k], acts[k], f)) {
        assert !StartsOf(s, a, f);
        ReadyStays(ss, acts, n - 1, f);
      }
    }
  }

  lemma ReadyStays(ss: seq<State>, acts: seq<Action>, n: nat, f: nat)
    requires Run(ss, acts) && n < |acts| && !StartsOf(ss[n], acts[n], f)
    requires StateOf(ss[n], f) == Some(Ready) && Comes(ss[n], f)
    ensures StateOf(ss[n + 1], f) == Some(Ready) && Comes(ss[n + 1], f)
  {
    var (s, a, s') := (ss[n], acts[n], ss[n + 1]);
    assert StepAt(ss, acts, n);
    Invariant(ss, acts, n);
    FiberByStep(s, a, s', f);
    if w :| 0 <= w < |s.workers| && Claim(s.workers[w].phase) == Some(f) {
      ClaimedReadyStep(s, a, s', f, w);
    } else {
      var i :| 0 <= i < |s.queue| && s.queue[i].task == FiberTask(f) && s.queue[i].thread == ANY;
      QueuedReadyStep(s, a, s', f, i);
    }
  }

  /** So it has been switched in again by the time the last worker has left, although its
      ticket is queued only after the counter dropped. */
  lemma ReadyRunsAgain(ss: seq<State>, acts: seq<Action>, m: nat, n: nat, f: nat)
    requires Run(ss, acts) && m < n < |ss| && YieldsOf(ss[m], acts[m], f) && acts[m].st == Ready && AllLeft(ss[n])
    ensures exists k | m < k < n :: StartsOf(ss[k], acts[k], f)
  {
    ReadyComesBack(ss, acts, m, n, f);
    Drained(ss, acts, n);
  }

  /** Every worker that has not left has a next step, decided by where it is. */
  lemma NeverStuck(ss: seq<State>, acts: seq<Action>, n: nat, w: nat) returns (a: Action, s': State)
    requires Run(ss, acts) && n < |ss| && w < |ss[n].workers| && ss[n].workers[w].phase != Left
    ensures !a.Outside? && !a.Stop? && !a.Inside? && a.w == w && Step(ss[n], a, s')
    ensures var (s, p) := (ss[n], ss[n].workers[w].phase);
      && (p == Head ==> (a == HeadLeave(w) <==> Stopping(s)))
      && (p == Scan ==> (a == Pop(w) <==> exists i | 0 <= i < |s.queue| :: Eligible(s.queue[i], w, s.fibers)))
  {
    var (s, me) := (ss[n], ss[n].workers[w]);
    match me.phase
    case Head =>
      a := if Stopping(s) then HeadLeave(w) else HeadGo(w);
      s' := Move(s, w, if Stopping(s) then Left else Scan);
    case Scan =>
      var k := FirstEligible(s.queue, w, s.fibers);
      a := if k < |s.queue| then Pop(w) else ScanNone(w);
      s' := if k == |s.queue| then Move(s, w, NoWork)
            else Move(s, w, Holding(s.queue[k])).(queue := s.queue[..k] + s.queue[k + 1..], active := s.active + 1);
    case Holding(e) =>
      var made := Unused(s.fibers.Keys);
      HeldCanRun(ss, acts, n, w, made);
      a := if e.task.FiberTask? && Ended(ss, acts, n, e.task.fiber) then Drop(w) else Start(w, made);
      s' :| Step(s, a, s');
    case Executing(e, f) =>
      a := Yield(w, Hold);
      s' := Move(s, w, Head).(
              fibers := s.fibers[f := Hold], active := s.active - 1, consumed := s.consumed + {e.serial});
    case Requeue(f) =>
      a := PushBack(w);
      s' := Push(Move(s, w, Head), FiberTask(f), ANY);
    case NoWork =>
      a := if me.idleTerm then IdleExit(w) else IdleEnter(w);
      s' := Move(s, w, if me.idleTerm then Left else InIdle);
    case InIdle =>
      a := if Stopping(s) then IdleTerm(w) else IdleBack(w);
      s' := if Stopping(s) then s.(workers := s.workers[w := Worker(Head, true)]) else Move(s, w, Head);
  }

  /** A running fiber can yield in any state but EXEC, READY only if nobody has queued it. */
  lemma CanYield(s: State, w: nat, st: FiberState)
    requires w < |s.workers| && s.workers[w].phase.Executing? && st != Exec
    ensures (exists s' :: Step(s, Yield(w, st), s')) <==> (st == Ready ==> Unclaimed(s, s.workers[w].phase.fiber))
  {
    var (f, n) := (s.workers[w].phase.fiber, s.workers[w].phase.entry.serial);
    var s' := Move(s, w, if st == Ready then Requeue(f) else Head).(
                fibers := s.fibers[f := st], active := s.active - 1, consumed := s.consumed + {n});
    assert (st == Ready ==> Unclaimed(s, f)) ==> Step(s, Yield(w, st), s');
  }

  lemma Unused(fs: set<nat>) returns (n: nat)
    ensures forall x | x in fs :: x < n
    decreases fs
  {
    n := 0;
    if fs != {} {
      var x :| x in fs;
      var m := Unused(fs - {x});
      assert forall y | y in fs :: y == x || y in fs - {x};
      n := if m > x then m else x + 1;
    }
  }

  /** An entry pinned to no worker in its loop keeps every other worker from leaving. */
  lemma {:induction false} PinHoldsAll(ss: seq<State>, acts: seq<Action>, m: nat, n: nat, e: Entry, w: nat)
    requires Run(ss, acts) && m <= n < |ss| && e in ss[m].queue && Unmanned(ss[m], e.thread)
    requires w < |ss[m].workers| && Staying(ss[m].workers[w])
    ensures w < |ss[n].workers| && Staying(ss[n].workers[w])
    decreases n - m
  {
    if m < n {
      PinHoldsAll(ss, acts, m, n - 1, e, w);
      NeverTaken(ss, acts, m, n, e);
      assert StepAt(ss, acts, n - 1);
      StayerStays(ss[n - 1], acts[n - 1], ss[n], w);
    }
  }

  // ---- A pinned entry can be left behind ---------------------------------------------

  /** A state of two workers and one fiber in which entries below `done` are consumed. */
  function Two(queue: seq<Entry>, p: Worker, q: Worker, st: FiberState, active: int, stopped: bool, pushed: nat,
               done: set<nat>): State {
    State(queue, [p, q], map[7 := st], active, stopped, pushed, done)
  }

  /** A callback pinned to worker 0. */
  function Pinned(): Entry { Entry(3, CbTask(0), 0) }

  /** Worker 0 has left, and worker 1 runs the fiber that has pinned a callback to it. */
  function WithPinned(): State {
    Two([Pinned()], Worker(Left, false), Worker(Executing(Waits(2), 7), true), Exec, 1, true, 4, {0, 1})
  }

  function Waits(n: nat): Entry { Entry(n, FiberTask(7), ANY) }

  ghost predicate Reaches(s: State, t: State) {
    exists ss, acts :: Path(ss, acts) && ss[0] == s && ss[|acts|] == t
  }

  lemma ReachOne(s: State, a: Action, s': State)
    requires Step(s, a, s')
    ensures Reaches(s, s')
  {
    var (ss, acts) := ([s, s'], [a]);
    assert Path(ss, acts) && ss[|acts|] == s';
  }

  lemma Then(s: State, t: State, u: State)
    requires Reaches(s, t) && Reaches(t, u)
    ensures Reaches(s, u)
  {
    var ss, acts :| Path(ss, acts) && ss[0] == s && ss[|acts|] == t;
    var ts, bcts :| Path(ts, bcts) && ts[0] == t && ts[|bcts|] == u;
    var (us, ccts) := (ss + ts[1..], acts + bcts);
    forall i | 0 <= i < |ccts| ensures StepAt(us, ccts, i) {
      if i < |acts| {
        assert StepAt(ss, acts, i);
      } else {
        assert StepAt(ts, bcts, i - |acts|);
      }
    }
    assert Path(us, ccts) && us[0] == s && us[|ccts|] == u;
  }

  lemma ReachThree(s: State, a: Action, s1: State, b: Action, s2: State, c: Action, s3: State)
    requires Step(s, a, s1) && Step(s1, b, s2) && Step(s2, c, s3)
    ensures Reaches(s, s3)
  {
    ReachOne(s, a, s1);
    ReachOne(s1, b, s2);
    ReachOne(s2, c, s3);
    Then(s, s1, s2);
    Then(s, s2, s3);
  }

  /** With the scheduler stopped and nothing left to do, a worker with nothing in hand can
      leave: at the head of its loop, or after its idle fiber has ended. */
  lemma OneLeaves(s: State, w: nat) returns (t: State)
    requires Stopping(s) && w < |s.workers| && Free(s.workers[w].phase)
    ensures Reaches(s, t) && |t.workers| == |s.workers| && t.workers[w].phase == Left
    ensures t == s.(workers := s.workers[w := t.workers[w]])
    decreases match s.workers[w].phase case Scan => 2 case NoWork => 1 case _ => 0
  {
    var me := s.workers[w];
    t := Move(s, w, Left);
    if me.phase == Left {
      assert t.workers == s.workers;
      ReachNone(s);
    } else if me.phase == Head {
      ReachOne(s, HeadLeave(w), t);
    } else if me.phase == NoWork && me.idleTerm {
      ReachOne(s, IdleExit(w), t);
    } else if me.phase == InIdle {
      t := Retires(s, w);
    } else {
      var s1 := Move(s, w, if me.phase == Scan then NoWork else InIdle);
      ReachOne(s, if me.phase == Scan then ScanNone(w) else IdleEnter(w), s1);
      t := OneLeaves(s1, w);
      Then(s, s1, t);
    }
  }

  lemma Retires(s: State, w: nat) returns (t: State)
    requires Stopping(s) && w < |s.workers| && s.workers[w].phase == InIdle
    ensures Reaches(s, t) && |t.workers| == |s.workers| && t.workers[w].phase == Left
    ensures t == s.(workers := s.workers[w := t.workers[w]])
  {
    var s1 := s.(workers := s.workers[w := Worker(Head, true)]);
    t := Move(s1, w, Left);
    ReachOne(s, IdleTerm(w), s1);
    ReachOne(s1, HeadLeave(w), t);
    Then(s, s1, t);
  }

  lemma ReachNone(s: State)
    ensures Reaches(s, s)
  {
    var ss: seq<State>, acts: seq<Action> := [s], [];
    assert Path(ss, acts) && ss[0] == s && ss[|acts|] == s;
  }

  lemma {:induction false} AllLeave(s: State, n: nat) returns (t: State)
    requires Stopping(s) && n <= |s.workers| && forall w | 0 <= w < |s.workers| :: Free(s.workers[w].phase)
    requires forall w | 0 <= w < n :: s.workers[w].phase == Left
    ensures Reaches(s, t) && AllLeft(t) && t.consumed == s.consumed
    decreases |s.workers| - n
  {
    if n == |s.workers| {
      t := s;
      ReachNone(s);
    } else {
      var s1 := OneLeaves(s, n);
      t := AllLeave(s1, n + 1);
      Then(s, s1, t);
    }
  }

  lemma {:induction false} NoneInHand(ws: seq<Worker>, w: nat)
    requires BusyCount(ws) == 0 && w < |ws|
    ensures !Busy(ws[w].phase)
  {
    if w > 0 {
      NoneInHand(ws[1..], w - 1);
    }
  }

  /** Once `stopping` holds and no fiber is about to be queued again, all workers can leave. */
  lemma StoppedCanEnd(ss: seq<State>, acts: seq<Action>, n: nat) returns (t: State)
    requires Run(ss, acts) && n < |ss| && Stopping(ss[n])
    requires forall w | 0 <= w < |ss[n].workers| :: !ss[n].workers[w].phase.Requeue?
    ensures Reaches(ss[n], t) && AllLeft(t) && t.consumed == ss[n].consumed
  {
    Invariant(ss, acts, n);
    forall w | 0 <= w < |ss[n].workers| ensures Free(ss[n].workers[w].phase) {
      NoneInHand(ss[n].workers, w);
    }
    t := AllLeave(ss[n], 0);
  }

  /** A worker at the head of its loop takes the one waiting fiber and runs it. */
  lemma Takes(s: State, w: nat, e: Entry)
    requires w < |s.workers| && s.workers[w].phase == Head && s.queue == [e]
    requires e.task == FiberTask(7) && (e.thread == ANY || e.thread == w)
    requires 7 in s.fibers && s.fibers[7] != Exec && !Dead(s.fibers[7])
    ensures Reaches(s, Move(s, w, Executing(e, 7)).(queue := [], fibers := s.fibers[7 := Exec], active := s.active + 1))
  {
    var s1 := Move(s, w, Scan);
    var s2 := Move(s1, w, Holding(e)).(queue := [], active := s.active + 1);
    var s3 := Move(s2, w, Executing(e, 7)).(fibers := s.fibers[7 := Exec]);
    assert FirstEligible(s.queue, w, s.fibers) == 0;
    assert s3.workers == s.workers[w := s.workers[w].(phase := Executing(e, 7))];
    ReachThree(s, HeadGo(w), s1, Pop(w), s2, Start(w, 0), s3);
  }

  /** A worker at the head of its loop finds nothing to take. */
  lemma FindsNothing(s: State, w: nat)
    requires w < |s.workers| && s.workers[w].phase == Head && !Stopping(s)
    requires FirstEligible(s.queue, w, s.fibers) == |s.queue|
    ensures Reaches(s, Move(s, w, if s.workers[w].idleTerm then Left else InIdle))
  {
    var p := if s.workers[w].idleTerm then Left else InIdle;
    var s1 := Move(s, w, Scan);
    var s2 := Move(s1, w, NoWork);
    var s3 := Move(s2, w, p);
    assert s3.workers == s.workers[w := s.workers[w].(phase := p)];
    ReachThree(s, HeadGo(w), s1, ScanNone(w), s2, if s.workers[w].idleTerm then IdleExit(w) else IdleEnter(w), s3);
  }

  /** Worker `w`'s fiber yields READY; before it is queued again nothing seems left. */
  lemma Slips(s: State, w: nat, n: nat, between: Action, mid: State, s': State)
    requires w < |s.workers| && s.workers[w].phase == Executing(Waits(n), 7) && s.queue == []
    requires |mid.workers| == |s.workers| && mid.workers[w].phase == Requeue(7)
    requires Step(Yielded(s, w, n), between, mid) && s' == Push(Move(mid, w, Head), FiberTask(7), ANY)
    requires forall v | 0 <= v < |s.workers| && v != w :: Claim(s.workers[v].phase) == None
    ensures Reaches(s, s')
  {
    ReachThree(s, Yield(w, Ready), Yielded(s, w, n), between, mid, PushBack(w), s');
  }

  function Yielded(s: State, w: nat, n: nat): State
    requires w < |s.workers|
  {
    Move(s, w, Requeue(7)).(fibers := s.fibers[7 := Ready], active := s.active - 1, consumed := s.consumed + {n})
  }

  /** Worker 0 runs a fiber while worker 1 idles. */
  lemma Begins()
    ensures Reaches(Two([], Worker(Head, false), Worker(Head, false), Hold, 0, false, 0, {}),
                    Two([], Worker(Executing(Waits(0), 7), false), Worker(InIdle, false), Exec, 1, false, 1, {}))
  {
    var (h, x) := (Worker(Head, false), Worker(Executing(Waits(0), 7), false));
    var s0 := Two([], h, h, Hold, 0, false, 0, {});
    var s1 := Two([Waits(0)], h, h, Hold, 0, false, 1, {});
    var s2 := Two([], x, h, Exec, 1, false, 1, {});
    var s3 := Two([], x, Worker(InIdle, false), Exec, 1, false, 1, {});
    ReachOne(s0, Outside(FiberTask(7), ANY), s1);
    Takes(s1, 0, Waits(0));
    FindsNothing(s2, 1);
    Then(s0, s1, s2);
    Then(s0, s2, s3);
  }

  /** After the stop the fiber slips past worker 1's idle fiber, which ends. */
  lemma FirstMiss()
    ensures Reaches(Two([], Worker(Executing(Waits(0), 7), false), Worker(InIdle, false), Exec, 1, false, 1, {}),
                    Two([Waits(1)], Worker(Head, false), Worker(Head, true), Ready, 0, true, 2, {0}))
  {
    var x := Worker(Executing(Waits(0), 7), false);
    var s0 := Two([], x, Worker(InIdle, false), Exec, 1, false, 1, {});
    var s1 := Two([], x, Worker(InIdle, false), Exec, 1, true, 1, {});
    var s2 := Two([Waits(1)], Worker(Head, false), Worker(Head, true), Ready, 0, true, 2, {0});
    ReachOne(s0, Stop, s1);
    Slips(s1, 0, 0, IdleTerm(1), Two([], Worker(Requeue(7), false), Worker(Head, true), Ready, 0, true, 1, {0}), s2);
    Then(s0, s1, s2);
  }

  /** Worker 1 takes the fiber, and it slips past worker 0, which leaves. */
  lemma SecondMiss()
    ensures Reaches(Two([Waits(1)], Worker(Head, false), Worker(Head, true), Ready, 0, true, 2, {0}),
                    Two([Waits(2)], Worker(Left, false), Worker(Head, true), Ready, 0, true, 3, {0, 1}))
  {
    var (h, x) := (Worker(Head, false), Worker(Executing(Waits(1), 7), true));
    var s0 := Two([Waits(1)], h, Worker(Head, true), Ready, 0, true, 2, {0});
    var s1 := Two([], h, x, Exec, 1, true, 2, {0});
    var s2 := Two([Waits(2)], Worker(Left, false), Worker(Head, true), Ready, 0, true, 3, {0, 1});
    Takes(s0, 1, Waits(1));
    var mid := Two([], Worker(Left, false), Worker(Requeue(7), true), Ready, 0, true, 2, {0, 1});
    Slips(s1, 1, 1, HeadLeave(0), mid, s2);
    Then(s0, s1, s2);
  }

  /** Worker 1 runs the fiber, which pins a callback to worker 0. */
  lemma PinsOne()
    ensures Reaches(Two([Waits(2)], Worker(Left, false), Worker(Head, true), Ready, 0, true, 3, {0, 1}),
                    WithPinned())
  {
    var (l, x) := (Worker(Left, false), Worker(Executing(Waits(2), 7), true));
    var s0 := Two([Waits(2)], l, Worker(Head, true), Ready, 0, true, 3, {0, 1});
    var s1 := Two([], l, x, Exec, 1, true, 3, {0, 1});
    var s2 := Two([Pinned()], l, x, Exec, 1, true, 4, {0, 1});
    Takes(s0, 1, Waits(2));
    ReachOne(s1, Inside(1, CbTask(0), 0), s2);
    Then(s0, s1, s2);
  }

  /** The fiber ends, and worker 1 leaves too. */
  lemma LastTurn()
    ensures Reaches(WithPinned(),
                    Two([Pinned()], Worker(Left, false), Worker(Left, true), Term, 0, true, 4, {0, 1, 2}))
  {
    var (l, e) := (Worker(Left, false), Pinned());
    var s0 := Two([e], l, Worker(Executing(Waits(2), 7), true), Exec, 1, true, 4, {0, 1});
    var s1 := Two([e], l, Worker(Head, true), Term, 0, true, 4, {0, 1, 2});
    var s2 := Two([e], l, Worker(Left, true), Term, 0, true, 4, {0, 1, 2});
    ReachOne(s0, Yield(1, Term), s1);
    FindsNothing(s1, 1);
    Then(s0, s1, s2);
  }

  /** So a run can end with every worker gone and a pinned callback never run. */
  lemma PinnedLeftBehind() returns (ss: seq<State>, acts: seq<Action>)
    ensures Run(ss, acts) && ss[|acts|].queue == [Pinned()]
    ensures forall w | 0 <= w < |ss[|acts|].workers| :: ss[|acts|].workers[w].phase == Left
  {
    Begins();
    FirstMiss();
    SecondMiss();
    PinsOne();
    LastTurn();
    var s0 := Two([], Worker(Head, false), Worker(Head, false), Hold, 0, false, 0, {});
    var s1 := Two([], Worker(Executing(Waits(0), 7), false), Worker(InIdle, false), Exec, 1, false, 1, {});
    var s2 := Two([Waits(1)], Worker(Head, false), Worker(Head, true), Ready, 0, true, 2, {0});
    var s3 := Two([Waits(2)], Worker(Left, false), Worker(Head, true), Ready, 0, true, 3, {0, 1});
    var s4 := WithPinned();
    var s5 := Two([Pinned()], Worker(Left, false), Worker(Left, true), Term, 0, true, 4, {0, 1, 2});
    Then(s0, s1, s2);
    Then(s0, s2, s3);
    Then(s0, s3, s4);
    Then(s0, s4, s5);
    ss, acts :| Path(ss, acts) && ss[0] == s0 && ss[|acts|] == s5;
  }

  /** A fiber pinned to worker 0 runs there and yields READY. */
  lemma PinnedRuns(e: Entry)
    requires e == Entry(0, FiberTask(7), 0)
    ensures Reaches(Two([], Worker(Head, false), Worker(Head, false), Hold, 0, false, 0, {}),
                    Two([], Worker(Executing(e, 7), false), Worker(Head, false), Exec, 1, false, 1, {}))
  {
    var h := Worker(Head, false);
    var s0 := Two([], h, h, Hold, 0, false, 0, {});
    var s1 := Two([e], h, h, Hold, 0, false, 1, {});
    ReachOne(s0, Outside(FiberTask(7), 0), s1);
    Takes(s1, 0, e);
    Then(s0, s1, Two([], Worker(Executing(e, 7), false), h, Exec, 1, false, 1, {}));
  }

  /** It is queued again, for anyone. */
  lemma RequeuedForAnyone(e: Entry)
    requires e == Entry(0, FiberTask(7), 0)
    ensures Reaches(Two([], Worker(Executing(e, 7), false), Worker(Head, false), Exec, 1, false, 1, {}),
                    Two([Waits(1)], Worker(Head, false), Worker(Head, false), Ready, 0, false, 2, {0}))
  {
    var h := Worker(Head, false);
    var s0 := Two([], Worker(Executing(e, 7), false), h, Exec, 1, false, 1, {});
    var s1 := Two([], Worker(Requeue(7), false), h, Ready, 0, false, 1, {0});
    var s2 := Two([Waits(1)], h, h, Ready, 0, false, 2, {0});
    ReachOne(s0, Yield(0, Ready), s1);
    ReachOne(s1, PushBack(0), s2);
    Then(s0, s1, s2);
  }

  /** Worker 1 runs it. */
  lemma RunsElsewhere(e: Entry)
    requires e == Entry(0, FiberTask(7), 0)
    ensures Reaches(Two([], Worker(Executing(e, 7), false), Worker(Head, false), Exec, 1, false, 1, {}),
                    Two([], Worker(Head, false), Worker(Executing(Waits(1), 7), false), Exec, 1, false, 2, {0}))
  {
    var h := Worker(Head, false);
    var s0 := Two([], Worker(Executing(e, 7), false), h, Exec, 1, false, 1, {});
    var s1 := Two([Waits(1)], h, h, Ready, 0, false, 2, {0});
    RequeuedForAnyone(e);
    Takes(s1, 1, Waits(1));
    Then(s0, s1, Two([], h, Worker(Executing(Waits(1), 7), false), Exec, 1, false, 2, {0}));
  }

  /** So a fiber pinned to worker 0 can run on worker 1 once it has yielded READY. */
  lemma PinDropped() returns (s0: State, s1: State, s2: State)
    ensures Init(s0) && Reaches(s0, s1) && Reaches(s1, s2)
    ensures |s1.workers| == |s2.workers| == 2 && s1.workers[0].phase == Executing(Entry(0, FiberTask(7), 0), 7)
    ensures s2.workers[1].phase == Executing(Entry(1, FiberTask(7), ANY), 7)
  {
    var e := Entry(0, FiberTask(7), 0);
    PinnedRuns(e);
    RunsElsewhere(e);
    s0 := Two([], Worker(Head, false), Worker(Head, false), Hold, 0, false, 0, {});
    s1 := Two([], Worker(Executing(e, 7), false), Worker(Head, false), Exec, 1, false, 1, {});
    s2 := Two([], Worker(Head, false), Worker(Executing(Waits(1), 7), false), Exec, 1, false, 2, {0});
  }
}
