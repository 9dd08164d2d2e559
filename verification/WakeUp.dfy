/** The wake-up protocol between the timer set and the one thread that sleeps in the idle
    loop: every run with a clock that does not go back keeps the thread from oversleeping. */
module WakeUps {
  import opened Codec
  import opened Options
  import opened Timers

  const MAX_TIMEOUT: nat := 10000

  /** A 64-bit value handed over as an `int`. */
  function Int32(x: nat): int {
    if x % TWO_32 < TWO_31 then x % TWO_32 else x % TWO_32 - TWO_32
  }

  /** What the idle loop passes to `epoll_wait`; negative means no limit. */
  function EpollTimeout(wait: Stamp): int {
    Int32(if wait == WRAP - 1 || Int32(wait) > MAX_TIMEOUT then MAX_TIMEOUT else wait)
  }

  /** The sleep is limited and not too long, exactly unless the low half of the wait has
      its top bit set: then it has no limit. */
  lemma TimeoutBound(wait: Stamp)
    ensures EpollTimeout(wait) < 0 <==> wait != WRAP - 1 && wait % TWO_32 >= TWO_31
    ensures EpollTimeout(wait) <= wait && EpollTimeout(wait) <= MAX_TIMEOUT
    ensures wait <= 10_000 ==> EpollTimeout(wait) == wait
    ensures wait == WRAP - 1 || 10_000 <= wait % TWO_32 < TWO_31 ==> EpollTimeout(wait) == 10_000
  {
    assert wait % TWO_32 <= wait;
  }

  /** A timer in the set. */
  datatype Entry = Entry(next: Stamp, ms: Stamp)

  /** When its period started. */
  function Start(e: Entry): Stamp { (e.next + WRAP - e.ms) % WRAP }

  lemma StartAndNext(start: Stamp, e: Entry)
    ensures Start(Entry(Later(start, e.ms), e.ms)) == start
    ensures Later(Start(e), e.ms) == e.next
  {
  }

  /** The same timer with a period started at `now`. */
  function Refreshed(e: Entry, now: Stamp): Entry { e.(next := Later(now, e.ms)) }

  /** How long the thread has committed itself to sleep, and since when. */
  datatype Sleep = For(since: nat, length: nat) | Forever

  /** Awake, the thread has still to list expired timers and, if it was told of the pipe, to
      empty that. */
  datatype Pc = Busy | Idle | Asleep(sleep: Sleep) | Awake(reported: bool)

  datatype State = State(
    timers: map<nat, Entry>,  // by address
    tickled: bool,
    pending: nat,             // callers that owe a tickle
    signal: bool,             // a byte in the pipe
    pc: Pc,
    clock: Stamp)

  datatype Action =
    | Tick(clock: Stamp)
    | Add(addr: nat, start: Stamp, ms: Stamp)
    | Cancel(addr: nat)
    | Refresh(addr: nat)
    | Reset(addr: nat, ms: Stamp, fromNow: bool)
    | Tickle
    | OtherLook
    | GoIdle
    | Look(first: nat)
    | LookEmpty
    | Interrupt
    | Wake(reported: bool)
    | Expire(now: Stamp, recurring: set<nat>)
    | Settle
    | GoBusy

  /** The order of the set: by expiry time, then address. */
  predicate KeyLess(e: Entry, a: nat, f: Entry, b: nat) {
    e.next < f.next || (e.next == f.next && a < b)
  }

  ghost predicate Front(timers: map<nat, Entry>, a: nat, e: Entry) {
    forall b | b in timers && b != a :: KeyLess(e, a, timers[b], b)
  }

  /** Insertion through `addTimer`. */
  ghost function Inserted(s: State, a: nat, e: Entry): State {
    var tickle := Front(s.timers, a, e) && !s.tickled;
    s.(timers := s.timers[a := e], tickled := s.tickled || tickle, pending := s.pending + if tickle then 1 else 0)
  }

  function SleepFor(clock: Stamp, wait: Stamp): Sleep {
    if EpollTimeout(wait) < 0 then Forever else For(clock, EpollTimeout(wait))
  }

  /** A wait that a signal interrupts is begun again with the timeout it had. */
  function Again(sleep: Sleep, clock: Stamp): Sleep {
    if sleep.For? then sleep.(since := clock) else Forever
  }

  ghost predicate Minimal(timers: map<nat, Entry>, a: nat) {
    a in timers && forall b | b in timers :: timers[a].next <= timers[b].next
  }

  /** What is left of the set by `listExpiredCb`. */
  function Expired(timers: map<nat, Entry>, now: Stamp, recurring: set<nat>): map<nat, Entry> {
    map a | a in timers && (timers[a].next > now || a in recurring) ::
      if timers[a].next > now then timers[a] else Refreshed(timers[a], now)
  }

  ghost predicate Step(s: State, a: Action, s': State) {
    match a
    case Tick(c) => c >= s.clock && s' == s.(clock := c)
    case Add(addr, start, ms) =>
      // the constructor reads the clock before the lock is taken
      addr !in s.timers && start <= s.clock && s' == Inserted(s, addr, Entry(Later(start, ms), ms))
    case Cancel(addr) => s' == s.(timers := s.timers - {addr})
    case Refresh(addr) => addr in s.timers && s' == s.(timers := s.timers[addr := Refreshed(s.timers[addr], s.clock)])
    case Reset(addr, ms, fromNow) =>
      addr in s.timers && var e := s.timers[addr];
      s' == if ms == e.ms && !fromNow then s
            else Inserted(s, addr, Entry(Later(if fromNow then s.clock else Start(e), ms), ms))
    case Tickle =>
      // the pipe is written only while there is an idle thread
      s.pending > 0 && s' == s.(pending := s.pending - 1, signal := s.signal || s.pc != Busy)
    case OtherLook => s' == s.(tickled := false)
    case GoIdle => s.pc == Busy && s' == s.(pc := Idle)
    case Look(first) =>
      && s.pc == Idle && Minimal(s.timers, first)
      && s' == s.(tickled := false, pc := Asleep(SleepFor(s.clock, WaitFor(s, first))))
    case LookEmpty =>
      s.pc == Idle && s.timers == map[] && s' == s.(tickled := false, pc := Asleep(SleepFor(s.clock, WRAP - 1)))
    case Interrupt => s.pc.Asleep? && s' == s.(pc := Asleep(Again(s.pc.sleep, s.clock)))
    case Wake(reported) => s.pc.Asleep? && (reported ==> s.signal) && s' == s.(pc := Awake(reported))
    case Settle => s.pc.Awake? && s' == s.(pc := Idle, signal := s.signal && !s.pc.reported)
    case Expire(now, recurring) =>
      s.pc.Awake? && now <= s.clock && s' == s.(timers := Expired(s.timers, now, recurring))
    case GoBusy => s.pc == Idle && s' == s.(pc := Busy)
  }

  ghost predicate Init(s: State) {
    s.timers == map[] && !s.tickled && s.pending == 0 && !s.signal && s.pc == Busy
  }

  /** The sleep ends by the time the timer is due, or does not begin at all. */
  predicate OnTime(sleep: Sleep, e: Entry) {
    sleep.For? && (sleep.length == 0 || sleep.since + sleep.length <= e.next)
  }

  /** A wake-up is on its way. */
  predicate Coming(s: State) { s.pending > 0 || s.signal }

  /** The thread oversleeps no timer, or a wake-up is on its way. */
  ghost predicate NoLostWakeUp(s: State) {
    s.pc.Asleep? && !Coming(s) ==> forall a | a in s.timers :: OnTime(s.pc.sleep, s.timers[a])
  }

  ghost predicate Inv(s: State) {
    && (forall a | a in s.timers :: Start(s.timers[a]) <= s.clock)
    && NoLostWakeUp(s)
    && (s.pc.Asleep? && s.tickled ==> Coming(s))
  }

  /** A refresh moves the expiry time across the end of the 64-bit range. */
  predicate Crosses(s: State, a: Action) {
    a.Refresh? && a.addr in s.timers && var e := s.timers[a.addr]; Start(e) + e.ms < WRAP <= s.clock + e.ms
  }

  /** How long the first timer is away when the thread looks. */
  function WaitFor(s: State, first: nat): Stamp
    requires first in s.timers
  {
    var next := s.timers[first].next;
    if s.clock >= next then 0 else next - s.clock
  }

  /** The thread commits itself to a sleep without limit. */
  predicate TooLong(s: State, a: Action) {
    a.Look? && a.first in s.timers && var w := WaitFor(s, a.first); w != WRAP - 1 && w % TWO_32 >= TWO_31
  }

  /** A wait begun again lasts beyond a timer. */
  ghost predicate Overruns(s: State, a: Action) {
    && a.Interrupt? && s.pc.Asleep? && s.pc.sleep.For? && s.pc.sleep.length > 0
    && exists b | b in s.timers :: s.timers[b].next < s.clock + s.pc.sleep.length
  }

  /** None of the three things that can go wrong. */
  ghost predicate Sound(s: State, a: Action) { !Crosses(s, a) && !TooLong(s, a) && !Overruns(s, a) }

  /** A refresh never makes a timer earlier, exactly unless it crosses. */
  lemma RefreshNotEarlier(s: State, addr: nat)
    requires Inv(s) && addr in s.timers
    ensures s.timers[addr].next <= Refreshed(s.timers[addr], s.clock).next <==> !Crosses(s, Refresh(addr))
  {
    var e := s.timers[addr];
    StartAndNext(s.clock, e);
  }

  lemma LookKeepsInv(s: State, first: nat)
    requires Inv(s) && Minimal(s.timers, first) && !TooLong(s, Look(first))
    ensures Inv(s.(tickled := false, pc := Asleep(SleepFor(s.clock, WaitFor(s, first)))))
  {
    TimeoutBound(WaitFor(s, first));
  }

  lemma InsertKeepsInv(s: State, a: nat, start: Stamp, ms: Stamp)
    requires Inv(s) && start <= s.clock
    ensures Inv(Inserted(s, a, Entry(Later(start, ms), ms)))
  {
    StartAndNext(start, Entry(0, ms));
  }

  lemma RefreshKeepsInv(s: State, addr: nat)
    requires Inv(s) && addr in s.timers && !Crosses(s, Refresh(addr))
    ensures Inv(s.(timers := s.timers[addr := Refreshed(s.timers[addr], s.clock)]))
  {
    RefreshNotEarlier(s, addr);
    StartAndNext(s.clock, s.timers[addr]);
  }

  lemma ExpireKeepsInv(s: State, now: Stamp, recurring: set<nat>)
    requires Inv(s) && s.pc.Awake? && now <= s.clock
    ensures Inv(s.(timers := Expired(s.timers, now, recurring)))
  {
    forall a | a in s.timers ensures Start(Refreshed(s.timers[a], now)) == now {
      StartAndNext(now, s.timers[a]);
    }
  }

  lemma StepKeepsInv(s: State, a: Action, s': State)
    requires Inv(s) && Step(s, a, s') && Sound(s, a)
    ensures Inv(s')
  {
    match a
    case Add(addr, start, ms) => InsertKeepsInv(s, addr, start, ms);
    case Reset(addr, ms, fromNow) =>
      InsertKeepsInv(s, addr, if fromNow then s.clock else Start(s.timers[addr]), ms);
    case Refresh(addr) => RefreshKeepsInv(s, addr);
    case Look(first) => LookKeepsInv(s, first);
    case Expire(now, recurring) => ExpireKeepsInv(s, now, recurring);
    case _ =>
  }

  ghost predicate StepAt(ss: seq<State>, acts: seq<Action>, i: nat)
    requires i < |acts| && |ss| == |acts| + 1
  {
    Step(ss[i], acts[i], ss[i + 1])
  }

  ghost predicate Run(ss: seq<State>, acts: seq<Action>) {
    && |ss| == |acts| + 1 && Init(ss[0])
    && forall i | 0 <= i < |acts| :: StepAt(ss, acts, i)
  }

  /** In every state of every run in which no refresh crosses, no wait is too long and no
      wait begun again overruns, no wake-up is lost. */
  lemma {:induction false} NeverOversleeps(ss: seq<State>, acts: seq<Action>, n: nat)
    requires Run(ss, acts) && n < |ss|
    requires forall i | 0 <= i < |acts| :: Sound(ss[i], acts[i])
    ensures Inv(ss[n]) && NoLostWakeUp(ss[n])
  {
    if n > 0 {
      NeverOversleeps(ss, acts, n - 1);
      assert StepAt(ss, acts, n - 1);
      StepKeepsInv(ss[n - 1], acts[n - 1], ss[n]);
    }
  }

  /** A byte in the pipe stays there until the thread that was told of it empties the pipe, and
      is gone then; one gets there only by a tickle that finds the thread not busy. */
  lemma SignalUntilRead(s: State, a: Action, s': State)
    requires Step(s, a, s')
    ensures s.signal && !s'.signal <==> s.signal && a == Settle && s.pc == Awake(true)
    ensures !s.signal && s'.signal <==> !s.signal && a == Tickle && s.pc != Busy
  {
  }

  /** A wait is too long exactly when the sleep has no limit; a timer is then overslept as
      soon as the thread sleeps, unless a wake-up is on its way. */
  lemma TooLongOversleeps(s: State, first: nat, s': State)
    requires Step(s, Look(first), s')
    ensures TooLong(s, Look(first)) <==> s'.pc == Asleep(Forever)
    ensures TooLong(s, Look(first)) && !Coming(s) ==> !NoLostWakeUp(s')
  {
    TimeoutBound(WaitFor(s, first));
    assert first in s'.timers && s'.timers[first] == s.timers[first];
  }

  /** An interrupted wait oversleeps exactly when it overruns, unless a wake-up is on its way. */
  lemma OverrunOversleeps(s: State, s': State)
    requires Inv(s) && Step(s, Interrupt, s') && !Coming(s)
    ensures NoLostWakeUp(s') <==> !Overruns(s, Interrupt)
  {
    if s.pc.sleep.For? && NoLostWakeUp(s') {
      assert forall b | b in s'.timers :: OnTime(s'.pc.sleep, s'.timers[b]);
    }
  }

  const NOW: Stamp := 1_700_000_000_000  // a clock reading of the year 2023

  /** The thread looks at a set of one timer and sleeps. */
  lemma SleepsOn(e: Entry, sleep: Sleep) returns (ss: seq<State>, acts: seq<Action>)
    requires e.next == Later(NOW, e.ms) && e.next >= NOW && sleep == SleepFor(NOW, e.next - NOW)
    ensures Run(ss, acts) && ss[|acts|] == State(map[1 := e], false, 0, false, Asleep(sleep), NOW)
    ensures forall i | 0 <= i < |acts| ::
      && !acts[i].Refresh? && !acts[i].Interrupt?
      && (acts[i].Look? ==> acts[i] == Look(1) && ss[i].timers == map[1 := e] && ss[i].clock == NOW)
  {
    var s0 := State(map[], false, 0, false, Busy, NOW);
    var s1 := State(map[1 := e], true, 1, false, Busy, NOW);
    var s2 := s1.(pending := 0);
    var s3 := s2.(pc := Idle);
    assert Front(s0.timers, 1, e) && s1 == Inserted(s0, 1, e);
    ss, acts := [s0], [];
    ss, acts := Extend(ss, acts, Add(1, NOW, e.ms), s1);
    ss, acts := Extend(ss, acts, Tickle, s2);
    ss, acts := Extend(ss, acts, GoIdle, s3);
    assert Minimal(s3.timers, 1);
    ss, acts := Extend(ss, acts, Look(1), s3.(tickled := false, pc := Asleep(sleep)));
  }

  lemma Extend(ss: seq<State>, acts: seq<Action>, a: Action, s': State) returns (ss': seq<State>, acts': seq<Action>)
    requires Run(ss, acts) && Step(ss[|acts|], a, s')
    ensures Run(ss', acts') && acts' == acts + [a] && ss' == ss + [s']
  {
    ss', acts' := ss + [s'], acts + [a];
    forall i | 0 <= i < |acts'| ensures StepAt(ss', acts', i) {
      assert i < |acts| ==> StepAt(ss, acts, i);
    }
  }

  /** A refresh that crosses can lose a wake-up: a period that ends 1000 ms before the end of
      the range is refreshed 1000 ms later, while the thread sleeps. */
  lemma CrossingOversleeps() returns (ss: seq<State>, acts: seq<Action>)
    ensures Run(ss, acts) && !NoLostWakeUp(ss[|acts|])
    ensures forall i | 0 <= i < |acts| :: !TooLong(ss[i], acts[i]) && !Overruns(ss[i], acts[i])
  {
    var e := Entry(WRAP - 1000, WRAP - NOW - 1000);
    var late := e.(next := 0);
    var sleep := For(NOW, MAX_TIMEOUT);
    ss, acts := SleepsOn(e, sleep);
    var s := ss[|acts|].(clock := NOW + 1000);
    ss, acts := Extend(ss, acts, Tick(NOW + 1000), s);
    var s' := s.(timers := map[1 := late]);
    ss, acts := Extend(ss, acts, Refresh(1), s');
    assert 1 in s'.timers && !OnTime(sleep, s'.timers[1]);
  }

  /** A wait that is too long loses one: a timer of 2^31 ms is due, and the thread sleeps on. */
  lemma EndlessSleep() returns (ss: seq<State>, acts: seq<Action>)
    ensures Run(ss, acts) && !NoLostWakeUp(ss[|acts|])
    ensures forall i | 0 <= i < |acts| :: !Crosses(ss[i], acts[i]) && !Overruns(ss[i], acts[i])
    ensures ss[|acts|].pc == Asleep(Forever) && 1 in ss[|acts|].timers && ss[|acts|].timers[1].next < ss[|acts|].clock
  {
    var e := Entry(NOW + TWO_31, TWO_31);
    ss, acts := SleepsOn(e, Forever);
    var s' := ss[|acts|].(clock := NOW + TWO_31 + 1);
    ss, acts := Extend(ss, acts, Tick(NOW + TWO_31 + 1), s');
    assert 1 in s'.timers && !OnTime(Forever, s'.timers[1]);
  }

  /** A signal loses one: half-way through the wait for a timer of 5 s the wait begins again. */
  lemma InterruptOversleeps() returns (ss: seq<State>, acts: seq<Action>)
    ensures Run(ss, acts) && !NoLostWakeUp(ss[|acts|])
    ensures forall i | 0 <= i < |acts| :: !Crosses(ss[i], acts[i]) && !TooLong(ss[i], acts[i])
  {
    var e := Entry(NOW + 5000, 5000);
    ss, acts := SleepsOn(e, For(NOW, 5000));
    var s := ss[|acts|].(clock := NOW + 2500);
    ss, acts := Extend(ss, acts, Tick(NOW + 2500), s);
    var s' := s.(pc := Asleep(For(NOW + 2500, 5000)));
    ss, acts := Extend(ss, acts, Interrupt, s');
    assert 1 in s'.timers && !OnTime(s'.pc.sleep, s'.timers[1]);
  }

  /** The timer set as the protocol sees it. */
  ghost function View(m: TimerManager): map<nat, Entry>
    requires m.Ordered()
    reads m, m.known
  {
    map t | t in m.timers :: t.addr := Entry(t.next, t.ms)
  }

  ghost predicate Stands(m: TimerManager, s: State)
    reads m, m.known
  {
    m.Valid() && s.timers == View(m) && s.tickled == m.tickled
  }

  /** Being the first of the set is being at the front of the view. */
  lemma FirstIsFront(m: TimerManager, t: Timer, before: map<nat, Entry>)
    requires m.Ordered() && t in m.timers && View(m) == before[t.addr := Entry(t.next, t.ms)]
    ensures (forall x | x in m.timers && x != t :: Less(t, x)) <==> Front(before, t.addr, Entry(t.next, t.ms))
  {
    var (v, e) := (View(m), Entry(t.next, t.ms));
    if Front(before, t.addr, e) {
      forall x | x in m.timers && x != t ensures Less(t, x) {
        assert x.addr in v && v[x.addr] == before[x.addr];
      }
    }
    if forall x | x in m.timers && x != t :: Less(t, x) {
      forall b | b in before && b != t.addr ensures KeyLess(e, t.addr, before[b], b) {
        assert b in v;
        var x :| x in m.timers && x.addr == b;
      }
    }
  }

  /** Each operation of the timer set is the step of its name. */
  method DoAdd(m: TimerManager, address: nat, ms: Stamp, cb: Callback, recurring: bool, start: Stamp, ghost s: State)
    returns (t: Timer, tickle: bool, ghost s': State)
    requires Stands(m, s) && start <= s.clock && forall x | x in m.known :: x.addr != address
    modifies m
    ensures Stands(m, s') && Step(s, Add(address, start, ms), s') && s'.pending == s.pending + if tickle then 1 else 0
  {
    t, tickle := m.AddTimer(address, ms, Some(cb), recurring, start);
    assert View(m) == s.timers[address := Entry(t.next, t.ms)];
    FirstIsFront(m, t, s.timers);
    s' := Inserted(s, address, Entry(Later(start, ms), ms));
  }

  method DoCancel(m: TimerManager, t: Timer, ghost s: State) returns (done: bool, ghost s': State)
    requires Stands(m, s) && t in m.known
    modifies m`timers, t`cb
    ensures Stands(m, s') && Step(s, Cancel(t.addr), s')
  {
    done := m.Cancel(t);
    s' := s.(timers := s.timers - {t.addr});
  }

  method DoRefresh(m: TimerManager, t: Timer, now: Stamp, ghost s: State) returns (done: bool, ghost s': State)
    requires Stands(m, s) && t in m.known && now == s.clock
    modifies m`timers, t`next
    ensures Stands(m, s') && if done then Step(s, Refresh(t.addr), s') else s' == s
  {
    done := m.Refresh(t, now);
    s' := if done then s.(timers := s.timers[t.addr := Refreshed(s.timers[t.addr], now)]) else s;
  }

  method ResetView(m: TimerManager, t: Timer, ms: Stamp, fromNow: bool, now: Stamp, ghost v: map<nat, Entry>)
    returns (done: bool, tickle: bool)
    requires m.Valid() && t in m.known && t.cb.Some? && (ms != t.ms || fromNow) && v == View(m)
    modifies m`timers, m`tickled, t`next, t`ms
    ensures m.Valid() && t.ms == ms && t.next == Later(if fromNow then now else old(Start(Entry(t.next, t.ms))), ms)
    ensures View(m) == v[t.addr := Entry(t.next, t.ms)]
    ensures tickle <==> Front(v, t.addr, Entry(t.next, t.ms)) && !old(m.tickled)
    ensures m.tickled == (old(m.tickled) || tickle)
  {
    done, tickle := m.Reset(t, ms, fromNow, now);
    FirstIsFront(m, t, v);
  }

  method DoReset(m: TimerManager, t: Timer, ms: Stamp, fromNow: bool, now: Stamp, ghost s: State)
    returns (done: bool, tickle: bool, ghost s': State)
    requires Stands(m, s) && t in m.known && now == s.clock
    modifies m`timers, m`tickled, t`next, t`ms
    ensures Stands(m, s') && s'.pending == s.pending + if tickle then 1 else 0
    ensures if t.cb.Some? then Step(s, Reset(t.addr, ms, fromNow), s') else s' == s
  {
    s' := s;
    if t.cb.Some? && (ms != t.ms || fromNow) {
      done, tickle := ResetView(m, t, ms, fromNow, now, s.timers);
      s' := Inserted(s, t.addr, Entry(t.next, t.ms));
    } else {
      done, tickle := m.Reset(t, ms, fromNow, now);
      assert View(m) == s.timers;
    }
  }

  method LookView(m: TimerManager, now: Stamp) returns (wait: Stamp, ghost first: Option<nat>)
    requires m.Valid()
    modifies m`tickled
    ensures m.Valid() && View(m) == old(View(m)) && !m.tickled
    ensures first == None ==> View(m) == map[] && wait == WRAP - 1
    ensures first.Some? ==> Minimal(View(m), first.value)
                            && var next := View(m)[first.value].next; wait == if now >= next then 0 else next - now
  {
    wait := m.GetNextTimer(now);
    first := None;
    if m.timers != [] {
      ghost var t :| t in m.timers && (wait == if now >= t.next then 0 else t.next - now)
                     && forall x | x in m.timers :: t.next <= x.next;
      assert t.addr in View(m);
      first := Some(t.addr);
    }
  }

  method DoLook(m: TimerManager, now: Stamp, ghost s: State) returns (wait: Stamp, ghost a: Action, ghost s': State)
    requires Stands(m, s) && s.pc == Idle && now == s.clock
    modifies m`tickled
    ensures Stands(m, s') && s'.pc == Asleep(SleepFor(now, wait)) && (a.Look? || a.LookEmpty?) && Step(s, a, s')
  {
    ghost var first;
    wait, first := LookView(m, now);
    a := if first == None then LookEmpty else Look(first.value);
    s' := s.(tickled := false, pc := Asleep(SleepFor(now, wait)));
  }

  method DoExpire(m: TimerManager, now: Stamp, probe: nat, ghost s: State)
    returns (cbs: seq<Option<Callback>>, ghost s': State, ghost recurring: set<nat>)
    requires Stands(m, s) && s.pc.Awake? && m.previousTime <= now <= s.clock
    modifies m`timers, m`previousTime, m.known`next, m.known`cb
    ensures Stands(m, s') && Step(s, Expire(now, recurring), s')
  {
    cbs, recurring := ExpireView(m, now, probe);
    s' := s.(timers := Expired(s.timers, now, recurring));
  }

  /** Expiry, timer by timer. */
  method ExpireEach(m: TimerManager, now: Stamp, probe: nat) returns (cbs: seq<Option<Callback>>)
    requires m.Valid() && m.previousTime <= now
    modifies m`timers, m`previousTime, m.known`next, m.known`cb
    ensures m.Valid()
    ensures forall t :: t in m.timers <==> t in old(m.timers) && (old(t.next) > now || t.recurring)
    ensures forall t | t in m.timers :: t.next == if old(t.next) > now then old(t.next) else Later(now, t.ms)
  {
    ghost var (ts, k: nat) := (m.timers, 0);
    cbs, k := m.ListExpired(now, probe);
    forall t | t in ts ensures t in ts[..k] <==> old(t.next) <= now {
      var i :| 0 <= i < |ts| && ts[i] == t;
    }
  }

  method ExpireView(m: TimerManager, now: Stamp, probe: nat)
    returns (cbs: seq<Option<Callback>>, ghost recurring: set<nat>)
    requires m.Valid() && m.previousTime <= now
    modifies m`timers, m`previousTime, m.known`next, m.known`cb
    ensures m.Valid() && View(m) == Expired(old(View(m)), now, recurring)
  {
    recurring := set t | t in m.timers && t.recurring :: t.addr;
    cbs := ExpireEach(m, now, probe);
    ghost var v' := Expired(old(View(m)), now, recurring);
    forall t | t in m.timers ensures t.addr in v' && v'[t.addr] == Entry(t.next, t.ms) {
      assert t in old(m.timers) && t.addr in old(View(m));
    }
    forall a | a in v' ensures a in View(m) {
      var t :| t in old(m.timers) && t.addr == a;
    }
  }
}
