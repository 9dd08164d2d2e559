/** The timer set: an ordered set of timer objects, keyed by expiry time and address,
    with cancel, refresh, reset, insertion and exact expiry. */
module Timers {
  import opened Options

  const WRAP: nat := 0x1_0000_0000_0000_0000
  const HOUR: nat := 60 * 60 * 1000

  /** Callbacks are told apart by a number. */
  type Callback = nat

  /** A 64-bit millisecond count. */
  type Stamp = n: nat | n < WRAP

  /** `now + ms` in 64 bits. */
  function Later(now: Stamp, ms: Stamp): (next: Stamp)
    ensures now + ms < 0x1_0000_0000_0000_0000 ==> next == now + ms
    ensures now + ms >= 0x1_0000_0000_0000_0000 ==> next == now + ms - 0x1_0000_0000_0000_0000
  {
    (now + ms) % WRAP
  }

  class Timer {
    const addr: nat       // where the object lives; breaks ties in the set's order
    const recurring: bool
    var ms: Stamp
    var next: Stamp
    var cb: Option<Callback>

    constructor (address: nat, period: Stamp, callback: Option<Callback>, again: bool, at: Stamp)
      ensures addr == address && ms == period && cb == callback && recurring == again && next == at
    {
      addr, ms, cb, recurring, next := address, period, callback, again, at;
    }
  }

  /** The order of the set. */
  predicate Less(l: Timer?, r: Timer?)
    reads l, r
  {
    if l == null || r == null then l == null && r != null
    else l.next < r.next || (l.next == r.next && l.addr < r.addr)
  }

  /** It is strict and total on timers of different addresses, and puts null first. */
  lemma LessOrders(l: Timer?, m: Timer?, r: Timer?)
    requires l != null && m != null && l != m ==> l.addr != m.addr
    ensures !Less(l, l) && (Less(l, m) && Less(m, r) ==> Less(l, r))
    ensures l == m || Less(l, m) || Less(m, l)
    ensures m != null ==> Less(null, m)
  {
  }

  ghost predicate Ascending(ts: seq<Timer>)
    reads ts
  {
    forall i, j | 0 <= i < j < |ts| :: Less(ts[i], ts[j])
  }

  /** The clock went back by more than an hour; a previous reading within an hour of zero
      makes the 64-bit difference wrap, and then going back at all counts. */
  predicate WentBack(now: Stamp, previous: Stamp) {
    now < previous && (previous < HOUR || previous - now > HOUR)
  }

  /** Putting a timer in its place keeps the order and adds that one member. */
  lemma Placed(ts: seq<Timer>, k: nat, t: Timer)
    requires Ascending(ts) && k <= |ts|
    requires (forall i | 0 <= i < k :: Less(ts[i], t)) && forall i | k <= i < |ts| :: Less(t, ts[i])
    ensures var us := ts[..k] + [t] + ts[k..]; Ascending(us) && forall x :: x in us <==> x in ts || x == t
  {
    var us := ts[..k] + [t] + ts[k..];
    assert forall i | 0 <= i < |ts| :: ts[i] == if i < k then us[i] else us[i + 1];
    assert us[k] == t;
    assert forall i, j | 0 <= i < j < |us| :: Less(us[i], us[j]) by {
      assert forall i | 0 <= i < |us| && i != k :: us[i] == if i < k then ts[i] else ts[i - 1];
    }
  }

  ghost function Nexts(ts: seq<Timer>): (ns: seq<Stamp>)
    reads ts
    ensures |ns| == |ts| && forall i | 0 <= i < |ns| :: ns[i] == ts[i].next
  {
    seq(|ts|, i requires 0 <= i < |ts| reads ts => ts[i].next)
  }

  /** Of timers with these expiry times the first `k` are due at `now`, or all are after the
      clock went back, and they are in order. */
  ghost predicate Due(ns: seq<Stamp>, k: nat, now: Stamp, rollover: bool) {
    && (forall i | 0 <= i < |ns| :: i < k <==> ns[i] <= now || rollover)
    && (forall i, j | 0 <= i < j < |ns| && j < k :: ns[i] <= ns[j])
  }

  class TimerManager {
    var timers: seq<Timer>
    var tickled: bool
    var previousTime: Stamp
    ghost var known: set<Timer>  // the timers made for this manager that still exist

    /** The set is strictly ordered, and addresses tell timers apart. */
    ghost predicate Ordered()
      reads this, known
    {
      && (forall t | t in timers :: t in known)
      && (forall s, t | s in known && t in known && s.addr == t.addr :: s == t)
      && Ascending(timers)
    }

    /** A timer has a callback exactly when it is in the set. */
    ghost predicate Matched()
      reads this, known
    {
      forall t | t in known :: t.cb.Some? <==> t in timers
    }

    ghost predicate Valid()
      reads this, known
    {
      Ordered() && Matched()
    }

    constructor (now: Stamp)
      ensures Valid() && timers == [] && known == {} && !tickled && previousTime == now
    {
      timers, tickled, previousTime, known := [], false, now, {};
    }

    /** The first place whose timer is not before `key`. */
    method LowerBound(key: Timer) returns (k: nat)
      requires Ascending(timers)
      ensures k <= |timers|
      ensures forall i | 0 <= i < k :: Less(timers[i], key)
      ensures forall i | k <= i < |timers| :: !Less(timers[i], key)
    {
      var lo, hi := 0, |timers|;
      while lo < hi
        invariant 0 <= lo <= hi <= |timers|
        invariant forall i | 0 <= i < lo :: Less(timers[i], key)
        invariant forall i | hi <= i < |timers| :: !Less(timers[i], key)
      {
        var mid := (lo + hi) / 2;
        if Less(timers[mid], key) {
          lo := mid + 1;
        } else {
          hi := mid;
        }
      }
      k := lo;
    }

    /** Finds a timer by its key. */
    method Find(t: Timer) returns (k: nat)
      requires Ordered() && t in known
      ensures k <= |timers|
      ensures k < |timers| ==> timers[k] == t
      ensures k == |timers| ==> t !in timers
    {
      k := LowerBound(t);
      if k < |timers| && !Less(t, timers[k]) {
        assert timers[k].addr == t.addr;
        return;
      }
      k := |timers|;
    }

    method Erase(k: nat)
      requires Ordered() && k < |timers|
      modifies this`timers
      ensures Ordered() && timers == old(timers[..k] + timers[k + 1..])
      ensures old(timers[k]) !in timers
      ensures forall x | x != old(timers[k]) :: x in timers <==> x in old(timers)
    {
      ghost var t := timers[k];
      timers := timers[..k] + timers[k + 1..];
      forall x | x != t && x in old(timers) ensures x in timers {
        var i :| 0 <= i < |old(timers)| && old(timers)[i] == x;
        assert x == if i < k then timers[i] else timers[i - 1];
      }
    }

    method Insert(t: Timer) returns (k: nat)
      requires Ordered() && t in known && t !in timers
      modifies this`timers
      ensures Ordered() && k <= |old(timers)| && timers == old(timers)[..k] + [t] + old(timers)[k..]
      ensures forall x :: x in timers <==> x in old(timers) || x == t
      ensures k == 0 <==> forall x | x in old(timers) :: Less(t, x)
    {
      k := LowerBound(t);
      forall i | k <= i < |timers| ensures Less(t, timers[i]) {
        assert timers[i] != t && timers[i].addr != t.addr;
      }
      assert k > 0 ==> timers[0] in timers && !Less(t, timers[0]);
      Placed(timers, k, t);
      timers := timers[..k] + [t] + timers[k..];
    }

    /** Insertion by `addTimer`: a timer that becomes the first one asks for a tickle,
        unless one has been asked for since the last look at the set. */
    method InsertAndTickle(t: Timer) returns (tickle: bool)
      requires Ordered() && t in known && t !in timers
      modifies this`timers, this`tickled
      ensures Ordered() && forall x :: x in timers <==> x in old(timers) || x == t
      ensures tickle <==> !old(tickled) && forall x | x in old(timers) :: Less(t, x)
      ensures tickled == (old(tickled) || tickle)
    {
      var k := Insert(t);
      tickle := k == 0 && !tickled;
      if tickle {
        tickled := true;
      }
    }

    /** Makes a timer and inserts it. The membership invariant survives exactly when
        there is a callback. */
    method AddTimer(address: nat, ms: Stamp, cb: Option<Callback>, recurring: bool, now: Stamp)
      returns (t: Timer, tickle: bool)
      requires Valid() && forall x | x in known :: x.addr != address
      modifies this
      ensures fresh(t) && known == old(known) + {t} && previousTime == old(previousTime)
      ensures t.addr == address && t.ms == ms && t.cb == cb && t.recurring == recurring && t.next == Later(now, ms)
      ensures Ordered() && forall x :: x in timers <==> x in old(timers) || x == t
      ensures Matched() <==> cb.Some?
      ensures tickle <==> !old(tickled) && forall x | x in old(timers) :: Less(t, x)
      ensures tickled == (old(tickled) || tickle)
    {
      t := new Timer(address, ms, cb, recurring, Later(now, ms));
      known := known + {t};
      tickle := InsertAndTickle(t);
    }

    /** The last reference to a timer outside the set goes, and its address is free again. */
    ghost method Release(t: Timer)
      requires Valid() && t in known && t !in timers
      modifies this`known
      ensures Valid() && known == old(known) - {t}
    {
      known := known - {t};
    }

    /** Cancelling works exactly once: the timer is always found while it has a callback. */
    method Cancel(t: Timer) returns (done: bool)
      requires Valid() && t in known
      modifies this`timers, t`cb
      ensures Valid() && done == old(t.cb.Some?) && t.cb == None
      ensures forall x :: x in timers <==> x in old(timers) && x != t
    {
      done := t.cb.Some?;
      if done {
        var k := Find(t);
        assert k < |timers|;
        t.cb := None;
        Erase(k);
      }
    }

    /** Starts the period anew. The key changes only while the timer is out of the set. */
    method Refresh(t: Timer, now: Stamp) returns (done: bool)
      requires Valid() && t in known
      modifies this`timers, t`next
      ensures Valid() && done == t.cb.Some?
      ensures forall x :: x in timers <==> x in old(timers)
      ensures t.next == if done then Later(now, t.ms) else old(t.next)
    {
      if t.cb == None {
        return false;
      }
      var k := Find(t);
      if k == |timers| {
        return false;
      }
      Erase(k);
      t.next := Later(now, t.ms);
      var _ := Insert(t);
      return true;
    }

    /** A new period, counted from now or from the start of the current one. Asking for
        the period it has, without restarting, succeeds even for a cancelled timer. */
    method Reset(t: Timer, ms: Stamp, fromNow: bool, now: Stamp) returns (done: bool, tickle: bool)
      requires Valid() && t in known
      modifies this`timers, this`tickled, t`next, t`ms
      ensures Valid() && forall x :: x in timers <==> x in old(timers)
      ensures done <==> (ms == old(t.ms) && !fromNow) || t.cb.Some?
      ensures if t.cb.Some? && (ms != old(t.ms) || fromNow)
              then t.ms == ms && t.next == Later(if fromNow then now else (old(t.next) + WRAP - old(t.ms)) % WRAP, ms)
                   && (tickle <==> !old(tickled) && forall x | x in timers && x != t :: Less(t, x))
              else unchanged(t) && !tickle
      ensures tickled == (old(tickled) || tickle)
    {
      if ms == t.ms && !fromNow {
        return true, false;
      }
      if t.cb == None {
        return false, false;
      }
      var k := Find(t);
      if k == |timers| {
        return false, false;
      }
      Erase(k);
      var start := if fromNow then now else (t.next + WRAP - t.ms) % WRAP;
      t.ms := ms;
      t.next := Later(start, ms);
      tickle := InsertAndTickle(t);
      return true, tickle;
    }

    /** How long until the first timer; `WRAP - 1` when there is none. */
    method GetNextTimer(now: Stamp) returns (wait: Stamp)
      requires Ordered()
      modifies this`tickled
      ensures !tickled
      ensures timers == [] ==> wait == WRAP - 1
      ensures timers != [] ==> exists t | t in timers :: (wait == if now >= t.next then 0 else t.next - now)
                                                         && forall x | x in timers :: t.next <= x.next
    {
      tickled := false;
      if timers == [] {
        return WRAP - 1;
      }
      var first := timers[0];
      assert first in timers && forall x | x in timers :: first.next <= x.next;
      return if now >= first.next then 0 else first.next - now;
    }

    method DetectClockRollover(now: Stamp) returns (rollover: bool)
      modifies this`previousTime
      ensures previousTime == now && (rollover <==> WentBack(now, old(previousTime)))
      ensures old(previousTime) >= 3_600_000 ==> (rollover <==> now < old(previousTime) - 3_600_000)
    {
      rollover := now < previousTime && now < (previousTime + WRAP - HOUR) % WRAP;
      previousTime := now;
    }

    /** The end of the expired stretch: a probe with the given address is looked up, then
        the timers due just now are stepped over. The address does not matter. */
    method ExpiredEnd(now: Stamp, probe: nat) returns (k: nat)
      requires Ascending(timers)
      ensures k <= |timers| && forall i | 0 <= i < |timers| :: i < k <==> timers[i].next <= now
    {
      var key := new Timer(probe, 0, None, false, now);
      k := LowerBound(key);
      while k < |timers| && timers[k].next == now
        invariant k <= |timers| && forall i | 0 <= i < k :: timers[i].next <= now
        invariant forall i | k <= i < |timers| :: timers[i].next >= now
      {
        k := k + 1;
      }
      assert forall i | k <= i < |timers| :: timers[k].next <= timers[i].next;
    }

    /** What expiry at `now` leaves of a timer: a recurring one is back in the set with a
        new period, any other is out and has no callback. */
    twostate predicate Settled(t: Timer, now: Stamp)
      reads this, t
    {
      if t.recurring then t.cb == old(t.cb) && t.next == Later(now, t.ms) && t in timers
      else t.cb == None && t !in timers
    }

    /** Takes the first `k` timers out. */
    method TakeFirst(k: nat) returns (expired: seq<Timer>)
      requires Ordered() && k <= |timers|
      modifies this`timers
      ensures expired == old(timers)[..k] && Ordered()
      ensures forall x :: x in timers <==> x in old(timers) && x !in expired
      ensures forall i, j | 0 <= i < j < k :: expired[i] != expired[j]
    {
      expired, timers := timers[..k], timers[k..];
      assert forall i | 0 <= i < |old(timers)| :: old(timers)[i] == if i < k then expired[i] else timers[i - k];
    }

    /** One expired timer: its callback is due, and it goes back in or loses it. */
    method Settle(t: Timer, now: Stamp) returns (cb: Option<Callback>)
      requires Ordered() && t in known && t !in timers
      modifies this`timers, t`next, t`cb
      ensures Ordered() && cb == old(t.cb) && Settled(t, now)
      ensures forall x | x != t :: x in timers <==> x in old(timers)
    {
      cb := t.cb;
      if t.recurring {
        t.next := Later(now, t.ms);
        var _ := Insert(t);
      } else {
        t.cb := None;
      }
    }

    /** Settles the timers taken out, in order. */
    method SettleAll(expired: seq<Timer>, now: Stamp) returns (cbs: seq<Option<Callback>>)
      requires Ordered() && forall t | t in expired :: t in known && t !in timers
      requires forall i, j | 0 <= i < j < |expired| :: expired[i] != expired[j]
      modifies this`timers, expired`next, expired`cb
      ensures Ordered() && |cbs| == |expired|
      ensures forall i | 0 <= i < |expired| :: cbs[i] == old(expired[i].cb) && Settled(expired[i], now)
      ensures forall t | t !in expired :: t in timers <==> t in old(timers)
    {
      cbs := [];
      for n := 0 to |expired|
        invariant Ordered() && |cbs| == n
        invariant forall i | 0 <= i < n :: cbs[i] == old(expired[i].cb) && Settled(expired[i], now)
        invariant forall i | n <= i < |expired| :: unchanged(expired[i]) && expired[i] !in timers
        invariant forall t | t !in expired :: t in timers <==> t in old(timers)
      {
        var cb := Settle(expired[n], now);
        cbs := cbs + [cb];
      }
    }

    /** The first `k` timers expire at `now`: their callbacks are handed out and they are
        settled; every other timer is left alone. */
    twostate predicate Expired(k: nat, new cbs: seq<Option<Callback>>, now: Stamp)
      requires k <= |old(timers)| && known == old(known)
      reads this, known
    {
      && |cbs| == k && (forall i | 0 <= i < k :: cbs[i].Some? && cbs[i] == old(timers[i].cb))
      && (forall t | t in old(timers)[..k] :: t in known && Settled(t, now))
      && (forall t | t in known && t !in old(timers)[..k] :: unchanged(t) && (t in timers <==> t in old(timers)))
    }

    method ExpireFirst(k: nat, now: Stamp) returns (cbs: seq<Option<Callback>>)
      requires Valid() && k <= |timers|
      modifies this`timers, known`next, known`cb
      ensures Valid() && Expired(k, cbs, now)
    {
      var expired := TakeFirst(k);
      cbs := SettleAll(expired, now);
      forall t | t in known && t in expired ensures Settled(t, now) && (t.cb.Some? <==> t in timers) {
        var i :| 0 <= i < |expired| && expired[i] == t;
      }
    }

    /** How many of the first timers are due. */
    method DueCount(now: Stamp, probe: nat, rollover: bool) returns (k: nat)
      requires Ascending(timers)
      ensures k <= |timers| && Due(Nexts(timers), k, now, rollover)
    {
      if rollover {
        k := |timers|;
      } else {
        k := ExpiredEnd(now, probe);
      }
      assert forall i, j | 0 <= i < j < |timers| :: timers[i].next <= timers[j].next;
    }

    /** Expires what is due. */
    method ExpireDue(now: Stamp, probe: nat, rollover: bool) returns (cbs: seq<Option<Callback>>, ghost k: nat)
      requires Valid()
      modifies this`timers, known`next, known`cb
      ensures Valid() && k <= |old(timers)| && Expired(k, cbs, now) && Due(old(Nexts(timers)), k, now, rollover)
    {
      var end := DueCount(now, probe, rollover);
      k := end;
      cbs := ExpireFirst(end, now);
    }

    lemma NothingDue(now: Stamp)
      requires Ascending(timers) && (timers == [] || timers[0].next > now)
      ensures Due(Nexts(timers), 0, now, false)
      ensures timers == [] ==> forall rollover :: Due(Nexts(timers), 0, now, rollover)
    {
      assert forall i | 0 < i < |timers| :: Less(timers[0], timers[i]);
    }

    /** Exact expiry. Unless the clock went back, the callbacks handed out are those of
        exactly the timers due by now, earliest first; after going back, those of all.
        Each such timer is settled, and every other one is left alone. */
    method ListExpired(now: Stamp, probe: nat) returns (cbs: seq<Option<Callback>>, ghost k: nat)
      requires Valid()
      modifies this`timers, this`previousTime, known`next, known`cb
      ensures Valid() && k <= |old(timers)| && Expired(k, cbs, now)
      ensures Due(old(Nexts(timers)), k, now, WentBack(now, old(previousTime)))
      ensures previousTime == if old(timers) == [] then old(previousTime) else now
    {
      k, cbs := 0, [];
      if timers == [] {
        NothingDue(now);
        return;
      }
      var rollover := DetectClockRollover(now);
      if !rollover && timers[0].next > now {
        NothingDue(now);
        return;
      }
      cbs, k := ExpireDue(now, probe, rollover);
    }
  }

  /** What a program can do with a manager; timers are named by their place among those it
      still holds. */
  datatype Op =
    | AddOp(addr: nat, ms: Stamp, cb: Callback, recurring: bool)
    | CancelOp(i: nat)
    | RefreshOp(i: nat)
    | ResetOp(i: nat, ms: Stamp, fromNow: bool)
    | FreeOp(i: nat)
    | LookOp
    | ExpireOp(probe: nat)

  /** The timers handed out and not freed are the ones the manager knows. */
  ghost predicate HandedOut(m: TimerManager, ts: seq<Timer>)
    reads m, m.known
  {
    && m.Valid() && (forall t | t in ts :: t in m.known) && (forall t | t in m.known :: t in ts)
    && forall i, j | 0 <= i < j < |ts| :: ts[i] != ts[j]
  }

  /** The program lets go of a timer; one still in the set stays alive there. */
  method Free(m: TimerManager, ts: seq<Timer>, i: nat) returns (ts': seq<Timer>)
    requires HandedOut(m, ts) && i < |ts|
    modifies m`known
    ensures HandedOut(m, ts') && (forall t :: t in ts' <==> t in ts && (t != ts[i] || t.cb.Some?))
    ensures m.known <= old(m.known)
  {
    ts' := ts;
    if ts[i].cb == None {
      ts' := ts[..i] + ts[i + 1..];
      assert forall j | 0 <= j < |ts| && j != i :: ts[j] == if j < i then ts'[j] else ts'[j - 1];
      m.Release(ts[i]);
    }
  }

  /** What the operation is there for has happened. */
  twostate predicate Did(m: TimerManager, ts: seq<Timer>, new ts': seq<Timer>, op: Op, now: Stamp)
    reads m, ts, ts'
  {
    match op
    case AddOp(addr, ms, cb, recurring) =>
      if exists t | t in ts :: t.addr == addr then ts' == ts
      else && |ts'| == |ts| + 1 && ts <= ts'
           && var t := ts'[|ts|];
           t.addr == addr && t.ms == ms && t.cb == Some(cb) && t.next == Later(now, ms) && t in m.timers
    case CancelOp(i) => i < |ts| ==> ts[i].cb == None && ts[i] !in m.timers
    case RefreshOp(i) => i < |ts| && old(ts[i].cb.Some?) ==> ts[i].next == Later(now, ts[i].ms) && ts[i] in m.timers
    case ResetOp(i, ms, fromNow) =>
      i < |ts| && old(ts[i].cb.Some?) ==>
        ts[i].ms == ms && ts[i] in m.timers && (fromNow ==> ts[i].next == Later(now, ms))
    case FreeOp(i) => i < |ts| && old(ts[i].cb == None) ==> ts[i] !in ts'
    case LookOp => !m.tickled
    case ExpireOp(_) => forall t | t in ts && t in m.timers && !t.recurring :: t.next > now
  }

  /** One operation at time `now`; an address in use cannot be handed out again, one that was
      freed can. */
  method Apply(m: TimerManager, ts: seq<Timer>, op: Op, now: Stamp) returns (ts': seq<Timer>)
    requires HandedOut(m, ts)
    modifies m, m.known
    ensures HandedOut(m, ts') && fresh(m.known - old(m.known)) && Did(m, ts, ts', op, now)
  {
    ts' := ts;
    match op {
      case AddOp(addr, ms, cb, recurring) =>
        if forall t | t in ts :: t.addr != addr {
          var t, _ := m.AddTimer(addr, ms, Some(cb), recurring, now);
          ts' := ts + [t];
        }
      case CancelOp(i) =>
        if i < |ts| {
          var _ := m.Cancel(ts[i]);
        }
      case RefreshOp(i) =>
        if i < |ts| {
          var _ := m.Refresh(ts[i], now);
        }
      case ResetOp(i, ms, fromNow) =>
        if i < |ts| {
          var _, _ := m.Reset(ts[i], ms, fromNow, now);
        }
      case FreeOp(i) =>
        if i < |ts| {
          ts' := Free(m, ts, i);
        }
      case LookOp => var _ := m.GetNextTimer(now);
      case ExpireOp(probe) => var _, _ := m.ListExpired(now, probe);
    }
  }

  /** Every run of operations at any times, on timers with callbacks, keeps the set strictly
      ordered and a timer in it exactly while it has its callback. */
  method Run(now: Stamp, ops: seq<(Op, Stamp)>) returns (m: TimerManager, ts: seq<Timer>)
    ensures HandedOut(m, ts) && forall t | t in ts :: t.cb.Some? <==> t in m.timers
  {
    m := new TimerManager(now);
    ts := [];
    for i := 0 to |ops|
      invariant HandedOut(m, ts) && fresh(m) && fresh(m.known)
    {
      ts := Apply(m, ts, ops[i].0, ops[i].1);
    }
  }
}
