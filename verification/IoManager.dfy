/** Event registration per file descriptor: bits, waiting slots, the epoll interest list and
    the count of pending events, kept in step by every operation. Each method is one
    section under the context's lock; whether `epoll_ctl` succeeds is an input. */
module IoManagers {
  import opened Options

  datatype Event = Read | Write

  /** A set of events, one flag for each of the two bits. */
  datatype Events = Events(read: bool, write: bool)

  const NONE: Events := Events(false, false)

  predicate Has(e: Events, ev: Event) { if ev == Read then e.read else e.write }

  function With(e: Events, ev: Event): Events { if ev == Read then e.(read := true) else e.(write := true) }

  function Without(e: Events, ev: Event): Events { if ev == Read then e.(read := false) else e.(write := false) }

  function Both(e: Events, f: Events): Events { Events(e.read && f.read, e.write && f.write) }

  function Minus(e: Events, f: Events): Events { Events(e.read && !f.read, e.write && !f.write) }

  /** What `epoll_wait` reports. */
  datatype Report = Reporting(readable: bool, writable: bool, error: bool, hangUp: bool)

  function Reported(p: Report, e: Events): Events {
    Events(p.readable || ((p.error || p.hangUp) && e.read), p.writable || ((p.error || p.hangUp) && e.write))
  }

  /** Who waits for an event: a scheduler, and a fiber or a callback for it to run. */
  datatype Slot = Slot(scheduler: Option<nat>, fiber: Option<nat>, cb: Option<nat>)

  const EMPTY: Slot := Slot(None, None, None)

  predicate Waiting(s: Slot) { s.scheduler.Some? && (s.fiber.Some? <==> s.cb == None) }

  /** How an operation ends; a failed assertion ends the process. */
  datatype Result = Done | Refused | Aborted

  /** How many of the two events are in the set. */
  function Count(e: Events): nat {
    (if e.read then 1 else 0) + (if e.write then 1 else 0)
  }

  class FdContext {
    const fd: nat
    var read: Slot
    var write: Slot
    var events: Events

    constructor (n: nat)
      ensures fd == n && events == NONE && read == EMPTY && write == EMPTY
    {
      fd, events, read, write := n, NONE, EMPTY, EMPTY;
    }

    function SlotOf(ev: Event): Slot
      reads this
    {
      if ev == Read then read else write
    }

    /** A bit is set exactly when its slot has a waiter; otherwise the slot is empty. */
    ghost predicate Matched()
      reads this
    {
      && (if events.read then Waiting(read) else read == EMPTY)
      && (if events.write then Waiting(write) else write == EMPTY)
    }

    /** Sets the bit and fills the slot. */
    method Register(ev: Event, waiter: Slot)
      requires Matched() && !Has(events, ev) && Waiting(waiter)
      modifies this
      ensures Matched() && events == With(old(events), ev) && SlotOf(ev) == waiter
      ensures forall o: Event | o != ev :: SlotOf(o) == old(SlotOf(o))
    {
      events := With(events, ev);
      if ev == Read {
        read := waiter;
      } else {
        write := waiter;
      }
    }

    /** Clears the bit and drops the waiter. */
    method Forget(ev: Event)
      requires Matched()
      modifies this
      ensures Matched() && events == Without(old(events), ev) && SlotOf(ev) == EMPTY
      ensures forall o: Event | o != ev :: SlotOf(o) == old(SlotOf(o))
    {
      events := Without(events, ev);
      if ev == Read {
        read := EMPTY;
      } else {
        write := EMPTY;
      }
    }

    /** Clears the bit and hands out the waiter. */
    method TriggerEvent(ev: Event) returns (woken: Option<Slot>)
      requires Matched()
      modifies this
      ensures woken == None <==> !Has(old(events), ev)
      ensures woken == None ==> unchanged(this)
      ensures woken.Some? ==> Matched() && woken.value == old(SlotOf(ev)) && Waiting(woken.value)
                              && events == Without(old(events), ev)
                              && forall o: Event | o != ev :: SlotOf(o) == old(SlotOf(o))
    {
      if !Has(events, ev) {
        return None;
      }
      events := Without(events, ev);
      woken := Some(SlotOf(ev));
      if ev == Read {
        read := EMPTY;
      } else {
        write := EMPTY;
      }
    }
  }

  /** The number of events in a list of sets. */
  function Total(es: seq<Events>): nat {
    if es == [] then 0 else Total(es[..|es| - 1]) + Count(es[|es| - 1])
  }

  /** Changing one set changes the total by as much. */
  lemma {:induction false} TotalChange(es: seq<Events>, k: nat, e: Events)
    requires k < |es|
    ensures Total(es[k := e]) + Count(es[k]) == Total(es) + Count(e)
    decreases |es|
  {
    var front := es[..|es| - 1];
    if k < |front| {
      TotalChange(front, k, e);
      assert es[k := e][..|es| - 1] == front[k := e];
    } else {
      assert es[k := e][..|es| - 1] == front;
    }
  }

  /** A prefix has no more events, and as many exactly when the rest has none. */
  lemma {:induction false} TotalPrefix(es: seq<Events>, n: nat)
    requires n <= |es|
    ensures Total(es[..n]) <= Total(es)
    ensures Total(es[..n]) == Total(es) <==> forall i | n <= i < |es| :: es[i] == NONE
    decreases |es|
  {
    if n == |es| {
      assert es[..n] == es;
    } else {
      var front := es[..|es| - 1];
      TotalPrefix(front, n);
      assert front[..n] == es[..n];
    }
  }

  /** The sets registered in the contexts. */
  ghost function EventsOf(cs: seq<FdContext>): (es: seq<Events>)
    reads cs
    ensures |es| == |cs| && forall i | 0 <= i < |cs| :: es[i] == cs[i].events
  {
    seq(|cs|, i requires 0 <= i < |cs| reads cs => cs[i].events)
  }

  class IOManager {
    var contexts: seq<FdContext>
    var pendingEventCount: int
    var interest: map<nat, Events>  // what epoll watches
    var woken: seq<Slot>          // what was handed to schedulers, in order

    /** What epoll watches on a descriptor. */
    function Interest(fd: nat): Events
      reads this`interest
    {
      if fd in interest then interest[fd] else NONE
    }

    function Registered(fd: nat): Events
      reads this`contexts, contexts
    {
      if fd < |contexts| then contexts[fd].events else NONE
    }

    /** Who waits for an event on a descriptor; the empty slot if nobody does. */
    ghost function WaiterAt(fd: nat, ev: Event): Slot
      reads this`contexts, contexts
    {
      if fd < |contexts| then contexts[fd].SlotOf(ev) else EMPTY
    }

    /** Bits, slots and the count agree. */
    ghost predicate Counted()
      reads this`contexts, this`pendingEventCount, contexts
    {
      && |contexts| >= 64
      && Numbered()
      && pendingEventCount == Total(EventsOf(contexts))
    }

    /** So does what epoll watches. */
    ghost predicate Watched()
      reads this`contexts, this`interest, contexts
    {
      forall fd: nat :: Interest(fd) == Registered(fd)
    }

    ghost predicate Valid()
      reads this, contexts
    {
      Counted() && Watched()
    }

    /** Nothing changed but who waits for this one event. */
    twostate predicate OnlyAt(fd: nat, ev: Event)
      reads this`contexts, contexts
    {
      forall g: nat, o: Event | g != fd || o != ev :: WaiterAt(g, o) == old(WaiterAt(g, o))
    }

    constructor ()
      ensures Valid() && pendingEventCount == 0 && woken == [] && fresh(contexts) && |contexts| == 64
      ensures forall fd: nat, ev: Event :: WaiterAt(fd, ev) == EMPTY
    {
      contexts, pendingEventCount, interest, woken := [], 0, map[], [];
      new;
      Append(64);
    }

    ghost predicate Numbered()
      reads this`contexts, contexts
    {
      forall i | 0 <= i < |contexts| :: contexts[i].fd == i && contexts[i].Matched()
    }

    method AppendOne()
      requires Numbered()
      modifies this`contexts
      ensures Numbered() && |contexts| == |old(contexts)| + 1 && contexts[..|old(contexts)|] == old(contexts)
      ensures fresh(contexts[|old(contexts)|]) && contexts[|old(contexts)|].events == NONE
      ensures Total(EventsOf(contexts)) == old(Total(EventsOf(contexts)))
    {
      var c := new FdContext(|contexts|);
      ghost var before := contexts;
      contexts := contexts + [c];
      assert EventsOf(contexts)[..|contexts| - 1] == EventsOf(before);
    }

    /** New contexts up to the given number. */
    method Append(size: nat)
      requires Numbered() && |contexts| <= size
      modifies this`contexts
      ensures Numbered() && |contexts| == size && contexts[..|old(contexts)|] == old(contexts)
      ensures forall i | |old(contexts)| <= i < size :: fresh(contexts[i]) && contexts[i].events == NONE
      ensures Total(EventsOf(contexts)) == old(Total(EventsOf(contexts)))
    {
      while |contexts| < size
        invariant Numbered() && |old(contexts)| <= |contexts| <= size && contexts[..|old(contexts)|] == old(contexts)
        invariant forall i | |old(contexts)| <= i < |contexts| :: fresh(contexts[i]) && contexts[i].events == NONE
        invariant Total(EventsOf(contexts)) == old(Total(EventsOf(contexts)))
        decreases size - |contexts|
      {
        AppendOne();
      }
    }

    /** Resizing the table. A late resize may shrink it, and then the bookkeeping
        survives exactly when no dropped context has an event. */
    method ContextResize(size: nat)
      requires Valid() && size >= 64
      modifies this`contexts
      ensures |contexts| == size
      ensures forall i | 0 <= i < |old(contexts)| && i < size :: contexts[i] == old(contexts)[i]
      ensures forall i | |old(contexts)| <= i < size :: fresh(contexts[i]) && contexts[i].events == NONE
      ensures Valid() <==> forall i | size <= i < |old(contexts)| :: old(contexts)[i].events == NONE
    {
      if size < |contexts| {
        ghost var (cs, es) := (contexts, EventsOf(contexts));
        TotalPrefix(es, size);
        contexts := contexts[..size];
        assert EventsOf(contexts) == es[..size];
        forall fd: nat ensures Interest(fd) == if fd < |cs| then cs[fd].events else NONE {
          assert Interest(fd) == old(Interest(fd)) == old(Registered(fd));
        }
        if forall i | size <= i < |cs| :: cs[i].events == NONE {
          assert forall fd: nat :: Interest(fd) == Registered(fd);
        }
      } else {
        Append(size);
      }
    }

    /** A successful `epoll_ctl`: ADD, MOD or DEL according to what is to be watched. */
    method Watch(fd: nat, e: Events)
      modifies this`interest
      ensures forall g: nat :: Interest(g) == if g == fd then e else old(Interest(g))
    {
      interest := if e == NONE then interest - {fd} else interest[fd := e];
    }

    /** Counts what has just changed in one context. */
    method CountBy(delta: int, ghost fd: nat, ghost es: seq<Events>)
      requires |contexts| >= 64 && Numbered() && fd < |contexts| == |es| && pendingEventCount == Total(es)
      requires forall i | 0 <= i < |es| && i != fd :: contexts[i].events == es[i]
      requires Count(contexts[fd].events) == Count(es[fd]) + delta
      modifies this`pendingEventCount
      ensures Counted() && pendingEventCount == old(pendingEventCount) + delta
    {
      pendingEventCount := pendingEventCount + delta;
      TotalChange(es, fd, contexts[fd].events);
      assert EventsOf(contexts) == es[fd := contexts[fd].events];
    }

    /** Takes the waiter of a registered event out of its slot and counts it. */
    method TakeOut(fd: nat, ev: Event) returns (waiter: Slot)
      requires Counted() && fd < |contexts| && Has(contexts[fd].events, ev)
      modifies this`pendingEventCount, contexts[fd]
      ensures Counted() && pendingEventCount == old(pendingEventCount) - 1 && waiter == old(WaiterAt(fd, ev))
      ensures OnlyAt(fd, ev) && WaiterAt(fd, ev) == EMPTY
      ensures contexts[fd].events == Without(old(contexts[fd].events), ev)
    {
      ghost var es := EventsOf(contexts);
      var w := contexts[fd].TriggerEvent(ev);
      CountBy(-1, fd, es);
      waiter := w.value;
    }

    /** Triggers an event of a context and counts it; fails when it is not registered. */
    method Trigger(fd: nat, ev: Event) returns (ok: bool)
      requires Counted() && fd < |contexts|
      modifies this`pendingEventCount, this`woken, contexts[fd]
      ensures Counted() && ok == Has(old(contexts[fd].events), ev)
      ensures !ok ==> unchanged(this) && unchanged(contexts[fd])
      ensures ok ==> OnlyAt(fd, ev) && WaiterAt(fd, ev) == EMPTY
                     && contexts[fd].events == Without(old(contexts[fd].events), ev)
                     && woken == old(woken) + [old(WaiterAt(fd, ev))] && pendingEventCount == old(pendingEventCount) - 1
    {
      ok := Has(contexts[fd].events, ev);
      if ok {
        var waiter := TakeOut(fd, ev);
        woken := woken + [waiter];
      }
    }

    /** Puts a waiter in an empty slot and counts it. */
    method Enroll(fd: nat, ev: Event, waiter: Slot)
      requires Counted() && fd < |contexts| && !Has(contexts[fd].events, ev) && Waiting(waiter)
      modifies this`pendingEventCount, contexts[fd]
      ensures Counted() && pendingEventCount == old(pendingEventCount) + 1
      ensures OnlyAt(fd, ev) && WaiterAt(fd, ev) == waiter && contexts[fd].events == With(old(contexts[fd].events), ev)
    {
      ghost var es := EventsOf(contexts);
      assert contexts[fd].SlotOf(ev) == EMPTY;
      contexts[fd].Register(ev, waiter);
      CountBy(1, fd, es);
    }

    /** Takes a waiter out and counts it. */
    method Discharge(fd: nat, ev: Event)
      requires Counted() && fd < |contexts| && Has(contexts[fd].events, ev)
      modifies this`pendingEventCount, contexts[fd]
      ensures Counted() && pendingEventCount == old(pendingEventCount) - 1
      ensures OnlyAt(fd, ev) && WaiterAt(fd, ev) == EMPTY
      ensures contexts[fd].events == Without(old(contexts[fd].events), ev)
    {
      ghost var es := EventsOf(contexts);
      contexts[fd].Forget(ev);
      CountBy(-1, fd, es);
    }

    /** The table is long enough for a descriptor. */
    method Reach(fd: nat)
      requires Valid()
      modifies this`contexts
      ensures Valid() && fd < |contexts| && forall g: nat, o: Event :: WaiterAt(g, o) == old(WaiterAt(g, o))
      ensures Grown()
      ensures contexts[fd].events == old(Registered(fd))
      ensures |contexts| == if fd < |old(contexts)| then |old(contexts)| else fd * 3 / 2
    {
      if |contexts| <= fd {
        ContextResize(fd * 3 / 2);
      }
    }

    /** Registers a waiter: the callback, or the calling fiber if there is none. It aborts
        exactly when the event is registered; the slot is then never found occupied. */
    method AddEvent(fd: nat, ev: Event, cb: Option<nat>, scheduler: nat, fiber: nat, ctlOk: bool) returns (r: Result)
      requires Valid()
      modifies this, contexts
      ensures r == Aborted <==> Has(old(Registered(fd)), ev)
      ensures r == Done ==> ctlOk && OnlyAt(fd, ev) && pendingEventCount == old(pendingEventCount) + 1
                            && WaiterAt(fd, ev) == Waiter(cb, scheduler, fiber)
      ensures r == Refused ==> !ctlOk && pendingEventCount == old(pendingEventCount)
                               && OnlyAt(fd, ev) && WaiterAt(fd, ev) == old(WaiterAt(fd, ev))
      ensures r == Done ==> WaiterAt(fd, ev) == if cb.Some? then Slot(Some(scheduler), None, cb)
                                                else Slot(Some(scheduler), Some(fiber), None)
      ensures Valid() && woken == old(woken)
      ensures Grown() && |contexts| == if fd < |old(contexts)| then |old(contexts)| else fd * 3 / 2
    {
      Reach(fd);
      r := AddHere(fd, ev, Waiter(cb, scheduler, fiber), ctlOk);
    }

    method AddHere(fd: nat, ev: Event, waiter: Slot, ctlOk: bool) returns (r: Result)
      requires Valid() && fd < |contexts| && Waiting(waiter)
      modifies this`pendingEventCount, this`interest, contexts[fd]
      ensures Valid() && OnlyAt(fd, ev)
      ensures r == if Has(old(contexts[fd].events), ev) then Aborted else if ctlOk then Done else Refused
      ensures r == Done ==> WaiterAt(fd, ev) == waiter && pendingEventCount == old(pendingEventCount) + 1
      ensures r != Done ==> unchanged(this) && unchanged(contexts[fd])
    {
      if Has(contexts[fd].events, ev) {
        return Aborted;
      }
      if !ctlOk {
        return Refused;
      }
      Watch(fd, With(contexts[fd].events, ev));
      Enroll(fd, ev, waiter);
      return Done;
    }

    /** Drops a waiter without waking it. */
    method DelEvent(fd: nat, ev: Event, ctlOk: bool) returns (r: Result)
      requires Valid()
      modifies this`pendingEventCount, this`interest, contexts
      ensures r == if Has(old(Registered(fd)), ev) && ctlOk then Done else Refused
      ensures Valid() && woken == old(woken) && OnlyAt(fd, ev)
      ensures r == Done ==> WaiterAt(fd, ev) == EMPTY && pendingEventCount == old(pendingEventCount) - 1
      ensures r == Refused ==> unchanged(this) && WaiterAt(fd, ev) == old(WaiterAt(fd, ev))
    {
      if |contexts| <= fd || !Has(contexts[fd].events, ev) || !ctlOk {
        return Refused;
      }
      DelHere(fd, ev);
      return Done;
    }

    method DelHere(fd: nat, ev: Event)
      requires Valid() && fd < |contexts| && Has(contexts[fd].events, ev)
      modifies this`pendingEventCount, this`interest, contexts[fd]
      ensures Valid() && OnlyAt(fd, ev) && WaiterAt(fd, ev) == EMPTY && pendingEventCount == old(pendingEventCount) - 1
    {
      Watch(fd, Without(contexts[fd].events, ev));
      Discharge(fd, ev);
    }

    /** Wakes the waiter, once, and drops it. */
    method CancelEvent(fd: nat, ev: Event, ctlOk: bool) returns (r: Result)
      requires Valid()
      modifies this`pendingEventCount, this`interest, this`woken, contexts
      ensures r == if Has(old(Registered(fd)), ev) && ctlOk then Done else Refused
      ensures Valid() && OnlyAt(fd, ev)
      ensures r == Done ==> WaiterAt(fd, ev) == EMPTY && pendingEventCount == old(pendingEventCount) - 1
                            && woken == old(woken) + [old(WaiterAt(fd, ev))]
      ensures r == Refused ==> unchanged(this) && WaiterAt(fd, ev) == old(WaiterAt(fd, ev))
    {
      if |contexts| <= fd || !Has(contexts[fd].events, ev) || !ctlOk {
        return Refused;
      }
      Watch(fd, Without(contexts[fd].events, ev));
      var ok := Trigger(fd, ev);
      assert ok;
      return Done;
    }

    /** Meant to wake both waiters. The second branch triggers the read event again, so
        this aborts exactly when a writer is registered. */
    method CancelAll(fd: nat, ctlOk: bool) returns (r: Result)
      requires Valid()
      modifies this`pendingEventCount, this`interest, this`woken, contexts
      ensures r == if old(Registered(fd)) == NONE || !ctlOk then Refused
                   else if old(Registered(fd)).write then Aborted else Done
      ensures r != Aborted ==> Valid() && OnlyAt(fd, Read)
      ensures r == Done ==> WaiterAt(fd, Read) == EMPTY && woken == old(woken) + [old(WaiterAt(fd, Read))]
      ensures r == Refused ==> unchanged(this) && WaiterAt(fd, Read) == old(WaiterAt(fd, Read))
    {
      if |contexts| <= fd || contexts[fd].events == NONE || !ctlOk {
        return Refused;
      }
      Watch(fd, NONE);
      if contexts[fd].events.read {
        var ok := Trigger(fd, Read);
        assert ok;
      }
      if contexts[fd].events.write {
        var ok := Trigger(fd, Read);
        if !ok {
          return Aborted;
        }
      }
      return Done;
    }

    /** Exactly these have been handed to their schedulers, and are no longer counted. */
    twostate predicate Wakes(new waiters: seq<Slot>)
      reads this`woken, this`pendingEventCount
    {
      woken == old(woken) + waiters && pendingEventCount == old(pendingEventCount) - |waiters|
    }

    /** One event reported by `epoll_wait`. An error or a hang-up counts as all that is
        registered. This aborts exactly when something is reported that is no longer
        registered beside something that is. */
    method Dispatch(fd: nat, report: Report, ctlOk: bool) returns (r: Result)
      requires Valid() && fd < |contexts|
      modifies this`pendingEventCount, this`interest, this`woken, contexts[fd]
      ensures var (e, found) := (old(Registered(fd)), Reported(report, old(Registered(fd))));
        r == if Both(e, found) == NONE || !ctlOk then Refused else if Both(e, found) == found then Done else Aborted
      ensures r != Aborted ==> Valid() && forall g: nat, o: Event | g != fd :: WaiterAt(g, o) == old(WaiterAt(g, o))
      ensures r == Refused ==> unchanged(this) && unchanged(contexts[fd])
      ensures r == Done ==> var found := Reported(report, old(Registered(fd)));
        && (forall o: Event :: WaiterAt(fd, o) == if Has(found, o) then EMPTY else old(WaiterAt(fd, o)))
        && woken == old(woken) + (if found.read then [old(WaiterAt(fd, Read))] else [])
                               + (if found.write then [old(WaiterAt(fd, Write))] else [])
        && pendingEventCount == old(pendingEventCount) - Count(found)
      ensures ctlOk && old(Registered(fd)) == Events(true, false) && !report.writable ==>
        if report.readable || report.error || report.hangUp then r == Done && Wakes([old(WaiterAt(fd, Read))])
        else r == Refused
      ensures ctlOk && old(Registered(fd)) == Events(false, true) && !report.readable ==>
        if report.writable || report.error || report.hangUp then r == Done && Wakes([old(WaiterAt(fd, Write))])
        else r == Refused
      ensures ctlOk && old(Registered(fd)) == Events(true, true) ==>
        if report.error || report.hangUp || (report.readable && report.writable)
        then r == Done && Wakes([old(WaiterAt(fd, Read)), old(WaiterAt(fd, Write))])
        else if report.readable then r == Done && Wakes([old(WaiterAt(fd, Read))])
        else if report.writable then r == Done && Wakes([old(WaiterAt(fd, Write))])
        else r == Refused
    {
      r := Handle(fd, report, ctlOk);
    }

    method Handle(fd: nat, report: Report, ctlOk: bool) returns (r: Result)
      requires Valid() && fd < |contexts|
      modifies this`pendingEventCount, this`interest, this`woken, contexts[fd]
      ensures var (e, found) := (old(Registered(fd)), Reported(report, old(Registered(fd))));
        r == if Both(e, found) == NONE || !ctlOk then Refused else if Both(e, found) == found then Done else Aborted
      ensures r != Aborted ==> Valid() && forall g: nat, o: Event | g != fd :: WaiterAt(g, o) == old(WaiterAt(g, o))
      ensures r == Refused ==> unchanged(this) && unchanged(contexts[fd])
      ensures r == Done ==> var found := Reported(report, old(Registered(fd)));
        && (forall o: Event :: WaiterAt(fd, o) == if Has(found, o) then EMPTY else old(WaiterAt(fd, o)))
        && woken == old(woken) + (if found.read then [old(WaiterAt(fd, Read))] else [])
                               + (if found.write then [old(WaiterAt(fd, Write))] else [])
        && pendingEventCount == old(pendingEventCount) - Count(found)
    {
      var (e, found) := (contexts[fd].events, Reported(report, contexts[fd].events));
      if Both(e, found) == NONE || !ctlOk {
        return Refused;
      }
      Watch(fd, Minus(e, found));
      var ok := TriggerAll(fd, found);
      return if ok then Done else Aborted;
    }

    method TriggerAll(fd: nat, found: Events) returns (ok: bool)
      requires Counted() && fd < |contexts|
      modifies this`pendingEventCount, this`woken, contexts[fd]
      ensures ok <==> Both(old(contexts[fd].events), found) == found
      ensures ok ==>
        && Counted() && contexts[fd].events == Minus(old(contexts[fd].events), found)
        && (forall g: nat, o: Event | g != fd :: WaiterAt(g, o) == old(WaiterAt(g, o)))
        && (forall o: Event :: WaiterAt(fd, o) == if Has(found, o) then EMPTY else old(WaiterAt(fd, o)))
        && woken == old(woken) + (if found.read then [old(WaiterAt(fd, Read))] else [])
                               + (if found.write then [old(WaiterAt(fd, Write))] else [])
        && pendingEventCount == old(pendingEventCount) - Count(found)
    {
      if found.read {
        ok := Trigger(fd, Read);
        if !ok {
          return;
        }
      }
      ok := true;
      if found.write {
        ok := Trigger(fd, Write);
      }
    }

    /** A late resize leaves everything in agreement. */
    predicate Spares(fd: nat)
      reads this`contexts, contexts
    {
      forall i | fd * 3 / 2 <= i < |contexts| :: contexts[i].events == NONE
    }

    /** The resize of an `addEvent` whose size test found no context for `fd`, some time ago:
        the table is not looked at again and may have grown beyond the new size since. No
        table is ever shorter than 64, so the test cannot have failed for less. */
    method LateResize(fd: nat)
      requires Valid() && fd >= 64
      modifies this`contexts
      ensures |contexts| == fd * 3 / 2 && (Valid() <==> old(Spares(fd)))
      ensures forall i | 0 <= i < |contexts| ::
        if i < |old(contexts)| then contexts[i] == old(contexts)[i] else fresh(contexts[i])
    {
      ContextResize(fd * 3 / 2);
    }

    /** Registration by an `addEvent` that took its context before a late resize dropped it.
        The bit and the waiter go where nobody will look, the count and epoll do not. */
    method AddToDropped(fd: nat, ev: Event, waiter: Slot, ctlOk: bool)
      requires Valid() && Waiting(waiter)
      modifies this`pendingEventCount, this`interest
      ensures Valid() <==> !ctlOk
      ensures pendingEventCount == old(pendingEventCount) + if ctlOk then 1 else 0
      ensures forall g: nat :: Interest(g) == if g == fd && ctlOk then With(NONE, ev) else old(Interest(g))
    {
      if ctlOk {
        var dropped := new FdContext(fd);
        Watch(fd, With(dropped.events, ev));
        pendingEventCount := pendingEventCount + 1;
        dropped.Register(ev, waiter);
        assert EventsOf(contexts) == old(EventsOf(contexts));
      }
    }

    /** The operations that end the process or leave bits, slots, count and epoll in
        disagreement, by what is registered when they begin. */
    predicate Fatal(op: Op, ctlOk: bool)
      reads this`contexts, contexts
    {
      match op
      case Add(fd, ev, _, _, _) => Has(Registered(fd), ev)
      case Resize(fd) => fd >= 64 && !Spares(fd)
      case AddDropped(_, _, _, _, _) => ctlOk
      case CancelBoth(fd) => ctlOk && Registered(fd).write
      case Report(fd, report) =>
        var (e, found) := (Registered(fd), Reported(report, Registered(fd)));
        ctlOk && Both(e, found) != NONE && Both(e, found) != found
      case _ => false
    }

    /** The table has only contexts it had before, and new ones. */
    twostate predicate Grown()
      reads this`contexts
    {
      forall i | 0 <= i < |contexts| :: fresh(contexts[i]) || contexts[i] in old(contexts)
    }

    /** One operation. It aborts, or leaves a disagreement, or keeps everything in agreement;
        the last exactly when it is not fatal. */
    method Apply(op: Op, ctlOk: bool) returns (aborted: bool)
      requires Valid()
      modifies this, contexts
      ensures aborted || !Valid() <==> old(Fatal(op, ctlOk))
      ensures Grown()
    {
      var r := Refused;
      match op {
        case Add(fd, ev, cb, scheduler, fiber) => r := AddEvent(fd, ev, cb, scheduler, fiber, ctlOk);
        case Resize(fd) => ApplyResize(fd);
        case AddDropped(fd, ev, cb, scheduler, fiber) => AddToDropped(fd, ev, Waiter(cb, scheduler, fiber), ctlOk);
        case Del(fd, ev) => r := DelEvent(fd, ev, ctlOk);
        case Cancel(fd, ev) => r := CancelEvent(fd, ev, ctlOk);
        case CancelBoth(fd) => r := CancelAll(fd, ctlOk);
        case Report(fd, report) =>
          if fd < |contexts| {
            r := Dispatch(fd, report, ctlOk);
          }
      }
      return r == Aborted;
    }

    method ApplyResize(fd: nat)
      requires Valid()
      modifies this`contexts
      ensures Valid() <==> fd < 64 || old(Spares(fd))
      ensures Grown()
    {
      if fd >= 64 {
        LateResize(fd);
      }
    }

    /** Every run keeps bits, slots, count and epoll in agreement up to its first fatal
        operation: the first `n` operations are not fatal, and the one behind them, if there
        is one, ended the process or left a disagreement. */
    method Run(ops: seq<(Op, bool)>) returns (n: nat, aborted: bool)
      requires Valid()
      modifies this, contexts
      ensures n <= |ops| && (n == |ops| <==> !aborted && Valid())
    {
      aborted := false;
      for i := 0 to |ops|
        invariant Valid() && !aborted && Grown()
      {
        var fatal := Fatal(ops[i].0, ops[i].1);
        aborted := Apply(ops[i].0, ops[i].1);
        if fatal {
          return i, aborted;
        }
      }
      return |ops|, false;
    }
  }

  /** The waiter that `addEvent` puts in a slot: the callback, or the fiber if there is none. */
  function Waiter(cb: Option<nat>, scheduler: nat, fiber: nat): Slot {
    Slot(Some(scheduler), if cb == None then Some(fiber) else None, cb)
  }

  datatype Op =
    | Add(fd: nat, ev: Event, cb: Option<nat>, scheduler: nat, fiber: nat)
    | Resize(fd: nat)
    | AddDropped(fd: nat, ev: Event, cb: Option<nat>, scheduler: nat, fiber: nat)
    | Del(fd: nat, ev: Event)
    | Cancel(fd: nat, ev: Event)
    | CancelBoth(fd: nat)
    | Report(fd: nat, report: Report)

  /** A late resize can lose a registration: `addEvent(100)` has found 64 contexts when
      `addEvent(200)` grows the table to 300 and registers; the first call then shrinks it to
      150. Epoll watches 200 and one event is counted, but no context has it. */
  method LateResizeLoses() returns (m: IOManager)
    ensures !m.Valid() && |m.contexts| == 150 && m.Interest(200) == Events(true, false) && m.pendingEventCount == 1
    ensures m.Registered(200) == NONE
  {
    m := new IOManager();
    assert m.WaiterAt(200, Read) == EMPTY && m.WaiterAt(200, Write) == EMPTY;
    var _ := m.AddEvent(200, Read, None, 0, 7, true);
    assert m.WaiterAt(200, Read) == Waiter(None, 0, 7) && m.WaiterAt(200, Write) == EMPTY;
    assert m.Registered(200) == Events(true, false) == m.Interest(200);
    assert 150 <= 200 < |m.contexts| && m.contexts[200].events != NONE;
    m.LateResize(100);
  }

  /** A writer alone is enough to end the process in `cancelAll`. */
  method CancelAllAborts() returns (r: Result)
    ensures r == Aborted
  {
    var m := new IOManager();
    assert m.WaiterAt(5, Write) == EMPTY && !Has(m.Registered(5), Write);
    var _ := m.AddEvent(5, Write, None, 0, 7, true);
    assert m.WaiterAt(5, Write) == Slot(Some(0), Some(7), None);
    r := m.CancelAll(5, true);
  }

  /** So is a report of a write event that is not registered beside a read event that is. */
  method StaleReportAborts() returns (r: Result)
    ensures r == Aborted
  {
    var m := new IOManager();
    assert m.WaiterAt(5, Read) == EMPTY && !Has(m.Registered(5), Read);
    assert m.WaiterAt(5, Write) == EMPTY;
    var _ := m.AddEvent(5, Read, None, 0, 7, true);
    assert m.WaiterAt(5, Read) == Slot(Some(0), Some(7), None) && m.WaiterAt(5, Write) == EMPTY;
    r := m.Dispatch(5, Reporting(true, true, false, false), true);
  }
}
