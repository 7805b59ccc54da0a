/** Timers of the event library on top of the queue: setting, clearing, resetting,
    selection, and what dropping a timer event does. */
module EvTimers {
  import opened EvTime
  import opened TimerHeap

  datatype Status = Ok | EInval | ENoEnt

  predicate ValidArgs(due: Timespec, inter: Timespec) {
    && due.sec >= 0 && Normal(due)
    && inter.sec >= 0 && Normal(inter)
  }

  /** What is accepted: two times that are normalized and not negative. */
  lemma ValidArgsIff(due: Timespec, inter: Timespec)
    ensures ValidArgs(due, inter) <==>
      && 0 <= due.nsec <= 999999999 && 0 <= inter.nsec <= 999999999
      && due.sec * 1000000000 + due.nsec >= 0 && inter.sec * 1000000000 + inter.nsec >= 0
  {
  }

  const ZERO := Timespec(0, 0)

  lemma DueSoonerIsStrictWeak()
    ensures StrictWeak(DueSooner)
  {
  }

  /** The due time a timer gets when its event is dropped: rate timers count from
      their last due time, interval timers from the last event. */
  function NextDue(rate: bool, due: Timespec, inter: Timespec, now: Timespec): Timespec {
    AddTime(if rate then due else now, inter)
  }

  class IdleTimer {
    var lastTouched: Timespec
    var maxIdle: Timespec

    constructor (lastTouched: Timespec, maxIdle: Timespec)
      ensures this.lastTouched == lastTouched && this.maxIdle == maxIdle
    {
      this.lastTouched, this.maxIdle := lastTouched, maxIdle;
    }
  }

  class EvContext {
    const timers: Heap
    var cur: Timer?
    var lastEventTime: Timespec

    constructor (now: Timespec)
      requires Normal(now)
      ensures Valid() && timers.contents == {} && cur == null && lastEventTime == now
      ensures fresh(timers) && fresh(timers.heap)
    {
      DueSoonerIsStrictWeak();
      timers := new Heap(DueSooner, 2048);
      cur, lastEventTime := null, now;
    }

    ghost predicate Valid()
      reads this, timers, timers.heap, timers.contents`index, timers.contents`due
    {
      && timers.Valid() && timers.increment >= 2
      && (forall a, b :: timers.higher(a, b) == DueSooner(a, b))
      && (forall t :: t in timers.contents ==> Normal(t.due))
      && Normal(lastEventTime)
    }

    lemma DueIsNormal(t: Timer)
      requires Valid() && t in timers.contents
      ensures Normal(t.due)
    {
    }

    /** Queues a new timer; a due time of zero means `now`. */
    method SetTimer(due: Timespec, inter: Timespec, rate: bool, now: Timespec) returns (status: Status, id: Timer?)
      requires Valid() && Normal(now)
      modifies timers, timers.heap, timers.contents`index
      ensures Valid() && cur == old(cur)
      ensures status == if ValidArgs(due, inter) then Ok else EInval
      ensures status == Ok ==> id != null && fresh(id) && timers.contents == old(timers.contents) + {id}
      ensures status == Ok ==> id.due == (if due == ZERO then now else due) && id.inter == inter && id.rate == rate
      ensures status != Ok ==> id == null && timers.contents == old(timers.contents)
      ensures timers.heap == old(timers.heap) || fresh(timers.heap)
    {
      if due.sec < 0 || due.nsec < 0 || due.nsec >= BILLION {
        return EInval, null;
      }
      if inter.sec < 0 || inter.nsec < 0 || inter.nsec >= BILLION {
        return EInval, null;
      }
      id := new Timer(if due.sec == 0 && due.nsec == 0 then now else due, inter, rate);
      timers.Insert(id);
      return Ok, id;
    }

    /** Removes a timer; one that is being executed is only marked, by a zero
        interval, for removal when its event is dropped. */
    method ClearTimer(del: Timer) returns (status: Status)
      requires Valid()
      modifies timers, timers.heap, timers.contents`index, del`inter
      ensures Valid() && cur == old(cur) && timers.heap == old(timers.heap)
      ensures cur == del ==> status == Ok && del.inter == ZERO && timers.contents == old(timers.contents)
      ensures cur != del ==> del.inter == old(del.inter) && timers.contents == old(timers.contents) - {del}
      ensures cur != del ==> status == if del in old(timers.contents) then Ok else ENoEnt
    {
      if cur == del {
        del.inter := ZERO;
        return Ok;
      }
      var t := timers.Element(del.index);
      if t != del {
        return ENoEnt;
      }
      var ok := timers.Delete(del.index);
      return if ok then Ok else ENoEnt;
    }

    method ResetTimer(timer: Timer, due: Timespec, inter: Timespec) returns (status: Status)
      requires Valid()
      modifies timers.heap, timers.contents`index, timer
      ensures Valid() && timers.contents == old(timers.contents) && timers.heap == old(timers.heap)
      ensures status == if timer !in timers.contents then ENoEnt else if ValidArgs(due, inter) then Ok else EInval
      ensures status == Ok ==> timer.due == due && timer.inter == inter && timer.rate == old(timer.rate)
      ensures status != Ok ==>
        timer.due == old(timer.due) && timer.inter == old(timer.inter) && timer.rate == old(timer.rate)
    {
      hide StrictWeak, Ord;
      var t := timers.Element(timer.index);
      if t != timer {
        return ENoEnt;
      }
      if due.sec < 0 || due.nsec < 0 || due.nsec >= BILLION {
        return EInval;
      }
      if inter.sec < 0 || inter.nsec < 0 || inter.nsec >= BILLION {
        return EInval;
      }
      var oldDue := timer.due;
      ghost var k := timers.Keys();
      timer.due := due;
      timer.inter := inter;
      Reorder(timer, CmpTime(due, oldDue), k);
      return Ok;
    }

    /** Moves a timer whose due time has just changed from `k[timer.index]`. */
    method Reorder(timer: Timer, c: int, ghost k: seq<Timespec>)
      requires timer in timers.contents && timers.OrderedBefore(k, timer.index)
      requires forall a, b :: timers.higher(a, b) == DueSooner(a, b)
      requires Normal(timer.due) && Normal(k[timer.index]) && c == CmpTime(timer.due, k[timer.index])
      modifies timers.heap, timers.contents`index
      ensures timers.Valid()
    {
      hide Ord, StrictWeak;
      var ok := true;
      if c == -1 {
        ok := timers.Increased(timer.index, k);
      } else if c == 1 {
        ok := timers.Decreased(timer.index, k);
      } else {
        OrdSame(timers.higher, k, timers.Keys());
      }
    }

    /** Timer selection: the earliest timer, once its time has come. */
    method NextTimer() returns (t: Timer?)
      requires Valid()
      ensures t != null ==> t in timers.contents && Ns(t.due) <= Ns(lastEventTime)
      ensures t != null ==> forall u :: u in timers.contents ==> Ns(t.due) <= Ns(u.due)
      ensures t == null ==> forall u :: u in timers.contents ==> Ns(u.due) > Ns(lastEventTime)
    {
      t := timers.Element(1);
      forall u | u in timers.contents
        ensures t != null && Ns(t.due) <= Ns(u.due)
      {
        timers.RootIsFirst(u);
      }
      if t != null && !(CmpTime(t.due, lastEventTime) <= 0) {
        t := null;
      }
    }

    /** Dropping a timer event: an expired timer goes, any other is set to its next
        due time. */
    method Drop(t: Timer)
      requires Valid() && cur != t
      modifies timers, timers.heap, timers.contents`index, t
      ensures Valid() && cur == old(cur) && timers.heap == old(timers.heap)
      ensures timers.contents == if old(t.inter) == ZERO then old(timers.contents) - {t} else old(timers.contents)
      ensures t.inter == old(t.inter) && t.rate == old(t.rate)
      ensures var due := NextDue(old(t.rate), old(t.due), old(t.inter), lastEventTime);
        t.due == if t in timers.contents && ValidArgs(due, t.inter) then due else old(t.due)
    {
      var e := timers.Element(t.index);
      if e != t {
        return;
      }
      if t.inter.sec == 0 && t.inter.nsec == 0 {
        var status := ClearTimer(t);
      } else {
        var status := ResetTimer(t, NextDue(t.rate, t.due, t.inter, lastEventTime), t.inter);
      }
    }

    /** The callback of an idle timer: fire, or ask for the rest of the time. */
    method IdleTimeout(t: Timer, tt: IdleTimer)
      modifies t`inter
      ensures var idle := SubTime(lastEventTime, tt.lastTouched);
        t.inter == if CmpTime(idle, tt.maxIdle) >= 0 then ZERO else SubTime(tt.maxIdle, idle)
    {
      var idle := SubTime(lastEventTime, tt.lastTouched);
      if CmpTime(idle, tt.maxIdle) >= 0 {
        t.inter := ZERO;
      } else {
        t.inter := SubTime(tt.maxIdle, idle);
      }
    }

    /** One delivery of an idle timer's event, from the callback to the drop. */
    method DispatchIdle(t: Timer, tt: IdleTimer)
      requires Valid() && t in timers.contents && Normal(tt.lastTouched) && Normal(tt.maxIdle)
      modifies this`cur, timers, timers.heap, timers.contents`index, t
      ensures Valid() && cur == null && t.rate == old(t.rate)
      ensures t in timers.contents <==> Ns(lastEventTime) < Ns(tt.lastTouched) + Ns(tt.maxIdle)
      ensures timers.contents - {t} == old(timers.contents) - {t}
      ensures var deadline := AddTime(tt.lastTouched, tt.maxIdle);
        t in timers.contents && !t.rate ==> t.due == if deadline.sec >= 0 then deadline else old(t.due)
      ensures t in timers.contents && t.rate ==>
        var due := AddTime(old(t.due), t.inter);
        && Normal(due) && Ns(due) == Ns(old(t.due)) + Ns(tt.lastTouched) + Ns(tt.maxIdle) - Ns(lastEventTime)
        && t.due == if due.sec >= 0 then due else old(t.due)
      ensures t in timers.contents && t.rate && AddTime(old(t.due), t.inter).sec >= 0 ==>
        (t.due == AddTime(tt.lastTouched, tt.maxIdle) <==> Ns(old(t.due)) == Ns(lastEventTime))
    {
      hide StrictWeak, Ord, CmpTime, SubTime, AddTime, Ns, ValidArgs, NextDue;
      IdleDue(t.rate, t.due, lastEventTime, tt.lastTouched, tt.maxIdle);
      cur := t;
      IdleTimeout(t, tt);
      cur := null;
      Drop(t);
    }

    /** The time at which events are looked for. */
    method Tick(now: Timespec)
      requires Valid() && Normal(now)
      modifies this`lastEventTime
      ensures Valid() && lastEventTime == now
    {
      lastEventTime := now;
    }

    /** Delivers the event of a timer that nothing else changes once at each time. */
    method Deliver(t: Timer, nows: seq<Timespec>)
      requires Valid() && cur != t && t in timers.contents && t.inter != ZERO
      requires forall i :: 0 <= i < |nows| ==> Normal(nows[i])
      modifies this`lastEventTime, timers, timers.heap, timers.contents`index, t
      ensures Valid() && cur == old(cur) && timers.contents == old(timers.contents) && timers.heap == old(timers.heap)
      ensures t.inter == old(t.inter) && t.rate == old(t.rate)
      ensures t.due == DueAfter(t.rate, old(t.due), t.inter, nows)
      ensures nows != [] ==> lastEventTime == nows[|nows| - 1]
      ensures t.rate && ValidArgs(old(t.due), t.inter) ==> Ns(t.due) == Ns(old(t.due)) + |nows| * Ns(t.inter)
    {
      hide Valid, DueAfter, ValidArgs, NextDue;
      var i := 0;
      NoDelivery(t.rate, t.due, t.inter);
      assert nows[..0] == [];
      while i < |nows|
        invariant 0 <= i <= |nows| && Valid() && cur == old(cur)
        invariant timers.contents == old(timers.contents) && timers.heap == old(timers.heap)
        invariant t.inter == old(t.inter) && t.rate == old(t.rate)
        invariant t.due == DueAfter(t.rate, old(t.due), t.inter, nows[..i])
        invariant i > 0 ==> lastEventTime == nows[i - 1]
      {
        Tick(nows[i]);
        Drop(t);
        assert nows[..i + 1] == nows[..i] + [nows[i]];
        OneDelivery(t.rate, old(t.due), t.inter, nows[..i], nows[i]);
        i := i + 1;
      }
      assert nows[..i] == nows;
      if t.rate && ValidArgs(old(t.due), t.inter) {
        RateTimerKeepsStep(old(t.due), t.inter, nows);
      }
    }

    method SetIdleTimer(maxIdle: Timespec, rate: bool, now: Timespec)
      returns (status: Status, id: Timer?, tt: IdleTimer?)
      requires Valid() && Normal(now)
      modifies timers, timers.heap, timers.contents`index
      ensures Valid() && cur == old(cur) && (timers.heap == old(timers.heap) || fresh(timers.heap))
      ensures status == if ValidArgs(AddTime(lastEventTime, maxIdle), maxIdle) then Ok else EInval
      ensures status == Ok ==>
        id != null && fresh(id) && timers.contents == old(timers.contents) + {id} && id.rate == rate
      ensures status == Ok ==> tt != null && fresh(tt) && tt.lastTouched == lastEventTime && tt.maxIdle == maxIdle
      ensures status == Ok ==> var due := AddTime(lastEventTime, maxIdle); id.due == if due == ZERO then now else due
      ensures status != Ok ==> id == null && timers.contents == old(timers.contents)
    {
      tt := new IdleTimer(lastEventTime, maxIdle);
      status, id := SetTimer(AddTime(lastEventTime, maxIdle), maxIdle, rate, now);
    }
  }

  /** What the drop makes of the interval that the callback leaves. */
  lemma IdleDue(rate: bool, due: Timespec, now: Timespec, touched: Timespec, maxIdle: Timespec)
    requires Normal(due) && Normal(now) && Normal(touched) && Normal(maxIdle)
    ensures CmpTime(SubTime(now, touched), maxIdle) >= 0 <==> Ns(now) >= Ns(touched) + Ns(maxIdle)
    ensures CmpTime(SubTime(now, touched), maxIdle) < 0 ==>
      var inter := SubTime(maxIdle, SubTime(now, touched));
      var next, deadline := NextDue(rate, due, inter, now), AddTime(touched, maxIdle);
      && inter != ZERO && Normal(next) && (ValidArgs(next, inter) <==> next.sec >= 0)
      && next == (if rate then AddTime(due, inter) else deadline)
      && (rate ==> Ns(next) == Ns(due) + Ns(touched) + Ns(maxIdle) - Ns(now))
      && (rate ==> (next == deadline <==> Ns(due) == Ns(now)))
  {
    hide CmpTime;
    IdleInterval(now, touched, maxIdle);
    var inter := SubTime(maxIdle, SubTime(now, touched));
    if Ns(due) == Ns(now) {
      NsInjective(due, now);
    }
  }

  lemma IdleInterval(now: Timespec, touched: Timespec, maxIdle: Timespec)
    requires Normal(now) && Normal(touched) && Normal(maxIdle)
    ensures var idle := SubTime(now, touched);
      && (CmpTime(idle, maxIdle) >= 0 <==> Ns(now) >= Ns(touched) + Ns(maxIdle))
      && (CmpTime(idle, maxIdle) < 0 ==>
            var inter := SubTime(maxIdle, idle);
            && Normal(inter) && inter.sec >= 0 && inter != ZERO
            && AddTime(now, inter) == AddTime(touched, maxIdle))
  {
    var idle := SubTime(now, touched);
    var inter := SubTime(maxIdle, idle);
    if CmpTime(idle, maxIdle) < 0 {
      NsInjective(AddTime(now, inter), AddTime(touched, maxIdle));
    }
  }

  /** The due time after the event has been dropped once for each time in `nows`; a time that
      would be refused changes nothing. */
  function DueAfter(rate: bool, due: Timespec, inter: Timespec, nows: seq<Timespec>): Timespec {
    if nows == [] then due
    else
      var before := DueAfter(rate, due, inter, nows[..|nows| - 1]);
      var next := NextDue(rate, before, inter, nows[|nows| - 1]);
      if ValidArgs(next, inter) then next else before
  }

  lemma NoDelivery(rate: bool, due: Timespec, inter: Timespec)
    ensures DueAfter(rate, due, inter, []) == due
  {
  }

  lemma OneDelivery(rate: bool, due: Timespec, inter: Timespec, nows: seq<Timespec>, now: Timespec)
    ensures var before := DueAfter(rate, due, inter, nows);
      var next := NextDue(rate, before, inter, now);
      DueAfter(rate, due, inter, nows + [now]) == if ValidArgs(next, inter) then next else before
  {
    assert (nows + [now])[..|nows|] == nows;
  }

  /** A rate timer keeps exact step, however late its events are delivered. */
  lemma {:induction false} RateTimerKeepsStep(due: Timespec, inter: Timespec, nows: seq<Timespec>)
    requires ValidArgs(due, inter)
    ensures ValidArgs(DueAfter(true, due, inter, nows), inter)
    ensures Ns(DueAfter(true, due, inter, nows)) == Ns(due) + |nows| * Ns(inter)
    decreases |nows|
  {
    if nows != [] {
      var before := nows[..|nows| - 1];
      RateTimerKeepsStep(due, inter, before);
      assert |nows| * Ns(inter) == |before| * Ns(inter) + Ns(inter);
    }
  }

  /** An interval timer is due one interval after the last delivery. */
  lemma IntervalTimerFollowsDelivery(due: Timespec, inter: Timespec, nows: seq<Timespec>)
    requires ValidArgs(due, inter) && nows != [] && ValidArgs(nows[|nows| - 1], inter)
    ensures Ns(DueAfter(false, due, inter, nows)) == Ns(nows[|nows| - 1]) + Ns(inter)
  {
  }

  /** An idle timer for 10 seconds, made at 0 and touched at 5, whose event comes late, at 11:
      in rate mode it is due at 14 and not at 15. */
  method LateIdleTimer(rate: bool) returns (due: Timespec)
    ensures due == Timespec(if rate then 14 else 15, 0)
  {
    hide StrictWeak, Ord, CmpTime, SubTime, EvContext.Valid;
    var ctx := new EvContext(Timespec(0, 0));
    var status, t, tt := ctx.SetIdleTimer(Timespec(10, 0), rate, Timespec(0, 0));
    tt.lastTouched := Timespec(5, 0);
    ctx.Tick(Timespec(11, 0));
    assert AddTime(Timespec(5, 0), Timespec(10, 0)) == Timespec(15, 0);
    ctx.DispatchIdle(t, tt);
    ctx.DueIsNormal(t);
    NsInjective(t.due, Timespec(if rate then 14 else 15, 0));
    due := t.due;
  }
}
