/** The connection counter of route/handler_atomic.go and the admission check of
    route/exec.go: every handler adds itself, looks at the number it got, and is done
    when it returns, all interleaved with any number of other handlers. */
module Admission {
  /** `Taken` is a timer whose expiry was received already. */
  datatype Timer = Running | Expired | Taken | Stopped

  datatype CounterState = CounterState(duration: int, timer: Timer, wg: nat, connections: int)

  function NewState(duration: int): CounterState {
    CounterState(duration, if duration == 0 then Taken else Running, 0, 0)
  }

  function AddSpec(c: CounterState, n: nat): CounterState {
    c.(timer := if c.duration > 0 then Stopped else c.timer, wg := c.wg + n, connections := c.connections + n)
  }

  function DoneSpec(c: CounterState): CounterState
    requires c.wg > 0
  {
    c.(connections := c.connections - 1, wg := c.wg - 1,
       timer := if c.connections - 1 == 0 && c.duration > 0 then Running else c.timer)
  }

  class Counter {
    const duration: int
    var zeroTimer: Timer
    var wg: nat
    var connections: int

    function View(): CounterState
      reads this
    {
      CounterState(duration, zeroTimer, wg, connections)
    }

    constructor (duration: int)
      ensures View() == NewState(duration)
    {
      this.duration := duration;
      zeroTimer := if duration == 0 then Taken else Running;
      wg, connections := 0, 0;
    }

    method Add(n: nat) returns (r: int)
      modifies this
      ensures View() == AddSpec(old(View()), n) && r == connections
    {
      if duration > 0 {
        zeroTimer := Stopped;
      }
      wg := wg + n;
      connections := connections + n;
      r := connections;
    }

    /** A wait group that goes below zero panics, so its counter must be positive. */
    method Done() returns (r: int)
      requires wg > 0
      modifies this
      ensures View() == DoneSpec(old(View())) && r == connections
    {
      connections := connections - 1;
      wg := wg - 1;
      if connections == 0 && duration > 0 {
        zeroTimer := Running;
      }
      r := connections;
    }

    method Count() returns (r: int)
      ensures r == connections
    {
      r := connections;
    }
  }

  // ----- handlers -----

  datatype Phase = Added | Admitted | Refused

  /** A handler between its `add` and its `done`, with the number `add` returned. `ahead`
      records how many handlers were live when it was counted. */
  datatype Handler = Handler(num: int, ahead: nat, phase: Phase)

  /** The live handlers in the order they were counted. */
  datatype System = System(counter: CounterState, live: seq<Handler>)

  datatype Event = Arrive | Check(k: nat) | Leave(k: nat) | Expire

  function Verdict(max: int, num: int): Phase {
    if max != 0 && num > max then Refused else Admitted
  }

  /** `Leave` runs the deferred `done`, which comes after the check. */
  function Step(max: int, s: System, e: Event): System
    requires s.counter.wg == |s.live|
  {
    match e
    case Arrive =>
      var c := AddSpec(s.counter, 1);
      System(c, s.live + [Handler(c.connections, |s.live|, Added)])
    case Check(k) =>
      if k >= |s.live| || s.live[k].phase != Added then s
      else s.(live := s.live[k := s.live[k].(phase := Verdict(max, s.live[k].num))])
    case Leave(k) =>
      if k >= |s.live| || s.live[k].phase == Added then s
      else System(DoneSpec(s.counter), s.live[..k] + s.live[k + 1..])
    case Expire =>
      if s.counter.timer == Running then s.(counter := s.counter.(timer := Expired)) else s
  }

  predicate Inv(max: int, s: System) {
    && s.counter.wg == |s.live| == s.counter.connections
    && (forall k | 0 <= k < |s.live| :: s.live[k].num == s.live[k].ahead + 1 && s.live[k].ahead >= k)
    && (forall h <- s.live :: h.phase != Added ==> h.phase == Verdict(max, h.num))
    && (s.counter.duration > 0 ==> (s.counter.timer in {Running, Expired} <==> s.live == []))
    && (s.counter.duration > 0 ==> s.counter.timer != Taken)
    && (s.counter.duration == 0 ==> s.counter.timer == Taken)
  }

  lemma StepKeepsInv(max: int, s: System, e: Event)
    requires Inv(max, s)
    ensures Inv(max, Step(max, s, e))
  {
    if e.Leave? && e.k < |s.live| && s.live[e.k].phase != Added {
      var rest := s.live[..e.k] + s.live[e.k + 1..];
      forall i | 0 <= i < |rest| ensures rest[i] == (if i < e.k then s.live[i] else s.live[i + 1]) {
      }
    }
  }

  function Run(max: int, s: System, events: seq<Event>): (end: System)
    requires Inv(max, s)
    ensures Inv(max, end) && end.counter.duration == s.counter.duration
    decreases |events|
  {
    if events == [] then s
    else
      StepKeepsInv(max, s, events[0]);
      Run(max, Step(max, s, events[0]), events[1..])
  }

  function Start(duration: int): System {
    System(NewState(duration), [])
  }

  function AdmittedCount(live: seq<Handler>): (n: nat)
    ensures n <= |live|
  {
    if live == [] then 0
    else AdmittedCount(live[..|live| - 1]) + if live[|live| - 1].phase == Admitted then 1 else 0
  }

  lemma {:induction false} AdmittedAreEarly(live: seq<Handler>, max: nat)
    requires forall k | 0 <= k < |live| :: live[k].phase == Admitted ==> k < max
    ensures AdmittedCount(live) <= max
  {
    if live != [] && live[|live| - 1].phase != Admitted {
      AdmittedAreEarly(live[..|live| - 1], max);
    }
  }

  /** Under every interleaving, with a limit set, no more handlers than the limit are
      past the check at once. */
  lemma BoundedAdmission(max: int, duration: int, events: seq<Event>)
    requires max != 0
    ensures AdmittedCount(Run(max, Start(duration), events).live) <= if max > 0 then max else 0
  {
    AdmittedAreEarly(Run(max, Start(duration), events).live, if max > 0 then max else 0);
  }

  /** `connections`, the wait group and the live handlers always agree, and with a
      positive duration the zero timer is set (running or expired) exactly when no
      handler is live; with duration zero its expiry is never delivered. */
  lemma CounterCoupling(max: int, duration: int, events: seq<Event>)
    ensures var s := Run(max, Start(duration), events);
            && s.counter.connections == s.counter.wg == |s.live|
            && (duration > 0 ==> (s.counter.timer in {Running, Expired} <==> s.live == []))
            && (duration == 0 ==> s.counter.timer == Taken)
  {
  }

  /** In every run, whatever happens between its arrival and its check, a handler that has
      been checked is refused exactly when the limit was reached by the handlers, refused
      ones included, that were live when it was counted. */
  lemma RefusedExactlyWhenFull(max: int, duration: int, events: seq<Event>, k: nat)
    requires var s := Run(max, Start(duration), events); k < |s.live| && s.live[k].phase != Added
    ensures var h := Run(max, Start(duration), events).live[k];
            h.phase == Refused <==> max != 0 && h.ahead >= max
  {
    var s := Run(max, Start(duration), events);
    assert s.live[k] in s.live;
  }

  /** So a handler can be refused while nobody is admitted: a refused one that has not
      returned yet still counts. */
  lemma RefusedThoughNobodyIsAdmitted(duration: int)
    ensures var s := Run(1, Start(duration), [Arrive, Check(0), Arrive, Check(1)] + [Leave(0), Arrive, Check(1)]);
            s.live == [Handler(2, 1, Refused), Handler(2, 1, Refused)] && AdmittedCount(s.live) == 0
  {
    hide Run;
    hide AdmittedCount;
    StartInv(1, duration);
    var s2 := AdmitOne(duration, [Arrive, Check(1)] + [Leave(0), Arrive, Check(1)]);
    assert [Arrive, Check(0)] + ([Arrive, Check(1)] + [Leave(0), Arrive, Check(1)])
        == [Arrive, Check(0), Arrive, Check(1)] + [Leave(0), Arrive, Check(1)];
    var s4 := RefuseNext(s2, [Leave(0), Arrive, Check(1)]);
    var s5 := After(1, s4, Leave(0), [Arrive, Check(1)]);
    assert [Leave(0)] + [Arrive, Check(1)] == [Leave(0), Arrive, Check(1)];
    assert s5.live == [Handler(2, 1, Refused)];
    var s7 := RefuseNext(s5, []);
    assert [Arrive, Check(1)] + [] == [Arrive, Check(1)];
    RunNothing(1, s7);
    NoneAdmitted(s7.live);
  }

  lemma AdmitOne(duration: int, rest: seq<Event>) returns (s: System)
    ensures Inv(1, s) && s.live == [Handler(1, 0, Admitted)]
    ensures Inv(1, Start(duration)) && Run(1, Start(duration), [Arrive, Check(0)] + rest) == Run(1, s, rest)
  {
    hide Run;
    StartInv(1, duration);
    var counted := After(1, Start(duration), Arrive, [Check(0)] + rest);
    assert [Arrive] + ([Check(0)] + rest) == [Arrive, Check(0)] + rest;
    s := After(1, counted, Check(0), rest);
  }

  lemma RefuseNext(s: System, rest: seq<Event>) returns (next: System)
    requires Inv(1, s) && |s.live| == 1
    ensures Inv(1, next) && next.live == s.live + [Handler(2, 1, Refused)]
    ensures Run(1, s, [Arrive, Check(1)] + rest) == Run(1, next, rest)
  {
    hide Run;
    var counted := After(1, s, Arrive, [Check(1)] + rest);
    assert [Arrive] + ([Check(1)] + rest) == [Arrive, Check(1)] + rest;
    next := After(1, counted, Check(1), rest);
  }

  lemma RunNothing(max: int, s: System)
    requires Inv(max, s)
    ensures Run(max, s, []) == s
  {
  }

  lemma {:induction false} NoneAdmitted(live: seq<Handler>)
    requires forall h <- live :: h.phase != Admitted
    ensures AdmittedCount(live) == 0
  {
    if live != [] {
      NoneAdmitted(live[..|live| - 1]);
    }
  }

  lemma {:induction false} RunSplit(max: int, s: System, x: seq<Event>, y: seq<Event>)
    requires Inv(max, s)
    ensures Run(max, s, x + y) == Run(max, Run(max, s, x), y)
    decreases |x|
  {
    hide Step;
    if x == [] {
      assert x + y == y;
    } else {
      StepKeepsInv(max, s, x[0]);
      assert (x + y)[1..] == x[1..] + y;
      RunSplit(max, Step(max, s, x[0]), x[1..], y);
    }
  }

  /** In every run, any handler can take its next step: one that was counted is checked against
      the handlers it found, and one that was checked leaves; the others stay as they are. */
  lemma AnyHandlerProceeds(max: int, duration: int, before: seq<Event>, k: nat)
    requires k < |Run(max, Start(duration), before).live|
    ensures var s := Run(max, Start(duration), before);
            var h := s.live[k];
            if h.phase == Added then
              var verdict := if max != 0 && h.ahead >= max then Refused else Admitted;
              Run(max, Start(duration), before + [Check(k)]) == s.(live := s.live[k := h.(phase := verdict)])
            else
              var t := Run(max, Start(duration), before + [Leave(k)]);
              t.live == s.live[..k] + s.live[k + 1..] && t.counter.connections == s.counter.connections - 1
  {
    hide Run;
    StartInv(max, duration);
    var s := Run(max, Start(duration), before);
    assert s.live[k] in s.live;
    var e := if s.live[k].phase == Added then Check(k) else Leave(k);
    var next := After(max, s, e, []);
    RunNothing(max, next);
    assert [e] + [] == [e];
    RunSplit(max, Start(duration), before, [e]);
  }

  lemma LeaveFirst(max: int, s: System) returns (next: System)
    requires Inv(max, s) && s.live != [] && s.live[0].phase != Added
    ensures Inv(max, next) && next.live == s.live[1..] && next.counter.duration == s.counter.duration
    ensures next.live == [] && s.counter.duration > 0 ==> next.counter.timer == Running
    ensures Run(max, s, [Leave(0)]) == next
  {
    hide Run;
    next := After(max, s, Leave(0), []);
    RunNothing(max, next);
    assert [Leave(0)] + [] == [Leave(0)];
    assert s.live[..0] + s.live[1..] == s.live[1..];
  }

  lemma CheckFirst(max: int, s: System) returns (next: System)
    requires Inv(max, s) && s.live != [] && s.live[0].phase == Added
    ensures Inv(max, next) && next.live != [] && next.live[1..] == s.live[1..] && next.live[0].phase != Added
    ensures next.counter == s.counter && Run(max, s, [Check(0)]) == next
  {
    hide Run;
    next := After(max, s, Check(0), []);
    RunNothing(max, next);
    assert [Check(0)] + [] == [Check(0)];
  }

  /** The first live handler can be checked and return. */
  lemma FirstLeaves(max: int, s: System) returns (next: System, events: seq<Event>)
    requires Inv(max, s) && s.live != []
    ensures Inv(max, next) && next.live == s.live[1..] && Run(max, s, events) == next
    ensures next.counter.duration == s.counter.duration
    ensures next.live == [] && s.counter.duration > 0 ==> next.counter.timer == Running
  {
    hide Run;
    hide Inv;
    if s.live[0].phase == Added {
      var checked := CheckFirst(max, s);
      next := LeaveFirst(max, checked);
      events := [Check(0)] + [Leave(0)];
      RunSplit(max, s, [Check(0)], [Leave(0)]);
    } else {
      next := LeaveFirst(max, s);
      events := [Leave(0)];
    }
  }

  /** In every run, all handlers can return; then the counter is back at zero, the timer of a
      positive duration runs and can expire, and a new handler is admitted unless the limit
      is negative. */
  lemma AlwaysRecovers(max: int, duration: int, before: seq<Event>) returns (events: seq<Event>)
    ensures var s := Run(max, Start(duration), before + events);
            && s.live == [] && s.counter.connections == 0
            && (duration > 0 && events != [] ==>
                  s.counter.timer == Running && Step(max, s, Expire).counter.timer == Expired)
            && Step(max, Step(max, s, Arrive), Check(0)).live
               == [Handler(1, 0, if max < 0 then Refused else Admitted)]
  {
    StartInv(max, duration);
    hide Run;
    events := AllLeave(max, Run(max, Start(duration), before));
    RunSplit(max, Start(duration), before, events);
  }

  lemma {:induction false} AllLeave(max: int, s: System) returns (events: seq<Event>)
    requires Inv(max, s)
    ensures var t := Run(max, s, events);
            && t.live == []
            && (s.counter.duration > 0 && events != [] ==> t.counter.timer == Running)
    decreases |s.live|
  {
    hide Run;
    if s.live == [] {
      events := [];
      RunNothing(max, s);
    } else {
      var next, first := FirstLeaves(max, s);
      var rest := AllLeave(max, next);
      events := first + rest;
      RunSplit(max, s, first, rest);
      if rest == [] {
        RunNothing(max, next);
      }
    }
  }

  lemma StartInv(max: int, duration: int)
    ensures Inv(max, Start(duration))
  {
  }

  lemma After(max: int, s: System, e: Event, rest: seq<Event>) returns (next: System)
    requires Inv(max, s)
    ensures next == Step(max, s, e) && Inv(max, next)
    ensures Run(max, s, [e] + rest) == Run(max, next, rest)
  {
    next := Step(max, s, e);
    StepKeepsInv(max, s, e);
    assert ([e] + rest)[1..] == rest;
  }
}
