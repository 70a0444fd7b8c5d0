/** The idle-timeout goroutine of route/exec.go with the timer and the activity channel it
    selects on, as a transition system: the clock, the expiry of the timer, the senders and
    the goroutine take their steps in any order. */
module IdleTimeout {

  /** The buffer of the activity channel. */
  const CAPACITY := 5

  /** `Reset` of Go 1.23 and later withdraws an expiry that was not received yet; before
      that it stayed in the channel. */
  datatype TimerKind = Withdrawing | Legacy

  /** What the goroutine does next: select, or reset the timer for an activity it has
      received. `Off` is an idle time of zero, for which it is never started. */
  datatype Phase = Off | Waiting | Resetting | Cancelled(at: int) | Gone

  /** `posted` and `processed` are the times at which activities were put into the channel
      and taken out of it. */
  datatype Watch = Watch(
    tout: int, start: int, now: int, armed: bool, deadline: int, pending: bool,
    queued: nat, closed: bool, phase: Phase, posted: seq<int>, processed: seq<int>)

  datatype Event =
    | Tick(dt: nat) | Expire | Post | Close
    | SelectTimer | Receive | SelectClosed | Reset

  function Begin(tout: int, start: int): Watch {
    Watch(tout, start, start, tout != 0, start + tout, false, 0, false, if tout == 0 then Off else Waiting, [], [])
  }

  predicate Enabled(w: Watch, e: Event) {
    match e
    case Tick(_) => true
    case Expire => w.armed && w.now >= w.deadline
    case Post => !w.closed && w.queued < CAPACITY
    case Close => !w.closed
    case SelectTimer => w.phase == Waiting && w.pending
    case Receive => w.phase == Waiting && w.queued > 0
    case SelectClosed => w.phase == Waiting && w.queued == 0 && w.closed
    case Reset => w.phase == Resetting
  }

  /** An event that cannot happen changes nothing. When several channels are ready, the
      `select` may take any of them. */
  function Step(kind: TimerKind, w: Watch, e: Event): Watch {
    if !Enabled(w, e) then w
    else
      match e
      case Tick(dt) => w.(now := w.now + dt)
      case Expire => w.(armed := false, pending := true)
      case Post => w.(queued := w.queued + 1, posted := w.posted + [w.now])
      case Close => w.(closed := true)
      case SelectTimer => w.(armed := false, pending := false, phase := Cancelled(w.now))
      case Receive => w.(queued := w.queued - 1, phase := Resetting, processed := w.processed + [w.now])
      case SelectClosed => w.(phase := Gone)
      case Reset =>
        w.(armed := true, deadline := w.now + w.tout, pending := kind == Legacy && w.pending, phase := Waiting)
  }

  function Run(kind: TimerKind, w: Watch, events: seq<Event>): Watch
    decreases |events|
  {
    if events == [] then w else Run(kind, Step(kind, w, events[0]), events[1..])
  }

  // ----- the objects behind the steps -----

  /** The timer, the channel and the goroutine on the fields they update. */
  class IdleWatch {
    const tout: int
    const start: int
    var now: int
    var armed: bool
    var deadline: int
    var pending: bool
    var queued: nat
    var closed: bool
    var phase: Phase
    var posted: seq<int>
    var processed: seq<int>

    function View(): Watch
      reads this
    {
      Watch(tout, start, now, armed, deadline, pending, queued, closed, phase, posted, processed)
    }

    constructor (tout: int, start: int)
      ensures View() == Begin(tout, start)
    {
      this.tout, this.start, now, deadline := tout, start, start, start + tout;
      armed, pending, queued, closed, posted, processed := tout != 0, false, 0, false, [], [];
      phase := if tout == 0 then Off else Waiting;
    }

    /** The timer branch of the `select`. */
    method TimerFired()
      modifies this
      ensures View() == Step(Withdrawing, old(View()), SelectTimer)
    {
      if phase == Waiting && pending {
        pending := false;
        armed := false;
        phase := Cancelled(now);
      }
    }

    /** The activity branch: a value, or the end of the channel. */
    method Received()
      modifies this
      ensures View() == Step(Withdrawing, old(View()), if old(queued) > 0 then Receive else SelectClosed)
    {
      if phase == Waiting {
        if queued > 0 {
          queued := queued - 1;
          processed := processed + [now];
          phase := Resetting;
        } else if closed {
          phase := Gone;
        }
      }
    }

    method ResetTimer()
      modifies this
      ensures View() == Step(Withdrawing, old(View()), Reset)
    {
      if phase == Resetting {
        pending := false;
        armed := true;
        deadline := now + tout;
        phase := Waiting;
      }
    }

    /** What happens around the goroutine: time passes, the timer expires, a reader posts
        an activity, the terminal closes the channel. */
    method Outside(e: Event)
      requires e.Tick? || e.Expire? || e.Post? || e.Close?
      modifies this
      ensures View() == Step(Withdrawing, old(View()), e)
    {
      match e
      case Tick(dt) => now := now + dt;
      case Expire => if armed && now >= deadline { armed, pending := false, true; }
      case Post => if !closed && queued < CAPACITY { queued, posted := queued + 1, posted + [now]; }
      case Close => closed := true;
    }

    /** The goroutine's loop, with the steps around it in the order of `schedule`. */
    method Loop(schedule: seq<Event>)
      modifies this
      ensures View() == Run(Withdrawing, old(View()), schedule)
    {
      hide Step;
      var i := 0;
      assert schedule[0..] == schedule;
      while i < |schedule|
        invariant 0 <= i <= |schedule|
        invariant Run(Withdrawing, View(), schedule[i..]) == Run(Withdrawing, old(View()), schedule)
      {
        ghost var rest := schedule[i..];
        assert rest[0] == schedule[i] && rest[1..] == schedule[i + 1..];
        Take(schedule[i]);
        i := i + 1;
      }
      assert schedule[i..] == [];
    }

    method Take(e: Event)
      modifies this
      ensures View() == Step(Withdrawing, old(View()), e)
    {
      match e
      case SelectTimer => TimerFired();
      case Receive => if queued > 0 { Received(); }
      case SelectClosed => if queued == 0 { Received(); }
      case Reset => ResetTimer();
      case _ => Outside(e);
    }
  }

  // ----- the invariant -----

  predicate AtLeastAfter(times: seq<int>, tout: int, at: int) {
    forall i | 0 <= i < |times| :: at >= times[i] + tout
  }

  /** While the goroutine waits, the deadline leaves the idle time after the start and after
      every activity processed, an expiry is delivered only when the deadline has passed, and
      one is to come. While it is resetting, an expiry of the old deadline may be there. */
  predicate Inv(w: Watch) {
    && w.start <= w.now
    && (forall i | 0 <= i < |w.processed| :: w.processed[i] <= w.now)
    && (w.phase == Off ==> w.tout == 0)
    && (w.phase == Waiting ==>
          && w.deadline >= w.start + w.tout && AtLeastAfter(w.processed, w.tout, w.deadline)
          && w.deadline <= w.now + w.tout
          && (w.pending ==> w.now >= w.deadline)
          && (w.armed || w.pending))
    && (w.phase.Cancelled? ==>
          && w.tout != 0 && w.phase.at <= w.now
          && w.phase.at >= w.start + w.tout && AtLeastAfter(w.processed, w.tout, w.phase.at))
    && (w.tout == 0 ==> w.phase == Off)
  }

  lemma StepKeepsInv(w: Watch, e: Event)
    requires Inv(w)
    ensures var next := Step(Withdrawing, w, e); Inv(next) && next.tout == w.tout && next.start == w.start
  {
  }

  lemma {:induction false} RunKeepsInv(w: Watch, events: seq<Event>)
    requires Inv(w)
    ensures Inv(Run(Withdrawing, w, events))
    ensures var end := Run(Withdrawing, w, events); end.tout == w.tout && end.start == w.start
    decreases |events|
  {
    hide Inv;
    hide Step;
    if events != [] {
      StepKeepsInv(w, events[0]);
      RunKeepsInv(Step(Withdrawing, w, events[0]), events[1..]);
    }
  }

  // ----- safety -----

  /** In every run, a session is cancelled only when there is an idle time, and no earlier
      than the idle time after the start and after every activity processed. */
  lemma NoEarlyCancel(tout: int, start: int, events: seq<Event>)
    ensures var w := Run(Withdrawing, Begin(tout, start), events);
            w.phase.Cancelled? ==>
              && tout != 0 && w.phase.at >= start + tout
              && AtLeastAfter(w.processed, tout, w.phase.at)
  {
    RunKeepsInv(Begin(tout, start), events);
  }

  /** Once the goroutine has seen the channel closed, or has cancelled, it does nothing
      any more, whatever happens: it cancels at most once, and never after the close. */
  lemma {:induction false} EndsForGood(kind: TimerKind, w: Watch, events: seq<Event>)
    requires w.phase.Gone? || w.phase.Cancelled? || w.phase.Off?
    ensures Run(kind, w, events).phase == w.phase && Run(kind, w, events).processed == w.processed
    decreases |events|
  {
    if events != [] {
      EndsForGood(kind, Step(kind, w, events[0]), events[1..]);
    }
  }

  /** In every run, once the goroutine has taken the end of the channel, the session is never
      cancelled and no activity processed, whatever comes after. */
  lemma ClosedIsFinal(tout: int, start: int, before: seq<Event>, after: seq<Event>)
    requires Enabled(Run(Withdrawing, Begin(tout, start), before), SelectClosed)
    ensures var w := Run(Withdrawing, Begin(tout, start), before);
            var end := Run(Withdrawing, Begin(tout, start), before + [SelectClosed] + after);
            !end.phase.Cancelled? && end.processed == w.processed
  {
    hide Run;
    var w := Run(Withdrawing, Begin(tout, start), before);
    RunSplit(Withdrawing, Begin(tout, start), before + [SelectClosed], after);
    RunSplit(Withdrawing, Begin(tout, start), before, [SelectClosed]);
    RunOne(Withdrawing, w, SelectClosed);
    EndsForGood(Withdrawing, Step(Withdrawing, w, SelectClosed), after);
  }

  /** From every state in which it waits, a close ends the goroutine: it can take what is still
      in the channel, and then the end of it. */
  lemma CloseEnds(w: Watch) returns (events: seq<Event>)
    requires w.phase == Waiting
    ensures Run(Withdrawing, w, [Close] + events).phase == Gone
    ensures forall e <- events :: e in {Receive, Reset, SelectClosed}
  {
    hide Run;
    var closed := Step(Withdrawing, w, Close);
    events := DrainThenGone(closed);
    RunSplit(Withdrawing, w, [Close], events);
    RunOne(Withdrawing, w, Close);
  }

  lemma {:induction false} DrainThenGone(w: Watch) returns (events: seq<Event>)
    requires w.phase == Waiting && w.closed
    ensures Run(Withdrawing, w, events).phase == Gone
    ensures forall e <- events :: e in {Receive, Reset, SelectClosed}
    decreases w.queued
  {
    hide Run;
    if w.queued == 0 {
      events := [SelectClosed];
      RunOne(Withdrawing, w, SelectClosed);
    } else {
      var next := Step(Withdrawing, w, Receive);
      var again := Step(Withdrawing, next, Reset);
      var rest := DrainThenGone(again);
      events := [Receive] + ([Reset] + rest);
      RunSplit(Withdrawing, w, [Receive], [Reset] + rest);
      RunSplit(Withdrawing, next, [Reset], rest);
      RunOne(Withdrawing, w, Receive);
      RunOne(Withdrawing, next, Reset);
    }
  }

  lemma RunOne(kind: TimerKind, w: Watch, e: Event)
    ensures Run(kind, w, [e]) == Step(kind, w, e)
  {
    hide Step;
    assert [e][1..] == [];
  }

  // ----- a session that stays idle is cancelled -----

  /** From every reachable state in which the goroutine waits and nothing is in the channel,
      the timer is the only thing left to wait for, and it cancels the session no later than
      the idle time from now. */
  lemma IdleSessionIsCancelled(tout: int, start: int, events: seq<Event>) returns (dt: nat)
    requires var w := Run(Withdrawing, Begin(tout, start), events);
             w.phase == Waiting && w.queued == 0 && !w.closed
    ensures var w := Run(Withdrawing, Begin(tout, start), events);
            && !Enabled(w, Receive) && !Enabled(w, SelectClosed) && !Enabled(w, Reset)
            && (dt == 0 || dt <= tout)
            && Run(Withdrawing, w, [Tick(dt), Expire, SelectTimer]).phase == Cancelled(w.now + dt)
  {
    var w := Run(Withdrawing, Begin(tout, start), events);
    RunKeepsInv(Begin(tout, start), events);
    dt := if w.deadline <= w.now then 0 else w.deadline - w.now;
    RunThree(Withdrawing, w, Tick(dt), Expire, SelectTimer);
  }

  lemma RunThree(kind: TimerKind, w: Watch, a: Event, b: Event, c: Event)
    ensures Run(kind, w, [a, b, c]) == Step(kind, Step(kind, Step(kind, w, a), b), c)
  {
    hide Step;
    var w1 := Step(kind, w, a);
    var w2 := Step(kind, w1, b);
    assert [a, b, c][1..] == [b, c] && [b, c][1..] == [c] && [c][1..] == [];
    assert Run(kind, w1, [b, c]) == Run(kind, w2, [c]);
    assert Run(kind, Step(kind, w2, c), []) == Step(kind, w2, c);
  }

  lemma {:induction false} RunSplit(kind: TimerKind, w: Watch, x: seq<Event>, y: seq<Event>)
    ensures Run(kind, w, x + y) == Run(kind, Run(kind, w, x), y)
    decreases |x|
  {
    hide Step;
    if x == [] {
      assert x + y == y;
    } else {
      assert (x + y)[1..] == x[1..] + y;
      RunSplit(kind, Step(kind, w, x[0]), x[1..], y);
    }
  }

  // ----- where the limits are -----

  /** Some `Reset` of the run finds an expiry that was not received. */
  predicate ResetsPending(kind: TimerKind, w: Watch, events: seq<Event>)
    decreases |events|
  {
    events != []
    && ((events[0] == Reset && w.phase == Resetting && w.pending)
        || ResetsPending(kind, Step(kind, w, events[0]), events[1..]))
  }

  /** The two kinds of timer differ only in runs where a `Reset` finds an expiry pending. */
  lemma {:induction false} LegacyAgreesUnlessPending(w: Watch, events: seq<Event>)
    requires !ResetsPending(Withdrawing, w, events)
    ensures Run(Legacy, w, events) == Run(Withdrawing, w, events)
    decreases |events|
  {
    if events != [] {
      StepsAgree(w, events[0]);
      LegacyAgreesUnlessPending(Step(Withdrawing, w, events[0]), events[1..]);
    }
  }

  /** Wherever a `Reset` finds an expiry pending, the legacy timer can cancel at once, right
      after an activity, and the withdrawing one cannot. */
  lemma {:induction false} LegacyDiffersWhenPending(w: Watch, events: seq<Event>) returns (k: nat)
    requires ResetsPending(Withdrawing, w, events)
    ensures k <= |events|
    ensures var now := Run(Withdrawing, w, events[..k]).now;
            && Run(Legacy, w, events[..k] + [SelectTimer]).phase == Cancelled(now)
            && Run(Withdrawing, w, events[..k] + [SelectTimer]).phase == Waiting
    decreases |events|
  {
    var e, next := events[0], Step(Withdrawing, w, events[0]);
    if e == Reset && w.phase == Resetting && w.pending {
      k := 1;
      assert events[..1] == [e] && [e][1..] == [];
      assert ([e] + [SelectTimer])[1..] == [SelectTimer] && [SelectTimer][1..] == [];
    } else {
      hide Step;
      var rest := LegacyDiffersWhenPending(next, events[1..]);
      k := rest + 1;
      assert events[..k] == [e] + events[1..][..rest];
      RunCons(w, e, events[1..][..rest]);
      RunCons(w, e, events[1..][..rest] + [SelectTimer]);
      assert [e] + (events[1..][..rest] + [SelectTimer]) == events[..k] + [SelectTimer];
      StepsAgree(w, e);
    }
  }

  lemma StepsAgree(w: Watch, e: Event)
    requires !(e == Reset && w.phase == Resetting && w.pending)
    ensures Step(Legacy, w, e) == Step(Withdrawing, w, e)
  {
  }

  lemma RunCons(w: Watch, e: Event, rest: seq<Event>)
    ensures forall kind :: Run(kind, w, [e] + rest) == Run(kind, Step(kind, w, e), rest)
  {
    hide Step;
    assert ([e] + rest)[1..] == rest;
  }

  /** For every idle time there is such a run: the timer expires, but the `select` takes the
      activity that came at the same time. */
  lemma LegacyRunCancelsEarly(tout: nat, start: int)
    requires tout > 0
    ensures var events := [Tick(tout), Expire, Post] + [Receive, Reset, SelectTimer];
            && Run(Withdrawing, Begin(tout, start), events).phase == Waiting
            && var w := Run(Legacy, Begin(tout, start), events);
               w.phase == Cancelled(start + tout) && w.processed == [start + tout]
  {
    LateActivity(Legacy, tout, start);
    LateActivity(Withdrawing, tout, start);
  }

  lemma LateActivity(kind: TimerKind, tout: nat, start: int)
    requires tout > 0
    ensures var w := Run(kind, Begin(tout, start), [Tick(tout), Expire, Post] + [Receive, Reset, SelectTimer]);
            && w.processed == [start + tout]
            && w.phase == if kind == Legacy then Cancelled(start + tout) else Waiting
  {
    hide Run;
    var w := Begin(tout, start);
    RunSplit(kind, w, [Tick(tout), Expire, Post], [Receive, Reset, SelectTimer]);
    RunThree(kind, w, Tick(tout), Expire, Post);
    RunThree(kind, Step(kind, Step(kind, Step(kind, w, Tick(tout)), Expire), Post), Receive, Reset, SelectTimer);
  }

  // ----- activities still in the channel -----

  /** The channel is a queue: what was taken out of it was posted before, in that order. */
  predicate ChannelInv(w: Watch) {
    && |w.posted| == |w.processed| + w.queued
    && (forall i | 0 <= i < |w.processed| :: w.posted[i] <= w.processed[i])
    && forall i | 0 <= i < |w.posted| :: w.posted[i] <= w.now
  }

  lemma {:induction false} RunKeepsChannel(kind: TimerKind, w: Watch, events: seq<Event>)
    requires ChannelInv(w)
    ensures ChannelInv(Run(kind, w, events))
    decreases |events|
  {
    if events != [] {
      StepKeepsChannel(kind, w, events[0]);
      RunKeepsChannel(kind, Step(kind, w, events[0]), events[1..]);
    }
  }

  lemma StepKeepsChannel(kind: TimerKind, w: Watch, e: Event)
    requires ChannelInv(w)
    ensures ChannelInv(Step(kind, w, e))
  {
  }

  /** The activities still in the channel. */
  function Unseen(w: Watch): seq<int>
    requires w.queued <= |w.posted|
  {
    w.posted[|w.posted| - w.queued..]
  }

  /** In every run, whenever the goroutine can cancel: cancelling leaves the idle time after
      every activity that was posted if and only if it does after those still in the
      channel. The goroutine cancels without looking at them. */
  lemma PostedActivitiesExactly(tout: int, start: int, events: seq<Event>)
    requires Enabled(Run(Withdrawing, Begin(tout, start), events), SelectTimer)
    ensures var w := Run(Withdrawing, Begin(tout, start), events);
            && w.queued <= |w.posted|
            && Step(Withdrawing, w, SelectTimer).phase == Cancelled(w.now)
            && (AtLeastAfter(w.posted, tout, w.now) <==> AtLeastAfter(Unseen(w), tout, w.now))
            && (w.queued == 0 ==> AtLeastAfter(w.posted, tout, w.now))
  {
    hide Run;
    var w := Run(Withdrawing, Begin(tout, start), events);
    RunKeepsInv(Begin(tout, start), events);
    RunKeepsChannel(Withdrawing, Begin(tout, start), events);
    SeenAreRespected(w);
  }

  lemma SeenAreRespected(w: Watch)
    requires Inv(w) && ChannelInv(w) && Enabled(w, SelectTimer)
    ensures AtLeastAfter(w.posted, w.tout, w.now) <==> AtLeastAfter(Unseen(w), w.tout, w.now)
  {
    var seen := |w.processed|;
    if AtLeastAfter(Unseen(w), w.tout, w.now) {
      forall i | 0 <= i < |w.posted| ensures w.now >= w.posted[i] + w.tout {
        if i >= seen {
          assert w.posted[i] == Unseen(w)[i - seen];
        }
      }
    }
  }

  /** Such activities exist: for every idle time there is a run that cancels although an
      activity was posted the moment before. */
  lemma PostedActivityMayBeIgnored(tout: nat, start: int)
    requires tout > 0
    ensures var w := Run(Withdrawing, Begin(tout, start), [Tick(tout)] + [Post, Expire, SelectTimer]);
            w.phase == Cancelled(start + tout) && w.posted == [start + tout] && w.processed == []
  {
    var w := Begin(tout, start);
    assert ([Tick(tout)] + [Post, Expire, SelectTimer])[1..] == [Post, Expire, SelectTimer];
    RunThree(Withdrawing, Step(Withdrawing, w, Tick(tout)), Post, Expire, SelectTimer);
  }
}
