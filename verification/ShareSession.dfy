/** A shared session end to end: the owner's bridge writes to the master terminal, the
    bridge of every share viewer to a slave of it (route/exec.go, route/share.go).
    Viewers are forked with their own write flag on; only the bridge option of the
    collaborate mode lets their input through. */
module ShareSession {
  import opened Bytes
  import opened WriteArbiter
  import W = WebTty
  import H = History
  import B = BridgeProtocol

  datatype Client = Owner | Viewer(id: nat)

  /** One message from a client's browser, with the clock readings its handling makes. */
  datatype Event = Event(from: Client, message: seq<byte>, check1: int, check2: int, record: int)

  /** `ended` are the clients whose bridge returned an error. */
  datatype Session = Session(arbiter: Arbiter<nat>, input: seq<byte>, sizes: seq<(int, int)>, ended: set<Client>)

  datatype Options = Options(collaborate: bool, parse: W.ParseResize)

  function BridgeConfig(o: Options, c: Client): W.Config {
    W.Config([], c.Owner? || o.collaborate, 0, 0, 0, [], None)
  }

  function Effect(o: Options, e: Event): W.Effect {
    W.Handle(BridgeConfig(o, e.from), o.parse, e.message)
  }

  /** The call of `Write` an event makes: the fork passes `collaborate = true`, so a
      viewer's slave is never read-only. */
  function WriteOf(e: Event, data: seq<byte>): Attempt<nat> {
    Attempt(if e.from.Owner? then Master else Slave(e.from.id), false, e.check1, e.check2, e.record, data)
  }

  /** A resize reaches the container from the owner only: the slave wrapper drops it. */
  function Step(o: Options, s: Session, e: Event): Session {
    if e.from in s.ended then s
    else
      match Effect(o, e)
      case ToSlave(data) =>
        var t := WriteOf(e, data);
        s.(arbiter := WriteArbiter.Step(s.arbiter, t), input := s.input + (if Accepts(s.arbiter, t) then data else []))
      case Resize(columns, rows) => if e.from.Owner? then s.(sizes := s.sizes + [(columns, rows)]) else s
      case Malformed => s.(ended := s.ended + {e.from})
      case _ => s
  }

  function Run(o: Options, s: Session, events: seq<Event>): Session
    decreases |events|
  {
    if events == [] then s else Run(o, Step(o, s, events[0]), events[1..])
  }

  const NEW := Session(Arbiter(Never, Never, None), [], [], {})

  predicate Clocked(now: int, events: seq<Event>)
    decreases |events|
  {
    events == []
    || (&& now <= events[0].check1 <= events[0].check2 <= events[0].record
        && Clocked(events[0].record, events[1..]))
  }

  // ----- viewers without collaboration -----

  function OwnerOnly(events: seq<Event>): seq<Event> {
    if events == [] then []
    else if events[0].from.Owner? then [events[0]] + OwnerOnly(events[1..])
    else OwnerOnly(events[1..])
  }

  /** Equal in what the owner and the container can see. */
  predicate SameForOwner(s: Session, t: Session) {
    s.arbiter == t.arbiter && s.input == t.input && s.sizes == t.sizes && (Owner in s.ended <==> Owner in t.ended)
  }

  /** With collaboration off, erasing every message of every viewer leaves the input of
      the container, the arbiter and the terminal sizes as they are. */
  lemma {:induction false} ViewersDoNotInterfere(o: Options, s: Session, t: Session, events: seq<Event>)
    requires !o.collaborate && SameForOwner(s, t)
    ensures SameForOwner(Run(o, s, events), Run(o, t, OwnerOnly(events)))
    decreases |events|
  {
    if events != [] {
      var e, rest := events[0], OwnerOnly(events[1..]);
      if e.from.Owner? {
        assert ([e] + rest)[1..] == rest;
        ViewersDoNotInterfere(o, Step(o, s, e), Step(o, t, e), events[1..]);
      } else {
        ViewersDoNotInterfere(o, Step(o, s, e), t, events[1..]);
      }
    }
  }

  // ----- viewers in any mode -----

  /** Whether an event writes to the container: a message that carries input, of a client
      whose bridge runs, accepted by the arbiter. */
  predicate Writes(o: Options, s: Session, e: Event) {
    && e.from !in s.ended && Effect(o, e).ToSlave?
    && Accepts(s.arbiter, WriteOf(e, Effect(o, e).data))
  }

  /** Some viewer writes to the container in the run. */
  predicate ViewerWrites(o: Options, s: Session, events: seq<Event>)
    decreases |events|
  {
    events != []
    && ((events[0].from.Viewer? && Writes(o, s, events[0])) || ViewerWrites(o, Step(o, s, events[0]), events[1..]))
  }

  lemma {:induction false} SilentViewersDoNotInterfere(o: Options, s: Session, t: Session, events: seq<Event>)
    requires SameForOwner(s, t) && !ViewerWrites(o, s, events)
    ensures SameForOwner(Run(o, s, events), Run(o, t, OwnerOnly(events)))
    decreases |events|
  {
    hide Effect;
    if events != [] {
      var e, rest := events[0], OwnerOnly(events[1..]);
      if e.from.Owner? {
        assert ([e] + rest)[1..] == rest;
        SilentViewersDoNotInterfere(o, Step(o, s, e), Step(o, t, e), events[1..]);
      } else {
        SilentViewersDoNotInterfere(o, Step(o, s, e), t, events[1..]);
      }
    }
  }

  lemma {:induction false} ViewerLeavesTrace(o: Options, s: Session, events: seq<Event>)
    requires ViewerWrites(o, s, events) || s.arbiter.lastWroteSlave.Some?
    ensures Run(o, s, events).arbiter.lastWroteSlave.Some?
    decreases |events|
  {
    hide Effect;
    if events != [] {
      ViewerLeavesTrace(o, Step(o, s, events[0]), events[1..]);
    }
  }

  lemma {:induction false} OwnerLeavesNone(o: Options, s: Session, events: seq<Event>)
    requires s.arbiter.lastWroteSlave == None
    ensures Run(o, s, OwnerOnly(events)).arbiter.lastWroteSlave == None
    decreases |events|
  {
    hide Effect;
    if events != [] {
      var e, rest := events[0], OwnerOnly(events[1..]);
      if e.from.Owner? {
        assert ([e] + rest)[1..] == rest;
        OwnerLeavesNone(o, Step(o, s, e), events[1..]);
      } else {
        OwnerLeavesNone(o, s, events[1..]);
      }
    }
  }

  /** In any mode, a new session runs for the owner as if there were no viewers if and only
      if no write of a viewer is accepted. */
  lemma ViewersInterfereExactly(o: Options, events: seq<Event>)
    ensures SameForOwner(Run(o, NEW, events), Run(o, NEW, OwnerOnly(events))) <==> !ViewerWrites(o, NEW, events)
  {
    hide Run;
    hide OwnerOnly;
    hide ViewerWrites;
    if ViewerWrites(o, NEW, events) {
      ViewerLeavesTrace(o, NEW, events);
      OwnerLeavesNone(o, NEW, events);
    } else {
      SilentViewersDoNotInterfere(o, NEW, NEW, events);
    }
  }

  // ----- everybody, with or without collaboration -----

  /** The calls of `Write` a run makes. */
  function Attempts(o: Options, s: Session, events: seq<Event>): seq<Attempt<nat>>
    decreases |events|
  {
    if events == [] then []
    else
      var e := events[0];
      var rest := Attempts(o, Step(o, s, e), events[1..]);
      if e.from !in s.ended && Effect(o, e).ToSlave? then [WriteOf(e, Effect(o, e).data)] + rest else rest
  }

  lemma {:induction false} ClockedEarlier(now: int, later: int, attempts: seq<Attempt<nat>>)
    requires now <= later && WriteArbiter.Clocked(later, attempts)
    ensures WriteArbiter.Clocked(now, attempts)
  {
  }

  lemma {:induction false} RunIsArbitrated(o: Options, s: Session, now: int, events: seq<Event>)
    requires Clocked(now, events)
    ensures var attempts := Attempts(o, s, events);
            var end := Run(o, s, events);
            && WriteArbiter.Clocked(now, attempts)
            && end.arbiter == Final(s.arbiter, attempts)
            && end.input == s.input + ContainerInput(Accepted(s.arbiter, attempts))
    decreases |events|
  {
    if events != [] {
      var e := events[0];
      var next := Step(o, s, e);
      var rest := Attempts(o, next, events[1..]);
      RunIsArbitrated(o, next, e.record, events[1..]);
      if e.from !in s.ended && Effect(o, e).ToSlave? {
        var t := WriteOf(e, Effect(o, e).data);
        var all := [t] + rest;
        assert all[1..] == rest;
        if Accepts(s.arbiter, t) {
          var later := Accepted(next.arbiter, rest);
          assert ([Write(t.who, t.record, t.data)] + later)[1..] == later;
          AppendAssociates(s.input, t.data, ContainerInput(later));
        } else {
          assert s.input + [] == s.input;
        }
      } else {
        ClockedEarlier(now, e.record, rest);
      }
    }
  }

  /** Whatever messages any clients send and however they interleave, the container's
      input is a sequence of single-writer sessions at least a second apart. */
  lemma InputIsExclusive(o: Options, now: int, events: seq<Event>)
    requires Clocked(now, events)
    ensures var log := Accepted(NEW.arbiter, Attempts(o, NEW, events));
            && Run(o, NEW, events).input == ContainerInput(log) == Concat(Inputs(Sessions(log)))
            && Exclusive(log) && Alternating(Sessions(log))
  {
    RunIsArbitrated(o, NEW, now, events);
    WriteExclusion(NEW.arbiter, now, Attempts(o, NEW, events));
    InputIsSessions(NEW.arbiter, now, Attempts(o, NEW, events));
    assert [] + Run(o, NEW, events).input == Run(o, NEW, events).input;
  }

  // ----- the same, message by message and client by client -----

  /** What a message does to a session, read off the message: `adds` says whether the arbiter
      lets its input through. */
  predicate StepsByMessage(o: Options, s: Session, e: Event, next: Session, adds: bool) {
    var m := e.message;
    if e.from in s.ended then next == s
    else if m == [] || m[0] !in {W.INPUT, W.PING, W.RESIZE_TERMINAL}
            || (m[0] == W.RESIZE_TERMINAL && (|m| == 1 || o.parse(m[1..]) == None)) then
      next == s.(ended := s.ended + {e.from})
    else if m[0] == W.RESIZE_TERMINAL && e.from == Owner then
      next == s.(sizes := s.sizes + [o.parse(m[1..]).value])
    else if m[0] == W.INPUT && |m| > 1 && (e.from == Owner || o.collaborate) && adds then
      next == s.(input := s.input + m[1..], arbiter := next.arbiter)
    else next == s
  }

  /** An addition to the container's input: whose message it was, when it was recorded, and
      the bytes. */
  datatype Addition = Addition(from: Client, at: int, data: seq<byte>)

  /** What the events add to the input, as the input itself shows it. */
  function Additions(o: Options, s: Session, events: seq<Event>): seq<Addition>
    decreases |events|
  {
    if events == [] then []
    else
      var e, next := events[0], Step(o, s, events[0]);
      var rest := Additions(o, next, events[1..]);
      if |next.input| > |s.input| then [Addition(e.from, e.record, next.input[|s.input|..])] + rest else rest
  }

  function AddedData(additions: seq<Addition>): seq<byte> {
    if additions == [] then [] else additions[0].data + AddedData(additions[1..])
  }

  /** At least a second apart, and more unless a viewer follows the owner. */
  predicate ClientsApart(earlier: Addition, later: Addition) {
    earlier.from != later.from ==>
      && later.at - earlier.at >= SECOND
      && (later.at - earlier.at == SECOND ==> earlier.from == Owner)
  }

  /** An earlier addition is no obstacle to an event. */
  predicate FarBack(earlier: Addition, e: Event) {
    || earlier.from == e.from
    || (e.from == Owner && e.check1 - earlier.at > SECOND)
    || (e.from != Owner && earlier.from == Owner && e.check1 - earlier.at >= SECOND)
    || (e.from != Owner && earlier.from != Owner && e.check2 - earlier.at > SECOND)
  }

  function WriterOf(c: Client): Writer<nat> {
    if c.Owner? then Master else Slave(c.id)
  }

  function AsWrite(a: Addition): Write<nat> {
    Write(WriterOf(a.from), a.at, a.data)
  }

  lemma StepIsByMessage(o: Options, s: Session, e: Event)
    ensures var adds := |Step(o, s, e).input| > |s.input|;
            StepsByMessage(o, s, e, Step(o, s, e), adds)
  {
    W.HandleMeansMessage(BridgeConfig(o, e.from), o.parse, e.message);
    assert s.input + [] == s.input;
  }

  /** The additions are the accepted writes, under the names of the clients. */
  lemma {:induction false} AdditionsAreAccepted(o: Options, s: Session, events: seq<Event>)
    ensures var log := Accepted(s.arbiter, Attempts(o, s, events));
            var additions := Additions(o, s, events);
            && |log| == |additions|
            && forall i | 0 <= i < |log| :: log[i] == AsWrite(additions[i])
    decreases |events|
  {
    hide Accepts;
    hide Effect;
    hide Step;
    hide WriteArbiter.Step;
    if events != [] {
      var e, next := events[0], Step(o, s, events[0]);
      AdditionsAreAccepted(o, next, events[1..]);
      StepAdds(o, s, e);
      StepArbiter(o, s, e);
      var rest := Attempts(o, next, events[1..]);
      if e.from !in s.ended && Effect(o, e).ToSlave? {
        assert ([WriteOf(e, Effect(o, e).data)] + rest)[1..] == rest;
      }
    }
  }

  lemma StepArbiter(o: Options, s: Session, e: Event)
    ensures Step(o, s, e).arbiter
            == if e.from !in s.ended && Effect(o, e).ToSlave? then
                 WriteArbiter.Step(s.arbiter, WriteOf(e, Effect(o, e).data))
               else s.arbiter
  {
  }

  /** One event: its input goes through if and only if the arbiter accepts it. */
  lemma StepAdds(o: Options, s: Session, e: Event)
    ensures var next := Step(o, s, e);
            if Writes(o, s, e) then
              && |next.input| > |s.input|
              && next.input[|s.input|..] == Effect(o, e).data && next.input == s.input + Effect(o, e).data
            else next.input == s.input
  {
    if e.from !in s.ended && Effect(o, e).ToSlave? {
      assert Effect(o, e).data != [];
      assert s.input + [] == s.input;
    }
  }

  lemma {:induction false} InputIsAdditions(o: Options, s: Session, events: seq<Event>)
    ensures Run(o, s, events).input == s.input + AddedData(Additions(o, s, events))
    decreases |events|
  {
    hide Effect;
    hide Accepts;
    hide Step;
    if events == [] {
      assert s.input + [] == s.input;
    } else {
      var next := Step(o, s, events[0]);
      InputIsAdditions(o, next, events[1..]);
      InputGrows(o, s, events[0]);
      AppendAssociates(s.input, next.input[|s.input|..], AddedData(Additions(o, next, events[1..])));
    }
  }

  lemma InputGrows(o: Options, s: Session, e: Event)
    ensures var next := Step(o, s, e); s.input <= next.input && next.input == s.input + next.input[|s.input|..]
  {
    hide Effect;
    hide Accepts;
  }

  /** Whatever messages any clients send and however they interleave: the container's input is
      what they added, and any two additions of different clients are at least a second apart,
      more unless a viewer follows the owner. */
  lemma ClientsExclude(o: Options, now: int, events: seq<Event>)
    requires Clocked(now, events)
    ensures var additions := Additions(o, NEW, events);
            && Run(o, NEW, events).input == AddedData(additions)
            && forall i, j | 0 <= i < j < |additions| :: ClientsApart(additions[i], additions[j])
  {
    hide Run;
    hide Attempts;
    hide Additions;
    hide Accepted;
    var additions := Additions(o, NEW, events);
    var log := Accepted(NEW.arbiter, Attempts(o, NEW, events));
    RunIsArbitrated(o, NEW, now, events);
    WriteExclusion(NEW.arbiter, now, Attempts(o, NEW, events));
    AdditionsAreAccepted(o, NEW, events);
    InputIsAdditions(o, NEW, events);
    assert [] + AddedData(additions) == AddedData(additions);
    forall i, j | 0 <= i < j < |additions| ensures ClientsApart(additions[i], additions[j]) {
      assert Apart(log[i], log[j]);
    }
  }

  function LastRecord(now: int, events: seq<Event>): int {
    if events == [] then now else events[|events| - 1].record
  }

  lemma {:induction false} AttemptsEnd(o: Options, s: Session, now: int, events: seq<Event>)
    requires Clocked(now, events)
    ensures LastReading(now, Attempts(o, s, events)) <= LastRecord(now, events)
    ensures now <= LastRecord(now, events)
    decreases |events|
  {
    hide Effect;
    if events != [] {
      AttemptsEnd(o, Step(o, s, events[0]), events[0].record, events[1..]);
    }
  }

  lemma FarBackIsFarEnough(a: Addition, e: Event, data: seq<byte>)
    ensures FarEnough(AsWrite(a), WriteOf(e, data)) <==> FarBack(a, e)
  {
  }

  /** After any run, the input of a client whose bridge still runs is added if and only if the
      client is the owner or the session is collaborative, and every earlier addition by
      another client is far enough back. */
  lemma ClientWritesExactly(o: Options, now: int, events: seq<Event>, e: Event)
    requires Clocked(now, events) && LastRecord(now, events) <= e.check1 <= e.check2
    requires e.from !in Run(o, NEW, events).ended
    requires |e.message| > 1 && e.message[0] == W.INPUT
    ensures var s := Run(o, NEW, events);
            var allowed := (e.from == Owner || o.collaborate) && forall a <- Additions(o, NEW, events) :: FarBack(a, e);
            Step(o, s, e).input == s.input + (if allowed then e.message[1..] else [])
  {
    hide Run;
    hide Attempts;
    hide Additions;
    hide Accepted;
    hide Accepts;
    hide Final;
    hide FarBack;
    hide FarEnough;
    var s := Run(o, NEW, events);
    var additions := Additions(o, NEW, events);
    var log := Accepted(NEW.arbiter, Attempts(o, NEW, events));
    var t := WriteOf(e, e.message[1..]);
    RunIsArbitrated(o, NEW, now, events);
    AttemptsEnd(o, NEW, now, events);
    AdditionsAreAccepted(o, NEW, events);
    ArbiterIsHistoryRule(now, Attempts(o, NEW, events), t);
    forall a ensures FarEnough(AsWrite(a), t) <==> FarBack(a, e) {
      FarBackIsFarEnough(a, e, e.message[1..]);
    }
    assert HistoryAllows(log, t) <==> forall a <- additions :: FarBack(a, e) by {
      assert forall i | 0 <= i < |log| :: log[i] in log && additions[i] in additions;
    }
    assert s.input + [] == s.input;
  }

  // ----- what a viewer sees -----

  /** A viewer's browser, at the end of a bridge that was fed the reads of its slave:
      it prints the history window, the 24 buffer bytes the replay reports beyond it,
      and then the chunks published since the viewer subscribed, a prefix at any time
      and all of them when nothing is in flight. */
  lemma ViewerPrintsHistoryThenOutput(hubEvents: seq<H.Event>, i: nat, cfg: W.Config, parse: W.ParseResize,
                                      events: seq<B.Event>)
    requires var h := H.Run(H.START, hubEvents); i < |h.viewers| && h.viewers[i].shown != []
    requires B.Taken(cfg, parse, B.Start(cfg), events) == H.Run(H.START, hubEvents).viewers[i].shown
    ensures var h := H.Run(H.START, hubEvents);
            var v := h.viewers[i];
            var bridge := B.Run(cfg, parse, B.Start(cfg), events);
            && v.drainedAt <= |h.published| && v.subscribedAt + v.taken <= |h.published|
            && var expected := H.Window(Concat(h.published[..v.drainedAt])) + Zeros(H.BUFFER - H.WINDOW)
                               + Concat(h.published[v.subscribedAt..v.subscribedAt + v.taken]);
               && bridge.browser.output <= expected
               && (bridge.wire == [] && !B.InFlight(bridge.slaveLoop) ==> bridge.browser.output == expected)
  {
    H.LateJoinerAgrees(hubEvents, i);
    B.OutputFidelity(cfg, parse, events);
    var h := H.Run(H.START, hubEvents);
    var v := h.viewers[i];
    var replay := H.Window(Concat(h.published[..v.drainedAt])) + Zeros(H.BUFFER - H.WINDOW);
    ConcatSplit([replay], h.published[v.subscribedAt..v.subscribedAt + v.taken]);
    assert Concat([replay]) == replay + Concat<byte>([]) == replay;
  }
}
