/** The two loops of a WebTTY server and the browser at the other end, step by step:
    the slave-read loop and the message loop share one connection under a write mutex,
    a frame is put on the wire piece by piece, and the browser takes whole frames. */
module BridgeProtocol {
  import opened Bytes
  import opened WebTty
  import Base64

  // ----- the browser -----

  /** What the terminal has printed and what was set (js/src/webtty.ts). */
  datatype Browser = Browser(
    output: seq<byte>, title: Option<seq<byte>>, prefs: Option<seq<byte>>, reconnect: Option<seq<byte>>)

  function OnReceive(b: Browser, data: Message): Browser {
    if data == [] then b
    else
      var payload := data[1..];
      if data[0] == OUTPUT then
        match Base64.Decode(payload)
        case Some(text) => b.(output := b.output + text)
        case None => b
      else if data[0] == SET_WINDOW_TITLE then b.(title := Some(payload))
      else if data[0] == SET_PREFERENCES then b.(prefs := Some(payload))
      else if data[0] == SET_RECONNECT then b.(reconnect := Some(payload))
      else b
  }

  function ReceiveAll(b: Browser, frames: seq<Message>): Browser
    decreases |frames|
  {
    if frames == [] then b else ReceiveAll(OnReceive(b, frames[0]), frames[1..])
  }

  lemma {:induction false} ReceiveSnoc(b: Browser, frames: seq<Message>, f: Message)
    ensures ReceiveAll(b, frames + [f]) == OnReceive(ReceiveAll(b, frames), f)
    decreases |frames|
  {
    if frames == [] {
      assert ([] + [f])[1..] == [];
    } else {
      assert (frames + [f])[1..] == frames[1..] + [f];
      ReceiveSnoc(OnReceive(b, frames[0]), frames[1..], f);
    }
  }

  /** The browser inverts the server's framing of a chunk. */
  lemma OutputIsPrinted(b: Browser, chunk: seq<byte>)
    ensures OnReceive(b, OutputFrame(chunk)) == b.(output := b.output + chunk)
  {
    Base64.RoundTrip(chunk);
    assert OutputFrame(chunk)[1..] == Base64.Encode(chunk);
  }

  const BLANK := Browser([], None, None, None)

  /** What the browser is to be set to before any output. */
  function Configured(cfg: Config): Browser {
    Browser([],
            if |cfg.windowTitle| != 0 then Some(cfg.windowTitle) else None,
            cfg.masterPrefs,
            if cfg.reconnect > 0 then Some(cfg.reconnectJson) else None)
  }

  lemma InitConfigures(cfg: Config)
    ensures ReceiveAll(BLANK, InitFrames(cfg)) == Configured(cfg)
  {
    var t := if |cfg.windowTitle| != 0 then [[SET_WINDOW_TITLE] + cfg.windowTitle] else [];
    var r := if cfg.reconnect > 0 then [[SET_RECONNECT] + cfg.reconnectJson] else [];
    if |cfg.windowTitle| != 0 {
      ReceiveSnoc(BLANK, [], [SET_WINDOW_TITLE] + cfg.windowTitle);
      assert [] + t == t;
    }
    if cfg.reconnect > 0 {
      ReceiveSnoc(BLANK, t, [SET_RECONNECT] + cfg.reconnectJson);
    } else {
      assert t + r == t;
    }
    if cfg.masterPrefs.Some? {
      ReceiveSnoc(BLANK, t + r, [SET_PREFERENCES] + cfg.masterPrefs.value);
    } else {
      assert InitFrames(cfg) == t + r;
    }
  }

  // ----- the two loops -----

  datatype Loop = SlaveLoop | MessageLoop

  /** Where a loop is: waiting for input, holding a frame to send, sending it under
      the mutex with `sent` bytes on the wire, or returned. */
  datatype Pc = Waiting | Holding(frame: Message) | Sending(frame: Message, sent: nat) | Returned

  /** `lock` is the write mutex, `open` the message under construction, `wire` the
      complete messages in flight, `received` those that arrived, `read` the chunks the
      slave delivered so far. */
  datatype Bridge = Bridge(
    slaveLoop: Pc, messageLoop: Pc, lock: Option<Loop>, open: Message, wire: seq<Message>,
    received: seq<Message>, browser: Browser, read: seq<seq<byte>>)
  {
    function At(l: Loop): Pc {
      if l.SlaveLoop? then slaveLoop else messageLoop
    }

    function Moved(l: Loop, pc: Pc): Bridge {
      if l.SlaveLoop? then this.(slaveLoop := pc) else this.(messageLoop := pc)
    }
  }

  datatype Event =
    | SlaveChunk(chunk: seq<byte>)
    | SlaveClosed
    | BrowserMessage(m: Message)
    | BrowserClosed
    | Acquire(l: Loop)
    | SendByte(l: Loop)
    | Release(l: Loop)
    | Deliver

  /** A step that is not possible where the loops stand changes nothing. */
  function Step(cfg: Config, parse: ParseResize, s: Bridge, e: Event): Bridge {
    match e
    case SlaveChunk(chunk) =>
      if s.slaveLoop != Waiting then s
      else s.(slaveLoop := Holding(OutputFrame(chunk)), read := s.read + [chunk])
    case SlaveClosed => if s.slaveLoop != Waiting then s else s.(slaveLoop := Returned)
    case BrowserMessage(m) =>
      if s.messageLoop != Waiting then s
      else
        (match Handle(cfg, parse, m)
         case SendPong => s.(messageLoop := Holding(PONG_FRAME))
         case Malformed => s.(messageLoop := Returned)
         case _ => s)
    case BrowserClosed => if s.messageLoop != Waiting then s else s.(messageLoop := Returned)
    case Acquire(l) =>
      if !s.At(l).Holding? || s.lock.Some? then s
      else s.Moved(l, Sending(s.At(l).frame, 0)).(lock := Some(l), open := [])
    case SendByte(l) =>
      var pc := s.At(l);
      if !pc.Sending? || pc.sent >= |pc.frame| then s
      else s.Moved(l, Sending(pc.frame, pc.sent + 1)).(open := s.open + [pc.frame[pc.sent]])
    case Release(l) =>
      var pc := s.At(l);
      if !pc.Sending? || pc.sent < |pc.frame| then s
      else s.Moved(l, Waiting).(lock := None, open := [], wire := s.wire + [s.open])
    case Deliver =>
      if s.wire == [] then s
      else s.(browser := OnReceive(s.browser, s.wire[0]), received := s.received + [s.wire[0]], wire := s.wire[1..])
  }

  /** The loops start after the initial messages are written. */
  function Start(cfg: Config): Bridge {
    Bridge(Waiting, Waiting, None, [], InitFrames(cfg), [], BLANK, [])
  }

  function Run(cfg: Config, parse: ParseResize, s: Bridge, events: seq<Event>): Bridge
    decreases |events|
  {
    if events == [] then s else Run(cfg, parse, Step(cfg, parse, s, events[0]), events[1..])
  }

  // ----- the invariant -----

  predicate InFlight(pc: Pc) {
    pc.Holding? || pc.Sending?
  }

  /** The mutex: a loop is sending exactly when it holds the lock, and the message under
      construction is the part of its own frame it has sent. */
  predicate MutexOk(s: Bridge) {
    && (s.slaveLoop.Sending? <==> s.lock == Some(SlaveLoop))
    && (s.messageLoop.Sending? <==> s.lock == Some(MessageLoop))
    && (s.slaveLoop.Sending? ==>
          s.slaveLoop.sent <= |s.slaveLoop.frame| && s.open == s.slaveLoop.frame[..s.slaveLoop.sent])
    && (s.messageLoop.Sending? ==>
          s.messageLoop.sent <= |s.messageLoop.frame| && s.open == s.messageLoop.frame[..s.messageLoop.sent])
  }

  /** The chunk the slave loop has read but not put on the wire. */
  function Unsent(s: Bridge): seq<seq<byte>> {
    if InFlight(s.slaveLoop) && s.read != [] then [s.read[|s.read| - 1]] else []
  }

  function Sent(s: Bridge): seq<seq<byte>> {
    s.read[..|s.read| - |Unsent(s)|]
  }

  ghost predicate Inv(cfg: Config, s: Bridge) {
    && MutexOk(s)
    && (InFlight(s.messageLoop) ==> s.messageLoop.frame == PONG_FRAME)
    && (InFlight(s.slaveLoop) ==> s.read != [] && s.slaveLoop.frame == OutputFrame(s.read[|s.read| - 1]))
    && ReceiveAll(s.browser, s.wire) == Configured(cfg).(output := Concat(Sent(s)))
  }

  lemma SlaveReleaseKeepsInv(cfg: Config, parse: ParseResize, s: Bridge)
    requires Inv(cfg, s) && s.slaveLoop.Sending? && s.slaveLoop.sent == |s.slaveLoop.frame|
    ensures Inv(cfg, Step(cfg, parse, s, Release(SlaveLoop)))
  {
    hide ReceiveAll;
    hide OnReceive;
    hide OutputFrame;
    hide Concat;
    var frame, chunk := s.slaveLoop.frame, s.read[|s.read| - 1];
    assert s.open == frame;
    ReceiveSnoc(s.browser, s.wire, frame);
    OutputIsPrinted(ReceiveAll(s.browser, s.wire), chunk);
    ConcatSnoc(Sent(s), chunk);
    assert s.read == Sent(s) + [chunk];
    assert Sent(Step(cfg, parse, s, Release(SlaveLoop))) == s.read;
  }

  lemma PongReleaseKeepsInv(cfg: Config, parse: ParseResize, s: Bridge)
    requires Inv(cfg, s) && s.messageLoop.Sending? && s.messageLoop.sent == |s.messageLoop.frame|
    ensures Inv(cfg, Step(cfg, parse, s, Release(MessageLoop)))
  {
    assert s.open == PONG_FRAME;
    ReceiveSnoc(s.browser, s.wire, PONG_FRAME);
    assert OnReceive(ReceiveAll(s.browser, s.wire), PONG_FRAME) == ReceiveAll(s.browser, s.wire);
    assert Sent(Step(cfg, parse, s, Release(MessageLoop))) == Sent(s);
  }

  lemma SendKeepsInv(cfg: Config, parse: ParseResize, s: Bridge, l: Loop)
    requires Inv(cfg, s)
    ensures Inv(cfg, Step(cfg, parse, s, Acquire(l))) && Inv(cfg, Step(cfg, parse, s, SendByte(l)))
  {
    hide ReceiveAll;
    hide Configured;
    hide OutputFrame;
    hide Concat;
    var pc := s.At(l);
    assert Sent(Step(cfg, parse, s, Acquire(l))) == Sent(s) == Sent(Step(cfg, parse, s, SendByte(l)));
    if pc.Sending? && pc.sent < |pc.frame| {
      assert pc.frame[..pc.sent + 1] == pc.frame[..pc.sent] + [pc.frame[pc.sent]];
    }
  }

  lemma ChunkKeepsInv(cfg: Config, parse: ParseResize, s: Bridge, chunk: seq<byte>)
    requires Inv(cfg, s)
    ensures Inv(cfg, Step(cfg, parse, s, SlaveChunk(chunk)))
  {
    hide ReceiveAll;
    hide Configured;
    hide OutputFrame;
    hide Concat;
    if s.slaveLoop == Waiting {
      assert Sent(Step(cfg, parse, s, SlaveChunk(chunk))) == s.read == Sent(s);
    }
  }

  lemma MessageKeepsInv(cfg: Config, parse: ParseResize, s: Bridge, m: Message)
    requires Inv(cfg, s)
    ensures Inv(cfg, Step(cfg, parse, s, BrowserMessage(m)))
  {
    hide ReceiveAll;
    hide Configured;
    hide OutputFrame;
    hide Concat;
    hide Handle;
    assert Sent(Step(cfg, parse, s, BrowserMessage(m))) == Sent(s);
  }

  lemma ClosedKeepsInv(cfg: Config, parse: ParseResize, s: Bridge, e: Event)
    requires Inv(cfg, s) && (e == SlaveClosed || e == BrowserClosed)
    ensures Inv(cfg, Step(cfg, parse, s, e))
  {
    hide ReceiveAll;
    hide Configured;
    hide OutputFrame;
    hide Concat;
    assert Sent(Step(cfg, parse, s, e)) == Sent(s);
  }

  lemma DeliverKeepsInv(cfg: Config, parse: ParseResize, s: Bridge)
    requires Inv(cfg, s)
    ensures Inv(cfg, Step(cfg, parse, s, Deliver))
  {
    hide OnReceive;
    hide Configured;
    hide OutputFrame;
    hide Concat;
    assert Sent(Step(cfg, parse, s, Deliver)) == Sent(s);
  }

  lemma ReleaseKeepsInv(cfg: Config, parse: ParseResize, s: Bridge, l: Loop)
    requires Inv(cfg, s)
    ensures Inv(cfg, Step(cfg, parse, s, Release(l)))
  {
    hide ReceiveAll;
    hide Configured;
    hide OutputFrame;
    hide Concat;
    if s.At(l).Sending? && s.At(l).sent >= |s.At(l).frame| {
      if l.SlaveLoop? {
        SlaveReleaseKeepsInv(cfg, parse, s);
      } else {
        PongReleaseKeepsInv(cfg, parse, s);
      }
    }
  }

  lemma StepKeepsInv(cfg: Config, parse: ParseResize, s: Bridge, e: Event)
    requires Inv(cfg, s)
    ensures Inv(cfg, Step(cfg, parse, s, e))
  {
    hide Inv;
    hide Step;
    match e
    case SlaveChunk(chunk) => ChunkKeepsInv(cfg, parse, s, chunk);
    case BrowserMessage(m) => MessageKeepsInv(cfg, parse, s, m);
    case Acquire(l) => SendKeepsInv(cfg, parse, s, l);
    case SendByte(l) => SendKeepsInv(cfg, parse, s, l);
    case Release(l) => ReleaseKeepsInv(cfg, parse, s, l);
    case SlaveClosed => ClosedKeepsInv(cfg, parse, s, e);
    case BrowserClosed => ClosedKeepsInv(cfg, parse, s, e);
    case Deliver => DeliverKeepsInv(cfg, parse, s);
  }

  lemma {:induction false} RunKeepsInv(cfg: Config, parse: ParseResize, s: Bridge, events: seq<Event>)
    requires Inv(cfg, s)
    ensures Inv(cfg, Run(cfg, parse, s, events))
    decreases |events|
  {
    if events != [] {
      StepKeepsInv(cfg, parse, s, events[0]);
      RunKeepsInv(cfg, parse, Step(cfg, parse, s, events[0]), events[1..]);
    }
  }

  lemma StartInv(cfg: Config)
    ensures Inv(cfg, Start(cfg))
  {
    InitConfigures(cfg);
  }

  lemma {:induction false} OutputGrows(b: Browser, frames: seq<Message>)
    ensures b.output <= ReceiveAll(b, frames).output
    decreases |frames|
  {
    if frames != [] {
      OutputGrows(OnReceive(b, frames[0]), frames[1..]);
    }
  }

  lemma ReceiveNothing(b: Browser)
    ensures ReceiveAll(b, []) == b
  {
  }

  // ----- what was taken from either end -----

  /** The chunks the slave delivered: those it had ready while the slave loop waited. */
  function Taken(cfg: Config, parse: ParseResize, s: Bridge, events: seq<Event>): seq<seq<byte>>
    decreases |events|
  {
    if events == [] then []
    else
      var rest := Taken(cfg, parse, Step(cfg, parse, s, events[0]), events[1..]);
      if events[0].SlaveChunk? && s.slaveLoop == Waiting then [events[0].chunk] + rest else rest
  }

  /** The messages the message loop took: those the browser had sent while it waited. */
  function Heard(cfg: Config, parse: ParseResize, s: Bridge, events: seq<Event>): seq<Message>
    decreases |events|
  {
    if events == [] then []
    else
      var rest := Heard(cfg, parse, Step(cfg, parse, s, events[0]), events[1..]);
      if events[0].BrowserMessage? && s.messageLoop == Waiting then [events[0].m] + rest else rest
  }

  lemma {:induction false} ReadIsTaken(cfg: Config, parse: ParseResize, s: Bridge, events: seq<Event>)
    ensures Run(cfg, parse, s, events).read == s.read + Taken(cfg, parse, s, events)
    decreases |events|
  {
    hide OutputFrame;
    hide OnReceive;
    hide Handle;
    if events != [] {
      ReadIsTaken(cfg, parse, Step(cfg, parse, s, events[0]), events[1..]);
    }
  }

  /** Under every interleaving of the two loops and the network: what the browser has
      printed is a prefix of the chunks the slave delivered, in order; and when no message
      is in flight and the slave loop is idle it is all of them, and the browser is set to
      the configured title, preferences and reconnect time. */
  lemma OutputFidelity(cfg: Config, parse: ParseResize, events: seq<Event>)
    ensures var s := Run(cfg, parse, Start(cfg), events);
            var chunks := Taken(cfg, parse, Start(cfg), events);
            && s.read == chunks
            && s.browser.output <= Concat(chunks)
            && (s.wire == [] && !InFlight(s.slaveLoop) ==> s.browser == Configured(cfg).(output := Concat(chunks)))
  {
    ReadFromStart(cfg, parse, events);
    StartInv(cfg);
    RunKeepsInv(cfg, parse, Start(cfg), events);
    PrintsSent(cfg, Run(cfg, parse, Start(cfg), events));
    AtRest(cfg, Run(cfg, parse, Start(cfg), events));
    hide *;
  }

  lemma ReadFromStart(cfg: Config, parse: ParseResize, events: seq<Event>)
    ensures Run(cfg, parse, Start(cfg), events).read == Taken(cfg, parse, Start(cfg), events)
  {
    hide Run;
    hide Taken;
    ReadIsTaken(cfg, parse, Start(cfg), events);
  }

  lemma PrintsSent(cfg: Config, s: Bridge)
    requires Inv(cfg, s)
    ensures s.browser.output <= Concat(s.read)
  {
    hide ReceiveAll;
    hide Configured;
    hide Concat;
    hide MutexOk;
    OutputGrows(s.browser, s.wire);
    ConcatSplit(Sent(s), Unsent(s));
    assert s.read == Sent(s) + Unsent(s);
  }

  lemma AtRest(cfg: Config, s: Bridge)
    requires Inv(cfg, s)
    ensures s.wire == [] && !InFlight(s.slaveLoop) ==> s.browser == Configured(cfg).(output := Concat(s.read))
  {
    hide ReceiveAll;
    hide Configured;
    hide Concat;
    hide MutexOk;
    ReceiveNothing(s.browser);
    assert !InFlight(s.slaveLoop) ==> Sent(s) == s.read;
  }

  /** A loop that has returned stays so. */
  lemma {:induction false} ReturnedStays(cfg: Config, parse: ParseResize, s: Bridge, l: Loop, events: seq<Event>)
    requires s.At(l) == Returned
    ensures Run(cfg, parse, s, events).At(l) == Returned
    ensures l.SlaveLoop? ==> Taken(cfg, parse, s, events) == []
    ensures l.MessageLoop? ==> Heard(cfg, parse, s, events) == []
    decreases |events|
  {
    hide OutputFrame;
    hide OnReceive;
    hide Handle;
    if events != [] {
      ReturnedStays(cfg, parse, Step(cfg, parse, s, events[0]), l, events[1..]);
    }
  }

  /** In every state: when the slave ends while its loop waits, no chunk is taken any more; when
      the browser's connection does, or a malformed message comes, no message is heard. */
  lemma EndsAreFinal(cfg: Config, parse: ParseResize, s: Bridge, m: Message, events: seq<Event>)
    ensures s.slaveLoop == Waiting ==> Taken(cfg, parse, Step(cfg, parse, s, SlaveClosed), events) == []
    ensures s.messageLoop == Waiting ==> Heard(cfg, parse, Step(cfg, parse, s, BrowserClosed), events) == []
    ensures s.messageLoop == Waiting && IsMalformed(cfg, parse, m) ==>
              Heard(cfg, parse, Step(cfg, parse, s, BrowserMessage(m)), events) == []
  {
    hide Taken;
    hide Heard;
    hide Run;
    hide Handle;
    HandleMeansMessage(cfg, parse, m);
    if s.slaveLoop == Waiting {
      ReturnedStays(cfg, parse, Step(cfg, parse, s, SlaveClosed), SlaveLoop, events);
    }
    if s.messageLoop == Waiting {
      ReturnedStays(cfg, parse, Step(cfg, parse, s, BrowserClosed), MessageLoop, events);
      if IsMalformed(cfg, parse, m) {
        ReturnedStays(cfg, parse, Step(cfg, parse, s, BrowserMessage(m)), MessageLoop, events);
      }
    }
  }

  // ----- progress -----

  lemma {:induction false} RunSplit(cfg: Config, parse: ParseResize, s: Bridge, x: seq<Event>, y: seq<Event>)
    ensures Run(cfg, parse, s, x + y) == Run(cfg, parse, Run(cfg, parse, s, x), y)
    decreases |x|
  {
    hide Step;
    if x == [] {
      assert x + y == y;
    } else {
      assert (x + y)[1..] == x[1..] + y;
      RunSplit(cfg, parse, Step(cfg, parse, s, x[0]), x[1..], y);
    }
  }

  lemma RunOne(cfg: Config, parse: ParseResize, s: Bridge, e: Event)
    ensures Run(cfg, parse, s, [e]) == Step(cfg, parse, s, e)
  {
    hide Step;
    assert [e][1..] == [];
  }

  /** A loop that holds the lock can finish its message. */
  lemma {:induction false} Finish(cfg: Config, parse: ParseResize, s: Bridge, l: Loop)
    returns (events: seq<Event>)
    requires MutexOk(s) && s.At(l).Sending?
    ensures Run(cfg, parse, s, events)
            == s.Moved(l, Waiting).(lock := None, open := [], wire := s.wire + [s.At(l).frame])
    decreases |s.At(l).frame| - s.At(l).sent
  {
    hide Run;
    var pc := s.At(l);
    if pc.sent < |pc.frame| {
      var next := Step(cfg, parse, s, SendByte(l));
      assert pc.frame[..pc.sent + 1] == pc.frame[..pc.sent] + [pc.frame[pc.sent]];
      var rest := Finish(cfg, parse, next, l);
      events := [SendByte(l)] + rest;
      RunOne(cfg, parse, s, SendByte(l));
      RunSplit(cfg, parse, s, [SendByte(l)], rest);
    } else {
      events := [Release(l)];
      assert pc.frame[..|pc.frame|] == pc.frame;
      RunOne(cfg, parse, s, Release(l));
    }
  }

  /** A loop that holds a message while the lock is free can send it. */
  lemma Send(cfg: Config, parse: ParseResize, s: Bridge, l: Loop) returns (events: seq<Event>)
    requires MutexOk(s) && s.lock == None && s.At(l).Holding?
    ensures Run(cfg, parse, s, events)
            == s.Moved(l, Waiting).(lock := None, open := [], wire := s.wire + [s.At(l).frame])
  {
    hide Run;
    var next := Step(cfg, parse, s, Acquire(l));
    var frame := s.At(l).frame;
    assert next == s.Moved(l, Sending(frame, 0)).(lock := Some(l), open := []);
    assert frame[..0] == [] && next.At(l) == Sending(frame, 0);
    assert MutexOk(next);
    var rest := Finish(cfg, parse, next, l);
    events := [Acquire(l)] + rest;
    RunOne(cfg, parse, s, Acquire(l));
    RunSplit(cfg, parse, s, [Acquire(l)], rest);
  }

  /** What is on the wire can arrive. */
  lemma {:induction false} DeliverAll(cfg: Config, parse: ParseResize, s: Bridge) returns (events: seq<Event>)
    ensures Run(cfg, parse, s, events)
            == s.(browser := ReceiveAll(s.browser, s.wire), received := s.received + s.wire, wire := [])
    decreases |s.wire|
  {
    hide OnReceive;
    hide Run;
    if s.wire == [] {
      events := [];
      RunNothing(cfg, parse, s);
      assert s.received + s.wire == s.received;
    } else {
      var next := Step(cfg, parse, s, Deliver);
      var rest := DeliverAll(cfg, parse, next);
      events := [Deliver] + rest;
      RunOne(cfg, parse, s, Deliver);
      RunSplit(cfg, parse, s, [Deliver], rest);
      assert s.received + [s.wire[0]] + s.wire[1..] == s.received + s.wire;
    }
  }

  lemma RunNothing(cfg: Config, parse: ParseResize, s: Bridge)
    ensures Run(cfg, parse, s, []) == s
  {
  }

  predicate Idle(s: Bridge) {
    s.lock == None && s.wire == [] && !InFlight(s.slaveLoop) && !InFlight(s.messageLoop)
  }

  /** From every state that keeps the invariant, what is in flight can arrive. */
  lemma Drains(cfg: Config, parse: ParseResize, s: Bridge) returns (events: seq<Event>)
    requires Inv(cfg, s)
    ensures var t := Run(cfg, parse, s, events);
            && Inv(cfg, t) && Idle(t) && t.read == s.read
            && t.slaveLoop == (if InFlight(s.slaveLoop) then Waiting else s.slaveLoop)
            && t.messageLoop == (if InFlight(s.messageLoop) then Waiting else s.messageLoop)
  {
    hide Run;
    hide ReceiveAll;
    hide Configured;
    hide OutputFrame;
    hide Concat;
    var first := FinishHeld(cfg, parse, s);
    var s1 := Run(cfg, parse, s, first);
    RunKeepsInv(cfg, parse, s, first);
    var second := SendHeld(cfg, parse, s1, SlaveLoop);
    var s2 := Run(cfg, parse, s1, second);
    RunKeepsInv(cfg, parse, s1, second);
    var third := SendHeld(cfg, parse, s2, MessageLoop);
    var s3 := Run(cfg, parse, s2, third);
    RunKeepsInv(cfg, parse, s2, third);
    var fourth := DeliverAll(cfg, parse, s3);
    RunKeepsInv(cfg, parse, s3, fourth);
    RunSplit(cfg, parse, s, first, second);
    RunSplit(cfg, parse, s, first + second, third);
    RunSplit(cfg, parse, s, first + second + third, fourth);
    events := first + second + third + fourth;
  }

  lemma FinishHeld(cfg: Config, parse: ParseResize, s: Bridge) returns (events: seq<Event>)
    requires MutexOk(s)
    ensures var t := Run(cfg, parse, s, events);
            && t.lock == None && t.read == s.read && !t.slaveLoop.Sending? && !t.messageLoop.Sending?
            && t.slaveLoop == (if s.slaveLoop.Sending? then Waiting else s.slaveLoop)
            && t.messageLoop == (if s.messageLoop.Sending? then Waiting else s.messageLoop)
  {
    hide Run;
    events := [];
    RunNothing(cfg, parse, s);
    if s.slaveLoop.Sending? {
      events := Finish(cfg, parse, s, SlaveLoop);
    } else if s.messageLoop.Sending? {
      events := Finish(cfg, parse, s, MessageLoop);
    } else {
      LockHolder(s);
    }
  }

  lemma LockHolder(s: Bridge)
    ensures s.lock in {None, Some(SlaveLoop), Some(MessageLoop)}
  {
    if s.lock.Some? {
      assert s.lock.value.SlaveLoop? || s.lock.value.MessageLoop?;
    }
  }

  lemma SendHeld(cfg: Config, parse: ParseResize, s: Bridge, l: Loop) returns (events: seq<Event>)
    requires MutexOk(s) && s.lock == None
    ensures Run(cfg, parse, s, events)
            == if s.At(l).Holding? then
                 s.Moved(l, Waiting).(lock := None, open := [], wire := s.wire + [s.At(l).frame])
               else s
  {
    hide Run;
    if s.At(l).Holding? {
      events := Send(cfg, parse, s, l);
    } else {
      events := [];
      RunNothing(cfg, parse, s);
    }
  }

  /** In every run, whatever is in flight: if the slave loop waits, the slave's next chunk can
      be taken, framed, sent and delivered, and then the browser has printed everything the
      slave delivered and that chunk. */
  lemma NextChunkIsPrinted(cfg: Config, parse: ParseResize, before: seq<Event>, chunk: seq<byte>)
    returns (events: seq<Event>)
    requires Run(cfg, parse, Start(cfg), before).slaveLoop == Waiting
    ensures var s := Run(cfg, parse, Start(cfg), before);
            var t := Run(cfg, parse, s, events);
            && Taken(cfg, parse, s, events) == [chunk]
            && t.browser.output == Concat(Taken(cfg, parse, Start(cfg), before)) + chunk
            && t.slaveLoop == Waiting
  {
    hide Run;
    hide Configured;
    hide ReceiveAll;
    hide OutputFrame;
    hide Concat;
    var s := Run(cfg, parse, Start(cfg), before);
    StartInv(cfg);
    RunKeepsInv(cfg, parse, Start(cfg), before);
    ReadIsTaken(cfg, parse, Start(cfg), before);
    var next := Step(cfg, parse, s, SlaveChunk(chunk));
    StepKeepsInv(cfg, parse, s, SlaveChunk(chunk));
    var rest := Drains(cfg, parse, next);
    events := [SlaveChunk(chunk)] + rest;
    var t := Run(cfg, parse, next, rest);
    RunOne(cfg, parse, s, SlaveChunk(chunk));
    RunSplit(cfg, parse, s, [SlaveChunk(chunk)], rest);
    AtRest(cfg, t);
    ReadIsTaken(cfg, parse, s, events);
    assert s.read == Taken(cfg, parse, Start(cfg), before);
    ConcatSnoc(s.read, chunk);
    SamePrefix(s.read, Taken(cfg, parse, s, events), [chunk]);
  }

  lemma SamePrefix<T>(a: seq<T>, x: seq<T>, y: seq<T>)
    requires a + x == a + y
    ensures x == y
  {
    assert (a + x)[|a|..] == x && (a + y)[|a|..] == y;
  }
}
