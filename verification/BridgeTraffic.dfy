/** What the server of a bridge sends: under every interleaving of its two loops, each
    message is whole, chunks keep their order, and every ping has one pong. */
module BridgeTraffic {
  import opened Bytes
  import opened BridgeProtocol
  import opened WebTty

  /** The pongs among the messages sent. */
  function PongsIn(frames: seq<Message>): seq<Message> {
    if frames == [] then []
    else
      var last := frames[|frames| - 1];
      PongsIn(frames[..|frames| - 1]) + if last == PONG_FRAME then [last] else []
  }

  /** The others. */
  function Others(frames: seq<Message>): seq<Message> {
    if frames == [] then []
    else
      var last := frames[|frames| - 1];
      Others(frames[..|frames| - 1]) + if last == PONG_FRAME then [] else [last]
  }

  function OutputFrames(chunks: seq<seq<byte>>): seq<Message> {
    if chunks == [] then []
    else OutputFrames(chunks[..|chunks| - 1]) + [OutputFrame(chunks[|chunks| - 1])]
  }

  lemma SentSnoc(frames: seq<Message>, f: Message)
    ensures PongsIn(frames + [f]) == PongsIn(frames) + (if f == PONG_FRAME then [f] else [])
    ensures Others(frames + [f]) == Others(frames) + (if f == PONG_FRAME then [] else [f])
  {
    assert (frames + [f])[..|frames|] == frames;
  }

  lemma OutputFramesSnoc(chunks: seq<seq<byte>>, chunk: seq<byte>)
    ensures OutputFrames(chunks + [chunk]) == OutputFrames(chunks) + [OutputFrame(chunk)]
    ensures OutputFrame(chunk) != PONG_FRAME
  {
    assert (chunks + [chunk])[..|chunks|] == chunks;
    assert OutputFrame(chunk)[0] == OUTPUT;
  }

  /** All messages the server sent, arrived or in flight. */
  function Traffic(s: Bridge): seq<Message> {
    s.received + s.wire
  }

  /** The server sent the initial messages, then the frames of the chunks sent so far. */
  predicate ChunksOk(cfg: Config, s: Bridge) {
    Others(Traffic(s)) == InitFrames(cfg) + OutputFrames(Sent(s))
  }

  /** It sent one pong for every ping it heard; the last may still be held. */
  predicate PongsOk(s: Bridge, heard: seq<Message>) {
    PongsIn(Traffic(s)) + Held(s.messageLoop) == Pongs(heard)
  }

  function Held(pc: Pc): seq<Message> {
    if InFlight(pc) then [PONG_FRAME] else []
  }

  /** It hears nothing after a malformed message. */
  ghost predicate HeardOk(cfg: Config, parse: ParseResize, s: Bridge, heard: seq<Message>) {
    && (s.messageLoop.Returned? || forall m <- heard :: !IsMalformed(cfg, parse, m))
    && forall m <- Init(heard) :: !IsMalformed(cfg, parse, m)
  }

  function Init(msgs: seq<Message>): seq<Message> {
    if msgs == [] then [] else msgs[..|msgs| - 1]
  }

  ghost predicate TrafficOk(cfg: Config, parse: ParseResize, s: Bridge, heard: seq<Message>) {
    ChunksOk(cfg, s) && PongsOk(s, heard) && HeardOk(cfg, parse, s, heard)
  }

  lemma StartTraffic(cfg: Config, parse: ParseResize)
    ensures TrafficOk(cfg, parse, Start(cfg), [])
  {
    var none: seq<Message> := [];
    assert Traffic(Start(cfg)) == InitFrames(cfg);
    assert InitFrames(cfg) + none == InitFrames(cfg);
    InitHasNoPong(cfg);
  }

  lemma InitHasNoPong(cfg: Config)
    ensures PongsIn(InitFrames(cfg)) == [] && Others(InitFrames(cfg)) == InitFrames(cfg)
  {
    hide PongsIn;
    hide Others;
    InitFramesInOrder(cfg);
    NoPong(InitFrames(cfg));
  }

  lemma {:induction false} NoPong(frames: seq<Message>)
    requires PONG_FRAME !in frames
    ensures PongsIn(frames) == [] && Others(frames) == frames
  {
    if frames != [] {
      hide PongsIn;
      hide Others;
      var init, last := frames[..|frames| - 1], frames[|frames| - 1];
      assert frames == init + [last] && last in frames;
      NoPong(init);
      SentSnoc(init, last);
      assert PongsIn(init) + [] == PongsIn(init);
    }
  }

  lemma MessageTraffic(cfg: Config, parse: ParseResize, s: Bridge, heard: seq<Message>, m: Message)
    requires TrafficOk(cfg, parse, s, heard) && s.messageLoop == Waiting
    ensures TrafficOk(cfg, parse, Step(cfg, parse, s, BrowserMessage(m)), heard + [m])
  {
    hide Handle;
    hide OutputFrames;
    hide Others;
    hide PongsIn;
    hide Pongs;
    hide Answer;
    hide InitFrames;
    hide IsMalformed;
    var t := Step(cfg, parse, s, BrowserMessage(m));
    assert Traffic(t) == Traffic(s) && Sent(t) == Sent(s);
    HandleMeansMessage(cfg, parse, m);
    assert Held(t.messageLoop) == Answer(m);
    PongsSnoc(heard, m);
    assert PongsIn(Traffic(s)) + [] == PongsIn(Traffic(s));
    MessageHeard(cfg, parse, s, heard, m);
  }

  lemma MessageHeard(cfg: Config, parse: ParseResize, s: Bridge, heard: seq<Message>, m: Message)
    requires HeardOk(cfg, parse, s, heard) && s.messageLoop == Waiting
    ensures HeardOk(cfg, parse, Step(cfg, parse, s, BrowserMessage(m)), heard + [m])
  {
    hide Handle;
    hide IsMalformed;
    HandleMeansMessage(cfg, parse, m);
    assert Init(heard + [m]) == heard;
  }

  lemma SlaveReleaseTraffic(cfg: Config, parse: ParseResize, s: Bridge)
    requires Inv(cfg, s) && ChunksOk(cfg, s)
    requires s.slaveLoop.Sending? && s.slaveLoop.sent == |s.slaveLoop.frame|
    ensures var t := Step(cfg, parse, s, Release(SlaveLoop));
            ChunksOk(cfg, t) && PongsIn(Traffic(t)) == PongsIn(Traffic(s))
  {
    hide ReceiveAll;
    hide Configured;
    hide Concat;
    hide OutputFrame;
    hide OutputFrames;
    hide Others;
    hide PongsIn;
    hide InitFrames;
    var t := Step(cfg, parse, s, Release(SlaveLoop));
    var frame, chunk := s.slaveLoop.frame, s.read[|s.read| - 1];
    assert s.open == frame;
    AppendAssociates(s.received, s.wire, [frame]);
    SentSnoc(Traffic(s), frame);
    assert Sent(t) == s.read == Sent(s) + [chunk];
    OutputFramesSnoc(Sent(s), chunk);
    AppendAssociates(InitFrames(cfg), OutputFrames(Sent(s)), [frame]);
    assert PongsIn(Traffic(s)) + [] == PongsIn(Traffic(s));
  }

  lemma PongReleaseTraffic(cfg: Config, parse: ParseResize, s: Bridge)
    requires Inv(cfg, s)
    requires s.messageLoop.Sending? && s.messageLoop.sent == |s.messageLoop.frame|
    ensures var t := Step(cfg, parse, s, Release(MessageLoop));
            && Others(Traffic(t)) == Others(Traffic(s)) && Sent(t) == Sent(s)
            && PongsIn(Traffic(t)) == PongsIn(Traffic(s)) + [PONG_FRAME]
  {
    hide ReceiveAll;
    hide Configured;
    hide Concat;
    hide OutputFrame;
    hide Others;
    hide PongsIn;
    assert s.open == PONG_FRAME;
    AppendAssociates(s.received, s.wire, [PONG_FRAME]);
    SentSnoc(Traffic(s), PONG_FRAME);
    assert Others(Traffic(s)) + [] == Others(Traffic(s));
  }

  lemma ReleaseTraffic(cfg: Config, parse: ParseResize, s: Bridge, heard: seq<Message>, l: Loop)
    requires Inv(cfg, s) && TrafficOk(cfg, parse, s, heard)
    requires s.At(l).Sending? && s.At(l).sent == |s.At(l).frame|
    ensures TrafficOk(cfg, parse, Step(cfg, parse, s, Release(l)), heard)
  {
    hide Inv;
    hide Others;
    hide PongsIn;
    hide OutputFrames;
    hide Pongs;
    hide IsMalformed;
    hide InitFrames;
    hide Sent;
    if l.SlaveLoop? {
      SlaveReleaseTraffic(cfg, parse, s);
    } else {
      PongReleaseTraffic(cfg, parse, s);
      var t := Step(cfg, parse, s, Release(l));
      assert PongsIn(Traffic(t)) + [] == PongsIn(Traffic(t));
    }
  }

  lemma StepTraffic(cfg: Config, parse: ParseResize, s: Bridge, heard: seq<Message>, e: Event)
    requires Inv(cfg, s) && TrafficOk(cfg, parse, s, heard)
    ensures TrafficOk(cfg, parse, Step(cfg, parse, s, e),
                      if e.BrowserMessage? && s.messageLoop == Waiting then heard + [e.m] else heard)
  {
    hide Step;
    hide Others;
    hide PongsIn;
    hide OutputFrames;
    hide Pongs;
    hide IsMalformed;
    hide InitFrames;
    hide Sent;
    if e.BrowserMessage? && s.messageLoop == Waiting {
      MessageTraffic(cfg, parse, s, heard, e.m);
    } else if e.Release? && s.At(e.l).Sending? && s.At(e.l).sent >= |s.At(e.l).frame| {
      assert s.At(e.l).sent == |s.At(e.l).frame|;
      ReleaseTraffic(cfg, parse, s, heard, e.l);
    } else {
      SameTraffic(cfg, parse, s, e);
    }
  }

  lemma SameTraffic(cfg: Config, parse: ParseResize, s: Bridge, e: Event)
    requires e.BrowserMessage? ==> s.messageLoop != Waiting
    requires e.Release? ==> !s.At(e.l).Sending? || s.At(e.l).sent < |s.At(e.l).frame|
    ensures var t := Step(cfg, parse, s, e);
            && Traffic(t) == Traffic(s) && Sent(t) == Sent(s)
            && InFlight(t.messageLoop) == InFlight(s.messageLoop)
            && (s.messageLoop.Returned? ==> t.messageLoop.Returned?)
  {
    SameMessages(cfg, parse, s, e);
    SameSent(cfg, parse, s, e);
    hide Traffic;
    hide Sent;
    hide OutputFrame;
    hide OnReceive;
    hide Handle;
  }

  lemma SameSent(cfg: Config, parse: ParseResize, s: Bridge, e: Event)
    requires e.Release? ==> !s.At(e.l).Sending? || s.At(e.l).sent < |s.At(e.l).frame|
    ensures Sent(Step(cfg, parse, s, e)) == Sent(s)
  {
    hide OutputFrame;
    hide OnReceive;
    hide Handle;
    var t := Step(cfg, parse, s, e);
    if e.SlaveChunk? && s.slaveLoop == Waiting {
      assert Sent(t) == s.read == Sent(s);
    } else {
      assert t.read == s.read && InFlight(t.slaveLoop) == InFlight(s.slaveLoop);
    }
  }

  lemma SameMessages(cfg: Config, parse: ParseResize, s: Bridge, e: Event)
    requires e.Release? ==> !s.At(e.l).Sending? || s.At(e.l).sent < |s.At(e.l).frame|
    ensures Traffic(Step(cfg, parse, s, e)) == Traffic(s)
  {
    hide OutputFrame;
    hide OnReceive;
    hide Handle;
    if e.Deliver? && s.wire != [] {
      assert s.wire == [s.wire[0]] + s.wire[1..];
      AppendAssociates(s.received, [s.wire[0]], s.wire[1..]);
    }
  }

  lemma {:induction false} RunTraffic(cfg: Config, parse: ParseResize, s: Bridge, heard: seq<Message>,
                                      events: seq<Event>)
    requires Inv(cfg, s) && TrafficOk(cfg, parse, s, heard)
    ensures TrafficOk(cfg, parse, Run(cfg, parse, s, events), heard + Heard(cfg, parse, s, events))
    decreases |events|
  {
    hide Step;
    hide Inv;
    hide TrafficOk;
    if events == [] {
      assert heard + [] == heard;
    } else {
      var e, next := events[0], Step(cfg, parse, s, events[0]);
      var taken := e.BrowserMessage? && s.messageLoop == Waiting;
      var rest := Heard(cfg, parse, next, events[1..]);
      StepKeepsInv(cfg, parse, s, e);
      StepTraffic(cfg, parse, s, heard, e);
      RunTraffic(cfg, parse, next, if taken then heard + [e.m] else heard, events[1..]);
      if taken {
        AppendAssociates(heard, [e.m], rest);
      }
    }
  }

  /** Under every interleaving: the loops are never inside the connection at once, and what
      arrived and is on the wire is the initial messages and then the frames of the chunks
      sent so far, in order and whole, with exactly the pongs for the pings heard. */
  lemma WholeMessages(cfg: Config, parse: ParseResize, events: seq<Event>)
    ensures var s := Run(cfg, parse, Start(cfg), events);
            && !(s.slaveLoop.Sending? && s.messageLoop.Sending?)
            && TrafficOk(cfg, parse, s, Heard(cfg, parse, Start(cfg), events))
  {
    hide TrafficOk;
    hide Run;
    hide Heard;
    StartInv(cfg);
    RunKeepsInv(cfg, parse, Start(cfg), events);
    StartTraffic(cfg, parse);
    RunTraffic(cfg, parse, Start(cfg), [], events);
    assert [] + Heard(cfg, parse, Start(cfg), events) == Heard(cfg, parse, Start(cfg), events);
  }
}
