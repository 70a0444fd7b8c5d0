/** Whole runs of the log reader: any cutting of a stream into reads, batches of
    whole frames, and where the parser's hypotheses bite. */
module LogRuns {
  import opened Bytes
  import opened LogFormat
  import opened LogParser
  import opened LogReads
  import opened LogRefinement

  /** `src` with at most one carriage return put behind some of its line feeds. */
  predicate Inserted(src: seq<byte>, out: seq<byte>) {
    if src == [] then out == []
    else
      && out != [] && out[0] == src[0]
      && (|| Inserted(src[1..], out[1..])
          || (src[0] == LF && |out| > 1 && out[1] == CR && Inserted(src[1..], out[2..])))
  }

  lemma {:induction false} InsertedSelf(src: seq<byte>)
    ensures Inserted(src, src)
  {
    if src != [] {
      InsertedSelf(src[1..]);
    }
  }

  lemma {:induction false} InsertedConcat(a: seq<byte>, x: seq<byte>, b: seq<byte>, y: seq<byte>)
    requires Inserted(a, x) && Inserted(b, y)
    ensures Inserted(a + b, x + y)
  {
    if a == [] {
      assert a + b == b && x + y == y;
    } else {
      assert (a + b)[1..] == a[1..] + b && (x + y)[1..] == x[1..] + y;
      if Inserted(a[1..], x[1..]) {
        InsertedConcat(a[1..], x[1..], b, y);
      } else {
        InsertedConcat(a[1..], x[2..], b, y);
        assert (x + y)[2..] == x[2..] + y;
      }
    }
  }

  // ----- the plain automaton -----

  lemma {:induction false} DecodeSplit(a: Automaton, x: seq<byte>, y: seq<byte>)
    ensures var (mid, first) := Decode(a, x);
            var (end, second) := Decode(mid, y);
            Decode(a, x + y) == (end, first + second)
    decreases |x|
  {
    if x == [] {
      assert x + y == y && [] + Decode(a, y).1 == Decode(a, y).1;
    } else {
      assert (x + y)[1..] == x[1..] + y;
      DecodeSplit(Step(a, x[0]), x[1..], y);
      var first := Decode(Step(a, x[0]), x[1..]).1;
      var second := Decode(Decode(a, x).0, y).1;
      assert [x[0]] + (first + second) == ([x[0]] + first) + second;
    }
  }

  lemma {:induction false} DecodeStuck(bs: seq<byte>)
    ensures Decode(Stuck, bs).0 == Stuck
  {
    if bs != [] {
      DecodeStuck(bs[1..]);
    }
  }

  lemma {:induction false} DecodePartHeader(acc: seq<byte>, bs: seq<byte>)
    requires |acc| + |bs| < HEADER_LEN
    ensures Decode(Header(acc), bs) == (Header(acc + bs), [])
    decreases |bs|
  {
    if bs == [] {
      assert acc + bs == acc;
    } else {
      DecodePartHeader(acc + [bs[0]], bs[1..]);
      assert acc + [bs[0]] + bs[1..] == acc + bs;
    }
  }

  lemma DecodeHeader(h: seq<byte>)
    requires |h| == HEADER_LEN
    ensures Decode(Header([]), h) == (AfterHeader(h), [])
  {
    hide Decode;
    hide AfterHeader;
    var init, last := h[..HEADER_LEN - 1], h[HEADER_LEN - 1];
    var none: seq<byte> := [];
    assert none + init == init && init + [last] == h && none + none == none;
    DecodePartHeader([], init);
    DecodeOne(Header(init), last);
    DecodeSplit(Header([]), init, [last]);
  }

  lemma DecodeOne(a: Automaton, b: byte)
    ensures Decode(a, [b]) == (Step(a, b), if a.Payload? then [b] else [])
  {
    hide Step;
    assert [b][1..] == [] && [b] + [] == [b];
  }

  lemma {:induction false} DecodePayload(left: nat, bs: seq<byte>)
    requires 0 < left && |bs| <= left
    ensures Decode(Payload(left), bs) == (if |bs| == left then Header([]) else Payload(left - |bs|), bs)
  {
    if |bs| == 1 {
      assert bs == [bs[0]] + [] && bs[1..] == [];
    } else if bs != [] {
      DecodePayload(left - 1, bs[1..]);
      assert bs == [bs[0]] + bs[1..];
    }
  }

  lemma {:induction false} DecodeEncoded(frames: seq<Frame>)
    ensures Decode(Header([]), Encode(frames)) == (Header([]), Payloads(frames))
  {
    if frames != [] {
      var f, rest := frames[0], frames[1..];
      var h := EncodeHeader(f.stream, |f.payload|);
      DecodeEncoded(rest);
      DecodeHeader(h);
      DecodeSplit(Header([]), h, f.payload);
      if f.payload != [] {
        DecodePayload(|f.payload|, f.payload);
      }
      assert [] + f.payload == f.payload;
      DecodeSplit(Header([]), EncodeFrame(f), Encode(rest));
    }
  }

  lemma {:induction false} FeedDecodes(a: Automaton, bs: seq<byte>)
    ensures Feed(a, bs).0 == Decode(a, bs).0
    ensures Inserted(Decode(a, bs).1, Feed(a, bs).1)
    decreases |bs|
  {
    if bs != [] {
      var next := Step(a, bs[0]);
      FeedDecodes(next, bs[1..]);
      if a.Payload? {
        var piece := if a.left <= 1 || |bs| == 1 then MakeLine([bs[0]]) else [bs[0]];
        assert Inserted([bs[0]], piece);
        InsertedConcat([bs[0]], piece, Decode(next, bs[1..]).1, Feed(next, bs[1..]).1);
      }
    }
  }

  // ----- runs -----

  /** The caller's buffer after the daemon put `n` bytes at its front. */
  datatype Buffer = Buffer(target: seq<byte>, n: nat)

  type Fill = b: Buffer | b.n <= |b.target| witness Buffer([], 0)

  function Chunk(f: Fill): seq<byte> {
    f.target[..f.n]
  }

  function Stream(fills: seq<Fill>): seq<byte>
  {
    if fills == [] then [] else Chunk(fills[0]) + Stream(fills[1..])
  }

  /** The bytes the caller gets from consecutive reads, and the final state. A read
      that panics or fails ends the run. */
  function Run(s: LogState, fills: seq<Fill>): (ReadResult, LogState, seq<byte>)
    decreases |fills|
  {
    if fills == [] then (Ok(0), s, [])
    else
      var o := ReadSpec(s, fills[0].target, fills[0].n);
      if !o.result.Ok? then (o.result, o.state, [])
      else
        var (result, end, out) := Run(o.state, fills[1..]);
        (result, end, o.target[..o.result.n] + out)
  }

  predicate RunFramed(s: LogState, fills: seq<Fill>)
    decreases |fills|
  {
    fills == []
    || (&& Framed(s, fills[0].target, fills[0].n)
        && RunFramed(ReadSpec(s, fills[0].target, fills[0].n).state, fills[1..]))
  }

  lemma ReadDecodes(s: LogState, f: Fill)
    requires s.Valid() && Framed(s, f.target, f.n)
    ensures var o := ReadSpec(s, f.target, f.n);
            && o.result.Ok? && o.state.Valid()
            && Follows(o.state, Decode(Residual(s), Chunk(f)).0)
            && Inserted(Decode(Residual(s), Chunk(f)).1, o.target[..o.result.n])
  {
    hide ParseFrames;
    hide Feed;
    FeedDecodes(Residual(s), Chunk(f));
    FramedReadOutput(s, f.target, f.n);
    if DropsReturn(s, f.target, f.n) {
      assert Chunk(f) == f.target;
      DecodePayload(s.bsLeft, Chunk(f));
      InsertedSelf(Chunk(f));
    }
  }

  /** The automaton over consecutive reads: a bad header costs the rest of its read. */
  function DecodeReads(a: Automaton, fills: seq<Fill>): (Automaton, seq<byte>)
    decreases |fills|
  {
    if fills == [] then (a, [])
    else
      var (mid, first) := Decode(a, Chunk(fills[0]));
      var (end, rest) := DecodeReads(if mid == Stuck then Header([]) else mid, fills[1..]);
      (end, first + rest)
  }

  /** Resumable parsing refines the automaton, for every run of framed reads, bad
      headers included: the state after the run is the automaton's residual state and
      the output is the payload with at most a carriage return behind some line feeds. */
  lemma {:induction false} RunRefinesReads(s: LogState, fills: seq<Fill>)
    requires s.Valid() && RunFramed(s, fills)
    ensures var (result, end, out) := Run(s, fills);
            var (a, payload) := DecodeReads(Residual(s), fills);
            result.Ok? && end.Valid() && Residual(end) == a && Inserted(payload, out)
    decreases |fills|
  {
    hide ParseFrames;
    if fills != [] {
      var chunk := Chunk(fills[0]);
      ReadDecodes(s, fills[0]);
      var o := ReadSpec(s, fills[0].target, fills[0].n);
      RunRefinesReads(o.state, fills[1..]);
      InsertedConcat(Decode(Residual(s), chunk).1, o.target[..o.result.n],
                     DecodeReads(Residual(o.state), fills[1..]).1, Run(o.state, fills[1..]).2);
    }
  }

  lemma {:induction false} ReadsAreStream(a: Automaton, fills: seq<Fill>)
    requires Decode(a, Stream(fills)).0 != Stuck
    ensures DecodeReads(a, fills) == Decode(a, Stream(fills))
    decreases |fills|
  {
    if fills != [] {
      var chunk, rest := Chunk(fills[0]), Stream(fills[1..]);
      DecodeSplit(a, chunk, rest);
      if Decode(a, chunk).0 == Stuck {
        DecodeStuck(rest);
      } else {
        ReadsAreStream(Decode(a, chunk).0, fills[1..]);
      }
    }
  }

  /** On a stream without bad headers it does not matter how the stream is cut: state
      and payload are those of the automaton over the stream as a whole. */
  lemma RunRefines(s: LogState, fills: seq<Fill>)
    requires s.Valid() && RunFramed(s, fills)
    requires Decode(Residual(s), Stream(fills)).0 != Stuck
    ensures var (result, end, out) := Run(s, fills);
            var (a, payload) := Decode(Residual(s), Stream(fills));
            result.Ok? && end.Valid() && Residual(end) == a && Inserted(payload, out)
  {
    RunRefinesReads(s, fills);
    ReadsAreStream(Residual(s), fills);
  }

  // ----- what a cut does to the output -----

  /** No read drops a carriage return for want of room, and no cut between two reads
      follows a line feed inside a payload. */
  predicate CleanCuts(s: LogState, fills: seq<Fill>)
    decreases |fills|
  {
    fills == []
    || (&& !DropsReturn(s, fills[0].target, fills[0].n)
        && (Stream(fills[1..]) == [] || !EndsInnerLine(Residual(s), Chunk(fills[0])))
        && CleanCuts(ReadSpec(s, fills[0].target, fills[0].n).state, fills[1..]))
  }

  /** Two versions of one text never differ by a carriage return in front. */
  lemma {:induction false} NeverShifted(src: seq<byte>, u: seq<byte>, v: seq<byte>)
    requires Inserted(src, u) && Inserted(src, v)
    ensures [CR] + u != v
  {
    if src != [] && [CR] + u == v {
      assert v[0] == CR && v[1..] == u;
      assert [CR] + u[1..] == u;
      NeverShifted(src[1..], u[1..], v[1..]);
    }
  }

  /** How the first read of a run and the rest make up the output of the uncut stream:
      they do, or one side has a carriage return at the cut that the other has not. */
  lemma CutCase(out: seq<byte>, first: seq<byte>, rest: seq<byte>, payload: seq<byte>, whole: seq<byte>)
    requires Inserted(payload, rest) && Inserted(payload, whole)
    ensures out == first ==> (out + rest == first + whole <==> rest == whole)
    ensures out == first + [CR] ==> out + rest != first + whole
    ensures first == out + [CR] ==> out + rest != first + whole
  {
    NeverShifted(payload, rest, whole);
    NeverShifted(payload, whole, rest);
    Cancel([], out, rest, whole);
    if out == first + [CR] {
      AppendAssociates(first, [CR], rest);
      Cancel([], first, [CR] + rest, whole);
    }
    if first == out + [CR] {
      AppendAssociates(out, [CR], whole);
      Cancel([], out, rest, [CR] + whole);
    }
  }

  lemma CutStep(s: LogState, f: Fill, rest: seq<byte>, payload: seq<byte>, tail: seq<byte>)
    requires s.Valid() && Framed(s, f.target, f.n)
    requires var mid := Feed(Residual(s), Chunk(f)).0;
             Inserted(payload, tail) && Inserted(payload, Feed(mid, rest).1)
    ensures var a := Residual(s);
            var o := ReadSpec(s, f.target, f.n);
            && o.result.Ok?
            && (o.target[..o.result.n] + tail == Feed(a, Chunk(f) + rest).1
                <==> !DropsReturn(s, f.target, f.n) && (rest == [] || !EndsInnerLine(a, Chunk(f)))
                     && tail == Feed(Feed(a, Chunk(f)).0, rest).1)
  {
    hide Feed;
    hide ReadSpec;
    hide Framed;
    hide Inserted;
    hide EndsInnerLine;
    var a, chunk := Residual(s), Chunk(f);
    var o := ReadSpec(s, f.target, f.n);
    FramedReadOutput(s, f.target, f.n);
    var got := o.target[..o.result.n];
    var whole := Feed(Feed(a, chunk).0, rest).1;
    if rest == [] {
      FeedNothing(Feed(a, chunk).0);
      assert chunk + rest == chunk && Feed(a, chunk).1 + whole == Feed(a, chunk).1;
      CutCase(got, Feed(a, chunk).1, tail, payload, whole);
    } else {
      FeedSplit(a, chunk, rest);
      LineEndReturn(a, chunk);
      CutCase(got, Uncut(a, chunk), tail, payload, whole);
      if DropsReturn(s, f.target, f.n) {
        DroppedIsNotInner(s, f);
      }
    }
  }

  lemma DroppedIsNotInner(s: LogState, f: Fill)
    requires DropsReturn(s, f.target, f.n)
    ensures !EndsInnerLine(Residual(s), Chunk(f))
  {
    hide Feed;
    var init := Chunk(f)[..f.n - 1];
    FeedCutPayload(s.bsLeft, init);
  }

  /** On a stream without bad headers the caller gets exactly what the automaton makes of
      the stream as a whole, if and only if no cut follows an inner line feed and no
      carriage return is dropped. */
  lemma {:induction false} OutputDependsOnTheCut(s: LogState, fills: seq<Fill>)
    requires s.Valid() && RunFramed(s, fills)
    requires Decode(Residual(s), Stream(fills)).0 != Stuck
    ensures Run(s, fills).2 == Feed(Residual(s), Stream(fills)).1 <==> CleanCuts(s, fills)
    decreases |fills|
  {
    hide Feed;
    hide Decode;
    hide ReadSpec;
    hide Framed;
    hide DropsReturn;
    hide EndsInnerLine;
    hide Inserted;
    if fills == [] {
      FeedNothing(Residual(s));
    } else {
      var chunk, rest := Chunk(fills[0]), Stream(fills[1..]);
      var o := ReadSpec(s, fills[0].target, fills[0].n);
      FramedReadOutput(s, fills[0].target, fills[0].n);
      FeedDecodes(Residual(s), chunk);
      DecodeSplit(Residual(s), chunk, rest);
      DecodeStuck(rest);
      OutputDependsOnTheCut(o.state, fills[1..]);
      RunRefines(o.state, fills[1..]);
      FeedDecodes(Residual(o.state), rest);
      CutStep(s, fills[0], rest, Decode(Residual(o.state), rest).1, Run(o.state, fills[1..]).2);
    }
  }

  // ----- terminal streams -----

  /** A run over a terminal's stream whose reads all look raw hands out exactly the stream
      and leaves the parser as it was. */
  lemma {:induction false} RawRun(s: LogState, fills: seq<Fill>)
    requires forall f <- fills :: f.n >= 4 && (f.target[1] != 0 || f.target[2] != 0 || f.target[3] != 0)
    ensures Run(s, fills) == (Ok(0), s, Stream(fills))
    decreases |fills|
  {
    hide ReadSpec;
    if fills != [] {
      var f := fills[0];
      assert f in fills;
      RawPassesThrough(s, f.target, f.n);
      RawRun(s, fills[1..]);
    }
  }

  // ----- whole frames per read -----

  /** What the caller sees of frames that are never cut: every payload, with a carriage
      return where it ends a line. */
  function Lines(frames: seq<Frame>): seq<byte> {
    if frames == [] then [] else MakeLine(frames[0].payload) + Lines(frames[1..])
  }

  lemma {:induction false} FeedEncoded(frames: seq<Frame>)
    ensures Feed(Header([]), Encode(frames)) == (Header([]), Lines(frames))
  {
    if frames != [] {
      var f, tail := frames[0], Encode(frames[1..]);
      var h := EncodeHeader(f.stream, |f.payload|);
      FeedEncoded(frames[1..]);
      assert Encode(frames) == h + (f.payload + tail);
      FeedFrame(Encode(frames), h, f.payload, tail);
    }
  }

  /** Any list of frames, encoded and cut into framed reads anywhere: the caller gets
      the payloads and the parser ends with nothing carried. The caller sees what it
      would see of frames that are never cut if and only if the cuts are clean. */
  lemma FramesSurviveAnyCut(frames: seq<Frame>, fills: seq<Fill>)
    requires RunFramed(FRESH, fills) && Stream(fills) == Encode(frames)
    ensures var (result, end, out) := Run(FRESH, fills);
            && result.Ok? && end == FRESH && Inserted(Payloads(frames), out)
            && (out == Lines(frames) <==> CleanCuts(FRESH, fills))
  {
    hide Feed;
    hide Decode;
    hide RunFramed;
    DecodeEncoded(frames);
    FeedEncoded(frames);
    RunRefines(FRESH, fills);
    OutputDependsOnTheCut(FRESH, fills);
  }

  lemma EncodedLooksFramed(frames: seq<Frame>, stale: seq<byte>)
    ensures LooksFramed(Encode(frames) + stale, |Encode(frames)|)
  {
    if frames != [] {
      var h := EncodeHeader(frames[0].stream, |frames[0].payload|);
      assert Encode(frames) == h + (frames[0].payload + Encode(frames[1..]));
    }
  }

  /** Batches of whole frames: each read fills the front of the buffer with a batch
      and leaves arbitrary old bytes behind it. */
  function Fills(batches: seq<(seq<Frame>, seq<byte>)>): seq<Fill> {
    if batches == [] then []
    else
      var bytes := Encode(batches[0].0);
      [Buffer(bytes + batches[0].1, |bytes|)] + Fills(batches[1..])
  }

  function AllLines(batches: seq<(seq<Frame>, seq<byte>)>): seq<byte> {
    if batches == [] then [] else Lines(batches[0].0) + AllLines(batches[1..])
  }

  /** Frames that arrive whole come out exactly, nothing is truncated, and nothing is
      carried, whatever the buffer held before and however long it is. */
  lemma {:induction false} WholeFramesRoundTrip(batches: seq<(seq<Frame>, seq<byte>)>)
    ensures Run(FRESH, Fills(batches)) == (Ok(0), FRESH, AllLines(batches))
    decreases |batches|
  {
    hide ParseFrames;
    hide Feed;
    hide LooksFramed;
    hide Raw;
    hide MakeLine;
    hide Encode;
    if batches != [] {
      var (frames, stale) := batches[0];
      var bytes := Encode(frames);
      var target := bytes + stale;
      assert target[..|bytes|] == bytes;
      FeedEncoded(frames);
      EncodedLooksFramed(frames, stale);
      FramedReadOutput(FRESH, target, |bytes|);
      var o := ReadSpec(FRESH, target, |bytes|);
      assert o.target[..o.result.n] == Lines(frames);
      WholeFramesRoundTrip(batches[1..]);
      assert Fills(batches)[1..] == Fills(batches[1..]);
    }
  }

  // ----- where the hypotheses bite -----

  lemma {:induction false} LengthsAlwaysParse(p: seq<byte>, n: nat, start: nat)
    requires start <= n <= |p|
    ensures ParseFrames(p, n, start).Parsed?
    decreases n - start
  {
    hide ParseFrames;
    ParseFrame(p, n, start);
    var body := start + HEADER_LEN;
    if body <= n && GoodHeader(p[start..body]) && body + PayloadLen(p[start..body]) <= n {
      LengthsAlwaysParse(p, n, body + PayloadLen(p[start..body]));
    }
  }

  /** No input makes the length of a frame fail to parse, and a read indexes out of
      range exactly when it is shorter than the payload bytes still owed. */
  lemma PanicsExactlyWhenShort(s: LogState, target: seq<byte>, n: nat)
    requires s.Valid() && n <= |target|
    ensures !ReadSpec(s, target, n).result.Err?
    ensures ReadSpec(s, target, n).result == Panic
            <==> s.bsLeft > n && (4 <= n ==> target[1] == 0 && target[2] == 0 && target[3] == 0)
    ensures ReadSpec(s, target, n).result == Panic ==>
              ReadSpec(s, target, n) == Outcome(Panic, if s.bsLeft > |target| then s else FRESH, target)
  {
    var start := Resume(s, target, n);
    if start.Start? {
      LengthsAlwaysParse(start.p, start.n, start.from);
    }
  }

  /** A read that ends inside a payload hands out all the buffer holds behind the header,
      read or stale, as one line. */
  lemma ShortReadLeaksStaleBytes(stream: byte, len: nat, part: seq<byte>, stale: seq<byte>)
    requires (stream == 1 || stream == 2) && |part| < len < 0x1_0000_0000
    ensures var h := EncodeHeader(stream, len);
            var o := ReadSpec(FRESH, h + (part + stale), |h + part|);
            && o.state == LogState([], len - |part|)
            && o.result == Ok(|MakeLine(part + stale)|) && o.target[..o.result.n] == MakeLine(part + stale)
  {
    hide ParseFrames;
    hide PayloadLen;
    hide MakeLine;
    var h, behind := EncodeHeader(stream, len), part + stale;
    var p := h + behind;
    assert p[0..HEADER_LEN] == h && p[HEADER_LEN..] == behind;
    ParseFrame(p, |h + part|, 0);
    LineLength(behind);
    PrependTwice([], [], ParseFrames(p, |h + part|, 0));
    assert MakeLine(behind)[..|MakeLine(behind)|] == MakeLine(behind);
  }

  lemma LineLength(bs: seq<byte>)
    ensures |MakeLine(bs)| <= |bs| + 1
  {
  }

  /** A read may start inside a payload and look raw. After the header of any payload, a
      second read whose first bytes look raw is handed out as it is, and the parser goes
      on owing the whole payload, which is not what the automaton does. */
  lemma MidPayloadReadTakenForRaw(stream: byte, len: nat, target: seq<byte>, n: nat)
    requires (stream == 1 || stream == 2) && 0 < len < 0x1_0000_0000
    requires n <= |target| && !LooksFramed(target, n)
    ensures var h := EncodeHeader(stream, len);
            Run(FRESH, [Buffer(h, |h|), Buffer(target, n)]) == (Ok(0), LogState([], len), target[..n])
    ensures !Agrees(LogState([], len), target, n)
  {
    hide ReadSpec;
    hide EncodeHeader;
    var h := EncodeHeader(stream, len);
    var fills: seq<Fill> := [Buffer(h, |h|), Buffer(target, n)];
    ShortReadLeaksStaleBytes(stream, len, [], []);
    assert h + ([] + []) == h && h + [] == h;
    RawRead(LogState([], len), target, n);
    RunTwo(FRESH, fills);
    assert [] + target[..n] == target[..n];
    RawNeverAgrees(LogState([], len), target, n);
  }

  lemma RawRead(s: LogState, target: seq<byte>, n: nat)
    requires n <= |target| && !LooksFramed(target, n)
    ensures ReadSpec(s, target, n) == Outcome(Ok(n), s, target)
  {
  }

  lemma RunTwo(s: LogState, fills: seq<Fill>)
    requires |fills| == 2
    requires ReadSpec(s, fills[0].target, fills[0].n).result.Ok?
    ensures var o := ReadSpec(s, fills[0].target, fills[0].n);
            var o2 := ReadSpec(o.state, fills[1].target, fills[1].n);
            o2.result.Ok? ==> Run(s, fills) == (Ok(0), o2.state, o.target[..o.result.n] + o2.target[..o2.result.n])
  {
    var last := fills[1..];
    assert last == [fills[1]] && last[1..] == [];
    var o := ReadSpec(s, fills[0].target, fills[0].n);
    var o2 := ReadSpec(o.state, fills[1].target, fills[1].n);
    if o2.result.Ok? {
      assert Run(o.state, last) == (Ok(0), o2.state, o2.target[..o2.result.n] + []);
      assert o2.target[..o2.result.n] + [] == o2.target[..o2.result.n];
    }
  }
}
