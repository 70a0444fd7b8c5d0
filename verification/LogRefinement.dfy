/** The log parser against an independent reference: an automaton that takes the
    stream one byte at a time. `Feed` adds the carriage returns the parser inserts,
    `Decode` gives the plain payload bytes. */
module LogRefinement {
  import opened Bytes
  import opened LogFormat
  import opened LogParser

  // ----- the byte automaton -----

  datatype Automaton = Header(acc: seq<byte>) | Payload(left: nat) | Stuck

  predicate GoodHeader(h: seq<byte>) {
    |h| == HEADER_LEN && (h[0] == 1 || h[0] == 2)
  }

  function AfterHeader(h: seq<byte>): Automaton
    requires |h| == HEADER_LEN
  {
    if !GoodHeader(h) then Stuck
    else if PayloadLen(h) == 0 then Header([])
    else Payload(PayloadLen(h))
  }

  function Step(a: Automaton, b: byte): Automaton {
    match a
    case Stuck => Stuck
    case Payload(left) => if left <= 1 then Header([]) else Payload(left - 1)
    case Header(acc) => if |acc| == HEADER_LEN - 1 then AfterHeader(acc + [b]) else Header(acc + [b])
  }

  /** The payload bytes of a stream and the state after it. */
  function Decode(a: Automaton, bs: seq<byte>): (Automaton, seq<byte>)
    decreases |bs|
  {
    if bs == [] then (a, [])
    else
      var (end, out) := Decode(Step(a, bs[0]), bs[1..]);
      if a.Payload? then (end, [bs[0]] + out) else (end, out)
  }

  /** One read: a carriage return follows a line feed that ends a payload or the read. */
  function Feed(a: Automaton, bs: seq<byte>): (Automaton, seq<byte>)
    decreases |bs|
  {
    if bs == [] then (a, [])
    else
      var (end, out) := Feed(Step(a, bs[0]), bs[1..]);
      if a.Payload? then
        var piece := if a.left <= 1 || |bs| == 1 then MakeLine([bs[0]]) else [bs[0]];
        (end, piece + out)
      else (end, out)
  }

  /** The automaton state a parser state stands for. */
  function Residual(s: LogState): Automaton {
    if s.bsLeft > 0 then Payload(s.bsLeft) else Header(s.prevHeader)
  }

  // ----- Feed, a header or a payload at a time -----

  lemma {:induction false} StuckStays(bs: seq<byte>)
    ensures Feed(Stuck, bs) == (Stuck, [])
  {
    if bs != [] {
      StuckStays(bs[1..]);
    }
  }

  lemma {:induction false} FeedPartHeader(acc: seq<byte>, bs: seq<byte>)
    requires |acc| + |bs| < HEADER_LEN
    ensures Feed(Header(acc), bs) == (Header(acc + bs), [])
    decreases |bs|
  {
    if bs == [] {
      assert acc + bs == acc;
    } else {
      FeedPartHeader(acc + [bs[0]], bs[1..]);
      assert acc + [bs[0]] + bs[1..] == acc + bs;
    }
  }

  lemma FeedHeaderByte(acc: seq<byte>, bs: seq<byte>)
    requires |acc| < HEADER_LEN && bs != []
    ensures Feed(Header(acc), bs)
            == Feed(if |acc| == HEADER_LEN - 1 then AfterHeader(acc + [bs[0]]) else Header(acc + [bs[0]]), bs[1..])
  {
    hide AfterHeader;
    assert Step(Header(acc), bs[0])
        == if |acc| == HEADER_LEN - 1 then AfterHeader(acc + [bs[0]]) else Header(acc + [bs[0]]);
  }

  lemma {:induction false} FeedHeader(acc: seq<byte>, bs: seq<byte>)
    requires |acc| < HEADER_LEN <= |acc| + |bs|
    ensures Feed(Header(acc), bs)
            == Feed(AfterHeader(acc + bs[..HEADER_LEN - |acc|]), bs[HEADER_LEN - |acc|..])
    decreases |bs|
  {
    hide AfterHeader;
    var k := HEADER_LEN - |acc|;
    FeedHeaderByte(acc, bs);
    if k == 1 {
      assert bs[..1] == [bs[0]];
    } else {
      hide Feed;
      FeedHeader(acc + [bs[0]], bs[1..]);
      assert acc + [bs[0]] + bs[1..][..k - 1] == acc + bs[..k];
      assert bs[1..][k - 1..] == bs[k..];
    }
  }

  lemma MakeLineCons(bs: seq<byte>)
    requires |bs| > 1
    ensures MakeLine(bs) == [bs[0]] + MakeLine(bs[1..])
  {
    assert bs == [bs[0]] + bs[1..];
  }

  lemma {:induction false} FeedCutPayload(left: nat, bs: seq<byte>)
    requires |bs| < left
    ensures Feed(Payload(left), bs) == (Payload(left - |bs|), MakeLine(bs))
  {
    if |bs| == 1 {
      assert bs == [bs[0]] && MakeLine(bs) + [] == MakeLine(bs);
    } else if bs != [] {
      FeedCutPayload(left - 1, bs[1..]);
      MakeLineCons(bs);
    }
  }

  lemma FeedPayloadByte(left: nat, bs: seq<byte>)
    requires 0 < left <= |bs|
    ensures Feed(Payload(left), bs)
            == if left == 1 then PrependFed(MakeLine([bs[0]]), Feed(Header([]), bs[1..]))
               else PrependFed([bs[0]], Feed(Payload(left - 1), bs[1..]))
  {
    hide MakeLine;
    assert Step(Payload(left), bs[0]) == if left == 1 then Header([]) else Payload(left - 1);
  }

  lemma {:induction false} FeedWholePayload(left: nat, bs: seq<byte>)
    requires 0 < left <= |bs|
    ensures var (end, out) := Feed(Header([]), bs[left..]);
            Feed(Payload(left), bs) == (end, MakeLine(bs[..left]) + out)
  {
    hide Feed;
    hide MakeLine;
    FeedPayloadByte(left, bs);
    if left == 1 {
      assert bs[..1] == [bs[0]];
    } else {
      var head, rest := bs[..left], bs[left..];
      FeedWholePayload(left - 1, bs[1..]);
      assert bs[1..][left - 1..] == rest && bs[1..][..left - 1] == head[1..];
      MakeLineCons(head);
      AppendAssociates([bs[0]], MakeLine(head[1..]), Feed(Header([]), rest).1);
    }
  }

  lemma FeedWholeHeader(bs: seq<byte>, h: seq<byte>, rest: seq<byte>)
    requires |h| == HEADER_LEN && bs == h + rest
    ensures Feed(Header([]), bs) == Feed(AfterHeader(h), rest)
  {
    FeedHeader([], bs);
    assert bs[..HEADER_LEN] == h && bs[HEADER_LEN..] == rest && [] + h == h;
  }

  lemma FeedBadFrame(bs: seq<byte>, h: seq<byte>, rest: seq<byte>)
    requires |h| == HEADER_LEN && !GoodHeader(h) && bs == h + rest
    ensures Feed(Header([]), bs) == (Stuck, [])
  {
    FeedWholeHeader(bs, h, rest);
    StuckStays(rest);
  }

  lemma FeedCutFrame(bs: seq<byte>, h: seq<byte>, part: seq<byte>)
    requires GoodHeader(h) && |part| < PayloadLen(h) && bs == h + part
    ensures Feed(Header([]), bs) == (Payload(PayloadLen(h) - |part|), MakeLine(part))
  {
    FeedWholeHeader(bs, h, part);
    FeedCutPayload(PayloadLen(h), part);
  }

  lemma FeedFrame(bs: seq<byte>, h: seq<byte>, payload: seq<byte>, tail: seq<byte>)
    requires GoodHeader(h) && |payload| == PayloadLen(h) && bs == h + (payload + tail)
    ensures Feed(Header([]), bs) == PrependFed(MakeLine(payload), Feed(Header([]), tail))
  {
    var rest := payload + tail;
    FeedWholeHeader(bs, h, rest);
    if payload == [] {
      assert rest == tail && MakeLine(payload) + Feed(Header([]), tail).1 == Feed(Header([]), tail).1;
    } else {
      FeedWholePayload(|payload|, rest);
      assert rest[..|payload|] == payload && rest[|payload|..] == tail;
    }
  }

  function PrependFed(line: seq<byte>, fed: (Automaton, seq<byte>)): (Automaton, seq<byte>) {
    (fed.0, line + fed.1)
  }

  // ----- the frame loop refines Feed -----

  /** One round of the frame loop, its length read as a big-endian number. */
  lemma ParseFrame(p: seq<byte>, n: nat, start: nat)
    requires start <= n <= |p|
    ensures var body := start + HEADER_LEN;
            if body > n then ParseFrames(p, n, start) == Parsed([], LogState(p[start..n], 0))
            else if !GoodHeader(p[start..body]) then ParseFrames(p, n, start) == Parsed([], FRESH)
            else
              var len := PayloadLen(p[start..body]);
              ParseFrames(p, n, start)
              == if body + len > n then Parsed(MakeLine(p[body..]), LogState([], len - (n - body)))
                 else Prepend(MakeLine(p[body..body + len]), ParseFrames(p, n, body + len))
  {
    hide MsgLen;
    hide PayloadLen;
    hide MakeLine;
    hide Prepend;
    if start + HEADER_LEN <= n {
      MsgLenIsPayloadLen(p[start..start + HEADER_LEN]);
    }
  }

  /** The parser state after the automaton ended in `end`: its residual state, and
      after a bad header a fresh start with the next read. */
  predicate Follows(state: LogState, end: Automaton) {
    if end == Stuck then state == FRESH else Residual(state) == end
  }

  /** The parser's result `r` is the automaton's. When the read did not fill the
      buffer (`!full`) this is not claimed of a read that ends inside a payload: the
      parser then takes stale buffer bytes for payload. */
  predicate Matches(fed: (Automaton, seq<byte>), r: Parsed, full: bool) {
    full || !fed.0.Payload? ==> r.Parsed? && Follows(r.state, fed.0) && r.bs == fed.1
  }

  /** The frame loop from `start` does what the automaton does on the same bytes. */
  predicate Refined(p: seq<byte>, n: nat, start: nat)
    requires start <= n <= |p|
  {
    Matches(Feed(Header([]), p[start..n]), ParseFrames(p, n, start), n == |p|)
  }

  lemma MatchesPrepend(line: seq<byte>, fed: (Automaton, seq<byte>), r: Parsed, full: bool)
    requires Matches(fed, r, full)
    ensures Matches(PrependFed(line, fed), Prepend(line, r), full)
  {
  }

  lemma RefinedAtEnd(p: seq<byte>, n: nat, start: nat)
    requires start <= n <= |p|
    requires start + HEADER_LEN > n || !GoodHeader(p[start..start + HEADER_LEN])
             || start + HEADER_LEN + PayloadLen(p[start..start + HEADER_LEN]) > n
    ensures Refined(p, n, start)
  {
    hide Feed;
    hide ParseFrames;
    hide MakeLine;
    hide PayloadLen;
    var rest, body := p[start..n], start + HEADER_LEN;
    ParseFrame(p, n, start);
    if body > n {
      FeedPartHeader([], rest);
      assert [] + rest == rest;
    } else {
      var h := p[start..body];
      assert rest == h + p[body..n];
      if !GoodHeader(h) {
        FeedBadFrame(rest, h, p[body..n]);
      } else {
        FeedCutFrame(rest, h, p[body..n]);
        assert n == |p| ==> p[body..n] == p[body..];
      }
    }
  }

  lemma RefinedStep(p: seq<byte>, n: nat, start: nat, next: nat)
    requires start + HEADER_LEN <= next <= n <= |p|
    requires GoodHeader(p[start..start + HEADER_LEN])
    requires next == start + HEADER_LEN + PayloadLen(p[start..start + HEADER_LEN])
    requires Refined(p, n, next)
    ensures Refined(p, n, start)
  {
    hide Feed;
    hide ParseFrames;
    var body := start + HEADER_LEN;
    CutTwice(p, start, body, next, n);
    FeedFrame(p[start..n], p[start..body], p[body..next], p[next..n]);
    ParseFrame(p, n, start);
    MatchesPrepend(MakeLine(p[body..next]), Feed(Header([]), p[next..n]), ParseFrames(p, n, next), n == |p|);
  }

  lemma {:induction false} ParseFramesRefines(p: seq<byte>, n: nat, start: nat)
    requires start <= n <= |p|
    ensures Refined(p, n, start)
    decreases n - start
  {
    hide Feed;
    hide ParseFrames;
    var body := start + HEADER_LEN;
    if body <= n && GoodHeader(p[start..body]) && body + PayloadLen(p[start..body]) <= n {
      var next := body + PayloadLen(p[start..body]);
      ParseFramesRefines(p, n, next);
      RefinedStep(p, n, start, next);
    } else {
      RefinedAtEnd(p, n, start);
    }
  }

  // ----- one read -----

  /** What a read that starts with a header looks like: bytes 1 to 3, if it has four, are
      zero. */
  predicate LooksFramed(target: seq<byte>, n: nat)
    requires n <= |target|
  {
    4 <= n ==> target[1] == 0 && target[2] == 0 && target[3] == 0
  }

  /** The reads without a pitfall: not taken for raw, reaching the end of a carried
      payload, and with no stale buffer byte in play. */
  predicate Clean(s: LogState, target: seq<byte>, n: nat)
    requires n <= |target|
  {
    && LooksFramed(target, n)
    && s.bsLeft <= n
    && (n == |target| || (s.prevHeader == [] && !Feed(Residual(s), target[..n]).0.Payload?))
  }

  lemma FeedResumeHeader(prev: seq<byte>, chunk: seq<byte>)
    requires |prev| < HEADER_LEN
    ensures Feed(Header(prev), chunk) == Feed(Header([]), prev + chunk)
  {
    if |prev| + |chunk| < HEADER_LEN {
      FeedPartHeader(prev, chunk);
      FeedPartHeader([], prev + chunk);
      assert [] + (prev + chunk) == prev + chunk;
    } else {
      var k := HEADER_LEN - |prev|;
      FeedHeader(prev, chunk);
      assert prev + chunk == (prev + chunk[..k]) + chunk[k..];
      FeedWholeHeader(prev + chunk, prev + chunk[..k], chunk[k..]);
    }
  }

  /** Without a carried header, parser and automaton finish the carried payload alike
      and go on behind it. */
  lemma ResumePayload(s: LogState, target: seq<byte>, n: nat)
    requires s.prevHeader == [] && s.bsLeft <= n <= |target|
    ensures var first := if s.bsLeft == 0 then [] else MakeLine(target[..s.bsLeft]);
            && Parse(Resume(s, target, n)) == Prepend(first, ParseFrames(target, n, s.bsLeft))
            && Feed(Residual(s), target[..n]) == PrependFed(first, Feed(Header([]), target[s.bsLeft..n]))
  {
    hide Feed;
    hide ParseFrames;
    var chunk := target[..n];
    if s.bsLeft == 0 {
      assert target[0..n] == chunk;
      assert [] + Feed(Header([]), chunk).1 == Feed(Header([]), chunk).1;
    } else {
      FeedWholePayload(s.bsLeft, chunk);
      assert chunk[s.bsLeft..] == target[s.bsLeft..n] && chunk[..s.bsLeft] == target[..s.bsLeft];
    }
  }

  /** A read that resumes a header parses the whole buffer behind it. */
  lemma ParseResumedHeader(s: LogState, target: seq<byte>, n: nat)
    requires s.Valid() && s.prevHeader != [] && n <= |target|
    ensures var (end, out) := Feed(Residual(s), target);
            var r := Parse(Resume(s, target, n));
            r.Parsed? && Follows(r.state, end) && r.bs == out
  {
    hide Feed;
    hide ParseFrames;
    var p := s.prevHeader + target;
    assert p[0..|p|] == p;
    FeedResumeHeader(s.prevHeader, target);
    ParseFramesRefines(p, |p|, 0);
    PrependTwice([], [], ParseFrames(p, |p|, 0));
  }

  lemma ParseRefines(s: LogState, target: seq<byte>, n: nat)
    requires s.Valid() && n <= |target| && Clean(s, target, n)
    ensures var (end, out) := Feed(Residual(s), target[..n]);
            var r := Parse(Resume(s, target, n));
            r.Parsed? && Follows(r.state, end) && r.bs == out
  {
    hide Feed;
    hide ParseFrames;
    if s.prevHeader != [] {
      assert target[..n] == target;
      ParseResumedHeader(s, target, n);
    } else {
      ResumePayload(s, target, n);
      ParseFramesRefines(target, n, s.bsLeft);
    }
  }

  /** Every frame costs eight header bytes and yields at most one extra byte; a header
      that is still being read yields nothing. */
  predicate Bounded(fed: (Automaton, seq<byte>), len: nat) {
    var carried := if fed.0.Header? then |fed.0.acc| else 0;
    carried <= len && ((fed.1 == [] && !fed.0.Payload?) || |fed.1| + HEADER_LEN - 1 + carried <= len)
  }

  lemma {:induction false} FeedBound(bs: seq<byte>)
    ensures Bounded(Feed(Header([]), bs), |bs|)
    decreases |bs|
  {
    hide Feed;
    hide PayloadLen;
    if |bs| < HEADER_LEN {
      FeedPartHeader([], bs);
    } else {
      var h, body := bs[..HEADER_LEN], bs[HEADER_LEN..];
      assert bs == h + body;
      if !GoodHeader(h) {
        FeedBadFrame(bs, h, body);
      } else if |body| < PayloadLen(h) {
        FeedCutFrame(bs, h, body);
      } else {
        var payload, tail := body[..PayloadLen(h)], body[PayloadLen(h)..];
        assert body == payload + tail;
        FeedFrame(bs, h, payload, tail);
        FeedBound(tail);
      }
    }
  }

  /** At most one byte too many is decoded for the caller's buffer, exactly when the
      carried payload is the whole read and ends a line; the byte that does not fit
      is an inserted carriage return. */
  lemma TruncationBound(s: LogState, target: seq<byte>, n: nat)
    requires s.Valid() && n <= |target| && Clean(s, target, n)
    ensures Parse(Resume(s, target, n)).Parsed?
    ensures var out := Parse(Resume(s, target, n)).bs;
            && |out| <= n + 1
            && (|out| == n + 1 <==> 0 < s.bsLeft == n && target[n - 1] == LF)
            && (|out| == n + 1 ==> out == target[..n] + [CR])
  {
    hide Feed;
    hide ParseFrames;
    ParseRefines(s, target, n);
    OutputBound(s, target[..n]);
  }

  /** The same bound for the automaton: what a read decodes to is shorter than the read
      but for one line that is the rest of a carried payload. */
  lemma OutputBound(s: LogState, chunk: seq<byte>)
    requires s.Valid() && s.bsLeft <= |chunk|
    ensures var out := Feed(Residual(s), chunk).1;
            && |out| <= |chunk| + 1
            && (|out| == |chunk| + 1 <==> 0 < s.bsLeft == |chunk| && chunk[|chunk| - 1] == LF)
            && (|out| == |chunk| + 1 ==> out == chunk + [CR])
  {
    hide Feed;
    if s.bsLeft == 0 {
      FeedResumeHeader(s.prevHeader, chunk);
      FeedBound(s.prevHeader + chunk);
    } else {
      FeedWholePayload(s.bsLeft, chunk);
      FeedBound(chunk[s.bsLeft..]);
      if s.bsLeft == |chunk| {
        assert chunk[..|chunk|] == chunk && chunk[|chunk|..] == [];
        FeedPartHeader([], []);
        assert MakeLine(chunk) + [] == MakeLine(chunk);
      }
    }
  }
}
