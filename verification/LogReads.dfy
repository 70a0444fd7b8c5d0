/** One read of the log parser, exactly: when it leaves the automaton's state and hands
    out the automaton's output, for every state, buffer and length. */
module LogReads {
  import opened Bytes
  import opened LogFormat
  import opened LogParser
  import opened LogRefinement

  // ----- what a read should do -----

  /** The read follows the automaton over the bytes the daemon delivered: it leaves the
      residual state, and hands out the same bytes, less at most the carriage return
      that a full buffer has no room for. */
  predicate Agrees(s: LogState, target: seq<byte>, n: nat)
    requires n <= |target|
  {
    var (end, out) := Feed(Residual(s), target[..n]);
    var o := ReadSpec(s, target, n);
    && o.result.Ok?
    && Follows(o.state, end)
    && var got := o.target[..o.result.n];
       got == out || (|got| == |target| && out == got + [CR])
  }

  /** The carried payload ends a line and is all the buffer holds. */
  predicate DropsReturn(s: LogState, target: seq<byte>, n: nat) {
    0 < s.bsLeft == n == |target| && target[n - 1] == LF
  }

  /** The bytes end with a line feed inside a payload, so that `Feed` puts a carriage
      return there only because they end. */
  predicate EndsInnerLine(a: Automaton, bs: seq<byte>) {
    && bs != [] && bs[|bs| - 1] == LF
    && var before := Feed(a, bs[..|bs| - 1]).0;
       before.Payload? && before.left > 1
  }

  /** The stale bytes behind a read change nothing: read on, they lead the automaton back
      to where it is, or by a bad header to a fresh start, and yield nothing but the
      carriage return that the read ends with anyway. */
  predicate Harmless(a: Automaton, chunk: seq<byte>, stale: seq<byte>) {
    var mid := Feed(a, chunk).0;
    var (back, more) := Feed(mid, stale);
    && (back == mid || (back == Stuck && mid == Header([])))
    && more == (if EndsInnerLine(a, chunk) then [CR] else [])
  }

  /** The reads the parser treats as framed: not taken for raw, reaching the end of a
      carried payload, and the buffer holds nothing behind the read that is taken for
      part of it. A resumed header makes the parser read the whole buffer, a payload cut
      by the end of the read its rest. */
  predicate Framed(s: LogState, target: seq<byte>, n: nat)
    requires n <= |target|
  {
    var a, chunk, stale := Residual(s), target[..n], target[n..];
    && LooksFramed(target, n)
    && s.bsLeft <= n
    && (|| stale == []
        || (if s.prevHeader != [] then Harmless(a, chunk, stale)
            else Feed(a, chunk).0.Payload? ==> stale == [CR] && EndsInnerLine(a, chunk)))
  }

  // ----- cutting the bytes the automaton takes -----

  /** The output of `Feed` without the carriage return that is there only because the
      bytes end. */
  function Uncut(a: Automaton, bs: seq<byte>): seq<byte> {
    var out := Feed(a, bs).1;
    if EndsInnerLine(a, bs) && out != [] then out[..|out| - 1] else out
  }

  /** What a byte with more bytes behind it yields. */
  function Piece(a: Automaton, b: byte): seq<byte> {
    if !a.Payload? then [] else if a.left <= 1 then MakeLine([b]) else [b]
  }

  lemma FeedCons(a: Automaton, bs: seq<byte>)
    requires |bs| > 1
    ensures Feed(a, bs) == PrependFed(Piece(a, bs[0]), Feed(Step(a, bs[0]), bs[1..]))
    ensures EndsInnerLine(a, bs) <==> EndsInnerLine(Step(a, bs[0]), bs[1..])
  {
    hide MakeLine;
    hide Step;
    var init, tail := bs[..|bs| - 1], bs[1..];
    assert init[0] == bs[0] && init[1..] == tail[..|tail| - 1];
    assert tail[|tail| - 1] == bs[|bs| - 1];
    assert [] + Feed(Step(a, bs[0]), tail).1 == Feed(Step(a, bs[0]), tail).1;
  }

  lemma UncutCons(a: Automaton, bs: seq<byte>)
    requires |bs| > 1
    ensures Uncut(a, bs) == Piece(a, bs[0]) + Uncut(Step(a, bs[0]), bs[1..])
  {
    hide Feed;
    hide Step;
    hide Piece;
    hide EndsInnerLine;
    FeedCons(a, bs);
    LineEndReturn(Step(a, bs[0]), bs[1..]);
  }

  lemma FeedOne(a: Automaton, b: byte)
    ensures Feed(a, [b]) == (Step(a, b), if a.Payload? then MakeLine([b]) else [])
    ensures EndsInnerLine(a, [b]) <==> b == LF && a.Payload? && a.left > 1
  {
    hide Step;
    var bs := [b];
    assert bs[1..] == [] && bs[..|bs| - 1] == [];
    assert MakeLine([b]) + [] == MakeLine([b]);
  }

  lemma {:induction false} LineEndReturn(a: Automaton, bs: seq<byte>)
    ensures EndsInnerLine(a, bs) ==> var out := Feed(a, bs).1; out != [] && out[|out| - 1] == CR
    decreases |bs|
  {
    hide Feed;
    hide Step;
    if |bs| == 1 {
      FeedOne(a, bs[0]);
      assert bs == [bs[0]];
    } else if bs != [] {
      FeedCons(a, bs);
      LineEndReturn(Step(a, bs[0]), bs[1..]);
    }
  }

  lemma FeedSplitShort(a: Automaton, x: seq<byte>, y: seq<byte>)
    requires y != [] && |x| <= 1
    ensures Feed(a, x + y) == PrependFed(Uncut(a, x), Feed(Feed(a, x).0, y))
  {
    hide Step;
    if x == [] {
      assert x + y == y && [] + Feed(a, y).1 == Feed(a, y).1;
    } else {
      var b := x[0];
      assert x == [b] && (x + y)[1..] == y && (x + y)[0] == b;
      FeedOne(a, b);
      FeedCons(a, x + y);
      UncutOne(a, b);
    }
  }

  lemma UncutOne(a: Automaton, b: byte)
    ensures Uncut(a, [b]) == Piece(a, b)
  {
    hide Step;
    hide Feed;
    hide EndsInnerLine;
    FeedOne(a, b);
  }

  /** `Feed` cut in two: the state is that of the uncut bytes, and so is the output but
      for a carriage return behind an inner line feed at the cut. */
  lemma {:induction false} FeedSplit(a: Automaton, x: seq<byte>, y: seq<byte>)
    requires y != []
    ensures Feed(a, x + y) == PrependFed(Uncut(a, x), Feed(Feed(a, x).0, y))
    decreases |x|
  {
    hide Feed;
    hide Step;
    hide EndsInnerLine;
    hide Piece;
    hide Uncut;
    if |x| <= 1 {
      FeedSplitShort(a, x, y);
    } else {
      var b, tail := x[0], x[1..];
      FeedSplit(Step(a, b), tail, y);
      FeedCons(a, x);
      FeedCons(a, x + y);
      assert (x + y)[1..] == tail + y && (x + y)[0] == b;
      UncutCons(a, x);
      AppendAssociates(Piece(a, b), Uncut(Step(a, b), tail), Feed(Feed(a, x).0, y).1);
    }
  }

  /** The output changes at the cut if and only if the cut follows an inner line feed. */
  lemma FeedSplitsExactly(a: Automaton, x: seq<byte>, y: seq<byte>)
    requires y != []
    ensures Feed(a, x + y).1 == Feed(a, x).1 + Feed(Feed(a, x).0, y).1 <==> !EndsInnerLine(a, x)
  {
    hide Feed;
    hide EndsInnerLine;
    FeedSplit(a, x, y);
    LineEndReturn(a, x);
  }

  /** A line end inside a payload is decided by the bytes after the last frame boundary. */
  lemma EndsInnerLineBehind(a: Automaton, x: seq<byte>, y: seq<byte>)
    requires y != []
    ensures EndsInnerLine(a, x + y) <==> EndsInnerLine(Feed(a, x).0, y)
  {
    hide Feed;
    hide Uncut;
    var init := y[..|y| - 1];
    assert (x + y)[..|x + y| - 1] == x + init;
    if init == [] {
      assert x + init == x;
      FeedNothing(Feed(a, x).0);
    } else {
      FeedSplit(a, x, init);
    }
  }

  lemma FeedNothing(a: Automaton)
    ensures Feed(a, []) == (a, [])
  {
  }

  // ----- a short read that ends inside a payload -----

  /** Where in `p` the payload cut by the end of the read begins. */
  function CutAt(p: seq<byte>, n: nat, start: nat): (c: nat)
    requires start <= n <= |p|
    ensures start <= c <= n
    decreases n - start
  {
    var body := start + HEADER_LEN;
    if body > n || !GoodHeader(p[start..body]) then n
    else if body + PayloadLen(p[start..body]) > n then body
    else CutAt(p, n, body + PayloadLen(p[start..body]))
  }

  /** Parser and automaton agree but for the last line: `line` of the automaton, and
      `staleLine` of the parser. */
  predicate Tailed(pre: seq<byte>, fed: (Automaton, seq<byte>), r: Parsed, line: seq<byte>, staleLine: seq<byte>) {
    fed.0.Payload? ==>
      && r.Parsed? && Residual(r.state) == fed.0
      && fed.1 == pre + line && r.bs == pre + staleLine
  }

  lemma TailedPrepend(x: seq<byte>, pre: seq<byte>, fed: (Automaton, seq<byte>), r: Parsed,
                      line: seq<byte>, staleLine: seq<byte>)
    requires Tailed(pre, fed, r, line, staleLine)
    ensures Tailed(x + pre, PrependFed(x, fed), Prepend(x, r), line, staleLine)
  {
    AppendAssociates(x, pre, line);
    AppendAssociates(x, pre, staleLine);
  }

  lemma TailedAtEnd(p: seq<byte>, n: nat, start: nat)
    requires start <= n <= |p|
    requires start + HEADER_LEN > n || !GoodHeader(p[start..start + HEADER_LEN])
             || start + HEADER_LEN + PayloadLen(p[start..start + HEADER_LEN]) > n
    ensures var c := CutAt(p, n, start);
            Tailed([], Feed(Header([]), p[start..n]), ParseFrames(p, n, start), MakeLine(p[c..n]), MakeLine(p[c..]))
  {
    hide Feed;
    hide ParseFrames;
    hide MakeLine;
    hide PayloadLen;
    var rest, body := p[start..n], start + HEADER_LEN;
    ParseFrame(p, n, start);
    if body > n {
      FeedPartHeader([], rest);
    } else {
      var h := p[start..body];
      assert rest == h + p[body..n];
      if !GoodHeader(h) {
        FeedBadFrame(rest, h, p[body..n]);
      } else {
        FeedCutFrame(rest, h, p[body..n]);
      }
    }
  }

  lemma {:induction false} StaleTail(p: seq<byte>, n: nat, start: nat) returns (pre: seq<byte>)
    requires start <= n <= |p|
    ensures var c := CutAt(p, n, start);
            Tailed(pre, Feed(Header([]), p[start..n]), ParseFrames(p, n, start), MakeLine(p[c..n]), MakeLine(p[c..]))
    decreases n - start
  {
    hide Feed;
    hide ParseFrames;
    hide PayloadLen;
    hide MakeLine;
    hide Tailed;
    var body := start + HEADER_LEN;
    if body <= n && GoodHeader(p[start..body]) && body + PayloadLen(p[start..body]) <= n {
      var next := body + PayloadLen(p[start..body]);
      var c := CutAt(p, n, next);
      assert CutAt(p, n, start) == c;
      var rest := StaleTail(p, n, next);
      pre := MakeLine(p[body..next]) + rest;
      TailedStep(p, n, start, next, rest, MakeLine(p[c..n]), MakeLine(p[c..]));
    } else {
      pre := [];
      TailedAtEnd(p, n, start);
    }
  }

  lemma TailedStep(p: seq<byte>, n: nat, start: nat, next: nat, pre: seq<byte>, line: seq<byte>, staleLine: seq<byte>)
    requires start + HEADER_LEN <= next <= n <= |p|
    requires GoodHeader(p[start..start + HEADER_LEN])
    requires next == start + HEADER_LEN + PayloadLen(p[start..start + HEADER_LEN])
    requires Tailed(pre, Feed(Header([]), p[next..n]), ParseFrames(p, n, next), line, staleLine)
    ensures Tailed(MakeLine(p[start + HEADER_LEN..next]) + pre, Feed(Header([]), p[start..n]), ParseFrames(p, n, start),
                   line, staleLine)
  {
    hide Feed;
    hide ParseFrames;
    var body := start + HEADER_LEN;
    CutTwice(p, start, body, next, n);
    FeedFrame(p[start..n], p[start..body], p[body..next], p[next..n]);
    ParseFrame(p, n, start);
    TailedPrepend(MakeLine(p[body..next]), pre, Feed(Header([]), p[next..n]), ParseFrames(p, n, next), line, staleLine);
  }

  /** A line with bytes appended is the same line only if nothing is appended, or the
      carriage return it gets anyway. */
  lemma SameLine(part: seq<byte>, stale: seq<byte>)
    ensures MakeLine(part + stale) == MakeLine(part)
            <==> stale == [] || (stale == [CR] && part != [] && part[|part| - 1] == LF)
    ensures |MakeLine(part + stale)| <= |MakeLine(part)| + |stale| + 1
  {
    if stale == [] {
      assert part + stale == part;
    } else {
      assert MakeLine(part + stale)[|part|..|part| + |stale|] == stale;
      if MakeLine(part + stale) == MakeLine(part) {
        assert |stale| == 1 && stale[0] == MakeLine(part)[|part|];
      }
    }
  }

  lemma Cancel(a: seq<byte>, b: seq<byte>, x: seq<byte>, y: seq<byte>)
    ensures a + (b + x) == a + (b + y) <==> x == y
    ensures b + x == b + y <==> x == y
  {
    assert (b + x)[|b|..] == x && (b + y)[|b|..] == y;
    assert (a + (b + x))[|a|..] == b + x && (a + (b + y))[|a|..] == b + y;
  }

  lemma {:induction false} CutInLine(p: seq<byte>, n: nat, start: nat)
    requires start <= n <= |p|
    requires Feed(Header([]), p[start..n]).0.Payload?
    ensures EndsInnerLine(Header([]), p[start..n]) <==> CutAt(p, n, start) < n && p[n - 1] == LF
    decreases n - start
  {
    hide Feed;
    hide PayloadLen;
    hide EndsInnerLine;
    hide MakeLine;
    var rest, body := p[start..n], start + HEADER_LEN;
    if body > n {
      FeedPartHeader([], rest);
      assert false;
    } else {
      var h := p[start..body];
      assert rest == h + p[body..n];
      if !GoodHeader(h) {
        FeedBadFrame(rest, h, p[body..n]);
        assert false;
      } else if body + PayloadLen(h) > n {
        CutInFrame(h, p[body..n]);
      } else {
        var next := body + PayloadLen(h);
        CutTwice(p, start, body, next, n);
        FeedFrame(rest, h, p[body..next], p[next..n]);
        CutInLine(p, n, next);
        FeedFrame(h + p[body..next], h, p[body..next], []);
        FeedNothing(Header([]));
        assert h + (p[body..next] + []) == h + p[body..next];
        AppendAssociates(h, p[body..next], p[next..n]);
        EndsInnerLineBehind(Header([]), h + p[body..next], p[next..n]);
      }
    }
  }

  lemma CutInFrame(h: seq<byte>, part: seq<byte>)
    requires GoodHeader(h) && |part| < PayloadLen(h)
    ensures EndsInnerLine(Header([]), h + part) <==> part != [] && part[|part| - 1] == LF
  {
    hide Feed;
    hide PayloadLen;
    if part == [] {
      var init := h[..HEADER_LEN - 1];
      FeedPartHeader([], init);
      assert h + part == h;
    } else {
      var init := part[..|part| - 1];
      assert (h + part)[..|h + part| - 1] == h + init;
      FeedCutFrame(h + init, h, init);
    }
  }

  /** What the parser makes of a read that ends inside a payload, with no header carried:
      the state is the automaton's, and so is the output if and only if the buffer holds
      nothing behind the read, or just the carriage return that the cut line gets anyway. */
  lemma ParseStaleTail(s: LogState, target: seq<byte>, n: nat)
    requires s.prevHeader == [] && s.bsLeft <= n <= |target|
    requires Feed(Residual(s), target[..n]).0.Payload?
    ensures var (end, out) := Feed(Residual(s), target[..n]);
            var r := Parse(Resume(s, target, n));
            var stale := target[n..];
            && r.Parsed? && Residual(r.state) == end
            && |r.bs| <= |out| + |stale| + 1
            && (r.bs == out <==> stale == [] || (stale == [CR] && EndsInnerLine(Residual(s), target[..n])))
  {
    hide Feed;
    hide ParseFrames;
    hide Parse;
    hide CutAt;
    hide MakeLine;
    hide Residual;
    hide EndsInnerLine;
    var c := CutAt(target, n, s.bsLeft);
    var first := if s.bsLeft == 0 then [] else MakeLine(target[..s.bsLeft]);
    ResumePayload(s, target, n);
    var pre := StaleTail(target, n, s.bsLeft);
    SameLine(target[c..n], target[n..]);
    assert target[c..] == target[c..n] + target[n..];
    Cancel(first, pre, MakeLine(target[c..n]), MakeLine(target[c..]));
    CutInLine(target, n, s.bsLeft);
    CutBehindCarried(s, target[..n]);
    assert target[..n][s.bsLeft..] == target[s.bsLeft..n];
  }

  /** And its output is exactly what the automaton makes of the read, with the bytes behind
      it in place of the carriage return of the cut line. */
  lemma ParseStaleBytes(s: LogState, target: seq<byte>, n: nat)
    requires s.prevHeader == [] && s.bsLeft <= n < |target|
    requires Feed(Residual(s), target[..n]).0.Payload?
    ensures var r := Parse(Resume(s, target, n));
            r.Parsed? && r.bs == Uncut(Residual(s), target[..n]) + MakeLine(target[n..])
  {
    hide Feed;
    hide ParseFrames;
    hide Parse;
    hide CutAt;
    hide MakeLine;
    hide Residual;
    hide EndsInnerLine;
    var c := CutAt(target, n, s.bsLeft);
    var first := if s.bsLeft == 0 then [] else MakeLine(target[..s.bsLeft]);
    ResumePayload(s, target, n);
    var pre := StaleTail(target, n, s.bsLeft);
    var part, stale := target[c..n], target[n..];
    assert target[c..] == part + stale;
    CutInLine(target, n, s.bsLeft);
    CutBehindCarried(s, target[..n]);
    assert target[..n][s.bsLeft..] == target[s.bsLeft..n];
    AppendAssociates(first, pre, MakeLine(part));
    AppendAssociates(first, pre, MakeLine(part + stale));
    StaleLine(first + pre, part, stale);
  }

  /** Bytes behind a line take the place of its carriage return. */
  lemma StaleLine(pre: seq<byte>, part: seq<byte>, stale: seq<byte>)
    requires stale != []
    ensures var out := pre + MakeLine(part);
            pre + MakeLine(part + stale)
            == (if part != [] && part[|part| - 1] == LF && out != [] then out[..|out| - 1] else out) + MakeLine(stale)
  {
    LineSplit(part, stale);
    hide MakeLine;
    AppendAssociates(pre, part, MakeLine(stale));
    assert MakeLine(part) == part + [CR] ==> (pre + MakeLine(part))[..|pre + part|] == pre + part;
  }

  lemma LineSplit(part: seq<byte>, stale: seq<byte>)
    requires stale != []
    ensures MakeLine(part + stale) == part + MakeLine(stale)
    ensures MakeLine(part) == if part != [] && part[|part| - 1] == LF then part + [CR] else part
  {
    assert (part + stale)[|part + stale| - 1] == stale[|stale| - 1];
    assert part + stale + [CR] == part + (stale + [CR]);
  }

  lemma CutBehindCarried(s: LogState, chunk: seq<byte>)
    requires s.prevHeader == [] && s.bsLeft <= |chunk|
    requires Feed(Residual(s), chunk).0.Payload?
    ensures EndsInnerLine(Residual(s), chunk) <==> EndsInnerLine(Header([]), chunk[s.bsLeft..])
  {
    hide Feed;
    hide EndsInnerLine;
    var head, tail := chunk[..s.bsLeft], chunk[s.bsLeft..];
    if s.bsLeft == 0 {
      assert tail == chunk;
    } else {
      assert chunk == head + tail;
      PayloadEnds(s.bsLeft, head);
      assert tail == [] ==> chunk == head;
      EndsInnerLineBehind(Payload(s.bsLeft), head, tail);
    }
  }

  lemma PayloadEnds(left: nat, payload: seq<byte>)
    requires 0 < left == |payload|
    ensures Feed(Payload(left), payload).0 == Header([])
  {
    hide Feed;
    hide MakeLine;
    FeedWholePayload(left, payload);
    assert payload[left..] == [];
    FeedNothing(Header([]));
  }

  // ----- one read, case by case -----

  /** A read without a pitfall: the automaton's state and output, but for the carriage
      return that does not fit when the carried payload fills the buffer. */
  lemma CleanRead(s: LogState, target: seq<byte>, n: nat)
    requires s.Valid() && n <= |target| && Clean(s, target, n)
    ensures var (end, out) := Feed(Residual(s), target[..n]);
            var o := ReadSpec(s, target, n);
            && o.result.Ok? && Follows(o.state, end)
            && var got := o.target[..o.result.n];
               if DropsReturn(s, target, n) then got == target && out == target + [CR] else got == out
  {
    hide Feed;
    hide ParseFrames;
    ParseRefines(s, target, n);
    TruncationBound(s, target, n);
    var out := Feed(Residual(s), target[..n]).1;
    if |out| > |target| {
      assert target[..n] == target && out[..|target|] == target;
    } else {
      assert out[..|out|] == out;
    }
  }

  // ----- raw reads -----

  /** A terminal's stream has no frames. A read of at least four bytes of which the second
      to fourth are not all zero is handed out as it is and leaves the parser as it was. */
  lemma RawPassesThrough(s: LogState, target: seq<byte>, n: nat)
    requires 4 <= n <= |target| && (target[1] != 0 || target[2] != 0 || target[3] != 0)
    ensures ReadSpec(s, target, n) == Outcome(Ok(n), s, target)
  {
  }

  /** With a new parser no other read of a terminal's stream is: one that is shorter, or
      has zeros there, loses bytes or leaves something carried, unless it is empty. */
  lemma PassesThroughExactly(target: seq<byte>, n: nat)
    requires n <= |target|
    ensures ReadSpec(FRESH, target, n) == Outcome(Ok(n), FRESH, target)
            <==> n == 0 || (n >= 4 && (target[1] != 0 || target[2] != 0 || target[3] != 0))
  {
    hide Feed;
    hide ParseFrames;
    var chunk := target[..n];
    if !LooksFramed(target, n) {
      RawPassesThrough(FRESH, target, n);
    } else {
      FeedBound(chunk);
      if Feed(Header([]), chunk).0.Payload? {
        ParseStaleTail(FRESH, target, n);
      } else {
        CleanRead(FRESH, target, n);
        if n == 0 {
          EmptyRead(target);
        }
      }
    }
  }

  lemma EmptyRead(target: seq<byte>)
    ensures ReadSpec(FRESH, target, 0) == Outcome(Ok(0), FRESH, target)
  {
    assert target[0..0] == [] && [] + target[0..] == target;
    assert Parse(Resume(FRESH, target, 0)) == Parsed([], FRESH);
  }

  /** A read taken for raw never agrees: it leaves the state as it was and hands out all
      its bytes, while the automaton gets on, or spends eight bytes on a header. */
  lemma RawNeverAgrees(s: LogState, target: seq<byte>, n: nat)
    requires s.Valid() && n <= |target| && !LooksFramed(target, n)
    ensures !Agrees(s, target, n)
  {
    hide Feed;
    var chunk := target[..n];
    if s.bsLeft == 0 {
      FeedResumeHeader(s.prevHeader, chunk);
      FeedBound(s.prevHeader + chunk);
    } else if n < s.bsLeft {
      FeedCutPayload(s.bsLeft, chunk);
    } else {
      FeedWholePayload(s.bsLeft, chunk);
      FeedBound(chunk[s.bsLeft..]);
    }
  }

  /** A read that resumes a header parses the whole buffer, however few bytes of it
      are new: it follows the automaton over the buffer, not over the read. */
  lemma ResumedHeaderReadsWholeBuffer(s: LogState, target: seq<byte>, n: nat)
    requires s.Valid() && s.prevHeader != [] && n <= |target| && LooksFramed(target, n)
    ensures var (end, out) := Feed(Residual(s), target);
            var o := ReadSpec(s, target, n);
            && |out| <= |target|
            && o.result == Ok(|out|) && o.target == out + target[|out|..] && Follows(o.state, end)
  {
    hide ParseFrames;
    hide Feed;
    ParseResumedHeader(s, target, n);
    OutputBound(s, target);
    var out := Feed(Residual(s), target).1;
    assert out[..|out|] == out;
  }

  lemma ResumedHeaderAgrees(s: LogState, target: seq<byte>, n: nat)
    requires s.Valid() && s.prevHeader != [] && n < |target| && LooksFramed(target, n)
    ensures Agrees(s, target, n) <==> Harmless(Residual(s), target[..n], target[n..])
  {
    hide ReadSpec;
    hide Feed;
    hide EndsInnerLine;
    var a, chunk, stale := Residual(s), target[..n], target[n..];
    assert target == chunk + stale;
    ResumedHeaderReadsWholeBuffer(s, target, n);
    FeedSplit(a, chunk, stale);
    LineEndReturn(a, chunk);
    OutputBound(s, chunk);
    StuckStays(stale);
    var o := ReadSpec(s, target, n);
    assert o.target[..o.result.n] == Feed(a, target).1;
  }

  /** A short read that ends inside a payload hands out what the automaton makes of it, then
      all that is left in the buffer as part of the same line. */
  lemma StaleTailRead(s: LogState, target: seq<byte>, n: nat)
    requires s.Valid() && s.prevHeader == [] && s.bsLeft <= n < |target| && LooksFramed(target, n)
    requires Feed(Residual(s), target[..n]).0.Payload?
    ensures var o := ReadSpec(s, target, n);
            && o.result.Ok? && o.result.n <= |o.target|
            && Residual(o.state) == Feed(Residual(s), target[..n]).0
            && o.target[..o.result.n] == Uncut(Residual(s), target[..n]) + MakeLine(target[n..])
  {
    hide Feed;
    hide ParseFrames;
    hide EndsInnerLine;
    hide Parse;
    hide MakeLine;
    hide Uncut;
    ParseStaleTail(s, target, n);
    ParseStaleBytes(s, target, n);
    PayloadEndBound(s, target[..n]);
    var r := Parse(Resume(s, target, n));
    assert r.bs[..|r.bs|] == r.bs;
  }

  lemma StaleTailAgrees(s: LogState, target: seq<byte>, n: nat)
    requires s.Valid() && s.prevHeader == [] && s.bsLeft <= n < |target| && LooksFramed(target, n)
    requires Feed(Residual(s), target[..n]).0.Payload?
    ensures Agrees(s, target, n) <==> target[n..] == [CR] && EndsInnerLine(Residual(s), target[..n])
  {
    hide Feed;
    hide ParseFrames;
    hide EndsInnerLine;
    hide Parse;
    var chunk := target[..n];
    ParseStaleTail(s, target, n);
    PayloadEndBound(s, chunk);
    var r := Parse(Resume(s, target, n));
    assert r.bs[..|r.bs|] == r.bs;
  }

  lemma PayloadEndBound(s: LogState, chunk: seq<byte>)
    requires s.prevHeader == [] && s.bsLeft <= |chunk| && Feed(Residual(s), chunk).0.Payload?
    ensures |Feed(Residual(s), chunk).1| < |chunk|
  {
    hide Feed;
    if s.bsLeft == 0 {
      FeedBound(chunk);
    } else {
      FeedWholePayload(s.bsLeft, chunk);
      FeedBound(chunk[s.bsLeft..]);
    }
  }

  /** For every valid state, buffer and length: the read follows the automaton if and
      only if it is `Framed`. */
  lemma ReadRefines(s: LogState, target: seq<byte>, n: nat)
    requires s.Valid() && n <= |target|
    ensures Agrees(s, target, n) <==> Framed(s, target, n)
  {
    hide Feed;
    hide ParseFrames;
    hide EndsInnerLine;
    hide Harmless;
    if !LooksFramed(target, n) {
      RawNeverAgrees(s, target, n);
    } else if s.bsLeft <= n && Clean(s, target, n) {
      CleanRead(s, target, n);
    } else if s.prevHeader != [] {
      ResumedHeaderAgrees(s, target, n);
    } else if s.bsLeft <= n {
      StaleTailAgrees(s, target, n);
    }
  }

  /** A framed read hands out exactly the automaton's output, but when the rest of a
      carried payload ends a line and fills the buffer. */
  lemma FramedReadOutput(s: LogState, target: seq<byte>, n: nat)
    requires s.Valid() && n <= |target| && Framed(s, target, n)
    ensures var (end, out) := Feed(Residual(s), target[..n]);
            var o := ReadSpec(s, target, n);
            && o.result.Ok? && o.result.n <= |o.target| && o.state.Valid() && Follows(o.state, end)
            && var got := o.target[..o.result.n];
               if DropsReturn(s, target, n) then got == target && out == target + [CR] else got == out
  {
    hide Feed;
    hide ParseFrames;
    hide EndsInnerLine;
    hide Harmless;
    ReadRefines(s, target, n);
    if Clean(s, target, n) {
      CleanRead(s, target, n);
    } else {
      OutputBound(s, target[..n]);
    }
  }
}
