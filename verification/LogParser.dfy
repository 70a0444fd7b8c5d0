/** The incremental demultiplexer of container/docker/log_parser.go. A read that
    would index past a slice is the result `Panic`, so no input is excluded. */
module LogParser {
  import opened Bytes
  import opened LogFormat

  /** What one `Read` carries to the next: a cut header, or the length still owed
      of a cut payload. */
  datatype LogState = LogState(prevHeader: seq<byte>, bsLeft: nat) {
    predicate Valid() {
      |prevHeader| < HEADER_LEN && (prevHeader == [] || bsLeft == 0)
    }
  }

  const FRESH := LogState([], 0)

  datatype ReadResult = Ok(n: nat) | Err(n: nat) | Panic

  /** The result of a `Read`, the state it leaves and the caller's buffer. */
  datatype Outcome = Outcome(result: ReadResult, state: LogState, target: seq<byte>)

  function MakeLine(bs: seq<byte>): seq<byte> {
    if bs != [] && bs[|bs| - 1] == LF then bs + [CR] else bs
  }

  datatype Parsed = Parsed(bs: seq<byte>, state: LogState) | BadLength

  function Prepend(bs: seq<byte>, r: Parsed): Parsed {
    match r
    case Parsed(out, state) => Parsed(bs + out, state)
    case BadLength => BadLength
  }

  lemma PrependTwice(a: seq<byte>, b: seq<byte>, r: Parsed)
    ensures Prepend(a, Prepend(b, r)) == Prepend(a + b, r)
    ensures Prepend([], r) == r
  {
    if r.Parsed? {
      assert a + (b + r.bs) == (a + b) + r.bs;
    }
  }

  /** The frame loop over `p`, of which the first `n` bytes count, from `start`. A
      payload cut by the end of the read takes along what `p` holds behind them. */
  function ParseFrames(p: seq<byte>, n: nat, start: nat): (r: Parsed)
    requires start <= n <= |p|
    ensures r.Parsed? ==> r.state.Valid()
    decreases n - start
  {
    var body := start + HEADER_LEN;
    if body > n then Parsed([], LogState(p[start..n], 0))
    else if p[start] != 1 && p[start] != 2 then Parsed([], FRESH)
    else
      match MsgLen(p[start..body])
      case None => BadLength
      case Some(msgLen) =>
        if body + msgLen > n then Parsed(MakeLine(p[body..]), LogState([], msgLen - (n - body)))
        else Prepend(MakeLine(p[body..body + msgLen]), ParseFrames(p, n, body + msgLen))
  }

  /** A read of at least four bytes whose bytes 1 to 3 are not all zero is taken
      for a raw (TTY) stream and passed through. */
  predicate Raw(target: seq<byte>, n: nat)
    requires n <= |target|
  {
    n >= 4 && (target[1] != 0 || target[2] != 0 || target[3] != 0)
  }

  /** Copies the decoded bytes over the caller's buffer, as far as they fit. */
  function Deliver(r: Parsed, target: seq<byte>): Outcome {
    match r
    case BadLength => Outcome(Err(0), FRESH, target)
    case Parsed(bs, state) =>
      var k := Min(|bs|, |target|);
      Outcome(Ok(k), state, bs[..k] + target[k..])
  }

  /** Where the frame loop starts: the bytes to parse, how many of them count, the
      start index, and what the finished part of a carried payload decodes to. */
  datatype Start = Start(p: seq<byte>, n: nat, from: nat, first: seq<byte>) | OutOfRange(state: LogState)

  function Resume(s: LogState, target: seq<byte>, n: nat): (r: Start)
    requires n <= |target|
    ensures r.Start? ==> r.from <= r.n <= |r.p|
  {
    if s.prevHeader != [] then
      var p := s.prevHeader + target;
      Start(p, |p|, 0, [])
    else if s.bsLeft == 0 then Start(target, n, 0, [])
    else if s.bsLeft > |target| then OutOfRange(s)
    else if s.bsLeft > n then OutOfRange(FRESH)
    else Start(target, n, s.bsLeft, MakeLine(target[..s.bsLeft]))
  }

  function Parse(start: Start): Parsed
    requires start.Start? && start.from <= start.n <= |start.p|
  {
    Prepend(start.first, ParseFrames(start.p, start.n, start.from))
  }

  /** `Read` after the daemon has put `n` bytes at the front of `target`. */
  function ReadSpec(s: LogState, target: seq<byte>, n: nat): Outcome
    requires n <= |target|
  {
    if Raw(target, n) then Outcome(Ok(n), s, target)
    else
      var start := Resume(s, target, n);
      if start.OutOfRange? then Outcome(Panic, start.state, target) else Deliver(Parse(start), target)
  }

  class LogReadCloser {
    var bsLeft: nat
    var prevHeader: seq<byte>

    function State(): LogState
      reads this
    {
      LogState(prevHeader, bsLeft)
    }

    predicate Valid()
      reads this
    {
      State().Valid()
    }

    constructor ()
      ensures Valid() && State() == FRESH
    {
      bsLeft, prevHeader := 0, [];
    }

    /** The frame loop of `Read`: appends the decoded lines to `first` and leaves
        the cut header or payload in the fields. `None` is a length that does not parse. */
    method ReadFrames(p: seq<byte>, n: nat, from: nat, first: seq<byte>) returns (decoded: Option<seq<byte>>)
      requires from <= n <= |p| && State() == FRESH
      modifies this
      ensures var all := Prepend(first, ParseFrames(p, n, from));
              match decoded
              case None => all == BadLength && State() == FRESH
              case Some(bs) => all == Parsed(bs, State())
    {
      hide MsgLen;
      hide MakeLine;
      var bs, start := first, from;
      ghost var all := Prepend(first, ParseFrames(p, n, from));
      while true
        invariant start <= n <= |p|
        invariant State() == FRESH
        invariant Prepend(bs, ParseFrames(p, n, start)) == all
        decreases n - start
      {
        if start + HEADER_LEN > n {
          prevHeader := p[start..n];
          return Some(bs);
        }
        if p[start] != 1 && p[start] != 2 {
          return Some(bs);
        }
        var length := MsgLen(p[start..start + HEADER_LEN]);
        if length == None {
          return None;
        }
        var msgLen := length.value;
        start := start + HEADER_LEN;
        if start + msgLen > n {
          bsLeft := msgLen - (n - start);
          return Some(bs + MakeLine(p[start..]));
        }
        var line := MakeLine(p[start..start + msgLen]);
        PrependTwice(bs, line, ParseFrames(p, n, start + msgLen));
        bs := bs + line;
        start := start + msgLen;
      }
    }

    /** `incoming` and `failed` are what the daemon's own `Read` delivers into the
        buffer and whether it returned an error. */
    method Read(targetBytes: array<byte>, incoming: seq<byte>, failed: bool) returns (r: ReadResult)
      requires Valid() && |incoming| <= targetBytes.Length
      modifies this, targetBytes
      ensures r != Panic ==> Valid()
      ensures failed ==> r == Err(|incoming|) && State() == old(State())
                         && targetBytes[..] == incoming + old(targetBytes[..])[|incoming|..]
      ensures !failed ==> Outcome(r, State(), targetBytes[..])
                          == ReadSpec(old(State()), incoming + old(targetBytes[..])[|incoming|..], |incoming|)
    {
      hide ParseFrames;
      hide MakeLine;
      var n := |incoming|;
      Copy(targetBytes, incoming);
      ghost var filled := targetBytes[..];
      if failed {
        return Err(n);
      }
      if n >= 4 {
        if targetBytes[1] != 0 || targetBytes[2] != 0 || targetBytes[3] != 0 {
          return Ok(n);
        }
      }

      var p := targetBytes[..];
      var bs: seq<byte> := [];
      var start := 0;
      if |prevHeader| != 0 {
        p := prevHeader + p;
        n := |p|;
        prevHeader := [];
      } else if bsLeft > 0 {
        if bsLeft > |p| {
          return Panic;
        }
        bs := bs + MakeLine(p[..bsLeft]);
        start := bsLeft;
        bsLeft := 0;
        if start > n {
          return Panic;
        }
      }

      assert Resume(old(State()), filled, |incoming|) == Start(p, n, start, bs);
      var decoded := ReadFrames(p, n, start, bs);
      if decoded == None {
        return Err(0);
      }
      bs := decoded.value;
      var k := Min(|bs|, targetBytes.Length);
      Copy(targetBytes, bs[..k]);
      return Ok(k);
    }
  }
}
