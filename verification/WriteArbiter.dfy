/** The time-based write arbiter of types/tty.go: one master and any number of slaves
    write to one container, and nobody else may write within a second of a writer.
    `S` is the type of a slave: an object in the classes, a name in the sessions. */
module WriteArbiter {
  import opened Bytes

  const SECOND := 1_000_000_000
  const MAX_DURATION := 0x7fff_ffff_ffff_ffff

  /** A `time.Time` field in nanoseconds; the zero time means "never". */
  datatype Stamp = Never | At(t: int)

  /** `time.Since`, which saturates for the zero time. */
  function Since(now: int, s: Stamp): int {
    match s
    case Never => MAX_DURATION
    case At(t) => Min(now - t, MAX_DURATION)
  }

  datatype Writer<S> = Master | Slave(slave: S)

  datatype Arbiter<S> = Arbiter(lastMasterWrite: Stamp, lastSlaveWrite: Stamp, lastWroteSlave: Option<S>)

  function Unused<S>(): Arbiter<S> {
    Arbiter(Never, Never, None)
  }

  /** One call of `Write`: the clock readings of the check and of the recorded time.
      `readOnly` is the slave's own flag, looked at before the arbiter. */
  datatype Attempt<S> = Attempt(who: Writer<S>, readOnly: bool, check1: int, check2: int, record: int, data: seq<byte>)

  predicate MasterCanWrite<S>(a: Arbiter<S>, now: int) {
    Since(now, a.lastSlaveWrite) > SECOND
  }

  predicate SlaveCanWrite<S(==)>(a: Arbiter<S>, s: S, check1: int, check2: int) {
    if Since(check1, a.lastMasterWrite) < SECOND then false
    else if a.lastWroteSlave == None then true
    else if a.lastWroteSlave.value == s then true
    else Since(check2, a.lastSlaveWrite) > SECOND
  }

  predicate Accepts<S(==)>(a: Arbiter<S>, t: Attempt<S>) {
    match t.who
    case Master => MasterCanWrite(a, t.check1)
    case Slave(s) => !t.readOnly && SlaveCanWrite(a, s, t.check1, t.check2)
  }

  function Step<S(==)>(a: Arbiter<S>, t: Attempt<S>): Arbiter<S> {
    if !Accepts(a, t) then a
    else if t.who.Master? then a.(lastMasterWrite := At(t.record))
    else a.(lastSlaveWrite := At(t.record), lastWroteSlave := Some(t.who.slave))
  }

  // ----- runs -----

  /** An accepted write, as the container receives it. */
  datatype Write<S> = Write(who: Writer<S>, at: int, data: seq<byte>)

  function Accepted<S(==)>(a: Arbiter<S>, attempts: seq<Attempt<S>>): seq<Write<S>>
    decreases |attempts|
  {
    if attempts == [] then []
    else
      var t := attempts[0];
      var rest := Accepted(Step(a, t), attempts[1..]);
      if Accepts(a, t) then [Write(t.who, t.record, t.data)] + rest else rest
  }

  function Final<S(==)>(a: Arbiter<S>, attempts: seq<Attempt<S>>): Arbiter<S>
    decreases |attempts|
  {
    if attempts == [] then a else Final(Step(a, attempts[0]), attempts[1..])
  }

  /** The mutex orders the calls, so the clock readings of a run never go back. */
  predicate Clocked<S>(now: int, attempts: seq<Attempt<S>>)
    decreases |attempts|
  {
    attempts == []
    || (&& now <= attempts[0].check1 <= attempts[0].check2 <= attempts[0].record
        && Clocked(attempts[0].record, attempts[1..]))
  }

  function ContainerInput<S>(log: seq<Write<S>>): seq<byte> {
    if log == [] then [] else log[0].data + ContainerInput(log[1..])
  }

  // ----- exclusion -----

  /** `later` leaves the required distance to an earlier write by somebody else: at
      least a second, and more unless a slave follows the master. */
  predicate Apart<S(==)>(earlier: Write<S>, later: Write<S>) {
    earlier.who != later.who ==>
      && later.at - earlier.at >= SECOND
      && (later.at - earlier.at == SECOND ==> earlier.who.Master? && later.who.Slave?)
  }

  ghost predicate Exclusive<S>(log: seq<Write<S>>) {
    forall i, j | 0 <= i < j < |log| :: Apart(log[i], log[j])
  }

  /** What the fields of the arbiter remember about an earlier write `w`. */
  predicate Remembers<S(==)>(a: Arbiter<S>, now: int, w: Write<S>) {
    && w.at <= now
    && match w.who
       case Master => a.lastMasterWrite.At? && w.at <= a.lastMasterWrite.t <= now
       case Slave(s) =>
         && a.lastSlaveWrite.At? && a.lastWroteSlave.Some? && w.at <= a.lastSlaveWrite.t <= now
         && (s != a.lastWroteSlave.value ==> w.at + SECOND < a.lastSlaveWrite.t)
  }

  lemma StepRemembers<S>(a: Arbiter<S>, now: int, w: Write<S>, t: Attempt<S>)
    requires Remembers(a, now, w)
    requires now <= t.check1 <= t.check2 <= t.record
    ensures Remembers(Step(a, t), t.record, w)
    ensures Accepts(a, t) ==> Apart(w, Write(t.who, t.record, t.data))
    ensures Accepts(a, t) ==> Remembers(Step(a, t), t.record, Write(t.who, t.record, t.data))
  {
  }

  lemma {:induction false} AcceptedApart<S>(a: Arbiter<S>, now: int, w: Write<S>, attempts: seq<Attempt<S>>)
    requires Remembers(a, now, w) && Clocked(now, attempts)
    ensures forall v <- Accepted(a, attempts) :: Apart(w, v)
    decreases |attempts|
  {
    if attempts != [] {
      var t := attempts[0];
      StepRemembers(a, now, w, t);
      AcceptedApart(Step(a, t), t.record, w, attempts[1..]);
    }
  }

  /** Over any run under a clock that never goes back, from any state of the arbiter,
      accepted writes by different participants are at least a second apart. */
  lemma {:induction false} WriteExclusion<S>(a: Arbiter<S>, now: int, attempts: seq<Attempt<S>>)
    requires Clocked(now, attempts)
    ensures Exclusive(Accepted(a, attempts))
    decreases |attempts|
  {
    if attempts != [] {
      var t := attempts[0];
      var next := Step(a, t);
      var rest := Accepted(next, attempts[1..]);
      WriteExclusion(next, t.record, attempts[1..]);
      if Accepts(a, t) {
        var w := Write(t.who, t.record, t.data);
        AcceptedApart(next, t.record, w, attempts[1..]);
        var log := [w] + rest;
        forall i, j | 0 <= i < j < |log| ensures Apart(log[i], log[j]) {
          if i == 0 {
            assert log[j] in rest;
          } else {
            assert log[i] == rest[i - 1] && log[j] == rest[j - 1];
          }
        }
      }
    }
  }

  // ----- the arbiter against the whole history -----

  /** The rule the three fields stand for: an attempt may go ahead when every accepted
      write by somebody else is far enough back at the clock reading that looks at it. */
  predicate FarEnough<S(==)>(w: Write<S>, t: Attempt<S>) {
    w.who == t.who
    || match t.who
       case Master => t.check1 - w.at > SECOND
       case Slave(_) => if w.who.Master? then t.check1 - w.at >= SECOND else t.check2 - w.at > SECOND
  }

  ghost predicate HistoryAllows<S>(log: seq<Write<S>>, t: Attempt<S>) {
    (t.who.Slave? ==> !t.readOnly) && forall w <- log :: FarEnough(w, t)
  }

  /** The fields are exactly those the log of accepted writes gives. */
  ghost predicate Summarizes<S>(a: Arbiter<S>, now: int, log: seq<Write<S>>) {
    && (forall w <- log :: Remembers(a, now, w))
    && (a.lastMasterWrite.At? ==> exists w <- log :: w.who == Master && w.at == a.lastMasterWrite.t)
    && (a.lastSlaveWrite.At? <==> a.lastWroteSlave.Some?)
    && (a.lastSlaveWrite.At? ==>
          exists w <- log :: w.who == Slave(a.lastWroteSlave.value) && w.at == a.lastSlaveWrite.t)
  }

  lemma AcceptsAsHistory<S>(a: Arbiter<S>, now: int, log: seq<Write<S>>, t: Attempt<S>)
    requires Summarizes(a, now, log) && now <= t.check1 <= t.check2
    ensures Accepts(a, t) <==> HistoryAllows(log, t)
  {
    forall w | w in log && Accepts(a, t) ensures FarEnough(w, t) {
      assert Remembers(a, now, w);
    }
  }

  lemma StepSummarizes<S>(a: Arbiter<S>, now: int, log: seq<Write<S>>, t: Attempt<S>)
    requires Summarizes(a, now, log) && now <= t.check1 <= t.check2 <= t.record
    ensures var w := Write(t.who, t.record, t.data);
            Summarizes(Step(a, t), t.record, if Accepts(a, t) then log + [w] else log)
  {
    var w := Write(t.who, t.record, t.data);
    forall v | v in log ensures Remembers(Step(a, t), t.record, v) {
      StepRemembers(a, now, v, t);
    }
    if Accepts(a, t) {
      assert w in log + [w];
      assert forall v <- log :: v in log + [w];
    }
  }

  function LastReading<S>(now: int, attempts: seq<Attempt<S>>): int {
    if attempts == [] then now else attempts[|attempts| - 1].record
  }

  lemma {:induction false} RunSummarizes<S>(a: Arbiter<S>, now: int, log: seq<Write<S>>, attempts: seq<Attempt<S>>)
    requires Summarizes(a, now, log) && Clocked(now, attempts)
    ensures Summarizes(Final(a, attempts), LastReading(now, attempts), log + Accepted(a, attempts))
    decreases |attempts|
  {
    if attempts == [] {
      assert log + [] == log;
    } else {
      var t := attempts[0];
      StepSummarizes(a, now, log, t);
      var next := if Accepts(a, t) then log + [Write(t.who, t.record, t.data)] else log;
      RunSummarizes(Step(a, t), t.record, next, attempts[1..]);
      assert log + Accepted(a, attempts) == next + Accepted(Step(a, t), attempts[1..]);
    }
  }

  /** After any run, three fields decide as the whole history would: an attempt is
      accepted if and only if it is not read-only and every accepted write by somebody
      else is far enough back. */
  lemma ArbiterIsHistoryRule<S>(now: int, attempts: seq<Attempt<S>>, t: Attempt<S>)
    requires Clocked(now, attempts) && LastReading(now, attempts) <= t.check1 <= t.check2
    ensures Accepts(Final(Unused(), attempts), t) <==> HistoryAllows(Accepted(Unused(), attempts), t)
  {
    RunSummarizes(Unused(), now, [], attempts);
    assert [] + Accepted(Unused<S>(), attempts) == Accepted(Unused(), attempts);
    AcceptsAsHistory(Final(Unused(), attempts), LastReading(now, attempts), Accepted(Unused(), attempts), t);
  }

  // ----- sessions -----

  /** Puts a write in front: into the first session if that has the same writer. */
  function AddTo<S(==)>(w: Write<S>, sessions: seq<seq<Write<S>>>): seq<seq<Write<S>>> {
    if sessions != [] && sessions[0] != [] && sessions[0][0].who == w.who then
      [[w] + sessions[0]] + sessions[1..]
    else [[w]] + sessions
  }

  /** The writes grouped into maximal stretches by one participant. */
  function Sessions<S(==)>(log: seq<Write<S>>): seq<seq<Write<S>>> {
    if log == [] then [] else AddTo(log[0], Sessions(log[1..]))
  }

  ghost predicate SingleWriter<S>(session: seq<Write<S>>) {
    session != [] && forall w <- session :: w.who == session[0].who
  }

  /** Every write of session `b` is by somebody else and the required distance after
      every write of session `a`. */
  ghost predicate SessionsApart<S>(a: seq<Write<S>>, b: seq<Write<S>>) {
    forall v, w | v in a && w in b :: v.who != w.who && Apart(v, w)
  }

  ghost predicate Alternating<S>(sessions: seq<seq<Write<S>>>) {
    sessions != [] ==>
      && SingleWriter(sessions[0])
      && (|sessions| > 1 ==> SessionsApart(sessions[0], sessions[1]))
      && Alternating(sessions[1..])
  }

  lemma AddToAlternating<S>(w: Write<S>, sessions: seq<seq<Write<S>>>)
    requires Alternating(sessions)
    requires forall v <- Concat(sessions) :: Apart(w, v)
    ensures Alternating(AddTo(w, sessions))
    ensures Concat(AddTo(w, sessions)) == [w] + Concat(sessions)
  {
    var all := AddTo(w, sessions);
    if sessions != [] {
      var first, rest := sessions[0], sessions[1..];
      assert forall v <- first :: v in Concat(sessions);
      if first[0].who == w.who {
        assert all[0] == [w] + first && all[1..] == rest;
        assert [w] + first + Concat(rest) == [w] + Concat(sessions);
        if rest != [] {
          assert forall v <- rest[0] :: v in Concat(rest);
        }
      } else {
        assert all[1..] == sessions;
      }
    } else {
      assert all[1..] == [];
    }
  }

  lemma {:induction false} SessionsOfExclusive<S>(log: seq<Write<S>>)
    requires Exclusive(log)
    ensures Concat(Sessions(log)) == log
    ensures Alternating(Sessions(log))
  {
    if log != [] {
      var head, tail := log[0], log[1..];
      assert Exclusive(tail) by {
        assert forall i | 0 <= i < |tail| :: tail[i] == log[i + 1];
      }
      SessionsOfExclusive(tail);
      AddToAlternating(head, Sessions(tail));
      assert log == [head] + tail;
    }
  }

  lemma {:induction false} InputSplit<S>(a: seq<Write<S>>, b: seq<Write<S>>)
    ensures ContainerInput(a + b) == ContainerInput(a) + ContainerInput(b)
  {
    if a == [] {
      assert a + b == b;
    } else {
      assert (a + b)[1..] == a[1..] + b;
      InputSplit(a[1..], b);
    }
  }

  function Inputs<S>(sessions: seq<seq<Write<S>>>): seq<seq<byte>> {
    if sessions == [] then [] else [ContainerInput(sessions[0])] + Inputs(sessions[1..])
  }

  lemma {:induction false} InputOfSessions<S>(sessions: seq<seq<Write<S>>>)
    ensures ContainerInput(Concat(sessions)) == Concat(Inputs(sessions))
  {
    if sessions != [] {
      InputOfSessions(sessions[1..]);
      InputSplit(sessions[0], Concat(sessions[1..]));
    }
  }

  /** The container receives a sequence of single-writer sessions, each the required
      distance after the one before it. */
  lemma InputIsSessions<S>(a: Arbiter<S>, now: int, attempts: seq<Attempt<S>>)
    requires Clocked(now, attempts)
    ensures var sessions := Sessions(Accepted(a, attempts));
            && ContainerInput(Accepted(a, attempts)) == Concat(Inputs(sessions))
            && Alternating(sessions)
  {
    var log := Accepted(a, attempts);
    WriteExclusion(a, now, attempts);
    SessionsOfExclusive(log);
    InputOfSessions(Sessions(log));
  }

  // ----- erasure -----

  /** `keep` drops only attempts that are rejected where they stand in the run. */
  predicate DropsRejected<S(==)>(a: Arbiter<S>, all: seq<Attempt<S>>, keep: seq<bool>)
    requires |keep| == |all|
    decreases |all|
  {
    all == []
    || ((keep[0] || !Accepts(a, all[0])) && DropsRejected(Step(a, all[0]), all[1..], keep[1..]))
  }

  function Kept<T>(all: seq<T>, keep: seq<bool>): seq<T>
    requires |keep| == |all|
  {
    if all == [] then []
    else (if keep[0] then [all[0]] else []) + Kept(all[1..], keep[1..])
  }

  /** Erasing any of the rejected and read-only attempts changes no later decision,
      not what the container receives, and not the arbiter. */
  lemma {:induction false} ErasingRejectedChangesNothing<S>(a: Arbiter<S>, all: seq<Attempt<S>>, keep: seq<bool>)
    requires |keep| == |all| && DropsRejected(a, all, keep)
    ensures Accepted(a, Kept(all, keep)) == Accepted(a, all)
    ensures Final(a, Kept(all, keep)) == Final(a, all)
    decreases |all|
  {
    if all != [] {
      var rest := Kept(all[1..], keep[1..]);
      ErasingRejectedChangesNothing(Step(a, all[0]), all[1..], keep[1..]);
      if keep[0] {
        assert Kept(all, keep) == [all[0]] + rest;
        assert ([all[0]] + rest)[1..] == rest;
      } else {
        assert Kept(all, keep) == rest;
      }
    }
  }

  /** The bound is tight: a slave that checks exactly a second after the master's
      recorded time is accepted, a master a second after a slave is not. */
  lemma SecondIsStrictOnlyOneWay<S>(t: int, s: S)
    ensures SlaveCanWrite(Arbiter(At(t), Never, None), s, t + SECOND, t + SECOND)
    ensures !MasterCanWrite(Arbiter(Never, At(t), Some(s)), t + SECOND)
  {
  }
}
