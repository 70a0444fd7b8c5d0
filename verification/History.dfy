/** The read side of a shared terminal: the container's output is published to one
    lossless FIFO queue per subscriber; a goroutine drains its queue into a sliding
    window of 1000 bytes, and a late joiner is handed the window, then its queue.
    Joining is two steps (subscribe, then copy the window), so anything may happen
    in between. */
module History {
  import opened Bytes

  const WINDOW := 1000
  const BUFFER := 1024

  type Chunk = seq<byte>

  /** The last 1000 bytes of 1000 zeros followed by the stream. */
  function Window(stream: seq<byte>): (w: seq<byte>)
    ensures |w| == WINDOW
  {
    (Zeros(WINDOW) + stream)[|stream|..]
  }

  /** One round of the history goroutine. */
  function Record(outputs: seq<byte>, output: Chunk): seq<byte> {
    var longer := outputs + output;
    if |longer| > WINDOW then longer[|longer| - WINDOW..] else longer
  }

  lemma RecordSlidesWindow(stream: seq<byte>, output: Chunk)
    ensures Record(Window(stream), output) == Window(stream + output)
  {
    var all := Zeros(WINDOW) + stream;
    assert all + output == Zeros(WINDOW) + (stream + output);
    assert Window(stream) + output == (all + output)[|stream|..];
    var longer := Window(stream) + output;
    assert longer[|output|..] == (all + output)[|stream| + |output|..];
  }

  // ----- one viewer -----

  /** A slave and the buffer of the loop that reads from it. `subscribedAt`,
      `drainedAt` and `taken` record when it subscribed, what the window covered when
      it was copied, and how many queued chunks it has read. `shown` are the reads as
      reported to the bridge, `copied` the bytes they really copied. */
  datatype Viewer = Viewer(
    subscribedAt: nat, queue: seq<Chunk>, joined: bool, drainedAt: nat, masterOutputs: seq<byte>,
    buffer: seq<byte>, taken: nat, shown: seq<seq<byte>>, copied: seq<byte>)

  /** What `SlaveTTY.Read` leaves in the buffer and reports: the replay reports the
      whole buffer although it copies the window only. `None` is an index out of range. */
  function ReadInto(masterOutputs: seq<byte>, next: Chunk, buffer: seq<byte>): Option<(seq<byte>, nat)> {
    if masterOutputs != [] then
      if |masterOutputs| > |buffer| then None
      else Some((masterOutputs + buffer[|masterOutputs|..], |buffer|))
    else if |next| > |buffer| then None
    else Some((next + buffer[|next|..], |next|))
  }

  function ViewerRead(v: Viewer): Option<Viewer>
    requires v.masterOutputs != [] || v.queue != []
  {
    var replay := v.masterOutputs != [];
    var next := if replay then [] else v.queue[0];
    match ReadInto(v.masterOutputs, next, v.buffer)
    case None => None
    case Some((buffer, n)) =>
      Some(v.(masterOutputs := [], buffer := buffer,
              queue := if replay then v.queue else v.queue[1..],
              taken := if replay then v.taken else v.taken + 1,
              shown := v.shown + [buffer[..Min(n, |buffer|)]],
              copied := v.copied + (if replay then v.masterOutputs else next)))
  }

  // ----- the hub -----

  datatype Hub = Hub(
    published: seq<Chunk>, historyQueue: seq<Chunk>, drained: nat, outputs: seq<byte>,
    viewers: seq<Viewer>, overrun: bool)

  const START := Hub([], [], 0, Zeros(WINDOW), [], false)

  datatype Event = Publish(chunk: Chunk) | Drain | Subscribe | Snapshot(v: nat) | Read(v: nat)

  function Enqueue(viewers: seq<Viewer>, chunk: Chunk): (r: seq<Viewer>)
    ensures |r| == |viewers|
    ensures forall i | 0 <= i < |r| :: r[i] == viewers[i].(queue := viewers[i].queue + [chunk])
  {
    seq(|viewers|, i requires 0 <= i < |viewers| => viewers[i].(queue := viewers[i].queue + [chunk]))
  }

  /** An event that cannot happen (a blocked read, an empty queue, a chunk that does
      not fit the 1024-byte buffer it was read into) leaves the hub as it is. */
  function Step(h: Hub, e: Event): Hub {
    match e
    case Publish(chunk) =>
      if |chunk| > BUFFER then h
      else h.(published := h.published + [chunk], historyQueue := h.historyQueue + [chunk],
              viewers := Enqueue(h.viewers, chunk))
    case Drain =>
      if h.historyQueue == [] then h
      else h.(historyQueue := h.historyQueue[1..], drained := h.drained + 1,
              outputs := Record(h.outputs, h.historyQueue[0]))
    case Subscribe =>
      h.(viewers := h.viewers + [Viewer(|h.published|, [], false, 0, [], Zeros(BUFFER), 0, [], [])])
    case Snapshot(v) =>
      if v >= |h.viewers| || h.viewers[v].joined then h
      else
        var viewer := h.viewers[v].(joined := true, drainedAt := h.drained, masterOutputs := h.outputs);
        h.(viewers := h.viewers[v := viewer])
    case Read(v) =>
      if v >= |h.viewers| || !h.viewers[v].joined then h
      else if h.viewers[v].masterOutputs == [] && h.viewers[v].queue == [] then h
      else
        match ViewerRead(h.viewers[v])
        case None => h.(overrun := true)
        case Some(viewer) => h.(viewers := h.viewers[v := viewer])
  }

  function Run(h: Hub, events: seq<Event>): Hub
    decreases |events|
  {
    if events == [] then h else Run(Step(h, events[0]), events[1..])
  }

  // ----- the invariant -----

  /** What a viewer that has read the replay has been given. */
  predicate Replayed(published: seq<Chunk>, v: Viewer)
    requires v.drainedAt <= |published| && v.subscribedAt + v.taken <= |published|
  {
    var window := Window(Concat(published[..v.drainedAt]));
    var chunks := published[v.subscribedAt..v.subscribedAt + v.taken];
    && v.masterOutputs == []
    && v.copied == window + Concat(chunks)
    && v.shown == [window + Zeros(BUFFER - WINDOW)] + chunks
  }

  predicate ViewerOk(published: seq<Chunk>, v: Viewer) {
    && v.subscribedAt + v.taken <= |published|
    && v.queue == published[v.subscribedAt + v.taken..]
    && |v.buffer| == BUFFER
    && v.drainedAt <= |published|
    && (|| (v.joined && Replayed(published, v))
        || (&& v.taken == 0 && v.shown == [] && v.copied == [] && v.buffer == Zeros(BUFFER)
            && v.masterOutputs == if v.joined then Window(Concat(published[..v.drainedAt])) else []))
  }

  ghost predicate Inv(h: Hub) {
    && h.drained <= |h.published|
    && h.historyQueue == h.published[h.drained..]
    && h.outputs == Window(Concat(h.published[..h.drained]))
    && (forall c <- h.published :: |c| <= BUFFER)
    && (forall i | 0 <= i < |h.viewers| :: ViewerOk(h.published, h.viewers[i]))
    && !h.overrun
  }

  lemma PublishKeepsViewer(published: seq<Chunk>, v: Viewer, chunk: Chunk)
    requires ViewerOk(published, v)
    ensures ViewerOk(published + [chunk], v.(queue := v.queue + [chunk]))
  {
    var longer := published + [chunk];
    assert longer[..v.drainedAt] == published[..v.drainedAt];
    assert longer[v.subscribedAt..v.subscribedAt + v.taken] == published[v.subscribedAt..v.subscribedAt + v.taken];
    assert longer[v.subscribedAt + v.taken..] == published[v.subscribedAt + v.taken..] + [chunk];
  }

  lemma ReplayKeepsViewer(published: seq<Chunk>, v: Viewer)
    requires ViewerOk(published, v) && v.masterOutputs != []
    ensures ViewerRead(v).Some? && ViewerOk(published, ViewerRead(v).value)
  {
    var window := Window(Concat(published[..v.drainedAt]));
    assert v.masterOutputs == window && v.taken == 0;
    assert published[v.subscribedAt..v.subscribedAt] == [];
    var buffer := window + v.buffer[WINDOW..];
    assert buffer[..BUFFER] == buffer == window + Zeros(BUFFER - WINDOW);
    var v' := ViewerRead(v).value;
    assert v'.copied == window + Concat<byte>([]);
    assert v'.shown == [buffer] + [];
  }

  lemma QueueRead(v: Viewer)
    requires v.masterOutputs == [] && v.queue != [] && |v.queue[0]| <= |v.buffer|
    ensures var next := v.queue[0];
            ViewerRead(v) == Some(v.(buffer := next + v.buffer[|next|..], queue := v.queue[1..], taken := v.taken + 1,
                                     shown := v.shown + [next], copied := v.copied + next))
  {
    var next := v.queue[0];
    assert (next + v.buffer[|next|..])[..|next|] == next;
  }

  lemma NextOf(published: seq<Chunk>, from: nat, to: nat)
    requires from <= to < |published|
    ensures published[from..to + 1] == published[from..to] + [published[to]]
    ensures published[to..][1..] == published[to + 1..] && published[to..][0] == published[to]
  {
  }

  lemma ReplayedNext(published: seq<Chunk>, v: Viewer, after: Viewer)
    requires v.drainedAt <= |published| && v.subscribedAt + v.taken < |published| && Replayed(published, v)
    requires var next := published[v.subscribedAt + v.taken];
             && after.subscribedAt == v.subscribedAt && after.drainedAt == v.drainedAt
             && after.taken == v.taken + 1 && after.masterOutputs == []
             && after.copied == v.copied + next && after.shown == v.shown + [next]
    ensures Replayed(published, after)
  {
    hide Window;
    hide Zeros;
    hide Concat;
    var from, to := v.subscribedAt, v.subscribedAt + v.taken;
    var window := Window(Concat(published[..v.drainedAt]));
    NextOf(published, from, to);
    ConcatSnoc(published[from..to], published[to]);
    AppendAssociates(window, Concat(published[from..to]), published[to]);
    AppendAssociates([window + Zeros(BUFFER - WINDOW)], published[from..to], [published[to]]);
  }

  lemma QueueReadKeepsViewer(published: seq<Chunk>, v: Viewer)
    requires ViewerOk(published, v) && v.joined && v.masterOutputs == [] && v.queue != []
    requires forall c <- published :: |c| <= BUFFER
    ensures ViewerRead(v).Some? && ViewerOk(published, ViewerRead(v).value)
  {
    hide Window;
    hide Zeros;
    hide ViewerRead;
    hide Concat;
    hide Replayed;
    var to := v.subscribedAt + v.taken;
    NextOf(published, v.subscribedAt, to);
    assert published[to] in published;
    QueueRead(v);
    ReplayedNext(published, v, ViewerRead(v).value);
  }

  lemma PublishKeepsInv(h: Hub, chunk: Chunk)
    requires Inv(h) && |chunk| <= BUFFER
    ensures Inv(Step(h, Publish(chunk)))
  {
    hide Window;
    hide Zeros;
    hide Concat;
    hide ViewerOk;
    var longer := h.published + [chunk];
    assert longer[h.drained..] == h.published[h.drained..] + [chunk];
    assert longer[..h.drained] == h.published[..h.drained];
    forall i | 0 <= i < |h.viewers| ensures ViewerOk(longer, h.viewers[i].(queue := h.viewers[i].queue + [chunk])) {
      PublishKeepsViewer(h.published, h.viewers[i], chunk);
    }
  }

  lemma DrainKeepsInv(h: Hub)
    requires Inv(h) && h.historyQueue != []
    ensures Inv(Step(h, Drain))
  {
    hide Window;
    hide Zeros;
    hide ViewerOk;
    hide Record;
    hide Concat;
    var d := h.drained;
    assert h.published[..d + 1] == h.published[..d] + [h.published[d]];
    ConcatSnoc(h.published[..d], h.published[d]);
    RecordSlidesWindow(Concat(h.published[..d]), h.published[d]);
  }

  lemma ReplaceKeepsInv(h: Hub, v: nat, viewer: Viewer)
    requires Inv(h) && v < |h.viewers| && ViewerOk(h.published, viewer)
    ensures Inv(h.(viewers := h.viewers[v := viewer]))
  {
  }

  lemma ReadKeepsInv(h: Hub, v: nat)
    requires Inv(h) && v < |h.viewers|
    ensures Inv(Step(h, Read(v)))
  {
    hide ViewerRead;
    hide ViewerOk;
    hide Window;
    var viewer := h.viewers[v];
    assert ViewerOk(h.published, viewer);
    if !viewer.joined || (viewer.masterOutputs == [] && viewer.queue == []) {
      assert Step(h, Read(v)) == h;
    } else {
      var after := ReadResult(h.published, viewer);
      assert Step(h, Read(v)) == h.(viewers := h.viewers[v := after]);
      ReplaceKeepsInv(h, v, after);
    }
  }

  lemma ReadResult(published: seq<Chunk>, v: Viewer) returns (after: Viewer)
    requires ViewerOk(published, v) && v.joined && (v.masterOutputs != [] || v.queue != [])
    requires forall c <- published :: |c| <= BUFFER
    ensures ViewerRead(v) == Some(after) && ViewerOk(published, after)
  {
    if v.masterOutputs != [] {
      ReplayKeepsViewer(published, v);
    } else {
      QueueReadKeepsViewer(published, v);
    }
    after := ViewerRead(v).value;
  }

  lemma SubscribeKeepsInv(h: Hub)
    requires Inv(h)
    ensures Inv(Step(h, Subscribe))
  {
    hide Window;
    hide Replayed;
    hide Zeros;
  }

  lemma SnapshotKeepsInv(h: Hub, v: nat)
    requires Inv(h) && v < |h.viewers|
    ensures Inv(Step(h, Snapshot(v)))
  {
    hide Window;
    hide Zeros;
    var viewer := h.viewers[v];
    assert ViewerOk(h.published, viewer);
    if !viewer.joined {
      ReplaceKeepsInv(h, v, viewer.(joined := true, drainedAt := h.drained, masterOutputs := h.outputs));
    }
  }

  lemma StepKeepsInv(h: Hub, e: Event)
    requires Inv(h)
    ensures Inv(Step(h, e))
  {
    hide Inv;
    match e
    case Publish(chunk) => if |chunk| <= BUFFER { PublishKeepsInv(h, chunk); }
    case Drain => if h.historyQueue != [] { DrainKeepsInv(h); }
    case Subscribe => SubscribeKeepsInv(h);
    case Snapshot(v) => if v < |h.viewers| { SnapshotKeepsInv(h, v); }
    case Read(v) => if v < |h.viewers| { ReadKeepsInv(h, v); }
  }

  lemma {:induction false} RunKeepsInv(h: Hub, events: seq<Event>)
    requires Inv(h)
    ensures Inv(Run(h, events))
    decreases |events|
  {
    if events != [] {
      StepKeepsInv(h, events[0]);
      RunKeepsInv(Step(h, events[0]), events[1..]);
    }
  }

  lemma StartInv()
    ensures Inv(START)
  {
    assert (Zeros(WINDOW) + Concat<byte>([]))[0..] == Zeros(WINDOW);
  }

  // ----- what the events say -----

  /** The chunks published, of those that fit the buffer they are read into. */
  function PublishedBy(events: seq<Event>): seq<Chunk> {
    if events == [] then []
    else
      var before, e := PublishedBy(events[..|events| - 1]), events[|events| - 1];
      if e.Publish? && |e.chunk| <= BUFFER then before + [e.chunk] else before
  }

  /** How many of them the history goroutine has drained: one a round, when there is one. */
  function DrainedBy(events: seq<Event>): nat {
    if events == [] then 0
    else
      var init := events[..|events| - 1];
      if events[|events| - 1] == Drain && DrainedBy(init) < |PublishedBy(init)| then DrainedBy(init) + 1
      else DrainedBy(init)
  }

  /** How many viewers have subscribed. */
  function SubscribedBy(events: seq<Event>): nat {
    if events == [] then 0
    else SubscribedBy(events[..|events| - 1]) + if events[|events| - 1] == Subscribe then 1 else 0
  }

  lemma {:induction false} RunSplit(h: Hub, x: seq<Event>, y: seq<Event>)
    ensures Run(h, x + y) == Run(Run(h, x), y)
    decreases |x|
  {
    hide Step;
    if x == [] {
      assert x + y == y;
    } else {
      assert (x + y)[1..] == x[1..] + y;
      RunSplit(Step(h, x[0]), x[1..], y);
    }
  }

  lemma RunOne(h: Hub, e: Event)
    ensures Run(h, [e]) == Step(h, e)
  {
    hide Step;
    assert [e][1..] == [];
  }

  lemma {:induction false} RunIsByEvents(events: seq<Event>)
    ensures var h := Run(START, events);
            && h.published == PublishedBy(events) && h.drained == DrainedBy(events)
            && |h.viewers| == SubscribedBy(events)
  {
    hide Run;
    if events == [] {
      RunNothing(START);
    } else {
      var init, e := events[..|events| - 1], events[|events| - 1];
      var h := Run(START, init);
      assert events == init + [e];
      RunIsByEvents(init);
      RunSplit(START, init, [e]);
      RunOne(h, e);
      StartInv();
      RunKeepsInv(START, init);
      StepCounts(h, e);
    }
  }

  lemma RunNothing(h: Hub)
    ensures Run(h, []) == h
  {
  }

  lemma StepCounts(h: Hub, e: Event)
    requires Inv(h)
    ensures var next := Step(h, e);
            && next.published == (if e.Publish? && |e.chunk| <= BUFFER then h.published + [e.chunk] else h.published)
            && next.drained == (if e == Drain && h.drained < |h.published| then h.drained + 1 else h.drained)
            && |next.viewers| == |h.viewers| + if e == Subscribe then 1 else 0
  {
    hide ViewerRead;
    hide ViewerOk;
    hide Record;
    hide Window;
    hide Concat;
  }

  /** What a step leaves of a viewer. */
  lemma StepKeepsViewer(h: Hub, e: Event, i: nat)
    requires i < |h.viewers|
    ensures var next := Step(h, e);
            && i < |next.viewers|
            && next.viewers[i].subscribedAt == h.viewers[i].subscribedAt
            && (h.viewers[i].joined ==>
                  next.viewers[i].joined && next.viewers[i].drainedAt == h.viewers[i].drainedAt)
            && (!h.viewers[i].joined && e != Snapshot(i) ==> !next.viewers[i].joined)
  {
    hide Record;
    hide ReadInto;
  }

  lemma {:induction false} RunKeepsViewer(h: Hub, events: seq<Event>, i: nat)
    requires i < |h.viewers|
    ensures var end := Run(h, events);
            && i < |end.viewers|
            && end.viewers[i].subscribedAt == h.viewers[i].subscribedAt
            && (h.viewers[i].joined ==>
                  end.viewers[i].joined && end.viewers[i].drainedAt == h.viewers[i].drainedAt)
            && (!h.viewers[i].joined && Snapshot(i) !in events ==> !end.viewers[i].joined)
    decreases |events|
  {
    hide Step;
    if events != [] {
      StepKeepsViewer(h, events[0], i);
      RunKeepsViewer(Step(h, events[0]), events[1..], i);
    }
  }

  // ----- late joiners -----

  /** In every run, a late joiner that has read its replay was given the last 1000
      bytes of 1000 zeros and the output drained when it copied the window, then every
      chunk published since it subscribed, in order; no copy overran a buffer. */
  lemma LateJoinerAgrees(events: seq<Event>, i: nat)
    requires var h := Run(START, events); i < |h.viewers| && h.viewers[i].shown != []
    ensures var h := Run(START, events);
            var v := h.viewers[i];
            && !h.overrun
            && v.subscribedAt + v.taken <= |h.published| && v.drainedAt <= |h.published|
            && Replayed(h.published, v)
            && v.queue == h.published[v.subscribedAt + v.taken..]
  {
    StartInv();
    RunKeepsInv(START, events);
  }

  /** The same, told by the events alone. A viewer subscribes after `before`, and copies the
      window after `between`: what it has been given is the last 1000 bytes of 1000 zeros and
      the chunks drained until it copied, and then the chunks published since it subscribed,
      in order, as many as it has read. */
  lemma LateJoinerByEvents(before: seq<Event>, between: seq<Event>, after: seq<Event>)
    requires var i := SubscribedBy(before);
             && Snapshot(i) !in between
             && i < |Run(START, before + [Subscribe] + between + [Snapshot(i)] + after).viewers|
             && Run(START, before + [Subscribe] + between + [Snapshot(i)] + after).viewers[i].shown != []
    ensures var i := SubscribedBy(before);
            var joining := before + [Subscribe] + between;
            var all := joining + [Snapshot(i)] + after;
            var v := Run(START, all).viewers[i];
            var from := |PublishedBy(before)|;
            && from + v.taken <= |PublishedBy(all)| && DrainedBy(joining) <= |PublishedBy(all)|
            && v.copied == Window(Concat(PublishedBy(all)[..DrainedBy(joining)]))
                           + Concat(PublishedBy(all)[from..from + v.taken])
            && v.queue == PublishedBy(all)[from + v.taken..]
  {
    hide Run;
    hide Window;
    hide Concat;
    hide Zeros;
    var i := SubscribedBy(before);
    var joining := before + [Subscribe] + between;
    var all := joining + [Snapshot(i)] + after;
    LateJoinerAgrees(all, i);
    RunIsByEvents(all);
    JoinedAt(before, between, after);
  }

  /** When a viewer subscribed and what the window covered when it was copied. */
  lemma JoinedAt(before: seq<Event>, between: seq<Event>, after: seq<Event>)
    requires Snapshot(SubscribedBy(before)) !in between
    ensures var i := SubscribedBy(before);
            var joining := before + [Subscribe] + between;
            var h := Run(START, joining + [Snapshot(i)] + after);
            && i < |h.viewers|
            && h.viewers[i].subscribedAt == |PublishedBy(before)|
            && h.viewers[i].joined && h.viewers[i].drainedAt == DrainedBy(joining)
  {
    hide Run;
    var i := SubscribedBy(before);
    var joining := before + [Subscribe] + between;
    var h0 := Run(START, before);
    RunIsByEvents(before);
    var h1 := Step(h0, Subscribe);
    RunOne(h0, Subscribe);
    RunSplit(START, before, [Subscribe]);
    RunKeepsViewer(h1, between, i);
    RunSplit(START, before + [Subscribe], between);
    var h2 := Run(START, joining);
    RunIsByEvents(joining);
    var h3 := Step(h2, Snapshot(i));
    RunOne(h2, Snapshot(i));
    RunSplit(START, joining, [Snapshot(i)]);
    RunKeepsViewer(h3, after, i);
    RunSplit(START, joining + [Snapshot(i)], after);
  }

  /** And it can read all of it: from every reachable state, a viewer that copied the window
      has, after enough reads, everything published since it subscribed. */
  lemma EveryChunkArrives(events: seq<Event>, i: nat) returns (more: seq<Event>)
    requires i < |Run(START, events).viewers| && Run(START, events).viewers[i].joined
    ensures var h := Run(START, events);
            && i < |Run(h, more).viewers|
            && var v := Run(h, more).viewers[i];
               && v.subscribedAt == h.viewers[i].subscribedAt <= |h.published|
               && v.drainedAt == h.viewers[i].drainedAt <= |h.published|
               && v.copied == Window(Concat(h.published[..v.drainedAt])) + Concat(h.published[v.subscribedAt..])
  {
    hide Run;
    hide Inv;
    StartInv();
    RunKeepsInv(START, events);
    var h := Run(START, events);
    more := ReadOut(h, i);
    AllRead(Run(h, more), i);
  }

  /** A viewer with nothing left to read. */
  lemma AllRead(h: Hub, i: nat)
    requires Inv(h) && i < |h.viewers| && h.viewers[i].joined
    requires h.viewers[i].masterOutputs == [] && h.viewers[i].queue == []
    ensures var v := h.viewers[i];
            && v.subscribedAt <= |h.published| && v.drainedAt <= |h.published|
            && v.copied == Window(Concat(h.published[..v.drainedAt])) + Concat(h.published[v.subscribedAt..])
  {
    hide Concat;
    var v := h.viewers[i];
    assert ViewerOk(h.published, v);
    assert h.published[v.subscribedAt..v.subscribedAt + v.taken] == h.published[v.subscribedAt..];
  }

  /** Reading changes one viewer only, and not when it subscribed or what its window covered. */
  predicate SameButReads(h: Hub, end: Hub, i: nat)
    requires i < |h.viewers|
  {
    && |end.viewers| == |h.viewers| && end.published == h.published
    && end.viewers[i].subscribedAt == h.viewers[i].subscribedAt
    && end.viewers[i].drainedAt == h.viewers[i].drainedAt && end.viewers[i].joined == h.viewers[i].joined
  }

  lemma {:induction false} ReadOut(h: Hub, i: nat) returns (more: seq<Event>)
    requires Inv(h) && i < |h.viewers| && h.viewers[i].joined
    ensures var end := Run(h, more);
            && Inv(end) && SameButReads(h, end, i)
            && end.viewers[i].masterOutputs == [] && end.viewers[i].queue == []
    decreases |h.viewers[i].masterOutputs| + |h.viewers[i].queue|
  {
    hide Run;
    hide Inv;
    var v := h.viewers[i];
    if v.masterOutputs == [] && v.queue == [] {
      more := [];
      RunNothing(h);
    } else {
      var next := ReadOnce(h, i);
      var rest := ReadOut(next, i);
      more := [Read(i)] + rest;
      RunOne(h, Read(i));
      RunSplit(h, [Read(i)], rest);
    }
  }

  lemma ReadOnce(h: Hub, i: nat) returns (next: Hub)
    requires Inv(h) && i < |h.viewers| && h.viewers[i].joined
    requires h.viewers[i].masterOutputs != [] || h.viewers[i].queue != []
    ensures next == Step(h, Read(i)) && Inv(next) && SameButReads(h, next, i)
    ensures |next.viewers[i].masterOutputs| + |next.viewers[i].queue|
            < |h.viewers[i].masterOutputs| + |h.viewers[i].queue|
  {
    assert ViewerOk(h.published, h.viewers[i]);
    var after := ReadResult(h.published, h.viewers[i]);
    hide *;
    next := Step(h, Read(i));
    ReadShrinks(h.viewers[i], after);
    ReadReplaces(h, i, after);
    ReadKeepsInv(h, i);
  }

  lemma ReadReplaces(h: Hub, i: nat, after: Viewer)
    requires i < |h.viewers| && h.viewers[i].joined
    requires h.viewers[i].masterOutputs != [] || h.viewers[i].queue != []
    requires ViewerRead(h.viewers[i]) == Some(after)
    requires after.subscribedAt == h.viewers[i].subscribedAt && after.drainedAt == h.viewers[i].drainedAt
    requires after.joined
    ensures Step(h, Read(i)) == h.(viewers := h.viewers[i := after])
    ensures SameButReads(h, Step(h, Read(i)), i)
  {
    hide ViewerRead;
  }

  lemma ReadShrinks(v: Viewer, after: Viewer)
    requires v.masterOutputs != [] || v.queue != []
    requires ViewerRead(v) == Some(after)
    ensures |after.masterOutputs| + |after.queue| < |v.masterOutputs| + |v.queue|
    ensures after.subscribedAt == v.subscribedAt && after.drainedAt == v.drainedAt && after.joined == v.joined
  {
  }

  /** A read goes past the buffer exactly when what is due is longer than it, and otherwise
      changes the front of the buffer only. */
  lemma ReadIntoExactly(masterOutputs: seq<byte>, next: Chunk, buffer: seq<byte>)
    ensures var due := if masterOutputs != [] then masterOutputs else next;
            var r := ReadInto(masterOutputs, next, buffer);
            && (r == None <==> |due| > |buffer|)
            && (r.Some? ==>
                  && r.value.0 == due + buffer[|due|..]
                  && r.value.1 == if masterOutputs != [] then |buffer| else |due|)
  {
  }

  predicate IsSuffix(part: seq<byte>, whole: seq<byte>) {
    |part| <= |whole| && whole[|whole| - |part|..] == part
  }

  /** Bytes as long as the window and `rest` end the stream `past`, `rest` only if they are
      the window over `past` and then `rest`. */
  lemma SuffixOfStream(x: seq<byte>, past: seq<byte>, rest: seq<byte>)
    requires |x| == WINDOW + |rest|
    ensures IsSuffix(x, Zeros(WINDOW) + (past + rest)) <==> x == Window(past) + rest
  {
    var whole := Zeros(WINDOW) + (past + rest);
    AppendAssociates(Zeros(WINDOW), past, rest);
    assert whole[|past|..] == Window(past) + rest;
    assert |whole| - |x| == |past|;
  }

  lemma ConcatCut(chunks: seq<Chunk>, from: nat, mid: nat, to: nat)
    requires from <= mid <= to <= |chunks|
    ensures Concat(chunks[from..to]) == Concat(chunks[from..mid]) + Concat(chunks[mid..to])
  {
    assert chunks[from..to] == chunks[from..mid] + chunks[mid..to];
    ConcatSplit(chunks[from..mid], chunks[mid..to]);
  }

  /** In every run, a late joiner has the exact end of the stream it has read so far if
      and only if the window had the same bytes when it subscribed as when it was copied:
      bytes lost between the two steps and bytes given twice both show. */
  lemma ExactEndOfStream(events: seq<Event>, i: nat)
    requires var h := Run(START, events); i < |h.viewers| && h.viewers[i].shown != []
    ensures var h := Run(START, events);
            var v := h.viewers[i];
            && v.subscribedAt + v.taken <= |h.published| && v.drainedAt <= |h.published|
            && (IsSuffix(v.copied, Zeros(WINDOW) + Concat(h.published[..v.subscribedAt + v.taken]))
                <==> Window(Concat(h.published[..v.subscribedAt])) == Window(Concat(h.published[..v.drainedAt])))
  {
    hide Run;
    hide Window;
    hide Zeros;
    hide IsSuffix;
    hide Concat;
    var h := Run(START, events);
    var v := h.viewers[i];
    LateJoinerAgrees(events, i);
    var read := v.subscribedAt + v.taken;
    var past, chunks := Concat(h.published[..v.subscribedAt]), Concat(h.published[v.subscribedAt..read]);
    ConcatCut(h.published, 0, v.subscribedAt, read);
    SuffixOfStream(v.copied, past, chunks);
    SameFront(Window(Concat(h.published[..v.drainedAt])), Window(past), chunks);
  }

  lemma SameFront(x: seq<byte>, y: seq<byte>, rest: seq<byte>)
    requires |x| == |y|
    ensures x + rest == y + rest <==> x == y
  {
    assert (x + rest)[..|x|] == x && (y + rest)[..|y|] == y;
  }

  /** A viewer whose window was copied before its subscription had caught up misses only
      the chunks between: put back behind the window, they make the exact end of the
      stream. Without such chunks nothing is missing. */
  lemma OnlyTheGapIsMissing(events: seq<Event>, i: nat)
    requires var h := Run(START, events); i < |h.viewers| && h.viewers[i].shown != []
    ensures var h := Run(START, events);
            var v := h.viewers[i];
            && v.subscribedAt + v.taken <= |h.published| && |v.copied| >= WINDOW
            && (v.drainedAt <= v.subscribedAt ==>
                  IsSuffix(v.copied[..WINDOW] + (Concat(h.published[v.drainedAt..v.subscribedAt]) + v.copied[WINDOW..]),
                           Zeros(WINDOW) + Concat(h.published[..v.subscribedAt + v.taken])))
  {
    hide Run;
    hide Window;
    hide Zeros;
    hide IsSuffix;
    hide Concat;
    var h := Run(START, events);
    var v := h.viewers[i];
    LateJoinerAgrees(events, i);
    if v.drainedAt <= v.subscribedAt {
      var read := v.subscribedAt + v.taken;
      var window, chunks := Window(Concat(h.published[..v.drainedAt])), Concat(h.published[v.subscribedAt..read]);
      var missing := Concat(h.published[v.drainedAt..v.subscribedAt]);
      TwoParts(v.copied, window, chunks);
      ConcatCut(h.published, v.drainedAt, v.subscribedAt, read);
      ConcatCut(h.published, 0, v.drainedAt, read);
      SuffixOfStream(window + (missing + chunks), Concat(h.published[..v.drainedAt]), missing + chunks);
    }
  }

  lemma TwoParts(whole: seq<byte>, window: seq<byte>, chunks: seq<byte>)
    requires |window| == WINDOW && whole == window + chunks
    ensures whole[..WINDOW] == window && whole[WINDOW..] == chunks
  {
  }

  /** A viewer whose window was copied after its subscription is given the chunks drained
      between the two steps twice: the queue starts with them, and without them the viewer
      has the exact end of the stream. Until it has read that far, the window alone is the
      exact end of what was drained. */
  lemma TheOverlapIsRepeated(events: seq<Event>, i: nat)
    requires var h := Run(START, events); i < |h.viewers| && h.viewers[i].shown != []
    ensures var h := Run(START, events);
            var v := h.viewers[i];
            var read := v.subscribedAt + v.taken;
            && read <= |h.published| && |v.copied| >= WINDOW
            && (v.subscribedAt <= v.drainedAt <= read ==>
                  && v.copied[WINDOW..] == Concat(h.published[v.subscribedAt..v.drainedAt])
                                           + Concat(h.published[v.drainedAt..read])
                  && IsSuffix(v.copied[..WINDOW] + Concat(h.published[v.drainedAt..read]),
                              Zeros(WINDOW) + Concat(h.published[..read])))
            && (read < v.drainedAt <= |h.published| ==>
                  IsSuffix(v.copied[..WINDOW], Zeros(WINDOW) + Concat(h.published[..v.drainedAt])))
  {
    hide Run;
    hide Window;
    hide Zeros;
    hide IsSuffix;
    hide Concat;
    var h := Run(START, events);
    var v := h.viewers[i];
    LateJoinerAgrees(events, i);
    var read := v.subscribedAt + v.taken;
    var past := Concat(h.published[..v.drainedAt]);
    TwoParts(v.copied, Window(past), Concat(h.published[v.subscribedAt..read]));
    if v.subscribedAt <= v.drainedAt <= read {
      ConcatCut(h.published, v.subscribedAt, v.drainedAt, read);
      ConcatCut(h.published, 0, v.drainedAt, read);
      var rest := Concat(h.published[v.drainedAt..read]);
      SuffixOfStream(Window(past) + rest, past, rest);
    } else if read < v.drainedAt {
      SuffixOfStream(Window(past), past, []);
      assert past + [] == past && Window(past) + [] == Window(past);
    }
  }

  /** When nothing happens between the two steps of a fork, the gap is exactly what
      the history goroutine had still queued. */
  lemma ForkMissesOnlyQueued(events: seq<Event>)
    ensures var h := Run(START, events);
            var forked := Step(Step(h, Subscribe), Snapshot(|h.viewers|));
            var v := forked.viewers[|h.viewers|];
            && v.joined && v.drainedAt <= v.subscribedAt <= |forked.published|
            && forked.published[v.drainedAt..v.subscribedAt] == h.historyQueue
            && v.masterOutputs == Window(Concat(forked.published[..v.drainedAt]))
  {
    hide Window;
    hide Zeros;
    hide ViewerOk;
    StartInv();
    RunKeepsInv(START, events);
  }

  /** A chunk published and drained between the two steps is in the window and in the
      queue of the new viewer. */
  lemma ForkMayRepeat(chunk: Chunk)
    requires |chunk| <= BUFFER
    ensures var h := Step(Step(Step(START, Subscribe), Publish(chunk)), Drain);
            var v := Step(h, Snapshot(0)).viewers[0];
            v.joined && v.drainedAt == 1 && v.masterOutputs == Window(chunk) && v.queue == [chunk]
  {
    var h1 := Step(START, Subscribe);
    var h2 := Step(h1, Publish(chunk));
    assert h2.historyQueue == [chunk] && h2.viewers[0].queue == [chunk];
    StartInv();
    assert START.outputs == Window([]);
    RecordSlidesWindow([], chunk);
    assert [] + chunk == chunk;
  }
}
