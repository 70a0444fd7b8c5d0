/** The objects of types/tty.go: the write mutex shared by a master and its slaves, the
    topic the container's output is published to, and their `Read`, `Write` and `Fork`.
    Clock readings and what the container's terminal yields are parameters. */
module SharedTty {
  import opened Bytes
  import A = WriteArbiter
  import H = History

  /** The container's end: what was written to it. */
  class ContainerTTY {
    var input: seq<byte>

    constructor ()
      ensures input == []
    {
      input := [];
    }

    method Write(p: seq<byte>) returns (n: nat)
      modifies this
      ensures input == old(input) + p && n == |p|
    {
      input := input + p;
      n := |p|;
    }
  }

  /** The channel of one subscription. */
  class Queue {
    var chunks: seq<seq<byte>>

    constructor ()
      ensures chunks == []
    {
      chunks := [];
    }
  }

  /** The subscriptions under one ID of the publish/subscribe library. */
  class Topic {
    var subscribers: seq<Queue>

    ghost predicate Valid()
      reads this
    {
      forall i, j | 0 <= i < j < |subscribers| :: subscribers[i] != subscribers[j]
    }

    constructor ()
      ensures Valid() && subscribers == []
    {
      subscribers := [];
    }

    method Subscribe() returns (q: Queue)
      requires Valid()
      modifies this
      ensures Valid() && fresh(q) && q.chunks == [] && subscribers == old(subscribers) + [q]
    {
      q := new Queue();
      subscribers := subscribers + [q];
    }

    /** Every subscriber gets the chunk once, behind what it has. */
    method Publish(chunk: seq<byte>)
      requires Valid()
      modifies subscribers
      ensures forall q <- subscribers :: q.chunks == old(q.chunks) + [chunk]
    {
      for i := 0 to |subscribers|
        invariant forall k | 0 <= k < i :: subscribers[k].chunks == old(subscribers[k].chunks) + [chunk]
        invariant forall k | i <= k < |subscribers| :: subscribers[k].chunks == old(subscribers[k].chunks)
      {
        var q := subscribers[i];
        q.chunks := q.chunks + [chunk];
      }
    }
  }

  class MutexWriter {
    var lastMasterWriteTime: A.Stamp
    var lastSlaveWriteTime: A.Stamp
    var lastWroteSlave: SlaveTTY?

    ghost function View(): A.Arbiter<SlaveTTY>
      reads this
    {
      var last: Option<SlaveTTY> := if lastWroteSlave == null then None else Some(lastWroteSlave);
      A.Arbiter(lastMasterWriteTime, lastSlaveWriteTime, last)
    }

    constructor ()
      ensures View() == A.Unused()
    {
      lastMasterWriteTime, lastSlaveWriteTime, lastWroteSlave := A.Never, A.Never, null;
    }

    predicate MasterCanWrite(now: int)
      reads this
      ensures MasterCanWrite(now) == A.MasterCanWrite(View(), now)
    {
      A.Since(now, lastSlaveWriteTime) > A.SECOND
    }

    method SlaveCanWrite(tty: SlaveTTY, check1: int, check2: int) returns (ok: bool)
      ensures ok == A.SlaveCanWrite(View(), tty, check1, check2)
    {
      if A.Since(check1, lastMasterWriteTime) < A.SECOND {
        return false;
      }
      if lastWroteSlave == null {
        return true;
      }
      if lastWroteSlave == tty {
        return true;
      }
      return A.Since(check2, lastSlaveWriteTime) > A.SECOND;
    }
  }

  /** A read of a slave: it waits for the first chunk, slices past the buffer, or reports
      a number of bytes. */
  datatype SlaveRead = Blocked | OutOfRange | Got(n: nat)

  class SlaveTTY {
    const ps: Queue
    const tty: ContainerTTY
    const readOnly: bool
    const mWriter: MutexWriter
    var masterOutputs: seq<byte>

    constructor (ps: Queue, tty: ContainerTTY, readOnly: bool, masterOutputs: seq<byte>, mWriter: MutexWriter)
      ensures this.ps == ps && this.tty == tty && this.readOnly == readOnly
      ensures this.masterOutputs == masterOutputs && this.mWriter == mWriter
    {
      this.ps, this.tty, this.readOnly, this.masterOutputs, this.mWriter := ps, tty, readOnly, masterOutputs, mWriter;
    }

    /** The replay comes first and takes nothing from the queue; after it every read takes
        the first chunk. */
    method Read(p: array<byte>) returns (r: SlaveRead)
      modifies this, ps, p
      ensures var replay := old(masterOutputs) != [];
              if !replay && old(ps.chunks) == [] then
                r == Blocked && p[..] == old(p[..]) && masterOutputs == [] && ps.chunks == []
              else
                && ps.chunks == (if replay then old(ps.chunks) else old(ps.chunks)[1..])
                && match H.ReadInto(old(masterOutputs), if replay then [] else old(ps.chunks)[0], old(p[..]))
                   case None => r == OutOfRange && p[..] == old(p[..]) && masterOutputs == old(masterOutputs)
                   case Some(got) => r == Got(got.1) && p[..] == got.0 && masterOutputs == []
    {
      if |masterOutputs| != 0 {
        if |masterOutputs| > p.Length {
          return OutOfRange;
        }
        Copy(p, masterOutputs);
        masterOutputs := [];
        return Got(p.Length);
      }
      if |ps.chunks| == 0 {
        return Blocked;
      }
      var bs := ps.chunks[0];
      ps.chunks := ps.chunks[1..];
      if |bs| > p.Length {
        return OutOfRange;
      }
      Copy(p, bs);
      return Got(|bs|);
    }

    method Write(p: seq<byte>, check1: int, check2: int, record: int) returns (n: nat)
      modifies mWriter, tty
      ensures var t := A.Attempt(A.Slave(this), readOnly, check1, check2, record, p);
              var accepted := A.Accepts(old(mWriter.View()), t);
              && mWriter.View() == A.Step(old(mWriter.View()), t)
              && tty.input == old(tty.input) + (if accepted then p else [])
              && n == (if readOnly || accepted then |p| else 0)
    {
      if readOnly {
        return |p|;
      }
      var ok := mWriter.SlaveCanWrite(this, check1, check2);
      if !ok {
        return 0;
      }
      mWriter.lastSlaveWriteTime := A.At(record);
      mWriter.lastWroteSlave := this;
      n := tty.Write(p);
    }
  }

  class MasterTTY {
    const tty: ContainerTTY
    const topic: Topic
    const history: Queue
    const mWriter: MutexWriter
    var outputs: seq<byte>

    /** The master's own subscription feeds its history. */
    constructor (tty: ContainerTTY)
      ensures this.tty == tty && outputs == H.Window([])
      ensures |outputs| == 1000 && forall i | 0 <= i < 1000 :: outputs[i] == 0
      ensures fresh(mWriter) && mWriter.View() == A.Unused()
      ensures fresh(topic) && topic.Valid() && topic.subscribers == [history]
      ensures fresh(history) && history.chunks == []
    {
      var published := new Topic();
      var queue := published.Subscribe();
      this.tty, this.topic, this.history := tty, published, queue;
      this.mWriter := new MutexWriter();
      this.outputs := Zeros(H.WINDOW);
      new;
      assert Zeros(H.WINDOW) + [] == Zeros(H.WINDOW);
    }

    /** `incoming` is what the container's terminal puts into the buffer. Every subscriber,
        the history included, gets exactly what the caller gets. */
    method Read(p: array<byte>, incoming: seq<byte>) returns (n: nat)
      requires topic.Valid() && |incoming| <= p.Length
      modifies p, topic.subscribers
      ensures n == |incoming| && p[..] == incoming + old(p[..])[n..]
      ensures forall q <- topic.subscribers :: q.chunks == old(q.chunks) + [incoming]
    {
      n := |incoming|;
      Copy(p, incoming);
      assert p[..n] == incoming;
      topic.Publish(p[..n]);
    }

    method Write(p: seq<byte>, check: int, record: int) returns (n: nat)
      modifies mWriter, tty
      ensures var t := A.Attempt(A.Master, false, check, check, record, p);
              var accepted := A.Accepts(old(mWriter.View()), t);
              && mWriter.View() == A.Step(old(mWriter.View()), t)
              && tty.input == old(tty.input) + (if accepted then p else [])
              && n == (if accepted then |p| else 0)
    {
      if !mWriter.MasterCanWrite(check) {
        return 0;
      }
      mWriter.lastMasterWriteTime := A.At(record);
      n := tty.Write(p);
    }

    /** The history goroutine until its queue is empty: whatever was drained before, the
        window covers that and what was queued. */
    method KeepHistory(ghost before: seq<byte>)
      requires outputs == H.Window(before)
      modifies this, history
      ensures outputs == H.Window(before + Concat(old(history.chunks)))
      ensures history.chunks == []
    {
      ghost var sofar, queued := before, history.chunks;
      assert before + Concat<byte>([]) == before;
      while |history.chunks| != 0
        invariant outputs == H.Window(sofar)
        invariant sofar + Concat(history.chunks) == before + Concat(queued)
        decreases |history.chunks|
      {
        var output := history.chunks[0];
        H.RecordSlidesWindow(sofar, output);
        AppendAssociates(sofar, output, Concat(history.chunks[1..]));
        sofar := sofar + output;
        history.chunks := history.chunks[1..];
        outputs := outputs + output;
        if |outputs| > H.WINDOW {
          outputs := outputs[|outputs| - H.WINDOW..];
        }
      }
      assert sofar + Concat<byte>([]) == sofar;
    }

    /** The slave subscribes before the outputs are copied. */
    method Fork(collaborate: bool) returns (slave: SlaveTTY)
      requires topic.Valid()
      modifies topic
      ensures fresh(slave) && slave.tty == tty && slave.mWriter == mWriter
      ensures slave.readOnly == !collaborate && slave.masterOutputs == outputs
      ensures fresh(slave.ps) && slave.ps.chunks == []
      ensures topic.Valid() && topic.subscribers == old(topic.subscribers) + [slave.ps]
    {
      var queue := topic.Subscribe();
      slave := new SlaveTTY(queue, tty, !collaborate, outputs, mWriter);
    }
  }
}
