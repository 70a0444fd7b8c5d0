/** The proxy client of container/grpc/grpc.go: `List` merges the reports of all
    reachable servers into the container index, and `Start`, `Stop`, `Restart` and
    `Logs` are routed through `Find` to the server the container was listed from. */
module GrpcRouting {
  import opened Bytes
  import opened ContainerIndex
  import F = FindRefinement

  /** What one server answers while `List` runs. */
  datatype Answer = Dead | ListError | Listed(cs: seq<Container>)

  type Answers = map<string, Answer>

  /** `order` visits every client once: the order a map iteration happens to take. */
  ghost predicate VisitsOnce(order: seq<string>, clients: set<string>) {
    && (forall addr :: addr in order <==> addr in clients)
    && forall i, j | 0 <= i < j < |order| :: order[i] != order[j]
  }

  function Ids(cs: seq<Container>): set<string> {
    set c <- cs :: c.id
  }

  /** Adds the containers of one server whose ID is new, tagged with the server. */
  function Merge(all: seq<Container>, addr: string, cs: seq<Container>): seq<Container>
    decreases |cs|
  {
    if cs == [] then all
    else Merge(if cs[0].id in Ids(all) then all else all + [cs[0].(locServer := addr)], addr, cs[1..])
  }

  function MergeAll(all: seq<Container>, order: seq<string>, answers: Answers): seq<Container>
    requires forall addr <- order :: addr in answers
    decreases |order|
  {
    if order == [] then all
    else
      var next := if answers[order[0]].Listed? then Merge(all, order[0], answers[order[0]].cs) else all;
      MergeAll(next, order[1..], answers)
  }

  predicate Reported(answers: Answers, addr: string, id: string) {
    addr in answers && answers[addr].Listed? && exists c :: c in answers[addr].cs && c.id == id
  }

  /** `c` is a record its location server reported, tagged with that server. */
  predicate IsReport(answers: Answers, c: Container) {
    && c.locServer in answers && answers[c.locServer].Listed?
    && exists r :: r in answers[c.locServer].cs && c == r.(locServer := c.locServer)
  }

  // ----- the merge -----

  ghost predicate Tagged(all: seq<Container>, answers: Answers) {
    forall c <- all :: IsReport(answers, c)
  }

  lemma TaggedIsReport(answers: Answers, addr: string, c: Container)
    requires addr in answers && answers[addr].Listed? && c in answers[addr].cs
    ensures IsReport(answers, c.(locServer := addr))
  {
  }

  lemma AppendDistinct(all: seq<Container>, c: Container)
    requires F.DistinctIds(all) && c.id !in Ids(all)
    ensures F.DistinctIds(all + [c])
  {
    forall i | 0 <= i < |all| ensures all[i].id != c.id {
      assert all[i] in all;
    }
  }

  lemma {:induction false} MergeSound(all: seq<Container>, addr: string, cs: seq<Container>, answers: Answers)
    requires F.DistinctIds(all) && Tagged(all, answers)
    requires addr in answers && answers[addr].Listed? && forall c <- cs :: c in answers[addr].cs
    ensures F.DistinctIds(Merge(all, addr, cs)) && Tagged(Merge(all, addr, cs), answers)
    ensures Ids(Merge(all, addr, cs)) == Ids(all) + Ids(cs)
    decreases |cs|
  {
    hide IsReport;
    if cs != [] {
      assert Ids(cs) == {cs[0].id} + Ids(cs[1..]) by {
        assert forall c :: c in cs <==> c == cs[0] || c in cs[1..];
      }
      if cs[0].id in Ids(all) {
        MergeSound(all, addr, cs[1..], answers);
      } else {
        var tagged := cs[0].(locServer := addr);
        TaggedIsReport(answers, addr, cs[0]);
        AppendDistinct(all, tagged);
        assert Ids(all + [tagged]) == Ids(all) + {cs[0].id} by {
          assert forall c :: c in all + [tagged] <==> c in all || c == tagged;
          assert tagged in all + [tagged];
        }
        MergeSound(all + [tagged], addr, cs[1..], answers);
      }
    }
  }

  lemma {:induction false} MergeAllSound(all: seq<Container>, order: seq<string>, answers: Answers)
    requires forall addr <- order :: addr in answers
    requires F.DistinctIds(all) && Tagged(all, answers)
    ensures var r := MergeAll(all, order, answers);
            && F.DistinctIds(r) && Tagged(r, answers)
            && forall id :: id in Ids(r)
                            <==> id in Ids(all) || exists addr :: addr in order && Reported(answers, addr, id)
    decreases |order|
  {
    if order != [] {
      var addr, rest := order[0], order[1..];
      var next := if answers[addr].Listed? then Merge(all, addr, answers[addr].cs) else all;
      if answers[addr].Listed? {
        MergeSound(all, addr, answers[addr].cs, answers);
      }
      assert forall id :: id in Ids(next) <==> id in Ids(all) || Reported(answers, addr, id);
      MergeAllSound(next, rest, answers);
      assert forall a :: a in order <==> a == addr || a in rest;
    }
  }

  /** Whatever order the clients are visited in: `List` yields each reported ID exactly
      once, tagged with a reachable server that reported it, and nothing else. */
  lemma ListSound(order: seq<string>, answers: Answers)
    requires VisitsOnce(order, answers.Keys)
    ensures var r := MergeAll([], order, answers);
            && F.DistinctIds(r) && Tagged(r, answers)
            && forall id :: id in Ids(r) <==> exists addr :: Reported(answers, addr, id)
  {
    MergeAllSound([], order, answers);
  }

  // ----- routing -----

  datatype ActionResult =
    | NotFound | UnknownAction | NoLocation(addr: string) | Sent(addr: string, action: string, id: string)

  predicate KnownAction(action: string) {
    action in {"start", "stop", "restart"}
  }

  ghost function ActionSpec(clients: set<string>, m: map<string, Container>, action: string, cid: string): ActionResult
  {
    var info := FindSpec(m, cid);
    if info.id == "" then NotFound
    else if info.locServer !in clients then NoLocation(info.locServer)
    else if !KnownAction(action) then UnknownAction
    else Sent(info.locServer, action, cid)
  }

  datatype LogsResult =
    | NoSuchContainer | NoServer(addr: string) | NotReady(addr: string) | Following(addr: string, id: string)

  ghost function LogsSpec(clients: set<string>, alive: set<string>, m: map<string, Container>, cid: string): LogsResult
  {
    var info := FindSpec(m, cid);
    if info.id == "" then NoSuchContainer
    else if info.locServer !in clients then NoServer(info.locServer)
    else if info.locServer !in alive then NotReady(info.locServer)
    else Following(info.locServer, info.id)
  }

  /** The index of the client and the answers its latest `List` saw. */
  datatype Cli = Cli(index: Index, answers: Answers)

  datatype Event = Refresh(order: seq<string>, answers: Answers) | LearnShell(cid: string, shell: string)

  ghost predicate Possible(clients: set<string>, e: Event) {
    e.Refresh? ==> e.answers.Keys == clients && VisitsOnce(e.order, clients)
  }

  function Step(s: Cli, e: Event): Cli
    requires e.Refresh? ==> forall addr <- e.order :: addr in e.answers
  {
    match e
    case Refresh(order, answers) => Cli(Apply(s.index, Set(MergeAll([], order, answers))), answers)
    case LearnShell(cid, shell) => s.(index := Apply(s.index, SetShell(cid, shell)))
  }

  ghost function Run(clients: set<string>, s: Cli, events: seq<Event>): Cli
    requires forall e <- events :: Possible(clients, e)
    decreases |events|
  {
    if events == [] then s else
      assert Possible(clients, events[0]);
      Run(clients, Step(s, events[0]), events[1..])
  }

  const IDLE := Cli(NEW, map[])

  ghost predicate CliInv(clients: set<string>, s: Cli) {
    && Inv(s.index) && F.DistinctIds(s.index.cs)
    && s.answers.Keys <= clients
    && Tagged(s.index.cs, s.answers)
    && forall id :: id in Ids(s.index.cs) <==> exists addr :: Reported(s.answers, addr, id)
  }

  lemma {:induction false} RunKeepsInv(clients: set<string>, s: Cli, events: seq<Event>)
    requires CliInv(clients, s) && forall e <- events :: Possible(clients, e)
    ensures CliInv(clients, Run(clients, s, events))
    decreases |events|
  {
    if events != [] {
      assert Possible(clients, events[0]);
      match events[0] {
        case Refresh(order, answers) =>
          ListSound(order, answers);
          ApplyKeepsInv(s.index, Set(MergeAll([], order, answers)));
        case LearnShell(cid, shell) =>
          ApplyKeepsInv(s.index, SetShell(cid, shell));
      }
      RunKeepsInv(clients, Step(s, events[0]), events[1..]);
    }
  }

  /** `Find` returns nothing or a container that is listed, up to the shell. */
  lemma FindIsListed(s: Index, cid: string)
    requires Inv(s)
    ensures var r := FindSpec(s.m, cid);
            r == EMPTY || exists c :: c in s.cs && SameButShell(r, c)
  {
    var r := FindSpec(s.m, cid);
    if r != EMPTY {
      var key :| key in s.m && s.m[key] == r;
      assert Agrees(s, key);
    }
  }

  /** In every run over a fixed client map, whatever is asked for: "location server not
      found" cannot happen, and a request that is sent goes to a server that reported
      the container found. */
  lemma RoutedToAReportingServer(clients: set<string>, events: seq<Event>, action: string, cid: string,
                                 alive: set<string>)
    requires forall e <- events :: Possible(clients, e)
    ensures var s := Run(clients, IDLE, events);
            var found := FindSpec(s.index.m, cid);
            var r := ActionSpec(clients, s.index.m, action, cid);
            var logs := LogsSpec(clients, alive, s.index.m, cid);
            && !r.NoLocation? && !logs.NoServer?
            && (r.Sent? ==> r.id == cid && Reported(s.answers, r.addr, found.id))
            && (logs.Following? ==> logs.id == found.id && Reported(s.answers, logs.addr, found.id))
  {
    RunKeepsInv(clients, IDLE, events);
    FindIsListed(Run(clients, IDLE, events).index, cid);
  }

  /** A full ID (longer than twelve characters) that a reachable server reported is
      always found; every known action on it, and its logs while that server is alive,
      go to a server that reported it. */
  lemma ReportedIdIsRouted(clients: set<string>, events: seq<Event>, action: string, id: string, addr: string,
                           alive: set<string>)
    requires forall e <- events :: Possible(clients, e)
    requires |id| > SHORT && KnownAction(action)
    requires Reported(Run(clients, IDLE, events).answers, addr, id)
    ensures var s := Run(clients, IDLE, events);
            var r := ActionSpec(clients, s.index.m, action, id);
            && r.Sent? && r.action == action && r.id == id && Reported(s.answers, r.addr, id)
            && LogsSpec(clients, alive, s.index.m, id)
               == if r.addr in alive then Following(r.addr, id) else NotReady(r.addr)
  {
    RunKeepsInv(clients, IDLE, events);
    var s := Run(clients, IDLE, events);
    assert id in Ids(s.index.cs);
    F.FindRefinesListSearch(s.index, id);
    var c := F.WithId(s.index.cs, id).value;
    assert SameButShell(FindSpec(s.index.m, id), c);
  }

  /** What becomes of every request after every run, for every query: not found exactly when
      the query finds nothing in the list, and otherwise handed to the location server of the
      container it finds, under the query for an action and under the full ID for logs. */
  lemma RoutedAsListed(clients: set<string>, events: seq<Event>, action: string, cid: string, alive: set<string>)
    requires forall e <- events :: Possible(clients, e)
    ensures var s := Run(clients, IDLE, events);
            var c := F.Found(s.index.cs, cid);
            var r := ActionSpec(clients, s.index.m, action, cid);
            var logs := LogsSpec(clients, alive, s.index.m, cid);
            if c.id == "" then r == NotFound && logs == NoSuchContainer
            else
              && r == (if action in {"start", "stop", "restart"} then Sent(c.locServer, action, cid) else UnknownAction)
              && logs == if c.locServer in alive then Following(c.locServer, c.id) else NotReady(c.locServer)
  {
    RunKeepsInv(clients, IDLE, events);
    var s := Run(clients, IDLE, events);
    hide Run;
    hide FindSpec;
    hide F.Found;
    hide F.Hits;
    var c := F.Found(s.index.cs, cid);
    F.FindFindsExactly(s.index, cid);
    F.HitIsListed(s.index.cs, cid);
    if F.Hits(s.index.cs, cid) {
      assert IsReport(s.answers, c);
    }
  }

  /** What a run does to the container index. */
  ghost function IndexOps(clients: set<string>, events: seq<Event>): seq<Op>
    requires forall e <- events :: Possible(clients, e)
    decreases |events|
  {
    if events == [] then []
    else
      assert Possible(clients, events[0]);
      [match events[0]
       case Refresh(order, answers) => Op.Set(MergeAll([], order, answers))
       case LearnShell(cid, shell) => SetShell(cid, shell)] + IndexOps(clients, events[1..])
  }

  lemma {:induction false} RunIsIndexRun(clients: set<string>, s: Cli, events: seq<Event>)
    requires forall e <- events :: Possible(clients, e)
    ensures Run(clients, s, events).index == ContainerIndex.Run(s.index, IndexOps(clients, events))
    decreases |events|
  {
    hide MergeAll;
    hide Apply;
    if events != [] {
      assert Possible(clients, events[0]);
      RunIsIndexRun(clients, Step(s, events[0]), events[1..]);
      assert IndexOps(clients, events)[1..] == IndexOps(clients, events[1..]);
    }
  }

  /** In every run, a query finds exactly the container it names in the list, with the shell
      that was last learned under the key it was found by, since the last refresh. */
  lemma LearnedShellIsFound(clients: set<string>, events: seq<Event>, cid: string)
    requires forall e <- events :: Possible(clients, e)
    ensures var s := Run(clients, IDLE, events);
            var c := F.Found(s.index.cs, cid);
            FindSpec(s.index.m, cid)
            == if F.Hits(s.index.cs, cid) then
                 WithShell(c, ShellSet(IndexOps(clients, events), F.FoundKey(cid, c)))
               else EMPTY
  {
    RunKeepsInv(clients, IDLE, events);
    RunIsIndexRun(clients, IDLE, events);
    F.FindAfterRun(IndexOps(clients, events), cid);
  }

  // ----- the order of the list -----

  function Tag(addr: string, cs: seq<Container>): seq<Container> {
    if cs == [] then [] else [cs[0].(locServer := addr)] + Tag(addr, cs[1..])
  }

  /** All reports one after the other, each tagged with its server. */
  function Reports(order: seq<string>, answers: Answers): seq<Container>
    requires forall addr <- order :: addr in answers
  {
    if order == [] then [] else Report(order[0], answers[order[0]]) + Reports(order[1..], answers)
  }

  function Report(addr: string, answer: Answer): seq<Container> {
    if answer.Listed? then Tag(addr, answer.cs) else []
  }

  /** Of every ID the first record, in order. */
  function FirstOfEach(cs: seq<Container>): seq<Container> {
    if cs == [] then []
    else
      var firsts, last := FirstOfEach(cs[..|cs| - 1]), cs[|cs| - 1];
      if last.id in Ids(cs[..|cs| - 1]) then firsts else firsts + [last]
  }

  lemma FirstOfEachSnoc(cs: seq<Container>, c: Container)
    ensures FirstOfEach(cs + [c]) == if c.id in Ids(cs) then FirstOfEach(cs) else FirstOfEach(cs) + [c]
  {
    assert (cs + [c])[..|cs|] == cs;
  }

  lemma {:induction false} FirstOfEachIds(cs: seq<Container>)
    ensures Ids(FirstOfEach(cs)) == Ids(cs)
  {
    if cs != [] {
      var init, last := cs[..|cs| - 1], cs[|cs| - 1];
      FirstOfEachIds(init);
      assert cs == init + [last];
      IdsSnoc(init, last);
      IdsSnoc(FirstOfEach(init), last);
    }
  }

  lemma IdsSnoc(cs: seq<Container>, c: Container)
    ensures Ids(cs + [c]) == Ids(cs) + {c.id}
  {
    assert forall d :: d in cs + [c] <==> d in cs || d == c;
    assert c in cs + [c];
  }

  lemma {:induction false} MergeInOrder(seen: seq<Container>, addr: string, cs: seq<Container>)
    ensures Merge(FirstOfEach(seen), addr, cs) == FirstOfEach(seen + Tag(addr, cs))
    decreases |cs|
  {
    hide FirstOfEach;
    hide Ids;
    if cs == [] {
      assert seen + [] == seen;
    } else {
      var c := cs[0].(locServer := addr);
      FirstOfEachSnoc(seen, c);
      FirstOfEachIds(seen);
      MergeInOrder(seen + [c], addr, cs[1..]);
      AppendAssociates(seen, [c], Tag(addr, cs[1..]));
    }
  }

  lemma MergeOneInOrder(seen: seq<Container>, addr: string, answer: Answer)
    ensures (if answer.Listed? then Merge(FirstOfEach(seen), addr, answer.cs) else FirstOfEach(seen))
            == FirstOfEach(seen + Report(addr, answer))
  {
    hide FirstOfEach;
    hide Merge;
    if answer.Listed? {
      MergeInOrder(seen, addr, answer.cs);
    } else {
      assert seen + [] == seen;
    }
  }

  lemma {:induction false} MergeAllInOrder(seen: seq<Container>, order: seq<string>, answers: Answers)
    requires forall addr <- order :: addr in answers
    ensures MergeAll(FirstOfEach(seen), order, answers) == FirstOfEach(seen + Reports(order, answers))
    decreases |order|
  {
    hide FirstOfEach;
    hide Merge;
    hide Report;
    if order == [] {
      assert seen + [] == seen;
    } else {
      var report := Report(order[0], answers[order[0]]);
      MergeOneInOrder(seen, order[0], answers[order[0]]);
      MergeAllInOrder(seen + report, order[1..], answers);
      AppendAssociates(seen, report, Reports(order[1..], answers));
    }
  }

  /** `List` yields the reports in the order the servers are visited, each in its server's
      order, without the records whose ID was reported before. */
  lemma ListInOrder(order: seq<string>, answers: Answers)
    requires forall addr <- order :: addr in answers
    ensures MergeAll([], order, answers) == FirstOfEach(Reports(order, answers))
  {
    MergeAllInOrder([], order, answers);
    assert [] + Reports(order, answers) == Reports(order, answers);
  }

  // ----- the object -----

  /** How a call of the server ends: with an error record, whose text is empty when the
      action succeeded, or with an error of the transport. */
  datatype Reply = Record(text: string) | TransportError(text: string)

  /** What the generated client returns of it, the record and the error: one of the two is
      always there. */
  function Returned(reply: Reply): (r: (Option<string>, Option<string>))
    ensures r.0.Some? <==> reply.Record?
    ensures r.1.Some? <==> reply.TransportError?
  {
    match reply
    case Record(text) => (Some(text), None)
    case TransportError(text) => (None, Some(text))
  }

  predicate Dialed(servers: seq<string>, dialed: seq<bool>, addr: string)
    requires |dialed| == |servers|
  {
    exists i :: 0 <= i < |servers| && servers[i] == addr && dialed[i]
  }

  lemma DialedSnoc(servers: seq<string>, dialed: seq<bool>, server: string, ok: bool)
    requires |dialed| == |servers|
    ensures forall addr :: Dialed(servers + [server], dialed + [ok], addr)
                           <==> Dialed(servers, dialed, addr) || (ok && addr == server)
  {
    forall addr
      ensures Dialed(servers + [server], dialed + [ok], addr)
              <==> Dialed(servers, dialed, addr) || (ok && addr == server)
    {
      if Dialed(servers, dialed, addr) {
        var i :| 0 <= i < |servers| && servers[i] == addr && dialed[i];
        assert (servers + [server])[i] == addr && (dialed + [ok])[i];
      }
      assert (servers + [server])[|servers|] == server;
    }
  }

  class GrpcCli {
    const clients: set<string>
    const containers: Containers

    /** `dialed` says which connections could be made, `alive` which servers answered the
        first ping. The clients are the servers that did both. */
    constructor (servers: seq<string>, dialed: seq<bool>, alive: set<string>)
      requires |dialed| == |servers|
      ensures forall addr :: addr in clients <==> addr in alive && Dialed(servers, dialed, addr)
      ensures fresh(containers) && containers.View() == NEW
    {
      var kept: set<string> := {};
      for i := 0 to |servers|
        invariant forall addr :: addr in kept <==> Dialed(servers[..i], dialed[..i], addr)
      {
        DialedSnoc(servers[..i], dialed[..i], servers[i], dialed[i]);
        assert servers[..i + 1] == servers[..i] + [servers[i]] && dialed[..i + 1] == dialed[..i] + [dialed[i]];
        if dialed[i] {
          kept := kept + {servers[i]};
        }
      }
      assert servers[..|servers|] == servers && dialed[..|dialed|] == dialed;
      var rest, delLists: set<string> := kept, {};
      while rest != {}
        invariant rest <= kept
        invariant forall addr :: addr in delLists <==> addr in kept - rest && addr !in alive
        decreases rest
      {
        var addr :| addr in rest;
        rest := rest - {addr};
        if addr !in alive {
          delLists := delLists + {addr};
        }
      }
      this.clients := kept - delLists;
      this.containers := new Containers();
    }

    method List(answers: Answers) returns (allContainers: seq<Container>, ghost order: seq<string>)
      requires answers.Keys == clients
      modifies containers
      ensures VisitsOnce(order, clients)
      ensures allContainers == MergeAll([], order, answers)
      ensures containers.View() == Apply(old(containers.View()), Set(allContainers))
    {
      allContainers := [];
      var containerIDMap: set<string> := {};
      var rest := clients;
      order := [];
      while rest != {}
        invariant rest <= clients
        invariant forall addr :: addr in order <==> addr in clients - rest
        invariant forall i, j | 0 <= i < j < |order| :: order[i] != order[j]
        invariant allContainers == MergeAll([], order, answers)
        invariant containerIDMap == Ids(allContainers)
        decreases rest
      {
        var addr :| addr in rest;
        rest := rest - {addr};
        MergeAllSnoc([], order, addr, answers);
        if answers[addr].Listed? {
          allContainers, containerIDMap := AddServer(allContainers, containerIDMap, addr, answers[addr].cs);
        }
        assert forall i | 0 <= i < |order| :: order[i] in order && order[i] != addr;
        order := order + [addr];
      }
      containers.Set(allContainers);
    }

    /** `reply` is how the call of the server ends if it is made. Any record counts as an
        error, so success is never reported, although the action may have been carried out. */
    method ContainerAction(action: string, containerID: string, reply: Reply) returns (r: ActionResult, ok: bool)
      ensures r == ActionSpec(clients, containers.c, action, containerID)
      ensures !ok
    {
      var info := containers.Find(containerID);
      if info.id == "" {
        return NotFound, false;
      }
      if info.locServer in clients {
        if !KnownAction(action) {
          return UnknownAction, false;
        }
        r := Sent(info.locServer, action, containerID);
        var (err1, err2) := Returned(reply);
        if err2 != None {
          return r, false;
        }
        if err1 != None {
          return r, false;
        }
        return r, true;
      }
      return NoLocation(info.locServer), false;
    }

    /** `streams` says whether the server opens the log stream if it is asked. */
    method Logs(alive: set<string>, id: string, streams: bool) returns (r: LogsResult, ok: bool)
      ensures r == LogsSpec(clients, alive, containers.c, id)
      ensures ok <==> r.Following? && streams
    {
      var info := containers.Find(id);
      if info.id == "" {
        return NoSuchContainer, false;
      }
      if info.locServer !in clients {
        return NoServer(info.locServer), false;
      }
      if info.locServer !in alive {
        return NotReady(info.locServer), false;
      }
      return Following(info.locServer, info.id), streams;
    }
  }

  lemma {:induction false} MergeAllSnoc(all: seq<Container>, order: seq<string>, addr: string, answers: Answers)
    requires (forall a <- order :: a in answers) && addr in answers
    ensures var r := MergeAll(all, order, answers);
            MergeAll(all, order + [addr], answers)
            == if answers[addr].Listed? then Merge(r, addr, answers[addr].cs) else r
    decreases |order|
  {
    if order == [] {
      assert ([] + [addr])[1..] == [];
    } else {
      var next := if answers[order[0]].Listed? then Merge(all, order[0], answers[order[0]].cs) else all;
      assert (order + [addr])[1..] == order[1..] + [addr];
      MergeAllSnoc(next, order[1..], addr, answers);
    }
  }

  /** The inner loop of `List` over the report of one server. */
  method AddServer(all: seq<Container>, ids: set<string>, addr: string, cs: seq<Container>)
    returns (merged: seq<Container>, containerIDMap: set<string>)
    requires ids == Ids(all)
    ensures merged == Merge(all, addr, cs) && containerIDMap == Ids(merged)
  {
    merged, containerIDMap := all, ids;
    var i := 0;
    while i < |cs|
      invariant 0 <= i <= |cs|
      invariant Merge(merged, addr, cs[i..]) == Merge(all, addr, cs)
      invariant containerIDMap == Ids(merged)
    {
      var c := cs[i].(locServer := addr);
      assert cs[i..][1..] == cs[i + 1..];
      if c.id !in containerIDMap {
        assert Ids(merged + [c]) == Ids(merged) + {c.id} by {
          assert forall d :: d in merged + [c] <==> d in merged || d == c;
          assert c in merged + [c];
        }
        merged := merged + [c];
        containerIDMap := containerIDMap + {c.id};
      }
      i := i + 1;
    }
  }
}
