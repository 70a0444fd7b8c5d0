/** The registry of running sessions (route/exec.go, route/id.go): which container an
    exec ID stands for and which master terminal serves it. The lookup of a first
    client and the registration of its master are separate critical sections, so two
    first clients may both register. */
module ExecRegistry {
  import opened Bytes

  type ExecId = string

  /** A handler that became a master, from its registration on. */
  datatype MasterState = Live(eid: ExecId) | TornDown(eid: ExecId)

  datatype Registry = Registry(execs: map<ExecId, string>, masters: map<ExecId, nat>, states: map<nat, MasterState>)

  const EMPTY := Registry(map[], map[], map[])

  datatype Event = Open(eid: ExecId, containerId: string) | Register(h: nat, eid: ExecId) | Teardown(h: nat)

  /** A handler registers once, and tears down once after that. */
  function Step(r: Registry, e: Event): Registry {
    match e
    case Open(eid, containerId) => r.(execs := r.execs[eid := containerId])
    case Register(h, eid) =>
      if h in r.states then r
      else r.(masters := r.masters[eid := h], states := r.states[h := Live(eid)])
    case Teardown(h) =>
      if h !in r.states || !r.states[h].Live? then r
      else
        var eid := r.states[h].eid;
        Registry(r.execs - {eid}, r.masters - {eid}, r.states[h := TornDown(eid)])
  }

  function Run(r: Registry, events: seq<Event>): Registry {
    if events == [] then r else Step(Run(r, events[..|events| - 1]), events[|events| - 1])
  }

  function Lookup(r: Registry, eid: ExecId): Option<nat> {
    if eid in r.masters then Some(r.masters[eid]) else None
  }

  /** Every registered master is live, and under the ID it registered. */
  ghost predicate Inv(r: Registry) {
    forall eid <- r.masters.Keys :: r.masters[eid] in r.states && r.states[r.masters[eid]] == Live(eid)
  }

  lemma {:induction false} RunKeepsInv(events: seq<Event>)
    ensures Inv(Run(EMPTY, events))
  {
    if events != [] {
      RunKeepsInv(events[..|events| - 1]);
    }
  }

  // ----- handlers -----

  /** What a handler is after some events, by its own events alone: live under the first ID
      it registered, until it tears down. */
  function StateOf(events: seq<Event>, h: nat): Option<MasterState> {
    if events == [] then None
    else
      var before, e := StateOf(events[..|events| - 1], h), events[|events| - 1];
      if e.Register? && e.h == h && before == None then Some(Live(e.eid))
      else if e.Teardown? && e.h == h && before.Some? then Some(TornDown(before.value.eid))
      else before
  }

  lemma {:induction false} StatesAreOwn(events: seq<Event>, h: nat)
    ensures var states := Run(EMPTY, events).states;
            StateOf(events, h) == if h in states then Some(states[h]) else None
  {
    if events != [] {
      StatesAreOwn(events[..|events| - 1], h);
    }
  }

  // ----- what a lookup finds -----

  /** The events on one exec ID that took effect: its registrations and teardowns. */
  function LastOn(events: seq<Event>, eid: ExecId): Option<Event>
    ensures LastOn(events, eid).Some? ==> LastOn(events, eid).value.Register? || LastOn(events, eid).value.Teardown?
  {
    if events == [] then None
    else
      var before, e := events[..|events| - 1], events[|events| - 1];
      if e.Register? && StateOf(before, e.h) == None && e.eid == eid then Some(e)
      else if e.Teardown? && StateOf(before, e.h) == Some(Live(eid)) then Some(e)
      else LastOn(before, eid)
  }

  /** After any run a lookup finds a master if and only if the last registration or
      teardown on that exec ID was its registration. */
  lemma {:induction false} LookupFindsLastRegistered(events: seq<Event>, eid: ExecId)
    ensures Lookup(Run(EMPTY, events), eid)
            == match LastOn(events, eid)
               case Some(Register(h, _)) => Some(h)
               case _ => None
  {
    if events != [] {
      var before, e := events[..|events| - 1], events[|events| - 1];
      LookupFindsLastRegistered(before, eid);
      if !e.Open? {
        StatesAreOwn(before, e.h);
      }
    }
  }

  function Resolve(r: Registry, eid: ExecId): Option<string> {
    if eid in r.execs then Some(r.execs[eid]) else None
  }

  /** The last event that gave an exec ID a container or took it away: an opening of the
      ID, or the teardown of a master that registered under it. */
  function LastOpening(events: seq<Event>, eid: ExecId): Option<Event> {
    if events == [] then None
    else
      var before, e := events[..|events| - 1], events[|events| - 1];
      if e.Open? && e.eid == eid then Some(e)
      else if e.Teardown? && StateOf(before, e.h) == Some(Live(eid)) then Some(e)
      else LastOpening(before, eid)
  }

  /** After any run an exec ID stands for a container if and only if no master under it
      was torn down since it was last opened, and then for the container of that opening. */
  lemma {:induction false} ResolvesLastOpened(events: seq<Event>, eid: ExecId)
    ensures Resolve(Run(EMPTY, events), eid)
            == match LastOpening(events, eid)
               case Some(Open(_, containerId)) => Some(containerId)
               case _ => None
  {
    if events != [] {
      var before, e := events[..|events| - 1], events[|events| - 1];
      ResolvesLastOpened(before, eid);
      if e.Teardown? {
        StatesAreOwn(before, e.h);
      }
    }
  }

  /** Live means what it says: registered, and no teardown after that. */
  lemma {:induction false} LiveIsNotTornDown(events: seq<Event>, h: nat, eid: ExecId)
    ensures StateOf(events, h) == Some(Live(eid)) ==>
              exists i :: 0 <= i < |events| && events[i] == Register(h, eid)
                          && forall j | i < j < |events| :: events[j] != Teardown(h)
  {
    if events != [] && StateOf(events, h) == Some(Live(eid)) {
      var before, last := events[..|events| - 1], |events| - 1;
      if StateOf(before, h) == None {
        assert events[last] == Register(h, eid);
      } else {
        LiveIsNotTornDown(before, h, eid);
        var i :| 0 <= i < |before| && before[i] == Register(h, eid)
                 && forall j | i < j < |before| :: before[j] != Teardown(h);
        assert events[i] == Register(h, eid);
        forall j | i < j < |events| ensures events[j] != Teardown(h) {
          assert j < last ==> events[j] == before[j];
        }
      }
    }
  }

  /** Under every interleaving, with any number of masters racing on one exec ID: a share
      lookup only obtains a master that registered under the ID and was not torn down since. */
  lemma LookupIsLive(events: seq<Event>, eid: ExecId)
    ensures var found := Lookup(Run(EMPTY, events), eid);
            found.Some? ==>
              && StateOf(events, found.value) == Some(Live(eid))
              && exists i :: 0 <= i < |events| && events[i] == Register(found.value, eid)
                             && forall j | i < j < |events| :: events[j] != Teardown(found.value)
  {
    RunKeepsInv(events);
    var found := Lookup(Run(EMPTY, events), eid);
    if found.Some? {
      StatesAreOwn(events, found.value);
      LiveIsNotTornDown(events, found.value, eid);
    }
  }

  /** The converse fails: of two masters racing on one exec ID, the teardown of the
      first takes the entry of the second away while that one is live. */
  lemma TeardownHidesRacingMaster(r: Registry, h1: nat, h2: nat, eid: ExecId)
    requires h1 != h2 && h1 !in r.states && h2 !in r.states
    ensures var end := Step(Step(Step(r, Register(h1, eid)), Register(h2, eid)), Teardown(h1));
            Lookup(end, eid) == None && end.states[h2] == Live(eid) && eid !in end.execs
  {
  }

  // ----- the object -----

  /** Each method is one critical section under the server's mutex; `states` records
      which handlers are masters. */
  class Server {
    var execs: map<ExecId, string>
    var masters: map<ExecId, nat>
    ghost var states: map<nat, MasterState>

    ghost function View(): Registry
      reads this
    {
      Registry(execs, masters, states)
    }

    constructor ()
      ensures View() == EMPTY
    {
      execs, masters, states := map[], map[], map[];
    }

    /** `execID` is the ID drawn for the container. */
    method SetContainerID(execID: ExecId, containerID: string)
      modifies this
      ensures View() == Step(old(View()), Open(execID, containerID))
    {
      execs := execs[execID := containerID];
    }

    method GetContainerID(execID: ExecId) returns (containerID: Option<string>)
      ensures containerID == Resolve(View(), execID)
    {
      containerID := if execID in execs then Some(execs[execID]) else None;
    }

    method FindMaster(execID: ExecId) returns (master: Option<nat>)
      ensures master == Lookup(View(), execID)
    {
      master := if execID in masters then Some(masters[execID]) else None;
    }

    method RegisterMaster(h: nat, execID: ExecId)
      requires h !in states
      modifies this
      ensures View() == Step(old(View()), Register(h, execID))
    {
      masters := masters[execID := h];
      states := states[h := Live(execID)];
    }

    /** The deferred teardown of the handler that registered `h` under `execID`. */
    method TeardownMaster(h: nat, execID: ExecId)
      requires h in states && states[h] == Live(execID)
      modifies this
      ensures View() == Step(old(View()), Teardown(h))
    {
      masters := masters - {execID};
      execs := execs - {execID};
      states := states[h := TornDown(execID)];
    }
  }
}
