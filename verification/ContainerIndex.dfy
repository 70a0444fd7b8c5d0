/** The container index of types/containers.go: a list of containers and a map that
    speeds it up, keyed by full ID and by 12-character prefix. */
module ContainerIndex {
  import opened Bytes

  const SHORT := 12

  datatype ExecOptions = ExecOptions(user: string, env: string, cmd: string, privileged: bool)

  datatype Container = Container(
    id: string, name: string, image: string, command: string, state: string, status: string,
    ips: seq<string>, shell: string, podName: string, containerName: string, namespace: string,
    runningNode: string, locServer: string, exec: ExecOptions)

  const EMPTY := Container("", "", "", "", "", "", [], "", "", "", "", "", "", ExecOptions("", "", "", false))

  /** Equal in every field but the shell, which `SetShell` changes under one key only. */
  predicate SameButShell(a: Container, b: Container) {
    a.(shell := b.shell) == b
  }

  predicate Touches(c: Container, key: string) {
    c.id == key || (|c.id| >= SHORT && c.id[..SHORT] == key)
  }

  datatype Index = Index(m: map<string, Container>, cs: seq<Container>)

  // ----- what the operations do -----

  function Put(m: map<string, Container>, c: Container): map<string, Container> {
    var withId := m[c.id := c];
    if |c.id| >= SHORT then withId[c.id[..SHORT] := c] else withId
  }

  function PutAll(m: map<string, Container>, cs: seq<Container>): map<string, Container> {
    if cs == [] then m else Put(PutAll(m, cs[..|cs| - 1]), cs[|cs| - 1])
  }

  function Matching(m: map<string, Container>, cid: string): set<string> {
    set key | key in m && cid <= key
  }

  /** `Find` for any order of map iteration: an exact key, else the value of the only
      key that `cid` is a prefix of, else the empty container. */
  ghost function FindSpec(m: map<string, Container>, cid: string): Container {
    if cid in m then m[cid]
    else if exists key :: Matching(m, cid) == {key} then
      var key :| Matching(m, cid) == {key}; m[key]
    else EMPTY
  }

  lemma UniqueMatch(m: map<string, Container>, cid: string, last: string)
    requires cid !in m
    ensures |Matching(m, cid)| == 1 && last in Matching(m, cid) ==> FindSpec(m, cid) == m[last]
    ensures |Matching(m, cid)| != 1 ==> FindSpec(m, cid) == EMPTY
  {
    if |Matching(m, cid)| == 1 && last in Matching(m, cid) {
      assert |Matching(m, cid) - {last}| == 0;
      assert Matching(m, cid) == {last};
    }
  }

  datatype Op =
    | Set(cs: seq<Container>) | Append(c: Container) | SetShell(cid: string, shell: string) | Find(cid: string)

  function Apply(s: Index, op: Op): Index {
    match op
    case Set(cs) => Index(PutAll(map[], cs), cs)
    case Append(c) => if c.id == "" then s else Index(Put(s.m, c), s.cs + [c])
    case SetShell(cid, shell) => if cid in s.m then s.(m := s.m[cid := s.m[cid].(shell := shell)]) else s
    case Find(_) => s
  }

  function Run(s: Index, ops: seq<Op>): Index
    decreases |ops|
  {
    if ops == [] then s else Run(Apply(s, ops[0]), ops[1..])
  }

  const NEW := Index(map[], [])

  // ----- the abstraction -----

  /** The last listed container that has `key` as its ID or 12-character prefix. */
  function LastTouching(cs: seq<Container>, key: string): (r: Option<Container>)
    ensures r.Some? ==> r.value in cs && Touches(r.value, key)
    ensures r == None <==> forall c <- cs :: !Touches(c, key)
  {
    if cs == [] then None
    else if Touches(cs[|cs| - 1], key) then Some(cs[|cs| - 1])
    else
      assert forall c <- cs :: c in cs[..|cs| - 1] || c == cs[|cs| - 1];
      LastTouching(cs[..|cs| - 1], key)
  }

  /** The map agrees with the list: the keys are the IDs and prefixes of the listed
      containers, and a key's value is, up to the shell, the last container it touches. */
  predicate Agrees(s: Index, key: string) {
    match LastTouching(s.cs, key)
    case None => key !in s.m
    case Some(c) => key in s.m && SameButShell(s.m[key], c)
  }

  ghost predicate Inv(s: Index) {
    forall key :: Agrees(s, key)
  }

  lemma PutAgrees(m: map<string, Container>, cs: seq<Container>, c: Container)
    requires Inv(Index(m, cs))
    ensures Inv(Index(Put(m, c), cs + [c]))
  {
    forall key ensures Agrees(Index(Put(m, c), cs + [c]), key) {
      assert Agrees(Index(m, cs), key);
      assert (cs + [c])[..|cs|] == cs;
    }
  }

  lemma {:induction false} PutAllAgrees(cs: seq<Container>)
    ensures Inv(Index(PutAll(map[], cs), cs))
  {
    if cs != [] {
      var init := cs[..|cs| - 1];
      PutAllAgrees(init);
      PutAgrees(PutAll(map[], init), init, cs[|cs| - 1]);
      assert init + [cs[|cs| - 1]] == cs;
    }
  }

  lemma ApplyKeepsInv(s: Index, op: Op)
    requires Inv(s)
    ensures Inv(Apply(s, op))
  {
    match op
    case Set(cs) => PutAllAgrees(cs);
    case Append(c) => if c.id != "" { PutAgrees(s.m, s.cs, c); }
    case SetShell(cid, shell) =>
      forall key ensures Agrees(Apply(s, op), key) {
        assert Agrees(s, key);
      }
    case Find(_) =>
  }

  /** Over any run of the operations the map agrees with the list on every key. */
  lemma {:induction false} RunKeepsInv(s: Index, ops: seq<Op>)
    requires Inv(s)
    ensures Inv(Run(s, ops))
    decreases |ops|
  {
    if ops != [] {
      ApplyKeepsInv(s, ops[0]);
      RunKeepsInv(Apply(s, ops[0]), ops[1..]);
    }
  }

  lemma RunFromNew(ops: seq<Op>, key: string)
    ensures Agrees(Run(NEW, ops), key)
  {
    RunKeepsInv(NEW, ops);
  }

  // ----- the shell -----

  /** The shell last set under `key`, unless a container that touches it was appended, or
      the list was replaced, since. */
  function ShellSet(ops: seq<Op>, key: string): Option<string> {
    if ops == [] then None else ShellAfter(ShellSet(ops[..|ops| - 1], key), ops[|ops| - 1], key)
  }

  function ShellAfter(before: Option<string>, op: Op, key: string): Option<string> {
    match op
    case Set(_) => None
    case Append(c) => if c.id != "" && Touches(c, key) then None else before
    case SetShell(cid, shell) => if cid == key then Some(shell) else before
    case Find(_) => before
  }

  function WithShell(c: Container, shell: Option<string>): Container {
    if shell.Some? then c.(shell := shell.value) else c
  }

  /** The value under `key` is the last listed container that touches it, with the shell
      `shell` if there is one. */
  predicate Exactly(s: Index, key: string, shell: Option<string>) {
    match LastTouching(s.cs, key)
    case None => key !in s.m
    case Some(c) => key in s.m && s.m[key] == WithShell(c, shell)
  }

  lemma LastTouchingSnoc(cs: seq<Container>, c: Container, key: string)
    ensures LastTouching(cs + [c], key) == if Touches(c, key) then Some(c) else LastTouching(cs, key)
  {
    assert (cs + [c])[..|cs|] == cs;
  }

  lemma PutAt(m: map<string, Container>, c: Container, key: string)
    ensures key in Put(m, c) <==> key in m || Touches(c, key)
    ensures Touches(c, key) ==> Put(m, c)[key] == c
    ensures !Touches(c, key) && key in m ==> Put(m, c)[key] == m[key]
  {
  }

  lemma PutExactly(m: map<string, Container>, cs: seq<Container>, c: Container, key: string, shell: Option<string>)
    requires Exactly(Index(m, cs), key, shell)
    ensures Exactly(Index(Put(m, c), cs + [c]), key, if Touches(c, key) then None else shell)
  {
    hide Put;
    hide Touches;
    hide LastTouching;
    PutAt(m, c, key);
    LastTouchingSnoc(cs, c, key);
  }

  lemma {:induction false} PutAllExactly(cs: seq<Container>, key: string)
    ensures Exactly(Index(PutAll(map[], cs), cs), key, None)
  {
    hide Put;
    hide Touches;
    if cs != [] {
      var init, c := cs[..|cs| - 1], cs[|cs| - 1];
      PutAllExactly(init, key);
      PutExactly(PutAll(map[], init), init, c, key, None);
      assert init + [c] == cs;
    }
  }

  lemma ApplyExactly(s: Index, before: seq<Op>, op: Op, key: string)
    requires Exactly(s, key, ShellSet(before, key))
    ensures Exactly(Apply(s, op), key, ShellSet(before + [op], key))
  {
    ShellSetSnoc(before, op, key);
    hide Put;
    hide PutAll;
    hide Touches;
    hide LastTouching;
    hide ShellSet;
    match op
    case Set(cs) => PutAllExactly(cs, key);
    case Append(c) => if c.id != "" { PutExactly(s.m, s.cs, c, key, ShellSet(before, key)); }
    case SetShell(_, _) =>
    case Find(_) =>
  }

  lemma ShellSetSnoc(before: seq<Op>, op: Op, key: string)
    ensures ShellSet(before + [op], key)
            == ShellAfter(ShellSet(before, key), op, key)
  {
    hide ShellAfter;
    assert (before + [op])[..|before|] == before;
  }

  lemma {:induction false} RunSnoc(s: Index, ops: seq<Op>, op: Op)
    ensures Run(s, ops + [op]) == Apply(Run(s, ops), op)
    decreases |ops|
  {
    hide Apply;
    var all := ops + [op];
    if ops == [] {
      assert all[0] == op && all[1..] == [];
    } else {
      assert all[0] == ops[0] && all[1..] == ops[1..] + [op];
      RunSnoc(Apply(s, ops[0]), ops[1..], op);
    }
  }

  /** After any run, the value under a key is determined by the list and the shells that
      were set: the last listed container that touches the key, with the shell last set
      under that very key since the container came. */
  lemma {:induction false} RunValueExactly(ops: seq<Op>, key: string)
    ensures Exactly(Run(NEW, ops), key, ShellSet(ops, key))
  {
    hide Apply;
    hide ShellSet;
    if ops == [] {
      NothingYet(key);
    } else {
      var before, op := ops[..|ops| - 1], ops[|ops| - 1];
      assert before + [op] == ops;
      RunValueExactly(before, key);
      RunSnoc(NEW, before, op);
      ApplyExactly(Run(NEW, before), before, op, key);
    }
  }

  lemma NothingYet(key: string)
    ensures Exactly(Run(NEW, []), key, ShellSet([], key))
  {
  }

  /** So map and list agree in full on a key of a listed container if and only if no shell
      was set under that key since the container came, or just the one it has. */
  lemma AgreesInFullExactly(ops: seq<Op>, key: string)
    ensures var s := Run(NEW, ops);
            var last := LastTouching(s.cs, key);
            && (key in s.m <==> last.Some?)
            && (last.Some? ==> (s.m[key] == last.value <==> ShellSet(ops, key) in {None, Some(last.value.shell)}))
  {
    hide Run;
    hide ShellSet;
    hide LastTouching;
    RunValueExactly(ops, key);
  }

  // ----- the list -----

  /** The containers with an ID that were appended, in order. */
  function AppendedBy(ops: seq<Op>): seq<Container> {
    if ops == [] then []
    else (if ops[0].Append? && ops[0].c.id != "" then [ops[0].c] else []) + AppendedBy(ops[1..])
  }

  /** After a `Set`, until the next one, the list is what was set and then what was appended. */
  lemma ListedInOrder(s: Index, cs: seq<Container>, ops: seq<Op>)
    requires forall op <- ops :: !op.Set?
    ensures Run(s, [Set(cs)] + ops).cs == cs + AppendedBy(ops)
  {
    hide PutAll;
    assert ([Set(cs)] + ops)[1..] == ops;
    AppendsInOrder(Apply(s, Set(cs)), ops);
  }

  lemma {:induction false} AppendsInOrder(s: Index, ops: seq<Op>)
    requires forall op <- ops :: !op.Set?
    ensures Run(s, ops).cs == s.cs + AppendedBy(ops)
    decreases |ops|
  {
    hide Put;
    if ops == [] {
      assert s.cs + [] == s.cs;
    } else {
      var added := if ops[0].Append? && ops[0].c.id != "" then [ops[0].c] else [];
      assert ops[0] in ops && Apply(s, ops[0]).cs == s.cs + added;
      AppendsInOrder(Apply(s, ops[0]), ops[1..]);
      assert s.cs + added + AppendedBy(ops[1..]) == s.cs + (added + AppendedBy(ops[1..]));
    }
  }

  lemma {:induction false} PutAllSize(cs: seq<Container>)
    ensures |PutAll(map[], cs)| <= 2 * |cs|
  {
    if cs != [] {
      PutAllSize(cs[..|cs| - 1]);
      PutSize(PutAll(map[], cs[..|cs| - 1]), cs[|cs| - 1]);
    }
  }

  lemma PutSize(m: map<string, Container>, c: Container)
    ensures |Put(m, c)| <= |m| + 2
  {
    var withId := m[c.id := c];
    assert withId.Keys == m.Keys + {c.id} && |withId.Keys| <= |m.Keys| + 1;
    assert |c.id| >= SHORT ==> Put(m, c).Keys == withId.Keys + {c.id[..SHORT]};
  }

  lemma ApplyKeepsSize(s: Index, op: Op)
    requires |s.m| <= 2 * |s.cs|
    ensures var end := Apply(s, op); |end.m| <= 2 * |end.cs|
  {
    hide Put;
    match op
    case Set(cs) => PutAllSize(cs);
    case Append(c) => PutSize(s.m, c);
    case SetShell(cid, shell) => if cid in s.m { assert Apply(s, op).m.Keys == s.m.Keys; }
    case Find(_) =>
  }

  lemma {:induction false} RunKeepsSize(s: Index, ops: seq<Op>)
    requires |s.m| <= 2 * |s.cs|
    ensures var end := Run(s, ops); |end.m| <= 2 * |end.cs|
    decreases |ops|
  {
    if ops != [] {
      ApplyKeepsSize(s, ops[0]);
      RunKeepsSize(Apply(s, ops[0]), ops[1..]);
    }
  }

  /** What the length of the index says: over any run it is zero exactly when nothing is
      listed, and no listed container accounts for more than two of it. */
  lemma LenZeroExactlyWhenUnlisted(ops: seq<Op>)
    ensures var s := Run(NEW, ops);
            (|s.m| == 0 <==> s.cs == []) && |s.m| <= 2 * |s.cs|
  {
    var s := Run(NEW, ops);
    RunKeepsSize(NEW, ops);
    if s.cs != [] {
      var key := s.cs[0].id;
      RunFromNew(ops, key);
      assert Touches(s.cs[0], key) && key in s.m;
    }
  }

  /** Why the agreement is only up to the shell: setting the shell under a full ID
      leaves the same container without it under its prefix. */
  lemma SetShellReachesOneKey(s: Index, c: Container, shell: string)
    requires |c.id| > SHORT && shell != c.shell
    ensures var m := Apply(Apply(s, Append(c)), SetShell(c.id, shell)).m;
            && c.id in m && m[c.id] == c.(shell := shell)
            && c.id[..SHORT] in m && m[c.id[..SHORT]] == c
  {
    assert |c.id[..SHORT]| != |c.id|;
  }

  // ----- the object -----

  /** The loop of `Find`, in any order of the keys: how many have the prefix, and the
      value under the last one met. */
  method CountMatches(m: map<string, Container>, cid: string) returns (l: nat, rC: Container, ghost last: string)
    ensures l == |Matching(m, cid)|
    ensures l > 0 ==> last in Matching(m, cid) && rC == m[last]
  {
    l, rC, last := 0, EMPTY, "";
    var rest := m.Keys;
    ghost var matched: set<string> := {};
    while rest != {}
      invariant rest <= m.Keys && matched !! rest
      invariant forall key <- m.Keys :: key in matched <==> cid <= key && key !in rest
      invariant matched <= m.Keys && l == |matched|
      invariant l > 0 ==> last in matched && rC == m[last]
      decreases rest
    {
      var id :| id in rest;
      rest := rest - {id};
      if cid <= id {
        l := l + 1;
        rC := m[id];
        matched, last := matched + {id}, id;
      }
    }
    assert matched == Matching(m, cid);
  }

  class Containers {
    var c: map<string, Container>
    var cs: seq<Container>

    function View(): Index
      reads this
    {
      Index(c, cs)
    }

    constructor ()
      ensures View() == NEW
    {
      c, cs := map[], [];
    }

    method List() returns (r: seq<Container>)
      ensures r == cs
    {
      r := cs;
    }

    method Len() returns (n: nat)
      ensures n == |c|
    {
      n := |c|;
    }

    method Set(containers: seq<Container>)
      modifies this
      ensures View() == Apply(old(View()), Op.Set(containers))
    {
      var mapContainers: map<string, Container> := map[];
      for i := 0 to |containers|
        invariant mapContainers == PutAll(map[], containers[..i])
      {
        var ctr := containers[i];
        assert containers[..i + 1][..i] == containers[..i];
        mapContainers := mapContainers[ctr.id := ctr];
        if |ctr.id| >= SHORT {
          mapContainers := mapContainers[ctr.id[..SHORT] := ctr];
        }
      }
      assert containers[..|containers|] == containers;
      c := mapContainers;
      cs := containers;
    }

    method Append(ctr: Container)
      modifies this
      ensures View() == Apply(old(View()), Op.Append(ctr))
    {
      if ctr.id == "" {
        return;
      }
      c := c[ctr.id := ctr];
      if |ctr.id| >= SHORT {
        c := c[ctr.id[..SHORT] := ctr];
      }
      cs := cs + [ctr];
    }

    method Find(cid: string) returns (r: Container)
      ensures r == FindSpec(c, cid)
    {
      if cid in c {
        return c[cid];
      }
      var l, rC, last := CountMatches(c, cid);
      UniqueMatch(c, cid, last);
      if l == 1 {
        return rC;
      }
      return EMPTY;
    }

    method SetShell(cid: string, shell: string)
      modifies this
      ensures View() == Apply(old(View()), Op.SetShell(cid, shell))
    {
      if cid in c {
        var ctr := c[cid].(shell := shell);
        c := c[cid := ctr];
      }
    }
  }
}
