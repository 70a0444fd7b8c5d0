/** `Find` against a plain search of the list, for every query: when the two agree,
    and that they do for every query longer than the 12-character prefix. */
module FindRefinement {
  import opened Bytes
  import opened ContainerIndex

  ghost predicate DistinctIds(cs: seq<Container>) {
    forall i, j | 0 <= i < j < |cs| :: cs[i].id != cs[j].id
  }

  /** The listed containers whose ID starts with `cid`, in list order. */
  function WithPrefix(cs: seq<Container>, cid: string): (r: seq<Container>)
    ensures forall c :: c in r <==> c in cs && cid <= c.id
  {
    if cs == [] then []
    else
      var init, last := cs[..|cs| - 1], cs[|cs| - 1];
      assert forall c :: c in cs <==> c in init || c == last;
      if cid <= last.id then WithPrefix(init, cid) + [last] else WithPrefix(init, cid)
  }

  function WithId(cs: seq<Container>, cid: string): (r: Option<Container>)
    ensures r.Some? ==> r.value in cs && r.value.id == cid
    ensures r == None ==> forall c <- cs :: c.id != cid
  {
    if cs == [] then None
    else if cs[|cs| - 1].id == cid then Some(cs[|cs| - 1])
    else
      assert forall c <- cs :: c in cs[..|cs| - 1] || c == cs[|cs| - 1];
      WithId(cs[..|cs| - 1], cid)
  }

  /** The container with the ID, else the only one with the prefix, else none. */
  function ListSearch(cs: seq<Container>, cid: string): Container {
    match WithId(cs, cid)
    case Some(c) => c
    case None => if |WithPrefix(cs, cid)| == 1 then WithPrefix(cs, cid)[0] else EMPTY
  }

  /** When the index finds what the list search does. A shorter query must not single
      out a container known by two keys; a query of exactly twelve characters is a key
      by itself and yields the last container with that prefix. */
  predicate FindIsListSearch(cs: seq<Container>, cid: string) {
    var w := WithPrefix(cs, cid);
    if |cid| > SHORT then true
    else if |cid| == SHORT then |w| <= 1 || w[|w| - 1].id == cid
    else WithId(cs, cid).Some? || |w| != 1 || |w[0].id| <= SHORT
  }

  // ----- facts about distinct lists -----

  lemma SameId(cs: seq<Container>, c: Container, d: Container)
    requires DistinctIds(cs) && c in cs && d in cs && c.id == d.id
    ensures c == d
  {
    var i :| 0 <= i < |cs| && cs[i] == c;
    var j :| 0 <= j < |cs| && cs[j] == d;
    assert i == j;
  }

  lemma {:induction false} PrefixesDistinct(cs: seq<Container>, cid: string)
    requires DistinctIds(cs)
    ensures DistinctIds(WithPrefix(cs, cid))
  {
    if cs != [] {
      var init, last := cs[..|cs| - 1], cs[|cs| - 1];
      PrefixesDistinct(init, cid);
      forall c | c in init ensures c.id != last.id {
        var i :| 0 <= i < |init| && init[i] == c;
        assert cs[i] == c;
      }
    }
  }

  lemma OnlyOne(cs: seq<Container>, cid: string, c: Container)
    requires DistinctIds(cs) && |WithPrefix(cs, cid)| == 1 && c in cs && cid <= c.id
    ensures WithPrefix(cs, cid) == [c]
  {
    assert c in WithPrefix(cs, cid);
  }

  /** Keys of the map are exactly the IDs and prefixes of listed containers. */
  lemma KeyIsTouched(s: Index, key: string)
    requires Inv(s)
    ensures key in s.m <==> exists c :: c in s.cs && Touches(c, key)
  {
    assert Agrees(s, key);
  }

  lemma IdIsKey(s: Index, c: Container)
    requires Inv(s) && c in s.cs
    ensures c.id in s.m && (|c.id| >= SHORT ==> c.id[..SHORT] in s.m)
  {
    assert Touches(c, c.id);
    KeyIsTouched(s, c.id);
    if |c.id| >= SHORT {
      assert Touches(c, c.id[..SHORT]);
      KeyIsTouched(s, c.id[..SHORT]);
    }
  }

  /** The value under a key that only `c` touches is `c`. */
  lemma OnlyTouching(s: Index, key: string, c: Container)
    requires Inv(s) && c in s.cs && Touches(c, key)
    requires forall d <- s.cs :: Touches(d, key) ==> d == c
    ensures key in s.m && SameButShell(s.m[key], c)
  {
    assert Agrees(s, key);
  }

  lemma TwoMatches(m: map<string, Container>, cid: string, key1: string, key2: string)
    requires cid !in m && key1 != key2 && key1 in Matching(m, cid) && key2 in Matching(m, cid)
    ensures FindSpec(m, cid) == EMPTY
  {
    forall key ensures Matching(m, cid) != {key} {
      assert key1 != key || key2 != key;
    }
  }

  lemma OneMatch(s: Index, cid: string, c: Container)
    requires Inv(s) && cid !in s.m && Matching(s.m, cid) == {c.id} && c in s.cs
    requires forall d <- s.cs :: Touches(d, c.id) ==> d == c
    ensures SameButShell(FindSpec(s.m, cid), c)
  {
    OnlyTouching(s, c.id, c);
    assert c.id in Matching(s.m, cid);
    UniqueMatch(s.m, cid, c.id);
  }

  lemma NoMatch(s: Index, cid: string)
    requires Inv(s) && cid !in s.m && WithPrefix(s.cs, cid) == []
    ensures FindSpec(s.m, cid) == EMPTY
  {
    forall key | key in s.m ensures !(cid <= key) {
      KeyIsTouched(s, key);
      var c :| c in s.cs && Touches(c, key);
      assert c !in WithPrefix(s.cs, cid);
    }
    assert Matching(s.m, cid) == {};
  }

  lemma ManyMatch(s: Index, cid: string)
    requires Inv(s) && DistinctIds(s.cs) && cid !in s.m && |WithPrefix(s.cs, cid)| > 1
    ensures FindSpec(s.m, cid) == EMPTY
  {
    var w := WithPrefix(s.cs, cid);
    PrefixesDistinct(s.cs, cid);
    assert w[0] in w && w[1] in w;
    IdIsKey(s, w[0]);
    IdIsKey(s, w[1]);
    TwoMatches(s.m, cid, w[0].id, w[1].id);
  }

  // ----- the three kinds of query -----

  lemma LongQuery(s: Index, cid: string)
    requires Inv(s) && DistinctIds(s.cs) && |cid| > SHORT
    ensures SameButShell(FindSpec(s.m, cid), ListSearch(s.cs, cid))
  {
    var w := WithPrefix(s.cs, cid);
    KeyIsTouched(s, cid);
    if cid in s.m {
      var c := WithId(s.cs, cid).value;
      forall d | d in s.cs && Touches(d, cid) ensures d == c {
        SameId(s.cs, c, d);
      }
      OnlyTouching(s, cid, c);
    } else if w == [] {
      NoMatch(s, cid);
    } else if |w| > 1 {
      ManyMatch(s, cid);
    } else {
      var c := w[0];
      assert c in w;
      IdIsKey(s, c);
      forall key | key in Matching(s.m, cid) ensures key == c.id {
        KeyIsTouched(s, key);
        var d :| d in s.cs && Touches(d, key);
        assert d.id == key;
        OnlyOne(s.cs, cid, d);
      }
      assert Matching(s.m, cid) == {c.id};
      forall d | d in s.cs && Touches(d, c.id) ensures d == c {
        OnlyOne(s.cs, cid, d);
      }
      OneMatch(s, cid, c);
    }
  }

  lemma {:induction false} LastWithShortPrefix(cs: seq<Container>, cid: string)
    requires |cid| == SHORT
    ensures var w := WithPrefix(cs, cid);
            LastTouching(cs, cid) == if w == [] then None else Some(w[|w| - 1])
  {
    if cs != [] {
      var init, last := cs[..|cs| - 1], cs[|cs| - 1];
      LastWithShortPrefix(init, cid);
      assert Touches(last, cid) <==> cid <= last.id;
    }
  }

  /** A query of twelve characters finds the last container with that prefix. */
  lemma KeyLengthFind(s: Index, cid: string)
    requires Inv(s) && |cid| == SHORT
    ensures var w := WithPrefix(s.cs, cid);
            if w == [] then FindSpec(s.m, cid) == EMPTY else SameButShell(FindSpec(s.m, cid), w[|w| - 1])
  {
    assert Agrees(s, cid);
    LastWithShortPrefix(s.cs, cid);
    if WithPrefix(s.cs, cid) == [] {
      NoMatch(s, cid);
    }
  }

  lemma KeyLengthQuery(s: Index, cid: string)
    requires Inv(s) && DistinctIds(s.cs) && |cid| == SHORT
    ensures SameButShell(FindSpec(s.m, cid), ListSearch(s.cs, cid)) <==> FindIsListSearch(s.cs, cid)
  {
    var w := WithPrefix(s.cs, cid);
    var exact := WithId(s.cs, cid);
    var found := FindSpec(s.m, cid);
    KeyLengthFind(s, cid);
    if exact.Some? {
      assert exact.value in w;
      var last := w[|w| - 1];
      assert last in w;
      if last.id == cid {
        SameId(s.cs, last, exact.value);
      } else {
        assert found.id == last.id;
      }
    } else if w != [] {
      assert w[|w| - 1] in w;
      assert found.id == w[|w| - 1].id;
    }
  }

  lemma ShortQuery(s: Index, cid: string)
    requires Inv(s) && DistinctIds(s.cs) && |cid| < SHORT
    ensures SameButShell(FindSpec(s.m, cid), ListSearch(s.cs, cid)) <==> FindIsListSearch(s.cs, cid)
  {
    var w := WithPrefix(s.cs, cid);
    KeyIsTouched(s, cid);
    if WithId(s.cs, cid).Some? {
      var c := WithId(s.cs, cid).value;
      assert Touches(c, cid);
      forall d | d in s.cs && Touches(d, cid) ensures d == c {
        SameId(s.cs, c, d);
      }
      OnlyTouching(s, cid, c);
    } else if w == [] {
      NoMatch(s, cid);
    } else if |w| > 1 {
      ManyMatch(s, cid);
    } else {
      var c := w[0];
      assert c in w;
      IdIsKey(s, c);
      if |c.id| > SHORT {
        assert cid <= c.id[..SHORT];
        TwoMatches(s.m, cid, c.id, c.id[..SHORT]);
      } else {
        forall d, key | d in s.cs && Touches(d, key) && cid <= key ensures d == c && key == c.id {
          OnlyOne(s.cs, cid, d);
        }
        forall key | key in Matching(s.m, cid) ensures key == c.id {
          KeyIsTouched(s, key);
        }
        assert Matching(s.m, cid) == {c.id};
        OneMatch(s, cid, c);
      }
    }
  }

  /** For every query, over any list of containers with distinct IDs: `Find` returns,
      up to the shell, what a search of the list returns if and only if the condition
      holds; it holds for every query longer than twelve characters. */
  lemma FindRefinesListSearch(s: Index, cid: string)
    requires Inv(s) && DistinctIds(s.cs)
    ensures SameButShell(FindSpec(s.m, cid), ListSearch(s.cs, cid)) <==> FindIsListSearch(s.cs, cid)
    ensures |cid| > SHORT ==> SameButShell(FindSpec(s.m, cid), ListSearch(s.cs, cid))
  {
    if |cid| > SHORT {
      LongQuery(s, cid);
    } else if |cid| == SHORT {
      KeyLengthQuery(s, cid);
    } else {
      ShortQuery(s, cid);
    }
  }

  /** The failing family: a query shorter than twelve characters never finds the only
      container with that prefix when its ID is a full one. */
  lemma ShortPrefixIsNeverUnique(s: Index, cid: string, c: Container)
    requires Inv(s) && DistinctIds(s.cs)
    requires |cid| < SHORT < |c.id| && WithPrefix(s.cs, cid) == [c]
    ensures FindSpec(s.m, cid) == EMPTY && ListSearch(s.cs, cid) == c
  {
    assert c in WithPrefix(s.cs, cid);
    if WithId(s.cs, cid).Some? {
      assert WithId(s.cs, cid).value in WithPrefix(s.cs, cid);
    }
    KeyIsTouched(s, cid);
    IdIsKey(s, c);
    TwoMatches(s.m, cid, c.id, c.id[..SHORT]);
  }

  // ----- over whole runs, the shell included -----

  /** Whether the list search finds a container. */
  predicate Singled(cs: seq<Container>, cid: string) {
    WithId(cs, cid).Some? || |WithPrefix(cs, cid)| == 1
  }

  lemma SearchFinds(cs: seq<Container>, cid: string)
    ensures var c := ListSearch(cs, cid); if Singled(cs, cid) then c in cs && cid <= c.id else c == EMPTY
  {
    if WithPrefix(cs, cid) != [] {
      assert WithPrefix(cs, cid)[0] in WithPrefix(cs, cid);
    }
  }

  /** The key `Find` takes the value from: the query when it is as long as a prefix, else
      the ID of the container. */
  function FoundKey(cid: string, c: Container): string {
    if |cid| == SHORT then cid else c.id
  }

  /** A key that is the only one to match a query is an ID. */
  lemma OnlyMatchIsId(s: Index, cid: string, key: string)
    requires Inv(s) && cid !in s.m && Matching(s.m, cid) == {key}
    ensures key in s.m && s.m[key].id == key && cid <= key
  {
    assert key in Matching(s.m, cid);
    assert Agrees(s, key);
    var c := LastTouching(s.cs, key).value;
    IdIsKey(s, c);
    assert cid <= c.id;
    assert c.id in Matching(s.m, cid);
  }

  lemma FindTakesFrom(s: Index, cid: string)
    requires Inv(s) && DistinctIds(s.cs) && FindIsListSearch(s.cs, cid)
    ensures var c := ListSearch(s.cs, cid);
            if Singled(s.cs, cid) then
              FoundKey(cid, c) in s.m && FindSpec(s.m, cid) == s.m[FoundKey(cid, c)]
            else FindSpec(s.m, cid) == EMPTY
  {
    var c := ListSearch(s.cs, cid);
    FindRefinesListSearch(s, cid);
    SearchFinds(s.cs, cid);
    KeyIsTouched(s, cid);
    if cid in s.m {
      var d :| d in s.cs && Touches(d, cid);
      assert d in WithPrefix(s.cs, cid);
    } else if exists key :: Matching(s.m, cid) == {key} {
      var key :| Matching(s.m, cid) == {key};
      OnlyMatchIsId(s, cid, key);
      UniqueMatch(s.m, cid, key);
      OnlyMatchIsSingled(s, cid, key);
    } else if Singled(s.cs, cid) {
      IdIsKey(s, c);
    }
  }

  lemma OnlyMatchIsSingled(s: Index, cid: string, key: string)
    requires Inv(s) && DistinctIds(s.cs) && cid !in s.m && Matching(s.m, cid) == {key}
    ensures Singled(s.cs, cid)
  {
    OnlyMatchIsId(s, cid, key);
    assert Agrees(s, key);
    var c := LastTouching(s.cs, key).value;
    assert c in WithPrefix(s.cs, cid);
    if |WithPrefix(s.cs, cid)| > 1 {
      ManyMatch(s, cid);
      UniqueMatch(s.m, cid, key);
    }
  }

  lemma AdmittedAfterRun(ops: seq<Op>, cid: string)
    requires var cs := Run(NEW, ops).cs; DistinctIds(cs) && FindIsListSearch(cs, cid)
    ensures var s := Run(NEW, ops);
            var c := ListSearch(s.cs, cid);
            FindSpec(s.m, cid)
            == if Singled(s.cs, cid) then WithShell(c, ShellSet(ops, FoundKey(cid, c))) else EMPTY
  {
    hide Run;
    hide ShellSet;
    hide ListSearch;
    hide FindSpec;
    hide FindIsListSearch;
    var s := Run(NEW, ops);
    RunKeepsInv(NEW, ops);
    FindTakesFrom(s, cid);
    SearchFinds(s.cs, cid);
    if Singled(s.cs, cid) {
      var c := ListSearch(s.cs, cid);
      var key := FoundKey(cid, c);
      RunValueExactly(ops, key);
      FindRefinesListSearch(s, cid);
      SameId(s.cs, c, LastTouching(s.cs, key).value);
    }
  }

  // ----- every query -----

  /** A query shorter than a prefix that starts the ID of one container only, and that a
      full one: it matches two keys. */
  predicate Doubled(cs: seq<Container>, cid: string) {
    |cid| < SHORT && WithId(cs, cid) == None && |WithPrefix(cs, cid)| == 1 && |WithPrefix(cs, cid)[0].id| > SHORT
  }

  /** Whether a query finds a container: a query as long as a prefix one that has it, any
      other the one the list search finds, unless it is doubled. */
  predicate Hits(cs: seq<Container>, cid: string) {
    if |cid| == SHORT then WithPrefix(cs, cid) != [] else Singled(cs, cid) && !Doubled(cs, cid)
  }

  /** Which: a query as long as a prefix the last one that has it. */
  function Found(cs: seq<Container>, cid: string): Container {
    var w := WithPrefix(cs, cid);
    if !Hits(cs, cid) then EMPTY else if |cid| == SHORT then w[|w| - 1] else ListSearch(cs, cid)
  }

  lemma HitIsListed(cs: seq<Container>, cid: string)
    ensures Hits(cs, cid) ==> Found(cs, cid) in cs && cid <= Found(cs, cid).id
  {
    SearchFinds(cs, cid);
    var w := WithPrefix(cs, cid);
    if w != [] {
      assert w[|w| - 1] in w;
    }
  }

  /** Over any list with distinct IDs, every query finds what `Found` says, up to the shell. */
  lemma FindFindsExactly(s: Index, cid: string)
    requires Inv(s) && DistinctIds(s.cs)
    ensures SameButShell(FindSpec(s.m, cid), Found(s.cs, cid))
    ensures !Hits(s.cs, cid) ==> FindSpec(s.m, cid) == EMPTY
  {
    if |cid| == SHORT {
      KeyLengthFind(s, cid);
    } else if Doubled(s.cs, cid) {
      var w := WithPrefix(s.cs, cid);
      assert w == [w[0]];
      ShortPrefixIsNeverUnique(s, cid, w[0]);
    } else {
      FindRefinesListSearch(s, cid);
      SearchFinds(s.cs, cid);
      FindTakesFrom(s, cid);
    }
  }

  /** After any run that leaves distinct IDs, for every query: `Find` returns exactly the
      container that `Found` says, with the shell last set under the key it was found by, or
      the empty container. */
  lemma FindAfterRun(ops: seq<Op>, cid: string)
    requires DistinctIds(Run(NEW, ops).cs)
    ensures var s := Run(NEW, ops);
            var c := Found(s.cs, cid);
            FindSpec(s.m, cid)
            == if Hits(s.cs, cid) then WithShell(c, ShellSet(ops, FoundKey(cid, c))) else EMPTY
  {
    hide Run;
    hide ShellSet;
    hide FindSpec;
    var s := Run(NEW, ops);
    RunKeepsInv(NEW, ops);
    if |cid| == SHORT {
      PrefixAfterRun(ops, cid);
    } else if Doubled(s.cs, cid) {
      FindFindsExactly(s, cid);
    } else {
      hide ListSearch;
      hide Singled;
      AdmittedAfterRun(ops, cid);
    }
  }

  lemma PrefixAfterRun(ops: seq<Op>, cid: string)
    requires |cid| == SHORT
    ensures var s := Run(NEW, ops);
            var w := WithPrefix(s.cs, cid);
            FindSpec(s.m, cid) == if w == [] then EMPTY else WithShell(w[|w| - 1], ShellSet(ops, cid))
  {
    hide Run;
    hide ShellSet;
    var s := Run(NEW, ops);
    RunKeepsInv(NEW, ops);
    RunValueExactly(ops, cid);
    LastWithShortPrefix(s.cs, cid);
    if WithPrefix(s.cs, cid) == [] {
      NoMatch(s, cid);
    }
  }
}
