/** pkg/compose/order.go: the service start order of a compose project.
    The YAML decoding is the library's job; the model starts from the decoded
    file (or from the fact that decoding failed). */
module Order {
  import opened Wrappers
  import opened Lex

  /** A service's `depends_on` keys, per service name. */
  type Graph = map<string, set<string>>

  /** The fields of a compose file the resolver reads. */
  datatype ComposeFile = ComposeFile(name: string, services: Graph)

  /** ParseProjectName: the top-level `name`, or "" when the file does not decode. */
  function ParseProjectName(doc: Option<ComposeFile>): (r: string)
    ensures doc.None? ==> r == ""
    ensures doc.Some? ==> r == doc.value.name
  {
    match doc
    case None => ""
    case Some(cf) => cf.name
  }

  /** The services waiting on `d`: adjacency lists start out empty. */
  function Adj(adj: map<string, seq<string>>, d: string): seq<string> {
    if d in adj then adj[d] else []
  }

  /** Declared services, not started yet, whose every dependency has started. */
  ghost function Ready(g: Graph, done: seq<string>): set<string> {
    set n | n in g && n !in done && g[n] <= Elements(done)
  }

  /** Every service in `s` is declared and comes after all of its dependencies. */
  ghost predicate DepOrdered(g: Graph, s: seq<string>) {
    forall i :: 0 <= i < |s| ==> s[i] in g && g[s[i]] <= Elements(s[..i])
  }

  /** Kahn's algorithm from the started prefix `done`, always starting the
      least ready service next; it stops when nothing is ready. */
  ghost function KahnFrom(g: Graph, done: seq<string>): seq<string>
    requires Elements(done) <= g.Keys
    decreases g.Keys - Elements(done)
  {
    var R := Ready(g, done);
    if R == {} then done
    else
      var m := Least(R);
      assert Elements(done + [m]) == Elements(done) + {m};
      KahnFrom(g, done + [m])
  }

  /** What OrderFromComposeYAML returns for a decoded file: Kahn's order when it
      covers every service, else all service names in ascending order. */
  ghost function StartOrder(g: Graph): seq<string> {
    var k := KahnFrom(g, []);
    if |k| == |g.Keys| then k else Ascending(g.Keys)
  }

  /** Some ordering of all services starts each after its dependencies. */
  ghost predicate Schedulable(g: Graph) {
    exists p :: Distinct(p) && Elements(p) == g.Keys && DepOrdered(g, p)
  }

  ghost predicate AdjacencyOf(g: Graph, adj: map<string, seq<string>>) {
    && (forall d, n :: n in Adj(adj, d) <==> n in g && d in g[n])
    && (forall d :: Distinct(Adj(adj, d)))
  }

  ghost predicate InDegrees(g: Graph, indeg: map<string, int>, done: set<string>) {
    indeg.Keys == g.Keys && forall n {:trigger indeg[n]} :: n in g ==> indeg[n] == |g[n] - done|
  }

  /** OrderFromComposeYAML. `names` comes from map iteration, so its order is
      whatever the iteration gives; `order` is fully determined by the graph. */
  method OrderFromComposeYAML(doc: Option<ComposeFile>) returns (order: seq<string>, names: seq<string>)
    ensures doc.None? ==> order == [] && names == []
    ensures doc.Some? ==> Distinct(names) && Elements(names) == doc.value.services.Keys
    ensures doc.Some? ==> order == StartOrder(doc.value.services)
  {
    if doc.None? {
      return [], [];
    }
    var g := doc.value.services;
    names := ServiceNames(g);
    var adj, indeg := BuildGraph(g);
    var q := ZeroInDegree(g, indeg);
    SortedSeed(g, indeg, q);
    q := Sort(q);
    order := Drain(g, adj, indeg, q);
    if |order| != |names| {
      order := Sort(names);
    }
    DistinctCard(names);
    SortEnumeration(names, g.Keys);
  }

  /** The service names, in map iteration order. */
  method ServiceNames(g: Graph) returns (names: seq<string>)
    ensures Distinct(names) && Elements(names) == g.Keys
  {
    names := [];
    var rest := g.Keys;
    while rest != {}
      invariant Distinct(names) && Elements(names) + rest == g.Keys && Elements(names) !! rest
      decreases rest
    {
      var n :| n in rest;
      names := names + [n];
      rest := rest - {n};
    }
  }

  /** Adjacency lists (who waits on whom) and in-degrees (how many
      dependencies each service has). */
  method BuildGraph(g: Graph) returns (adj: map<string, seq<string>>, indeg: map<string, int>)
    ensures AdjacencyOf(g, adj) && InDegrees(g, indeg, {})
  {
    adj := map[];
    indeg := InitInDegrees(g);
    var todo := g.Keys;
    ghost var seen: set<string> := {};
    NothingBuilt(g, indeg);
    while todo != {}
      invariant todo + seen == g.Keys && todo !! seen
      invariant Built(g, seen, adj, indeg)
      decreases todo
    {
      var n :| n in todo;
      adj, indeg := AddDependencies(g, n, adj, indeg, seen);
      seen := seen + {n};
      todo := todo - {n};
    }
    AllBuilt(g, adj, indeg);
  }

  /** The adjacency lists and in-degrees once the services in `seen` have
      had their dependencies recorded. */
  ghost predicate Built(g: Graph, seen: set<string>, adj: map<string, seq<string>>, indeg: map<string, int>) {
    && seen <= g.Keys && indeg.Keys == g.Keys
    && (forall n {:trigger indeg[n]} :: n in g ==> indeg[n] == if n in seen then |g[n]| else 0)
    && (forall d, n {:trigger n in Adj(adj, d)} :: n in Adj(adj, d) <==> n in seen && d in g[n])
    && (forall d :: Distinct(Adj(adj, d)))
  }

  lemma NothingBuilt(g: Graph, indeg: map<string, int>)
    requires indeg.Keys == g.Keys && forall n :: n in indeg ==> indeg[n] == 0
    ensures Built(g, {}, map[], indeg)
  {
    forall d ensures Adj(map[], d) == [] { }
  }

  lemma AllBuilt(g: Graph, adj: map<string, seq<string>>, indeg: map<string, int>)
    requires Built(g, g.Keys, adj, indeg)
    ensures AdjacencyOf(g, adj) && InDegrees(g, indeg, {})
  {
    forall n | n in g ensures indeg[n] == |g[n] - {}| {
      assert g[n] - {} == g[n];
    }
  }

  /** Every declared service starts with in-degree zero. */
  method InitInDegrees(g: Graph) returns (indeg: map<string, int>)
    ensures indeg.Keys == g.Keys && forall n :: n in indeg ==> indeg[n] == 0
  {
    indeg := map[];
    var rest := g.Keys;
    while rest != {}
      invariant rest <= g.Keys
      invariant indeg.Keys == g.Keys - rest && forall n :: n in indeg ==> indeg[n] == 0
      decreases rest
    {
      var n :| n in rest;
      indeg := indeg[n := 0];
      rest := rest - {n};
    }
  }

  /** Records the dependencies of service `n`: `n` joins the waiting list of
      each of them, and its in-degree counts them. */
  method AddDependencies(g: Graph, n: string, adj0: map<string, seq<string>>, indeg0: map<string, int>, ghost seen: set<string>)
    returns (adj: map<string, seq<string>>, indeg: map<string, int>)
    requires n in g && n !in seen && Built(g, seen, adj0, indeg0)
    ensures Built(g, seen + {n}, adj, indeg)
  {
    adj, indeg := adj0, indeg0;
    var deps := g[n];
    AddBegin(g, n, seen, adj, indeg);
    while deps != {}
      invariant Adding(g, n, seen, deps, adj, indeg0, indeg)
      decreases deps
    {
      var dep :| dep in deps;
      AddStep(g, n, seen, deps, adj, indeg0, indeg, dep);
      adj := adj[dep := Adj(adj, dep) + [n]];
      indeg := indeg[n := indeg[n] + 1];
      deps := deps - {dep};
    }
    AddEnd(g, n, seen, adj0, adj, indeg0, indeg);
  }

  /** The invariant of AddDependencies' loop: the dependencies of `n` outside
      `deps` have been recorded. */
  ghost predicate Adding(g: Graph, n: string, seen: set<string>, deps: set<string>,
                         adj: map<string, seq<string>>, indeg0: map<string, int>, indeg: map<string, int>) {
    && n in g && n !in seen && seen <= g.Keys && deps <= g[n]
    && indeg.Keys == g.Keys && indeg[n] == |g[n] - deps|
    && (forall m {:trigger indeg[m]} :: m in g && m != n ==> m in indeg0 && indeg[m] == indeg0[m])
    && (forall d, m {:trigger m in Adj(adj, d)} :: m in Adj(adj, d) <==> (m in seen && d in g[m]) || (m == n && d in g[n] - deps))
    && (forall d :: Distinct(Adj(adj, d)))
  }

  lemma AddBegin(g: Graph, n: string, seen: set<string>, adj: map<string, seq<string>>, indeg: map<string, int>)
    requires n in g && n !in seen && Built(g, seen, adj, indeg)
    ensures Adding(g, n, seen, g[n], adj, indeg, indeg)
  {
    assert g[n] - g[n] == {};
  }

  lemma AddStep(g: Graph, n: string, seen: set<string>, deps: set<string>,
                adj: map<string, seq<string>>, indeg0: map<string, int>, indeg: map<string, int>, dep: string)
    requires Adding(g, n, seen, deps, adj, indeg0, indeg) && dep in deps
    ensures Adding(g, n, seen, deps - {dep}, adj[dep := Adj(adj, dep) + [n]], indeg0, indeg[n := indeg[n] + 1])
  {
    assert n !in Adj(adj, dep);
    AppendWaiting(adj, adj[dep := Adj(adj, dep) + [n]], dep, n);
    assert g[n] - (deps - {dep}) == (g[n] - deps) + {dep};
  }

  lemma AddEnd(g: Graph, n: string, seen: set<string>, adj0: map<string, seq<string>>, adj: map<string, seq<string>>,
               indeg0: map<string, int>, indeg: map<string, int>)
    requires Built(g, seen, adj0, indeg0) && Adding(g, n, seen, {}, adj, indeg0, indeg)
    ensures Built(g, seen + {n}, adj, indeg)
  {
    assert g[n] - {} == g[n];
  }

  /** The services with in-degree zero, in map iteration order. */
  method ZeroInDegree(g: Graph, indeg: map<string, int>) returns (q: seq<string>)
    requires indeg.Keys == g.Keys
    ensures Distinct(q) && forall n :: n in q <==> n in g && indeg[n] == 0
  {
    q := [];
    var ks := indeg.Keys;
    while ks != {}
      invariant ks <= g.Keys
      invariant Distinct(q) && forall n :: n in q <==> n in g && n !in ks && indeg[n] == 0
      decreases ks
    {
      var n :| n in ks;
      if indeg[n] == 0 {
        q := q + [n];
      }
      ks := ks - {n};
    }
  }

  /** Sorting the zero in-degree services gives the ready set in ascending order. */
  lemma SortedSeed(g: Graph, indeg: map<string, int>, q: seq<string>)
    requires InDegrees(g, indeg, {})
    requires Distinct(q) && forall n :: n in q <==> n in g && indeg[n] == 0
    ensures Queued(g, [], Sort(q), indeg)
  {
    var none: seq<string> := [];
    assert Elements(none) == {};
    ReadyInitially(g, indeg);
    PermutationKeepsDistinct(q, Sort(q));
    PermutationKeepsElements(q, Sort(q));
  }

  /** The started prefix: no repeats, declared services only, each after its dependencies. */
  ghost predicate Progress(g: Graph, order: seq<string>) {
    Distinct(order) && Elements(order) <= g.Keys && DepOrdered(g, order)
  }

  /** Between iterations of the queue loop: the queue holds the ready
      services in ascending order and each in-degree counts the
      dependencies that have not started yet. */
  ghost predicate Queued(g: Graph, order: seq<string>, q: seq<string>, indeg: map<string, int>) {
    Sorted(q) && Distinct(q) && Elements(q) == Ready(g, order) && InDegrees(g, indeg, Elements(order))
  }

  /** Just after `cur` has been taken off the queue. */
  ghost predicate Popped(g: Graph, before: seq<string>, cur: string, q: seq<string>, indeg: map<string, int>) {
    && DepOrdered(g, before) && cur in Ready(g, before)
    && Sorted(q) && Distinct(q) && Elements(q) == Ready(g, before) - {cur}
    && InDegrees(g, indeg, Elements(before))
  }

  /** The invariant of the inner loop once `j` services of the waiting list
      `nbs` of `cur` have been released. */
  ghost predicate Releasing(g: Graph, before: seq<string>, cur: string, nbs: seq<string>, j: int,
                            q: seq<string>, indeg: map<string, int>) {
    && DepOrdered(g, before) && cur in Ready(g, before)
    && Distinct(nbs) && (forall k :: 0 <= k < |nbs| ==> nbs[k] in g && cur in g[nbs[k]])
    && 0 <= j <= |nbs|
    && Sorted(q) && Distinct(q)
    && indeg.Keys == g.Keys
    && (forall n {:trigger indeg[n]} :: n in g ==> indeg[n] == |g[n] - Elements(before + [cur])| + (if n in nbs[j..] then 1 else 0))
    && Elements(q) == Ready(g, before + [cur]) - Elements(nbs[j..])
  }

  /** The queue loop: start the least ready service, then release the
      services waiting on it. */
  method Drain(g: Graph, adj: map<string, seq<string>>, indeg0: map<string, int>, q0: seq<string>) returns (order: seq<string>)
    requires AdjacencyOf(g, adj) && Queued(g, [], q0, indeg0)
    ensures order == KahnFrom(g, [])
  {
    var q := q0;
    var indeg := indeg0;
    order := [];
    assert Progress(g, order);
    while |q| > 0
      invariant Progress(g, order) && Queued(g, order, q, indeg)
      invariant KahnFrom(g, order) == KahnFrom(g, [])
      decreases g.Keys - Elements(order)
    {
      var cur := q[0];
      ghost var before := order;
      StartNext(g, before, q, indeg);
      q := q[1..];
      order := order + [cur];
      q, indeg := ReleaseWaiting(g, adj, before, cur, q, indeg);
    }
    DrainEnd(g, order, indeg);
  }

  /** Starting the head of the queue: it is the least ready service, so the
      started prefix grows as KahnFrom prescribes and stays dependency-ordered. */
  lemma StartNext(g: Graph, done: seq<string>, q: seq<string>, indeg: map<string, int>)
    requires Progress(g, done) && Queued(g, done, q, indeg) && q != []
    ensures Popped(g, done, q[0], q[1..], indeg)
    ensures Progress(g, done + [q[0]])
    ensures KahnFrom(g, done + [q[0]]) == KahnFrom(g, done)
    ensures g.Keys - Elements(done + [q[0]]) < g.Keys - Elements(done)
  {
    PopHead(q);
    KahnStep(g, done, q[0]);
    ExtendProgress(g, done, q[0]);
  }

  /** Taking the head off a sorted queue leaves the rest sorted; the head is the least element. */
  lemma PopHead(q: seq<string>)
    requires Sorted(q) && Distinct(q) && q != []
    ensures Sorted(q[1..]) && Distinct(q[1..])
    ensures q[0] in Elements(q) && q[0] == Least(Elements(q))
    ensures Elements(q[1..]) == Elements(q) - {q[0]}
  {
    SortedHeadIsLeast(q);
    assert q == [q[0]] + q[1..];
    assert Elements(q) == {q[0]} + Elements(q[1..]);
    assert q[0] !in q[1..];
  }

  /** Starting a ready service keeps the started prefix dependency-ordered. */
  lemma ExtendProgress(g: Graph, done: seq<string>, cur: string)
    requires Progress(g, done) && cur in Ready(g, done)
    ensures Progress(g, done + [cur])
    ensures Elements(done + [cur]) == Elements(done) + {cur}
  {
    var after := done + [cur];
    assert Elements(after) == Elements(done) + {cur};
    assert after[..|done|] == done;
    forall i | 0 <= i < |after| ensures after[i] in g && g[after[i]] <= Elements(after[..i]) {
      if i < |done| {
        assert after[..i] == done[..i];
      }
    }
  }

  /** When the queue runs dry nothing is ready, which is where KahnFrom stops. */
  lemma DrainEnd(g: Graph, order: seq<string>, indeg: map<string, int>)
    requires Progress(g, order) && Queued(g, order, [], indeg)
    ensures KahnFrom(g, order) == order
  {
    var none: seq<string> := [];
    assert Elements(none) == {};
  }

  /** The inner loop: every service waiting on `cur` owes one dependency
      fewer, and those that owe none join the queue, which is kept sorted. */
  method ReleaseWaiting(g: Graph, adj: map<string, seq<string>>, ghost before: seq<string>, cur: string,
                        q0: seq<string>, indeg0: map<string, int>)
    returns (q: seq<string>, indeg: map<string, int>)
    requires AdjacencyOf(g, adj) && Popped(g, before, cur, q0, indeg0)
    ensures Queued(g, before + [cur], q, indeg)
  {
    q, indeg := q0, indeg0;
    var nbs := Adj(adj, cur);
    ReleaseBegin(g, adj, before, cur, q, indeg);
    var j := 0;
    while j < |nbs|
      invariant Releasing(g, before, cur, nbs, j, q, indeg)
    {
      q, indeg := ReleaseOne(g, before, cur, nbs, j, q, indeg);
      j := j + 1;
    }
    ReleaseEnd(g, before, cur, nbs, q, indeg);
  }

  /** One turn of the inner loop: `nbs[j]` owes one dependency fewer and
      joins the queue, which is re-sorted, when it owes none. */
  method ReleaseOne(g: Graph, ghost before: seq<string>, ghost cur: string, nbs: seq<string>, j: int,
                    q0: seq<string>, indeg0: map<string, int>)
    returns (q: seq<string>, indeg: map<string, int>)
    requires Releasing(g, before, cur, nbs, j, q0, indeg0) && j < |nbs|
    ensures Releasing(g, before, cur, nbs, j + 1, q, indeg)
  {
    var nb := nbs[j];
    indeg := indeg0[nb := indeg0[nb] - 1];
    q := q0;
    if indeg[nb] == 0 {
      q := Sort(q + [nb]);
    }
    ReleaseStep(g, before, cur, nbs, j, q0, indeg0, q, indeg);
  }

  lemma ReleaseBegin(g: Graph, adj: map<string, seq<string>>, before: seq<string>, cur: string,
                     q: seq<string>, indeg: map<string, int>)
    requires AdjacencyOf(g, adj) && Popped(g, before, cur, q, indeg)
    ensures Releasing(g, before, cur, Adj(adj, cur), 0, q, indeg)
  {
    DecrementBase(g, adj, indeg, before, cur);
    ReadyAfterStart(g, adj, before, cur);
    WaitingList(g, adj, cur);
    assert Adj(adj, cur)[0..] == Adj(adj, cur);
  }

  lemma ReleaseEnd(g: Graph, before: seq<string>, cur: string, nbs: seq<string>, q: seq<string>, indeg: map<string, int>)
    requires Releasing(g, before, cur, nbs, |nbs|, q, indeg)
    ensures Queued(g, before + [cur], q, indeg)
  {
    assert nbs[|nbs|..] == [];
  }

  lemma ReleaseStep(g: Graph, before: seq<string>, cur: string, nbs: seq<string>, j: int,
                    q: seq<string>, indeg: map<string, int>, q': seq<string>, indeg': map<string, int>)
    requires Releasing(g, before, cur, nbs, j, q, indeg) && j < |nbs|
    requires indeg' == indeg[nbs[j] := indeg[nbs[j]] - 1]
    requires q' == if indeg'[nbs[j]] == 0 then Sort(q + [nbs[j]]) else q
    ensures Releasing(g, before, cur, nbs, j + 1, q', indeg')
  {
    var nb := nbs[j];
    SliceStep(nbs, j);
    DecrementOne(g, Elements(before + [cur]), nbs, j, indeg);
    assert nb in g && indeg'[nb] == |g[nb] - Elements(before + [cur])|;
    QueueStep(g, before, cur, nbs, j, q, indeg'[nb] == 0);
  }

  /** Dropping the first element of a duplicate-free suffix. */
  lemma SliceStep(nbs: seq<string>, j: int)
    requires Distinct(nbs) && 0 <= j < |nbs|
    ensures nbs[j] !in nbs[j + 1..] && nbs[j] in nbs[j..]
    ensures Elements(nbs[j..]) == {nbs[j]} + Elements(nbs[j + 1..])
  {
    assert nbs[j..] == [nbs[j]] + nbs[j + 1..];
  }

  lemma DecrementOne(g: Graph, started: set<string>, nbs: seq<string>, j: int, indeg: map<string, int>)
    requires 0 <= j < |nbs| && nbs[j] in g && nbs[j] in nbs[j..] && nbs[j] !in nbs[j + 1..]
    requires indeg.Keys == g.Keys
    requires forall n {:trigger indeg[n]} :: n in g ==> indeg[n] == |g[n] - started| + (if n in nbs[j..] then 1 else 0)
    ensures var indeg' := indeg[nbs[j] := indeg[nbs[j]] - 1];
      && indeg'.Keys == g.Keys
      && forall n {:trigger indeg'[n]} :: n in g ==> indeg'[n] == |g[n] - started| + (if n in nbs[j + 1..] then 1 else 0)
  {
    var indeg' := indeg[nbs[j] := indeg[nbs[j]] - 1];
    forall n | n in g ensures indeg'[n] == |g[n] - started| + (if n in nbs[j + 1..] then 1 else 0) {
      if n != nbs[j] {
        assert n in nbs[j..] <==> n in nbs[j + 1..] by {
          assert nbs[j..] == [nbs[j]] + nbs[j + 1..];
        }
      }
    }
  }

  /** The queue after releasing `nbs[j]`: it joins exactly when it owes nothing more. */
  lemma QueueStep(g: Graph, before: seq<string>, cur: string, nbs: seq<string>, j: int, q: seq<string>, free: bool)
    requires DepOrdered(g, before) && cur in Ready(g, before)
    requires 0 <= j < |nbs| && nbs[j] in g && cur in g[nbs[j]]
    requires nbs[j] in nbs[j..] && nbs[j] !in nbs[j + 1..]
    requires Elements(nbs[j..]) == {nbs[j]} + Elements(nbs[j + 1..])
    requires free <==> |g[nbs[j]] - Elements(before + [cur])| == 0
    requires Sorted(q) && Distinct(q) && Elements(q) == Ready(g, before + [cur]) - Elements(nbs[j..])
    ensures var q' := if free then Sort(q + [nbs[j]]) else q;
      Sorted(q') && Distinct(q') && Elements(q') == Ready(g, before + [cur]) - Elements(nbs[j + 1..])
  {
    var nb := nbs[j];
    assert nb !in Elements(q);
    assert nb !in Elements(nbs[j + 1..]);
    if free {
      NotStartedWhileWaiting(g, before, cur, nb);
      Enqueue(q, nb);
    } else {
      assert g[nb] - Elements(before + [cur]) != {};
      assert nb !in Ready(g, before + [cur]);
    }
  }

  /** The waiting list of `cur` names each declared service that depends on it, once. */
  lemma WaitingList(g: Graph, adj: map<string, seq<string>>, cur: string)
    requires AdjacencyOf(g, adj)
    ensures Distinct(Adj(adj, cur))
    ensures forall k :: 0 <= k < |Adj(adj, cur)| ==> Adj(adj, cur)[k] in g && cur in g[Adj(adj, cur)[k]]
  {
  }

  /** Appending to the queue and re-sorting it. */
  lemma Enqueue(q: seq<string>, nb: string)
    requires Distinct(q) && nb !in q
    ensures Sorted(Sort(q + [nb])) && Distinct(Sort(q + [nb]))
    ensures Elements(Sort(q + [nb])) == Elements(q) + {nb}
  {
    assert Elements(q + [nb]) == Elements(q) + {nb};
    PermutationKeepsDistinct(q + [nb], Sort(q + [nb]));
    PermutationKeepsElements(q + [nb], Sort(q + [nb]));
  }

  /** Starting `cur` makes ready exactly the services of its waiting list
      whose other dependencies have all started; the rest stay as they were. */
  lemma ReadyAfterStart(g: Graph, adj: map<string, seq<string>>, before: seq<string>, cur: string)
    requires AdjacencyOf(g, adj)
    requires DepOrdered(g, before) && cur in Ready(g, before)
    ensures Ready(g, before + [cur]) - Elements(Adj(adj, cur)) == Ready(g, before) - {cur}
  {
    var after := before + [cur];
    assert Elements(after) == Elements(before) + {cur};
    forall n ensures n in Ready(g, after) - Elements(Adj(adj, cur)) <==> n in Ready(g, before) - {cur} {
      if n in Ready(g, before) - {cur} {
        assert cur !in g[n];
        assert n !in Adj(adj, cur);
      }
      if n in Ready(g, after) && n !in Adj(adj, cur) {
        assert cur !in g[n];
      }
    }
  }

  /** Sorting, like any permutation, keeps a sequence free of duplicates. */
  lemma PermutationKeepsDistinct(a: seq<string>, b: seq<string>)
    requires Distinct(a) && multiset(a) == multiset(b)
    ensures Distinct(b)
  {
    forall i, j | 0 <= i < j < |b| ensures b[i] != b[j] {
      if b[i] == b[j] {
        assert b == b[..j] + b[j..];
        assert b[i] in multiset(b[..j]) && b[i] in multiset(b[j..]);
        assert multiset(b)[b[i]] >= 2;
        DistinctMultiplicity(a, b[i]);
        assert false;
      }
    }
  }

  /** Appending `n` to the list of services waiting on `dep`. */
  lemma AppendWaiting(adj: map<string, seq<string>>, adj': map<string, seq<string>>, dep: string, n: string)
    requires adj' == adj[dep := Adj(adj, dep) + [n]]
    requires n !in Adj(adj, dep) && forall d :: Distinct(Adj(adj, d))
    ensures forall d, m {:trigger m in Adj(adj', d)} :: m in Adj(adj', d) <==> m in Adj(adj, d) || (d == dep && m == n)
    ensures forall d :: Distinct(Adj(adj', d))
  {
    assert Adj(adj', dep) == Adj(adj, dep) + [n];
    forall d | d != dep ensures Adj(adj', d) == Adj(adj, d) { }
  }

  /** Before anything starts, the ready services are those with in-degree zero. */
  lemma ReadyInitially(g: Graph, indeg: map<string, int>)
    requires InDegrees(g, indeg, {})
    ensures forall n :: n in Ready(g, []) <==> n in g && indeg[n] == 0
  {
    var none: seq<string> := [];
    assert Elements(none) == {};
    forall n | n in g ensures (g[n] <= Elements(none) <==> indeg[n] == 0) {
      assert g[n] - {} == g[n];
    }
  }

  /** Starting the least ready service is the next step of KahnFrom. */
  lemma KahnStep(g: Graph, done: seq<string>, cur: string)
    requires Elements(done) <= g.Keys
    requires Ready(g, done) != {} && cur == Least(Ready(g, done))
    ensures Elements(done + [cur]) <= g.Keys
    ensures KahnFrom(g, done) == KahnFrom(g, done + [cur])
  {
    assert Elements(done + [cur]) == Elements(done) + {cur};
  }

  /** Once `cur` has started, the services in its adjacency list owe one
      dependency fewer and no other count changes. */
  lemma DecrementBase(g: Graph, adj: map<string, seq<string>>, indeg: map<string, int>, done: seq<string>, cur: string)
    requires AdjacencyOf(g, adj) && InDegrees(g, indeg, Elements(done))
    requires cur !in done
    ensures forall n {:trigger indeg[n]} :: n in g ==> indeg[n] == |g[n] - Elements(done + [cur])| + (if n in Adj(adj, cur) then 1 else 0)
  {
    assert Elements(done + [cur]) == Elements(done) + {cur};
    forall n | n in g
      ensures indeg[n] == |g[n] - Elements(done + [cur])| + (if n in Adj(adj, cur) then 1 else 0)
    {
      OwedAfterStart(g[n], Elements(done), cur);
    }
  }

  /** Counting the dependencies still owed, before and after `cur` starts. */
  lemma OwedAfterStart(deps: set<string>, started: set<string>, cur: string)
    requires cur !in started
    ensures |deps - started| == |deps - (started + {cur})| + (if cur in deps then 1 else 0)
  {
    if cur in deps {
      assert deps - started == (deps - (started + {cur})) + {cur};
    } else {
      assert deps - started == deps - (started + {cur});
    }
  }

  /** A service waiting on `cur` that owes no dependency once `cur` has
      started is ready: it cannot have started before `cur`. */
  lemma NotStartedWhileWaiting(g: Graph, done: seq<string>, cur: string, nb: string)
    requires DepOrdered(g, done) && cur in Ready(g, done)
    requires nb in g && cur in g[nb] && |g[nb] - Elements(done + [cur])| == 0
    ensures nb in Ready(g, done + [cur])
  {
    assert g[nb] - Elements(done + [cur]) == {};
    assert nb !in done + [cur];
    forall x | x in g[nb] ensures x in Elements(done + [cur]) {
      assert x !in g[nb] - Elements(done + [cur]);
    }
  }
}
