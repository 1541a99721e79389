/** What the start order of pkg/compose/order.go guarantees: every service
    exactly once; dependencies first whenever that is possible at all; the
    alphabetical fallback exactly when it is not. */
module OrderProperties {
  import opened Lex
  import opened Order

  /** KahnFrom extends the started prefix, one least ready service at a time,
      until nothing is ready. */
  lemma {:induction false} KahnFromSteps(g: Graph, done: seq<string>)
    requires Progress(g, done)
    ensures |done| <= |KahnFrom(g, done)| && KahnFrom(g, done)[..|done|] == done
    ensures Progress(g, KahnFrom(g, done)) && Ready(g, KahnFrom(g, done)) == {}
    ensures forall i :: |done| <= i < |KahnFrom(g, done)| ==>
              Ready(g, KahnFrom(g, done)[..i]) != {} && KahnFrom(g, done)[i] == Least(Ready(g, KahnFrom(g, done)[..i]))
    decreases g.Keys - Elements(done)
  {
    var R := Ready(g, done);
    if R != {} {
      var m := Least(R);
      ExtendProgress(g, done, m);
      KahnFromSteps(g, done + [m]);
      var k := KahnFrom(g, done + [m]);
      assert KahnFrom(g, done) == k;
      assert k[..|done|] == (k[..|done| + 1])[..|done|];
      forall i | |done| <= i < |k| ensures Ready(g, k[..i]) != {} && k[i] == Least(Ready(g, k[..i])) {
        if i == |done| {
          assert k[..i] == done;
        }
      }
    }
  }

  /** A subset as large as its superset is the whole superset. */
  lemma {:induction false} SubsetCard(A: set<string>, B: set<string>)
    requires A <= B
    ensures |A| <= |B|
    ensures |A| == |B| ==> A == B
    decreases A
  {
    if A != {} {
      var x :| x in A;
      SubsetCard(A - {x}, B - {x});
    } else if B != {} {
      var y :| y in B;
      assert |B| >= 1;
    }
  }

  /** Kahn's order reaches every service exactly when some order of all the
      services puts each after its dependencies. */
  lemma KahnCompleteIffSchedulable(g: Graph)
    ensures |KahnFrom(g, [])| == |g.Keys| <==> Schedulable(g)
  {
    var none: seq<string> := [];
    assert Progress(g, none);
    KahnFromSteps(g, none);
    var k := KahnFrom(g, none);
    DistinctCard(k);
    SubsetCard(Elements(k), g.Keys);
    if Schedulable(g) {
      var p :| Distinct(p) && Elements(p) == g.Keys && DepOrdered(g, p);
      EveryScheduledServiceStarts(g, p, k, |p|);
      assert p[..|p|] == p;
    }
  }

  /** When nothing is ready, each service of a dependency-respecting order has started. */
  lemma {:induction false} EveryScheduledServiceStarts(g: Graph, p: seq<string>, k: seq<string>, j: nat)
    requires DepOrdered(g, p) && Ready(g, k) == {} && j <= |p|
    ensures Elements(p[..j]) <= Elements(k)
  {
    if j > 0 {
      EveryScheduledServiceStarts(g, p, k, j - 1);
      assert p[..j - 1] == p[..j][..j - 1];
      assert g[p[j - 1]] <= Elements(p[..j - 1]);
      assert p[j - 1] !in Ready(g, k);
      assert Elements(p[..j]) == Elements(p[..j - 1]) + {p[j - 1]};
    }
  }

  /** The start order lists every declared service exactly once. */
  lemma StartOrderEnumerates(g: Graph)
    ensures Distinct(StartOrder(g)) && Elements(StartOrder(g)) == g.Keys
  {
    var none: seq<string> := [];
    assert Progress(g, none);
    KahnFromSteps(g, none);
    var k := KahnFrom(g, none);
    if |k| == |g.Keys| {
      DistinctCard(k);
      SubsetCard(Elements(k), g.Keys);
    }
  }

  /** Whenever the dependencies can be honoured at all, the start order
      honours them, starting the least ready service at each step. */
  lemma StartOrderRespectsDependencies(g: Graph)
    requires Schedulable(g)
    ensures StartOrder(g) == KahnFrom(g, [])
    ensures DepOrdered(g, StartOrder(g))
    ensures forall i :: 0 <= i < |StartOrder(g)| ==>
              Ready(g, StartOrder(g)[..i]) != {} && StartOrder(g)[i] == Least(Ready(g, StartOrder(g)[..i]))
  {
    KahnCompleteIffSchedulable(g);
    var none: seq<string> := [];
    assert Progress(g, none);
    KahnFromSteps(g, none);
  }

  /** Otherwise (a cycle, a service depending on itself or on an undeclared
      service) the order is plain alphabetical. */
  lemma UnschedulableFallsBack(g: Graph)
    requires !Schedulable(g)
    ensures StartOrder(g) == Ascending(g.Keys)
  {
    KahnCompleteIffSchedulable(g);
  }

  /** A dependency-respecting order starts each service after its
      dependencies; so a dependency that can never have started before `n`
      rules the whole order out. */
  lemma {:induction false} BlockedDependency(g: Graph, p: seq<string>, n: string, d: string)
    requires Distinct(p) && n in Elements(p) && n in g && d in g[n]
    requires d == n || d !in Elements(p)
    ensures !DepOrdered(g, p)
  {
    var i :| 0 <= i < |p| && p[i] == n;
    forall j | 0 <= j < i ensures p[..i][j] != d {
      assert p[..i][j] == p[j];
    }
    assert d !in Elements(p[..i]);
    assert !(g[p[i]] <= Elements(p[..i]));
  }

  /** A service listed in its own depends_on can never start after its dependencies. */
  lemma SelfDependencyFallsBack(g: Graph, n: string)
    requires n in g && n in g[n]
    ensures StartOrder(g) == Ascending(g.Keys)
  {
    forall p | Distinct(p) && Elements(p) == g.Keys ensures !DepOrdered(g, p) {
      BlockedDependency(g, p, n, n);
    }
    UnschedulableFallsBack(g);
  }

  /** A dependency on a service the file does not declare can never be met. */
  lemma UndeclaredDependencyFallsBack(g: Graph, n: string, d: string)
    requires n in g && d in g[n] && d !in g
    ensures StartOrder(g) == Ascending(g.Keys)
  {
    forall p | Distinct(p) && Elements(p) == g.Keys ensures !DepOrdered(g, p) {
      BlockedDependency(g, p, n, d);
    }
    UnschedulableFallsBack(g);
  }

  /** db <- api <- web: each starts after what it depends on. */
  lemma ChainExample()
    ensures StartOrder(map["web" := {"api"}, "api" := {"db"}, "db" := {}]) == ["db", "api", "web"]
  {
    var g := map["web" := {"api"}, "api" := {"db"}, "db" := {}];
    var p := ["db", "api", "web"];
    assert p[..0] == [] && p[..1] == ["db"] && p[..2] == ["db", "api"];
    assert Elements(p[..1]) == {"db"} && Elements(p[..2]) == {"db", "api"};
    assert DepOrdered(g, p);
    assert Elements(p) == g.Keys;
    assert Schedulable(g);
    StartOrderRespectsDependencies(g);
    var s := StartOrder(g);
    StartOrderEnumerates(g);
    OnlyOrder(g, s);
  }

  /** In the chain every position is forced by the dependencies. */
  lemma OnlyOrder(g: Graph, s: seq<string>)
    requires g == map["web" := {"api"}, "api" := {"db"}, "db" := {}]
    requires Distinct(s) && Elements(s) == g.Keys && DepOrdered(g, s)
    ensures s == ["db", "api", "web"]
  {
    DistinctCard(s);
    assert |s| == 3;
    assert s[0] in g && g[s[0]] <= Elements(s[..0]);
    assert s[1] in g && g[s[1]] <= Elements(s[..1]);
    assert s[2] in g && g[s[2]] <= Elements(s[..2]);
    assert Elements(s[..1]) == {s[0]};
    assert Elements(s[..2]) == {s[0], s[1]};
    assert s[0] == "db";
    assert s[1] == "api";
    assert s[2] == "web" by {
      assert s[2] in g.Keys && s[2] != s[0] && s[2] != s[1];
    }
  }

  /** web and api wait on each other: both are started, alphabetically. */
  lemma CycleExample()
    ensures StartOrder(map["web" := {"api"}, "api" := {"web"}]) == ["api", "web"]
  {
    var g := map["web" := {"api"}, "api" := {"web"}];
    MutualWaitUnschedulable(g, "api", "web");
    UnschedulableFallsBack(g);
    assert g.Keys == {"api", "web"};
    assert Le("api", "web") by {
      assert "api"[0] < "web"[0];
    }
    AscendingPair("api", "web");
  }

  /** Two services that depend only on each other can never both start. */
  lemma MutualWaitUnschedulable(g: Graph, a: string, b: string)
    requires g == map[a := {b}, b := {a}]
    ensures !Schedulable(g)
  {
    forall p | Distinct(p) && Elements(p) == g.Keys ensures !DepOrdered(g, p) {
      assert a in Elements(p);
      assert p[0] in g && Elements(p[..0]) == {} && g[p[0]] != {};
    }
  }

  /** Two distinct names, ascending. */
  lemma AscendingPair(a: string, b: string)
    requires Le(a, b) && a != b
    ensures Ascending({a, b}) == [a, b]
  {
    var r := Ascending({a, b});
    DistinctCard(r);
    assert |{a, b}| == 2;
    assert r[0] in {a, b} && r[1] in {a, b} && r[0] != r[1];
    if r[0] == b {
      assert Le(r[0], r[1]);
      LeAntisym(a, b);
    }
  }
}
