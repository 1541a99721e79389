/** pkg/backup/engine.go, Restore: what happens to the container's network
    attachments and to the saved network configs before the container is
    created. Map iteration order is Go's choice: loops over maps pick their
    next key with `:|`, and contracts state what holds for every order. */
module RestoreNetwork {
  import opened Wrappers
  import opened Lex
  import opened DockerTypes
  import opened Options

  /** The static addresses of an endpoint (EndpointIPAMConfig). */
  datatype EndpointIPAM = EndpointIPAM(ipv4Address: string, ipv6Address: string)

  /** One attached network's endpoint settings. Restore reads the aliases
      and the IPAM config; `networkID` and `ipAddress` stand for the runtime
      fields the inspect output also carries. */
  datatype Endpoint = Endpoint(aliases: seq<string>, ipamConfig: Option<EndpointIPAM>, networkID: string, ipAddress: string)

  // ---------------------------------------------------------------------
  // Network-name remap

  /** The name a network is restored under: its NetworkMap entry when that
      is present and non-empty, else its own. */
  function Renamed(networkMap: map<string, string>, name: string): string {
    if name in networkMap && networkMap[name] != "" then networkMap[name] else name
  }

  /** No other attached network is renamed onto the same name as `n`. */
  predicate Unshared(networks: map<string, Endpoint>, networkMap: map<string, string>, n: string) {
    forall n' :: n' in networks && Renamed(networkMap, n') == Renamed(networkMap, n) ==> n' == n
  }

  /** `m` holds the attachments of the networks in `done` under their new
      names: every new name comes from one of them with its endpoint, and
      a network no other one is renamed onto keeps its own endpoint. */
  ghost predicate Remapped(networks: map<string, Endpoint>, networkMap: map<string, string>, done: set<string>, m: map<string, Endpoint>) {
    && done <= networks.Keys
    && m.Keys == (set n | n in done :: Renamed(networkMap, n))
    && (forall k :: k in m ==> exists n :: n in done && Renamed(networkMap, n) == k && m[k] == networks[n])
    && (forall n :: n in done && Unshared(networks, networkMap, n) ==> Renamed(networkMap, n) in m && m[Renamed(networkMap, n)] == networks[n])
  }

  /** The attachments under their new names. Two networks renamed onto one
      name leave only one of them, whichever the map visits last. */
  method RemapNetworks(networks: map<string, Endpoint>, networkMap: map<string, string>)
      returns (r: map<string, Endpoint>)
    ensures networkMap == map[] ==> r == networks
    ensures Remapped(networks, networkMap, networks.Keys, r)
  {
    if |networkMap| == 0 {
      UnmappedIdentity(networks, networkMap);
      return networks;
    }
    var mapped: map<string, Endpoint> := map[];
    var todo := networks.Keys;
    while todo != {}
      invariant todo <= networks.Keys
      invariant Remapped(networks, networkMap, networks.Keys - todo, mapped)
      decreases |todo|
    {
      var name :| name in todo;
      var newName := name;
      if name in networkMap && networkMap[name] != "" {
        newName := networkMap[name];
      }
      RemapStep(networks, networkMap, networks.Keys - todo, mapped, name);
      mapped := mapped[newName := networks[name]];
      assert networks.Keys - (todo - {name}) == (networks.Keys - todo) + {name};
      todo := todo - {name};
    }
    return mapped;
  }

  lemma RemapStep(networks: map<string, Endpoint>, networkMap: map<string, string>, done: set<string>,
                  m: map<string, Endpoint>, name: string)
    requires Remapped(networks, networkMap, done, m)
    requires name in networks && name !in done
    ensures Remapped(networks, networkMap, done + {name}, m[Renamed(networkMap, name) := networks[name]])
  {
    var m' := m[Renamed(networkMap, name) := networks[name]];
    var done' := done + {name};
    assert m'.Keys == (set n | n in done' :: Renamed(networkMap, n));
    forall k | k in m' ensures exists n :: n in done' && Renamed(networkMap, n) == k && m'[k] == networks[n] {
      if k != Renamed(networkMap, name) {
        var n :| n in done && Renamed(networkMap, n) == k && m[k] == networks[n];
        assert n in done';
      } else {
        assert name in done';
      }
    }
  }

  /** With an empty NetworkMap nothing is renamed. */
  lemma UnmappedIdentity(networks: map<string, Endpoint>, networkMap: map<string, string>)
    requires networkMap == map[]
    ensures Remapped(networks, networkMap, networks.Keys, networks)
  {
    forall n | n in networks ensures Renamed(networkMap, n) == n {
    }
    assert (set n | n in networks.Keys :: Renamed(networkMap, n)) == networks.Keys;
    forall k | k in networks ensures exists n :: n in networks.Keys && Renamed(networkMap, n) == k && networks[k] == networks[n] {
      assert k in networks.Keys && Renamed(networkMap, k) == k;
    }
  }

  /** Renaming keeps every attachment when no two networks are renamed onto
      one name, and then the new names are exactly the renamed old ones. */
  lemma RemapKeepsAll(networks: map<string, Endpoint>, networkMap: map<string, string>, r: map<string, Endpoint>)
    requires Remapped(networks, networkMap, networks.Keys, r)
    requires forall n :: n in networks ==> Unshared(networks, networkMap, n)
    ensures |r| == |networks|
    ensures forall n :: n in networks ==> r[Renamed(networkMap, n)] == networks[n]
  {
    var f := map n | n in networks :: Renamed(networkMap, n);
    forall a, b | a in networks && b in networks && f[a] == f[b] ensures a == b {
      assert Renamed(networkMap, a) == Renamed(networkMap, b);
      assert Unshared(networks, networkMap, b);
    }
    InjectiveImage(networks.Keys, f);
    SameImage(networks, networkMap, f);
  }

  lemma SameImage(networks: map<string, Endpoint>, networkMap: map<string, string>, f: map<string, string>)
    requires f == map n | n in networks :: Renamed(networkMap, n)
    ensures (set n | n in networks.Keys :: f[n]) == (set n | n in networks.Keys :: Renamed(networkMap, n))
  {
  }

  lemma {:induction false} InjectiveImage(s: set<string>, f: map<string, string>)
    requires s <= f.Keys
    requires forall a, b :: a in s && b in s && f[a] == f[b] ==> a == b
    ensures |set n | n in s :: f[n]| == |s|
    decreases s
  {
    if s != {} {
      var x :| x in s;
      InjectiveImage(s - {x}, f);
      assert (set n | n in s :: f[n]) == (set n | n in s - {x} :: f[n]) + {f[x]};
    }
  }

  // ---------------------------------------------------------------------
  // Network configs: rename, parent override, bridge fallback

  const ParentKey := "parent"

  /** nc.Options["parent"]: "" when absent. */
  function ParentOf(options: map<string, string>): string {
    if ParentKey in options then options[ParentKey] else ""
  }

  /** The drivers that need a parent interface on the host. */
  predicate NeedsParent(driver: string) {
    driver == "macvlan" || driver == "ipvlan"
  }

  /** The ParentMap override for a network, "" for none. */
  function ParentOverride(opts: RestoreOptions, name: string): string {
    if name in opts.parentMap then opts.parentMap[name] else ""
  }

  /** The config EnsureNetwork is given for a saved network config. */
  function TransformNetwork(nc: NetworkConfig, opts: RestoreOptions): (r: NetworkConfig)
    ensures r.name == Renamed(opts.networkMap, nc.name)
    ensures r.internal == nc.internal && r.attachable == nc.attachable && r.ingress == nc.ingress
    ensures r.ipam == nc.ipam && r.labels == nc.labels
    ensures forall k :: k != ParentKey ==> (k in r.options <==> k in nc.options)
    ensures forall k :: k != ParentKey && k in r.options ==> r.options[k] == nc.options[k]
    ensures opts.fallbackBridge ==> !(NeedsParent(r.driver) && ParentOf(r.options) == "")
    ensures r.driver == nc.driver || (opts.fallbackBridge && NeedsParent(nc.driver) && r.driver == "bridge" && ParentKey !in r.options)
    ensures ParentOverride(opts, r.name) != "" ==> ParentOf(r.options) == ParentOverride(opts, r.name) && r.driver == nc.driver
    ensures !NeedsParent(nc.driver) ==> r.driver == nc.driver
  {
    var name := Renamed(opts.networkMap, nc.name);
    var options := if ParentOverride(opts, name) != "" then nc.options[ParentKey := ParentOverride(opts, name)] else nc.options;
    if opts.fallbackBridge && NeedsParent(nc.driver) && ParentOf(options) == "" then
      nc.(name := name, options := options - {ParentKey}, driver := "bridge")
    else
      nc.(name := name, options := options)
  }

  /** The loop over the saved network configs: the configs handed to
      EnsureNetwork, in order. */
  method EnsureNetworks(netCfgs: seq<NetworkConfig>, opts: RestoreOptions) returns (ensured: seq<NetworkConfig>)
    ensures |ensured| == |netCfgs|
    ensures forall i :: 0 <= i < |netCfgs| ==> ensured[i] == TransformNetwork(netCfgs[i], opts)
  {
    ensured := [];
    for i := 0 to |netCfgs|
      invariant |ensured| == i
      invariant forall j :: 0 <= j < i ==> ensured[j] == TransformNetwork(netCfgs[j], opts)
    {
      var nc := netCfgs[i];
      if nc.name in opts.networkMap && opts.networkMap[nc.name] != "" {
        nc := nc.(name := opts.networkMap[nc.name]);
      }
      if nc.name in opts.parentMap && opts.parentMap[nc.name] != "" {
        nc := nc.(options := nc.options[ParentKey := opts.parentMap[nc.name]]);
      }
      if opts.fallbackBridge {
        if NeedsParent(nc.driver) && ParentOf(nc.options) == "" {
          nc := nc.(driver := "bridge", options := nc.options - {ParentKey});
        }
      }
      ensured := ensured + [nc];
    }
  }

  /** The parent override is looked up under the new name: an override
      given only for the old name of a renamed network is not used. */
  lemma ParentLookedUpAfterRename(nc: NetworkConfig, opts: RestoreOptions)
    requires Renamed(opts.networkMap, nc.name) != nc.name
    requires Renamed(opts.networkMap, nc.name) !in opts.parentMap
    requires ParentOverride(opts, nc.name) != ""
    ensures ParentOf(TransformNetwork(nc, opts).options) == ParentOf(nc.options)
            || (opts.fallbackBridge && NeedsParent(nc.driver) && ParentOf(nc.options) == "")
  {
  }

  /** Without a fallback, a macvlan network without a parent keeps its driver. */
  lemma NoFallbackKeepsDriver(nc: NetworkConfig, opts: RestoreOptions)
    requires !opts.fallbackBridge
    ensures TransformNetwork(nc, opts).driver == nc.driver
  {
  }

  // ---------------------------------------------------------------------
  // Endpoints of the NetworkingConfig, clearing static IPs

  /** An endpoint whose static IPv4 address conflicts with a host network. */
  predicate Conflicting(ep: Endpoint, conflict: string -> bool) {
    ep.ipamConfig.Some? && ep.ipamConfig.value.ipv4Address != "" && conflict(ep.ipamConfig.value.ipv4Address)
  }

  /** Some endpoint among the first i + 1 visited conflicts. */
  predicate ConflictSeen(networks: map<string, Endpoint>, visited: seq<string>, i: int, conflict: string -> bool) {
    exists j :: 0 <= j <= i && j < |visited| && visited[j] in networks && Conflicting(networks[visited[j]], conflict)
  }

  /** The IPAM config an endpoint is created with. */
  function ClearedIPAM(ep: Endpoint, reassign: bool, autoRelax: bool, conflicting: bool): Option<EndpointIPAM> {
    if reassign || (autoRelax && conflicting) then None else ep.ipamConfig
  }

  /** `eps` holds the endpoints built for the networks `visited` so far,
      in that order. */
  ghost predicate Built(networks: map<string, Endpoint>, reassign: bool, autoRelax: bool, conflict: string -> bool,
                        visited: seq<string>, eps: map<string, Endpoint>) {
    && Distinct(visited) && Elements(visited) <= networks.Keys && eps.Keys == Elements(visited)
    && (forall n :: n in eps ==> n in networks && eps[n].aliases == networks[n].aliases && eps[n].networkID == "" && eps[n].ipAddress == "")
    && (forall i :: 0 <= i < |visited| ==>
          (visited[i] in eps && visited[i] in networks &&
           eps[visited[i]].ipamConfig == ClearedIPAM(networks[visited[i]], reassign, autoRelax, ConflictSeen(networks, visited, i, conflict))))
  }

  /** The endpoints restore creates: aliases and, unless cleared, the IPAM
      config of each attachment. Once a conflicting static address has been
      seen it stays seen, so under AutoRelaxIPs every endpoint visited from
      then on is cleared; `visited` is the order the map was iterated in. */
  method BuildEndpoints(networks: map<string, Endpoint>, reassign: bool, autoRelax: bool, conflict: string -> bool)
      returns (eps: map<string, Endpoint>, ghost visited: seq<string>)
    ensures Built(networks, reassign, autoRelax, conflict, visited, eps) && eps.Keys == networks.Keys
  {
    eps := map[];
    visited := [];
    var conflictingStaticIP := false;
    var todo := networks.Keys;
    assert Visiting(networks, reassign, autoRelax, conflict, todo, visited, eps, conflictingStaticIP);
    while todo != {}
      invariant Visiting(networks, reassign, autoRelax, conflict, todo, visited, eps, conflictingStaticIP)
      decreases |todo|
    {
      var name :| name in todo;
      ghost var before := conflictingStaticIP;
      var ep;
      ep, conflictingStaticIP := VisitEndpoint(networks[name], reassign, autoRelax, conflict, conflictingStaticIP);
      Advance(networks, reassign, autoRelax, conflict, todo, visited, eps, name, before, ep);
      visited, eps := visited + [name], eps[name := ep];
      todo := todo - {name};
    }
  }

  /** The state of the endpoint loop with `todo` still to visit. */
  ghost predicate Visiting(networks: map<string, Endpoint>, reassign: bool, autoRelax: bool, conflict: string -> bool,
                           todo: set<string>, visited: seq<string>, eps: map<string, Endpoint>, conflicting: bool) {
    && todo <= networks.Keys
    && Built(networks, reassign, autoRelax, conflict, visited, eps)
    && Elements(visited) == networks.Keys - todo
    && (conflicting <==> ConflictSeen(networks, visited, |visited| - 1, conflict))
  }

  /** One pass of the endpoint loop. */
  method VisitEndpoint(ns: Endpoint, reassign: bool, autoRelax: bool, conflict: string -> bool, conflicting0: bool)
      returns (ep: Endpoint, conflicting: bool)
    ensures conflicting == (conflicting0 || Conflicting(ns, conflict))
    ensures ep == Endpoint(ns.aliases, ClearedIPAM(ns, reassign, autoRelax, conflicting), "", "")
  {
    conflicting := conflicting0;
    var ipam := ns.ipamConfig;
    if ipam.Some? && ipam.value.ipv4Address != "" {
      if conflict(ipam.value.ipv4Address) {
        conflicting := true;
      }
    }
    ep := Endpoint(ns.aliases, None, "", "");
    if reassign || (autoRelax && conflicting) {
      ep := ep.(ipamConfig := None);
    } else {
      ep := ep.(ipamConfig := ns.ipamConfig);
    }
  }

  lemma Advance(networks: map<string, Endpoint>, reassign: bool, autoRelax: bool, conflict: string -> bool,
                todo: set<string>, visited: seq<string>, eps: map<string, Endpoint>, name: string, conflicting0: bool, ep: Endpoint)
    requires Visiting(networks, reassign, autoRelax, conflict, todo, visited, eps, conflicting0)
    requires name in todo
    requires ep == Endpoint(networks[name].aliases,
                            ClearedIPAM(networks[name], reassign, autoRelax, conflicting0 || Conflicting(networks[name], conflict)), "", "")
    ensures Visiting(networks, reassign, autoRelax, conflict, todo - {name}, visited + [name], eps[name := ep],
                     conflicting0 || Conflicting(networks[name], conflict))
  {
    VisitStep(networks, visited, name, conflict);
    BuildStep(networks, reassign, autoRelax, conflict, visited, eps, name, conflicting0 || Conflicting(networks[name], conflict));
  }

  lemma BuildStep(networks: map<string, Endpoint>, reassign: bool, autoRelax: bool, conflict: string -> bool,
                  visited: seq<string>, eps: map<string, Endpoint>, name: string, conflicting: bool)
    requires Built(networks, reassign, autoRelax, conflict, visited, eps)
    requires name in networks && name !in Elements(visited)
    requires forall i :: 0 <= i < |visited| ==>
               (ConflictSeen(networks, visited + [name], i, conflict) <==> ConflictSeen(networks, visited, i, conflict))
    requires conflicting <==> ConflictSeen(networks, visited + [name], |visited|, conflict)
    ensures var ep := Endpoint(networks[name].aliases, ClearedIPAM(networks[name], reassign, autoRelax, conflicting), "", "");
            Built(networks, reassign, autoRelax, conflict, visited + [name], eps[name := ep])
    ensures Elements(visited + [name]) == Elements(visited) + {name}
    ensures conflicting <==> ConflictSeen(networks, visited + [name], |visited + [name]| - 1, conflict)
  {
    var v := visited + [name];
    var ep := Endpoint(networks[name].aliases, ClearedIPAM(networks[name], reassign, autoRelax, conflicting), "", "");
    var eps' := eps[name := ep];
    assert Elements(v) == Elements(visited) + {name};
    forall i | 0 <= i < |v|
      ensures v[i] in eps' && v[i] in networks
      ensures eps'[v[i]].ipamConfig == ClearedIPAM(networks[v[i]], reassign, autoRelax, ConflictSeen(networks, v, i, conflict))
    {
      if i < |visited| {
        assert v[i] == visited[i] && visited[i] in Elements(visited);
        assert eps'[v[i]] == eps[visited[i]];
      }
    }
    forall i, j | 0 <= i < j < |v| ensures v[i] != v[j] {
      if j == |visited| {
        assert visited[i] in Elements(visited);
      }
    }
  }

  /** What the endpoints promise whatever order the map is visited in:
      ReassignIPs clears every static address; without ReassignIPs and
      AutoRelaxIPs every one is kept; without ReassignIPs, when no address
      conflicts, every one is kept too. */
  lemma EndpointPolicy(networks: map<string, Endpoint>, reassign: bool, autoRelax: bool, conflict: string -> bool,
                 visited: seq<string>, eps: map<string, Endpoint>)
    requires Built(networks, reassign, autoRelax, conflict, visited, eps) && Elements(visited) == networks.Keys
    ensures reassign ==> forall n :: n in eps ==> eps[n].ipamConfig.None?
    ensures !reassign && !autoRelax ==> forall n :: n in eps ==> eps[n].ipamConfig == networks[n].ipamConfig
    ensures !reassign && (forall n :: n in networks ==> !Conflicting(networks[n], conflict)) ==>
              forall n :: n in eps ==> eps[n].ipamConfig == networks[n].ipamConfig
  {
    forall n | n in eps ensures eps[n].ipamConfig == ClearedIPAM(networks[n], reassign, autoRelax, ConflictSeen(networks, visited, IndexOf(visited, n), conflict)) {
      var i := IndexOf(visited, n);
    }
    if !reassign && (forall n :: n in networks ==> !Conflicting(networks[n], conflict)) {
      forall n | n in eps ensures !ConflictSeen(networks, visited, IndexOf(visited, n), conflict) {
      }
    }
  }

  /** Under AutoRelaxIPs, from the first endpoint with a conflicting
      static address on, every endpoint visited loses its static address. */
  lemma StickyConflict(networks: map<string, Endpoint>, reassign: bool, autoRelax: bool, conflict: string -> bool,
                       visited: seq<string>, eps: map<string, Endpoint>, j: int, i: int)
    requires Built(networks, reassign, autoRelax, conflict, visited, eps)
    requires autoRelax && 0 <= j <= i < |visited| && Conflicting(networks[visited[j]], conflict)
    ensures eps[visited[i]].ipamConfig.None?
  {
    assert ConflictSeen(networks, visited, i, conflict);
  }

  /** Before the first conflicting endpoint, without ReassignIPs, endpoints
      keep their static addresses. */
  lemma BeforeConflictKept(networks: map<string, Endpoint>, reassign: bool, autoRelax: bool, conflict: string -> bool,
                           visited: seq<string>, eps: map<string, Endpoint>, i: int)
    requires Built(networks, reassign, autoRelax, conflict, visited, eps)
    requires !reassign && 0 <= i < |visited|
    requires forall j :: 0 <= j <= i ==> !Conflicting(networks[visited[j]], conflict)
    ensures eps[visited[i]].ipamConfig == networks[visited[i]].ipamConfig
  {
  }

  /** The position of an element. */
  function IndexOf(s: seq<string>, x: string): (i: int)
    requires x in s
    ensures 0 <= i < |s| && s[i] == x
  {
    if s[0] == x then 0 else 1 + IndexOf(s[1..], x)
  }

  /** Visiting one more endpoint: the earlier prefixes are unchanged and the
      new one adds that endpoint. */
  lemma VisitStep(networks: map<string, Endpoint>, visited: seq<string>, name: string, conflict: string -> bool)
    requires name in networks
    ensures forall i :: 0 <= i < |visited| ==>
              (ConflictSeen(networks, visited + [name], i, conflict) <==> ConflictSeen(networks, visited, i, conflict))
    ensures ConflictSeen(networks, visited + [name], |visited|, conflict)
            <==> ConflictSeen(networks, visited, |visited| - 1, conflict) || Conflicting(networks[name], conflict)
  {
    var v := visited + [name];
    forall i | 0 <= i < |visited|
      ensures ConflictSeen(networks, v, i, conflict) <==> ConflictSeen(networks, visited, i, conflict)
    {
      if ConflictSeen(networks, v, i, conflict) {
        var j :| 0 <= j <= i && j < |v| && v[j] in networks && Conflicting(networks[v[j]], conflict);
        assert v[j] == visited[j];
      }
      if ConflictSeen(networks, visited, i, conflict) {
        var j :| 0 <= j <= i && j < |visited| && visited[j] in networks && Conflicting(networks[visited[j]], conflict);
        assert v[j] == visited[j];
      }
    }
    if ConflictSeen(networks, v, |visited|, conflict) && !Conflicting(networks[name], conflict) {
      var j :| 0 <= j <= |visited| && j < |v| && v[j] in networks && Conflicting(networks[v[j]], conflict);
      assert j < |visited| && v[j] == visited[j];
    }
    if Conflicting(networks[name], conflict) {
      assert v[|visited|] == name;
    }
    if ConflictSeen(networks, visited, |visited| - 1, conflict) {
      var j :| 0 <= j <= |visited| - 1 && j < |visited| && visited[j] in networks && Conflicting(networks[visited[j]], conflict);
      assert v[j] == visited[j];
    }
  }
}
