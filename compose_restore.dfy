/** pkg/backup/engine.go, Restore of a compose backup: which services there
    are and in what order they are restored, which archive of each is
    restored, with what options, and the id reported. The backup is
    extracted to a directory whose listing is given; each service's own
    restore is the single-container Restore, whose outcome is given. */
module ComposeRestore {
  import opened Wrappers
  import opened Strs
  import opened Lex
  import opened Order
  import opened OrderProperties
  import opened Options
  import opened DockerTypes
  import RestoreNetwork

  /** A directory entry: its name and whether it is a directory. */
  datatype DirEntry = DirEntry(name: string, isDir: bool)

  /** What is found under compose-files/: no compose file (or an empty
      one), one that does not decode, or the decoded file. */
  datatype ComposeSource = NoComposeFile | Undecodable | Decoded(file: ComposeFile)

  /** The services a compose backup restores: those the compose file
      declares, or, when it declares none, the directories under
      containers/. */
  function ServiceSet(compose: ComposeSource, containerDirs: seq<DirEntry>): set<string> {
    if compose.Decoded? && compose.file.services != map[] then compose.file.services.Keys
    else set e | e in containerDirs && e.isDir :: e.name
  }

  /** The compose file's start order when it declares services, else the
      services in ascending order. */
  ghost function ServiceOrder(compose: ComposeSource, containerDirs: seq<DirEntry>): seq<string> {
    if compose.Decoded? && compose.file.services != map[] then StartOrder(compose.file.services)
    else Ascending(ServiceSet(compose, containerDirs))
  }

  /** The order part of Restore for a compose backup: OrderFromComposeYAML
      on the compose file when there is one, the container directories
      when it names no service, and sorted names when it gives no order. */
  method ComposeOrder(compose: ComposeSource, containerDirs: seq<DirEntry>) returns (order: seq<string>)
    ensures order == ServiceOrder(compose, containerDirs)
    ensures Distinct(order) && Elements(order) == ServiceSet(compose, containerDirs)
  {
    var services: set<string> := {};
    order := [];
    if !compose.NoComposeFile? {
      var doc := if compose.Decoded? then Some(compose.file) else None;
      var ord, names := OrderFromComposeYAML(doc);
      if |ord| > 0 {
        order := ord;
      }
      services := Elements(names);
    }
    if services == {} {
      services := set e | e in containerDirs && e.isDir :: e.name;
      assert services == ServiceSet(compose, containerDirs);
    }
    if |order| == 0 {
      var names := Enumerate(services);
      SortEnumeration(names, services);
      order := Sort(names);
    }
    OrderOfServices(compose, containerDirs);
  }

  /** The services in map iteration order. */
  method Enumerate(services: set<string>) returns (names: seq<string>)
    ensures Distinct(names) && Elements(names) == services
  {
    names := [];
    var todo := services;
    while todo != {}
      invariant Distinct(names) && Elements(names) + todo == services && Elements(names) !! todo
      decreases todo
    {
      var s :| s in todo;
      names := names + [s];
      todo := todo - {s};
    }
  }

  /** A compose file that declares services gives a non-empty order, so
      Restore falls back to the directories only when it declares none. */
  lemma OrderOfServices(compose: ComposeSource, containerDirs: seq<DirEntry>)
    ensures Distinct(ServiceOrder(compose, containerDirs))
    ensures Elements(ServiceOrder(compose, containerDirs)) == ServiceSet(compose, containerDirs)
    ensures compose.Decoded? && compose.file.services != map[] ==> |StartOrder(compose.file.services)| > 0
  {
    if compose.Decoded? && compose.file.services != map[] {
      var g := compose.file.services;
      StartOrderEnumerates(g);
      var n :| n in g;
      assert n in Elements(StartOrder(g));
    }
  }

  /** Services restore in dependency order: when the compose file's
      dependencies can all be met, each service is restored after every
      service it depends on. */
  lemma DependenciesFirst(cf: ComposeFile, containerDirs: seq<DirEntry>)
    requires cf.services != map[] && Schedulable(cf.services)
    ensures ServiceOrder(Decoded(cf), containerDirs) == KahnFrom(cf.services, [])
    ensures DepOrdered(cf.services, ServiceOrder(Decoded(cf), containerDirs))
  {
    StartOrderRespectsDependencies(cf.services);
  }

  /** Without a compose file the restore order is alphabetical over the
      directories under containers/; plain files there are ignored. */
  lemma DirectoriesAlphabetical(containerDirs: seq<DirEntry>, name: string)
    ensures Sorted(ServiceOrder(NoComposeFile, containerDirs))
    ensures name in ServiceOrder(NoComposeFile, containerDirs) <==> DirEntry(name, true) in containerDirs
  {
    var S := ServiceSet(NoComposeFile, containerDirs);
    assert name in Elements(Ascending(S)) <==> name in S;
  }

  // ---------------------------------------------------------------------
  // Restoring the services

  /** The index of the first entry whose name ends in ".tar.gz", or -1. */
  method FirstTarGz(entries: seq<DirEntry>) returns (idx: int)
    ensures -1 <= idx < |entries|
    ensures idx >= 0 ==> HasSuffix(entries[idx].name, ".tar.gz")
    ensures forall j :: 0 <= j < |entries| && (idx == -1 || j < idx) ==> !HasSuffix(entries[j].name, ".tar.gz")
  {
    idx := -1;
    for j := 0 to |entries|
      invariant forall k :: 0 <= k < j ==> !HasSuffix(entries[k].name, ".tar.gz")
    {
      if HasSuffix(entries[j].name, ".tar.gz") {
        return j;
      }
    }
  }

  /** A service directory holds an archive to restore. */
  predicate HasArchive(entries: seq<DirEntry>) {
    exists j :: 0 <= j < |entries| && HasSuffix(entries[j].name, ".tar.gz")
  }

  /** The listing of a service's directory; a directory that cannot be
      read lists nothing. */
  function Listing(serviceDirs: map<string, seq<DirEntry>>, svc: string): seq<DirEntry> {
    if svc in serviceDirs then serviceDirs[svc] else []
  }

  /** The services reported as restored: in order, those with an archive
      whose restore succeeds (`failing` holds those whose restore fails). */
  function Restored(order: seq<string>, serviceDirs: map<string, seq<DirEntry>>, failing: set<string>): (r: seq<string>)
    ensures forall s :: s in r ==> s in order && s !in failing && HasArchive(Listing(serviceDirs, s))
  {
    if order == [] then []
    else
      var svc := order[|order| - 1];
      Restored(order[..|order| - 1], serviceDirs, failing)
      + (if HasArchive(Listing(serviceDirs, svc)) && svc !in failing then [svc] else [])
  }

  /** The options each service's container is restored with: the request's
      host and safe-mode options; no start, no renaming of the container or
      its networks, no parent overrides, no relaxed IPs, no wait. */
  function ServiceRestoreOptions(opts: RestoreOptions): (o: RestoreOptions)
    ensures !o.start && o.containerName == "" && o.networkMap == map[] && o.parentMap == map[]
    ensures !o.autoRelaxIPs && !o.waitHealthy && o.waitTimeoutSeconds == 0
    ensures o.replaceExisting == opts.replaceExisting && o.dropHostIPs == opts.dropHostIPs
    ensures o.reassignIPs == opts.reassignIPs && o.fallbackBridge == opts.fallbackBridge
    ensures o.bindRestoreRoot == opts.bindRestoreRoot && o.forceBindIP == opts.forceBindIP
    ensures o.bindInterface == opts.bindInterface
    ensures o.dropDevices == opts.dropDevices && o.dropCaps == opts.dropCaps
    ensures o.dropSeccomp == opts.dropSeccomp && o.dropAppArmor == opts.dropAppArmor
  {
    RestoreOptions(
      containerName := "", start := false, networkMap := map[], parentMap := map[],
      dropHostIPs := opts.dropHostIPs, reassignIPs := opts.reassignIPs, autoRelaxIPs := false,
      fallbackBridge := opts.fallbackBridge, waitHealthy := false, waitTimeoutSeconds := 0,
      replaceExisting := opts.replaceExisting, dropDevices := opts.dropDevices, dropCaps := opts.dropCaps,
      dropSeccomp := opts.dropSeccomp, dropAppArmor := opts.dropAppArmor,
      bindRestoreRoot := opts.bindRestoreRoot, forceBindIP := opts.forceBindIP, bindInterface := opts.bindInterface)
  }

  /** A compose restore keeps its networks' names and parents whatever the
      request maps them to: the service restores are given no maps. */
  lemma ServiceNetworksKeepNames(opts: RestoreOptions, nc: NetworkConfig)
    ensures RestoreNetwork.TransformNetwork(nc, ServiceRestoreOptions(opts)).name == nc.name
    ensures !opts.fallbackBridge ==> RestoreNetwork.TransformNetwork(nc, ServiceRestoreOptions(opts)) == nc
  {
  }

  /** The id a compose restore reports: the restored services joined by
      commas, "" when none was restored. */
  function RestoredID(restored: seq<string>): string {
    if restored == [] then "" else Join(restored, ',')
  }

  /** The service restore loop: each service in order whose directory
      holds an archive has its first archive restored. */
  method RestoreServices(order: seq<string>, serviceDirs: map<string, seq<DirEntry>>, failing: set<string>)
    returns (restoredID: string)
    ensures restoredID == RestoredID(Restored(order, serviceDirs, failing))
  {
    var restored: seq<string> := [];
    for i := 0 to |order|
      invariant restored == Restored(order[..i], serviceDirs, failing)
    {
      var svc := order[i];
      assert order[..i + 1][..i] == order[..i];
      var entries := Listing(serviceDirs, svc);
      var idx := FirstTarGz(entries);
      if idx == -1 {
        assert !HasArchive(entries);
        continue;
      }
      if svc !in failing {
        restored := restored + [svc];
      }
    }
    assert order[..|order|] == order;
    restoredID := if restored == [] then "" else Join(restored, ',');
  }

  /** The start commands of a compose restore when asked: one `docker
      start` per service, in order, restored or not. */
  method StartCommands(order: seq<string>) returns (starts: seq<seq<string>>)
    ensures |starts| == |order|
    ensures forall i :: 0 <= i < |order| ==> starts[i] == ["start", order[i]]
  {
    starts := [];
    for i := 0 to |order|
      invariant |starts| == i
      invariant forall k :: 0 <= k < i ==> starts[k] == ["start", order[k]]
    {
      starts := starts + [["start", order[i]]];
    }
  }

  /** Restore of a compose backup after its extraction: the order, each
      service's restore with the options derived from the request, then the
      start commands when asked. */
  method RestoreCompose(opts: RestoreOptions, compose: ComposeSource, containerDirs: seq<DirEntry>,
                        serviceDirs: map<string, seq<DirEntry>>, failing: set<string>)
    returns (restoredID: string, serviceOpts: RestoreOptions, starts: seq<seq<string>>)
    ensures restoredID == RestoredID(Restored(ServiceOrder(compose, containerDirs), serviceDirs, failing))
    ensures serviceOpts == ServiceRestoreOptions(opts)
    ensures !opts.start ==> starts == []
    ensures opts.start ==> |starts| == |ServiceOrder(compose, containerDirs)|
                           && forall i :: 0 <= i < |starts| ==> starts[i] == ["start", ServiceOrder(compose, containerDirs)[i]]
  {
    var order := ComposeOrder(compose, containerDirs);
    serviceOpts := ServiceRestoreOptions(opts);
    restoredID := RestoreServices(order, serviceDirs, failing);
    starts := [];
    if opts.start {
      starts := StartCommands(order);
    }
  }

  /** The reported id names the restored services: split at commas it
      gives them back, when no service name has a comma. */
  lemma RestoredIDNames(restored: seq<string>)
    requires forall i :: 0 <= i < |restored| ==> ',' !in restored[i] && restored[i] != ""
    ensures restored != [] ==> Split(RestoredID(restored), ',') == restored
    ensures restored == [] <==> RestoredID(restored) == ""
  {
    if restored != [] {
      SplitJoin(restored, ',');
      assert |Join(restored, ',')| >= |restored[0]| > 0;
    }
  }

  /** A failed service restore only leaves that service out. */
  lemma {:induction false} FailureSkipsOnlyThatService(order: seq<string>, serviceDirs: map<string, seq<DirEntry>>,
                                                        failing: set<string>, svc: string)
    ensures Elements(Restored(order, serviceDirs, failing + {svc}))
            == Elements(Restored(order, serviceDirs, failing)) - {svc}
  {
    if order != [] {
      var init, last := order[..|order| - 1], order[|order| - 1];
      FailureSkipsOnlyThatService(init, serviceDirs, failing, svc);
      var a, b := Restored(init, serviceDirs, failing + {svc}), Restored(init, serviceDirs, failing);
      var x: seq<string> := if HasArchive(Listing(serviceDirs, last)) && last !in failing + {svc} then [last] else [];
      var y: seq<string> := if HasArchive(Listing(serviceDirs, last)) && last !in failing then [last] else [];
      assert Elements(a + x) == Elements(a) + Elements(x);
      assert Elements(b + y) == Elements(b) + Elements(y);
    }
  }
}
