/** pkg/backup/engine.go, Backup: which mounts of a container get an
    archive of their own and under which name, and how a compose backup
    gathers the networks and volumes of all its services without repeats.
    Docker's answers (inspect results) and the outcome of each archive
    creation are inputs. */
module EngineBackup {
  import opened Wrappers
  import opened Lex
  import opened Paths
  import opened Archive
  import opened Errors
  import opened DockerTypes
  import opened EngineNames

  // ---------------------------------------------------------------------
  // Mount archiving (one container)

  /** One archive: its file name inside the backup's volumes/ directory,
      what it archives, and the operation named when creating it fails. */
  datatype VolumeArchive = VolumeArchive(file: string, source: ArchiveSource, op: string)

  /** The archive a mount gets: a named volume with a source is archived
      under its own name; a bind mount under "bind_" and its last element;
      any other mount gets none. */
  function MountArchive(m: Mount): Option<VolumeArchive> {
    if m.kind == "volume" && m.name != "" && m.source != "" then
      Some(VolumeArchive(SafeNameOf(m.name) + ".tar.gz", ArchiveSource(m.source, m.name), "archive volume " + m.name))
    else if m.kind == "bind" && m.source != "" then
      var base := Base(m.source);
      Some(VolumeArchive("bind_" + SafeNameOf(base) + ".tar.gz", ArchiveSource(m.source, base), "archive bind mount " + m.source))
    else
      None
  }

  /** The archives of the mounts, in mount order. */
  function MountPlan(ms: seq<Mount>): seq<VolumeArchive> {
    if ms == [] then []
    else
      var a := MountArchive(ms[|ms| - 1]);
      MountPlan(ms[..|ms| - 1]) + (if a.Some? then [a.value] else [])
  }

  /** The position in the plan of the first CreateArchive call that fails:
      `failed` gives, for each failing call, counted from 0 in plan order,
      the error it returns. */
  function FirstFailure(plan: seq<VolumeArchive>, failed: map<nat, Error>): (r: Option<nat>)
    ensures r.Some? ==> r.value < |plan| && r.value in failed
                        && forall k :: 0 <= k < r.value ==> k !in failed
    ensures r.None? ==> forall k :: 0 <= k < |plan| ==> k !in failed
  {
    if plan == [] then None
    else
      var n := |plan| - 1;
      var front := FirstFailure(plan[..n], failed);
      if front.Some? then front
      else if n in failed then Some(n)
      else None
  }

  /** The archive loop of Backup: one CreateArchive call per planned
      archive, in plan order, each failing or not on its own. The loop
      stops at the first failure with that mount's operation; otherwise
      every planned archive is made and includesVolumes says whether there
      was any. */
  method ArchiveMounts(mounts: seq<Mount>, failed: map<nat, Error>)
    returns (r: Result<seq<VolumeArchive>, Error>, includesVolumes: bool)
    ensures var plan := MountPlan(mounts);
            FirstFailure(plan, failed).None? ==> r == Ok(plan) && (includesVolumes <==> plan != [])
    ensures var plan := MountPlan(mounts);
            FirstFailure(plan, failed).Some? ==>
              var k := FirstFailure(plan, failed).value;
              r == Err(Operation(plan[k].op, Some(failed[k])))
  {
    includesVolumes := false;
    var archived: seq<VolumeArchive> := [];
    for i := 0 to |mounts|
      invariant archived == MountPlan(mounts[..i])
      invariant forall k :: 0 <= k < |archived| ==> k !in failed
      invariant includesVolumes <==> archived != []
    {
      var m := mounts[i];
      PlanStep(mounts, i);
      var a: VolumeArchive;
      if m.kind == "volume" && m.name != "" && m.source != "" {
        includesVolumes := true;
        var safe := SafeName(m.name);
        a := VolumeArchive(safe + ".tar.gz", ArchiveSource(m.source, m.name), "archive volume " + m.name);
      } else if m.kind == "bind" && m.source != "" {
        includesVolumes := true;
        var base := Base(m.source);
        var safe := SafeName(base);
        a := VolumeArchive("bind_" + safe + ".tar.gz", ArchiveSource(m.source, base), "archive bind mount " + m.source);
      } else {
        continue;
      }
      assert MountArchive(m) == Some(a);
      var k := |archived|;
      if k in failed {
        PlanRest(mounts, i);
        FailsFirstAt(MountPlan(mounts), k, failed);
        return Err(Operation(a.op, Some(failed[k]))), includesVolumes;
      }
      archived := archived + [a];
    }
    assert mounts[..|mounts|] == mounts;
    r := Ok(archived);
  }

  /** A failing call with no failing call before it is the first failure. */
  lemma FailsFirstAt(plan: seq<VolumeArchive>, k: nat, failed: map<nat, Error>)
    requires k < |plan| && k in failed && forall j :: 0 <= j < k ==> j !in failed
    ensures FirstFailure(plan, failed) == Some(k)
  {
  }

  // ---------------------------------------------------------------------
  // What volumes/ holds once the archives are made

  /** The files in volumes/ after the archives of `plan` are created in
      order. os.Create truncates a file that exists, so under each file
      name the last archive made with it is the one left. */
  function OnDisk(plan: seq<VolumeArchive>): (d: map<string, VolumeArchive>)
    ensures forall i :: 0 <= i < |plan| ==> plan[i].file in d
    ensures forall f :: f in d ==> d[f].file == f
  {
    if plan == [] then map[]
    else
      var n := |plan| - 1;
      var front := plan[..n];
      assert forall i :: 0 <= i < n ==> front[i] == plan[i];
      OnDisk(front)[plan[n].file := plan[n]]
  }

  /** An archive survives exactly when no later archive has its file name. */
  lemma {:induction false} OnDiskKeeps(plan: seq<VolumeArchive>, i: nat)
    requires i < |plan|
    requires forall j :: i < j < |plan| ==> plan[j].file != plan[i].file
    ensures OnDisk(plan)[plan[i].file] == plan[i]
    decreases |plan|
  {
    var n := |plan| - 1;
    if i < n {
      var front := plan[..n];
      assert front[i] == plan[i];
      assert forall j :: i < j < n ==> front[j] == plan[j];
      OnDiskKeeps(front, i);
      assert plan[n].file != plan[i].file;
    }
  }

  /** Archive k is the last one of the plan made under file name f. */
  ghost predicate LastWith(plan: seq<VolumeArchive>, f: string, k: nat) {
    k < |plan| && plan[k].file == f && forall j :: k < j < |plan| ==> plan[j].file != f
  }

  /** What is left under a file name is the last archive made with it. */
  lemma {:induction false} OnDiskIsLast(plan: seq<VolumeArchive>, f: string)
    requires f in OnDisk(plan)
    ensures exists k: nat :: LastWith(plan, f, k) && plan[k] == OnDisk(plan)[f]
    decreases |plan|
  {
    var n := |plan| - 1;
    var front := plan[..n];
    if plan[n].file != f {
      assert f in OnDisk(front);
      OnDiskIsLast(front, f);
      var k: nat :| LastWith(front, f, k) && front[k] == OnDisk(front)[f];
      LastWithSnoc(plan, f, k);
    } else {
      assert LastWith(plan, f, n);
    }
  }

  lemma LastWithSnoc(plan: seq<VolumeArchive>, f: string, k: nat)
    requires plan != [] && plan[|plan| - 1].file != f && LastWith(plan[..|plan| - 1], f, k)
    ensures LastWith(plan, f, k) && plan[k] == plan[..|plan| - 1][k]
  {
  }

  /** Two bind mounts whose sources end in the same element are archived
      under one file name, and the second archive replaces the first: the
      first directory's contents are not in the backup. */
  lemma BindArchiveReplaced(m1: Mount, m2: Mount)
    requires m1.kind == "bind" && m1.source != "" && m2.kind == "bind" && m2.source != ""
    requires Base(m1.source) == Base(m2.source)
    ensures MountArchive(m1).value.file == MountArchive(m2).value.file
    ensures OnDisk(MountPlan([m1, m2])) == map[MountArchive(m2).value.file := MountArchive(m2).value]
  {
    var a1, a2 := MountArchive(m1).value, MountArchive(m2).value;
    var ms := [m1, m2];
    assert ms[..1] == [m1];
    assert [m1][..0] == [];
    assert MountPlan([m1]) == [] + [a1];
    assert MountPlan(ms) == [a1] + [a2];
    var plan := [a1, a2];
    assert plan[..1] == [a1];
    assert [a1][..0] == [];
    assert OnDisk([a1]) == map[a1.file := a1];
    assert OnDisk(plan) == map[a1.file := a1][a2.file := a2];
  }

  /** Two bind mounts sharing a file name are still archived by separate
      calls: when only the second one fails, Backup's error names the
      second mount. */
  lemma SharedNameFailsAlone(m1: Mount, m2: Mount, e: Error)
    requires m1.kind == "bind" && m1.source != "" && m2.kind == "bind" && m2.source != ""
    requires Base(m1.source) == Base(m2.source)
    ensures var plan := MountPlan([m1, m2]);
            && |plan| == 2 && plan[0].file == plan[1].file
            && FirstFailure(plan, map[1 := e]) == Some(1)
            && plan[1].op == "archive bind mount " + m2.source
  {
    var a1, a2 := MountArchive(m1).value, MountArchive(m2).value;
    var ms := [m1, m2];
    assert ms[..1] == [m1];
    assert [m1][..0] == [];
    assert MountPlan([m1]) == [] + [a1];
    assert MountPlan(ms) == [a1] + [a2];
    FailsFirstAt([a1, a2], 1, map[1 := e]);
  }

  lemma {:induction false} MountPlanConcat(a: seq<Mount>, b: seq<Mount>)
    ensures MountPlan(a + b) == MountPlan(a) + MountPlan(b)
    decreases |b|
  {
    if b == [] {
      assert a + b == a;
    } else {
      var b' := b[..|b| - 1];
      assert (a + b)[..|a + b| - 1] == a + b';
      MountPlanConcat(a, b');
    }
  }

  lemma PlanStep(ms: seq<Mount>, i: int)
    requires 0 <= i < |ms|
    ensures MountPlan(ms[..i + 1]) == MountPlan(ms[..i]) + (if MountArchive(ms[i]).Some? then [MountArchive(ms[i]).value] else [])
  {
    assert ms[..i + 1][..i] == ms[..i];
    assert ms[..i + 1][i] == ms[i];
  }

  lemma {:induction false} PlanRest(ms: seq<Mount>, i: int)
    requires 0 <= i < |ms|
    ensures MountPlan(ms) == MountPlan(ms[..i + 1]) + MountPlan(ms[i + 1..])
  {
    var front, back := ms[..i + 1], ms[i + 1..];
    assert ms == front + back;
    MountPlanConcat(front, back);
  }

  /** The first failure of a longer plan is the first failure of its
      front part when there is one there, and lies beyond it otherwise. */
  lemma FirstFailureConcat(p: seq<VolumeArchive>, q: seq<VolumeArchive>, failed: map<nat, Error>)
    ensures FirstFailure(p, failed).Some? ==> FirstFailure(p + q, failed) == FirstFailure(p, failed)
    ensures FirstFailure(p, failed).None? && FirstFailure(p + q, failed).Some? ==> FirstFailure(p + q, failed).value >= |p|
  {
    if FirstFailure(p, failed).Some? {
      FailsFirstAt(p + q, FirstFailure(p, failed).value, failed);
    }
  }

  /** There is something to archive exactly when some mount is a named
      volume with a source or a bind mount with a source. */
  lemma {:induction false} PlanEmptyIff(ms: seq<Mount>)
    ensures MountPlan(ms) == [] <==> forall i :: 0 <= i < |ms| ==> MountArchive(ms[i]).None?
  {
    if ms != [] {
      PlanEmptyIff(ms[..|ms| - 1]);
      assert forall i :: 0 <= i < |ms| - 1 ==> ms[..|ms| - 1][i] == ms[i];
    }
  }

  /** The archive Restore looks for (engine.go, the volume loop of Restore):
      a volume's under its plain name, a bind mount's under the name Backup
      gave it. */
  function RestoreArchiveName(m: Mount): string {
    if m.kind == "volume" then m.name + ".tar.gz"
    else "bind_" + SafeNameOf(Base(m.source)) + ".tar.gz"
  }

  /** The root directory Restore strips when it extracts a mount's archive. */
  function ExpectedRoot(m: Mount): string {
    if m.kind == "volume" then m.name else Base(m.source)
  }

  /** Backup and Restore agree on each mount's archive: its entries sit
      under the root Restore strips, and Restore finds the file exactly when
      safeName leaves the volume name alone (Docker's volume names never
      hold '/', '\\', ' ', ':' or a tab). */
  lemma MountArchiveRestorable(m: Mount)
    requires MountArchive(m).Some?
    ensures RootName(MountArchive(m).value.source) == ExpectedRoot(m)
    ensures MountArchive(m).value.file == RestoreArchiveName(m) <==> m.kind == "bind" || NoUnsafe(m.name)
  {
    var a := MountArchive(m).value;
    if m.kind == "volume" {
      SafeNameFixes(m.name);
      if a.file == RestoreArchiveName(m) {
        assert a.file[..|a.file| - 7] == SafeNameOf(m.name);
        assert RestoreArchiveName(m)[..|m.name|] == m.name;
      }
    }
  }

  // ---------------------------------------------------------------------
  // Compose backup: volumes of all services, each once

  /** The named volumes among a container's mounts, in mount order. */
  function NamedVolumes(ms: seq<Mount>): seq<string> {
    if ms == [] then []
    else
      var m := ms[|ms| - 1];
      NamedVolumes(ms[..|ms| - 1]) + (if m.kind == "volume" && m.name != "" then [m.name] else [])
  }

  /** The named volumes of every container that could be inspected, in order. */
  function AllNamedVolumes(infos: seq<Option<seq<Mount>>>): seq<string> {
    if infos == [] then []
    else
      var x := infos[|infos| - 1];
      AllNamedVolumes(infos[..|infos| - 1]) + (if x.Some? then NamedVolumes(x.value) else [])
  }

  /** Each name at its first occurrence, kept when Docker can inspect it. */
  function Captured(xs: seq<string>, known: set<string>): seq<string> {
    if xs == [] then []
    else
      var x := xs[|xs| - 1];
      var front := xs[..|xs| - 1];
      Captured(front, known) + (if x !in front && x in known then [x] else [])
  }

  function ConfigsOf<C>(names: seq<string>, inspect: map<string, C>): seq<C>
    requires forall i :: 0 <= i < |names| ==> names[i] in inspect
  {
    seq(|names|, i requires 0 <= i < |names| => inspect[names[i]])
  }

  /** The captured names are exactly the inspectable names seen, each once. */
  lemma {:induction false} CapturedOnce(xs: seq<string>, known: set<string>)
    ensures Distinct(Captured(xs, known))
    ensures Elements(Captured(xs, known)) == Elements(xs) * known
  {
    if xs != [] {
      var x, front := xs[|xs| - 1], xs[..|xs| - 1];
      CapturedOnce(front, known);
      var c := Captured(front, known);
      assert xs == front + [x];
      assert Elements(xs) == Elements(front) + {x};
      if x !in front && x in known {
        assert Captured(xs, known) == c + [x];
        assert x !in Elements(c);
        assert Elements(c + [x]) == Elements(c) + {x};
        assert forall k :: 0 <= k < |c| ==> c[k] in Elements(c);
      } else {
        assert Captured(xs, known) == c;
      }
    }
  }

  /** The volume loop of a compose backup. `infos` holds, per project
      container, its mounts, or None when inspecting or parsing it failed;
      `inspect` holds the volumes Docker can inspect. */
  method CollectVolumeConfigs(infos: seq<Option<seq<Mount>>>, inspect: map<string, VolumeConfig>)
    returns (cfgs: seq<VolumeConfig>)
    ensures var names := Captured(AllNamedVolumes(infos), inspect.Keys);
            (forall i :: 0 <= i < |names| ==> names[i] in inspect) && cfgs == ConfigsOf(names, inspect)
  {
    var seen: set<string> := {};
    var found: seq<string> := [];
    cfgs := [];
    for i := 0 to |infos|
      invariant seen == Elements(AllNamedVolumes(infos[..i]))
      invariant found == Captured(AllNamedVolumes(infos[..i]), inspect.Keys)
      invariant (forall k :: 0 <= k < |found| ==> found[k] in inspect) && cfgs == ConfigsOf(found, inspect)
    {
      assert infos[..i + 1][..i] == infos[..i];
      if infos[i].None? {
        assert AllNamedVolumes(infos[..i + 1]) == AllNamedVolumes(infos[..i]);
        continue;
      }
      assert AllNamedVolumes(infos[..i + 1]) == AllNamedVolumes(infos[..i]) + NamedVolumes(infos[i].value);
      seen, found, cfgs := CollectFromMounts(infos[i].value, inspect, AllNamedVolumes(infos[..i]), seen, found, cfgs);
    }
    assert infos[..|infos|] == infos;
  }

  /** The inner loop: one container's mounts. */
  method CollectFromMounts(ms: seq<Mount>, inspect: map<string, VolumeConfig>, ghost xs: seq<string>,
                           seen0: set<string>, found0: seq<string>, cfgs0: seq<VolumeConfig>)
    returns (seen: set<string>, found: seq<string>, cfgs: seq<VolumeConfig>)
    requires seen0 == Elements(xs) && found0 == Captured(xs, inspect.Keys)
    requires (forall k :: 0 <= k < |found0| ==> found0[k] in inspect) && cfgs0 == ConfigsOf(found0, inspect)
    ensures seen == Elements(xs + NamedVolumes(ms)) && found == Captured(xs + NamedVolumes(ms), inspect.Keys)
    ensures (forall k :: 0 <= k < |found| ==> found[k] in inspect) && cfgs == ConfigsOf(found, inspect)
  {
    seen, found, cfgs := seen0, found0, cfgs0;
    ghost var acc := xs;
    assert xs + NamedVolumes(ms[..0]) == xs;
    for j := 0 to |ms|
      invariant acc == xs + NamedVolumes(ms[..j])
      invariant seen == Elements(acc) && found == Captured(acc, inspect.Keys)
      invariant (forall k :: 0 <= k < |found| ==> found[k] in inspect) && cfgs == ConfigsOf(found, inspect)
    {
      var m := ms[j];
      NamedVolumesStep(xs, ms, j);
      if m.kind == "volume" && m.name != "" {
        CapturedSnoc(acc, m.name, inspect.Keys);
        acc := acc + [m.name];
        if m.name in seen {
          continue;
        }
        seen := seen + {m.name};
        if m.name in inspect {
          ConfigsOfSnoc(found, m.name, inspect);
          found := found + [m.name];
          cfgs := cfgs + [inspect[m.name]];
        }
      }
    }
    assert ms[..|ms|] == ms;
  }

  lemma NamedVolumesStep(xs: seq<string>, ms: seq<Mount>, j: int)
    requires 0 <= j < |ms|
    ensures xs + NamedVolumes(ms[..j + 1]) ==
            xs + NamedVolumes(ms[..j]) + (if ms[j].kind == "volume" && ms[j].name != "" then [ms[j].name] else [])
  {
    assert ms[..j + 1][..j] == ms[..j];
  }

  lemma ConfigsOfSnoc<C>(names: seq<string>, x: string, inspect: map<string, C>)
    requires (forall i :: 0 <= i < |names| ==> names[i] in inspect) && x in inspect
    ensures ConfigsOf(names + [x], inspect) == ConfigsOf(names, inspect) + [inspect[x]]
  {
  }

  lemma CapturedSnoc(xs: seq<string>, x: string, known: set<string>)
    ensures Captured(xs + [x], known) == Captured(xs, known) + (if x !in Elements(xs) && x in known then [x] else [])
    ensures Elements(xs + [x]) == Elements(xs) + {x}
  {
    assert (xs + [x])[..|xs|] == xs;
  }

  // ---------------------------------------------------------------------
  // Compose backup: networks of all services, each once

  /** Every network name in the sets. */
  function Union(sets: seq<Option<set<string>>>): set<string> {
    if sets == [] then {}
    else
      var x := sets[|sets| - 1];
      Union(sets[..|sets| - 1]) + (if x.Some? then x.value else {})
  }

  /** The network loop of a compose backup. `attached` holds, per project
      container, the names of its networks, or None when inspecting it
      failed; `inspect` holds the networks Docker can inspect. The names of
      one container come in map order, so the order of the configurations
      is not fixed: `found` is the order they were inspected in. */
  method CollectNetworkConfigs(attached: seq<Option<set<string>>>, inspect: map<string, NetworkConfig>)
    returns (cfgs: seq<NetworkConfig>, ghost found: seq<string>)
    ensures Distinct(found) && Elements(found) == Union(attached) * inspect.Keys
    ensures (forall i :: 0 <= i < |found| ==> found[i] in inspect) && cfgs == ConfigsOf(found, inspect)
    ensures |cfgs| == |Union(attached) * inspect.Keys|
    ensures forall n :: n in Union(attached) && n in inspect ==> inspect[n] in cfgs
  {
    var seen: set<string> := {};
    found := [];
    cfgs := [];
    for i := 0 to |attached|
      invariant seen == Union(attached[..i])
      invariant Distinct(found) && Elements(found) == seen * inspect.Keys
      invariant (forall k :: 0 <= k < |found| ==> found[k] in inspect) && cfgs == ConfigsOf(found, inspect)
    {
      assert attached[..i + 1][..i] == attached[..i];
      if attached[i].None? {
        continue;
      }
      assert Union(attached[..i + 1]) == Union(attached[..i]) + attached[i].value;
      var rest := attached[i].value;
      while rest != {}
        invariant seen + rest == Union(attached[..i]) + attached[i].value
        invariant Distinct(found) && Elements(found) == seen * inspect.Keys
        invariant (forall k :: 0 <= k < |found| ==> found[k] in inspect) && cfgs == ConfigsOf(found, inspect)
        decreases rest
      {
        var name :| name in rest;
        rest := rest - {name};
        if name in seen {
          continue;
        }
        seen := seen + {name};
        if name in inspect {
          assert name !in Elements(found);
          assert Elements(found + [name]) == Elements(found) + {name};
          found := found + [name];
          cfgs := cfgs + [inspect[name]];
        }
      }
    }
    assert attached[..|attached|] == attached;
    ConfigsOfCover(found, inspect, Union(attached) * inspect.Keys);
  }

  /** Configurations looked up for distinct names: one per name, each there. */
  lemma ConfigsOfCover<C>(found: seq<string>, inspect: map<string, C>, names: set<string>)
    requires Distinct(found) && Elements(found) == names
    requires forall i :: 0 <= i < |found| ==> found[i] in inspect
    ensures |ConfigsOf(found, inspect)| == |names|
    ensures forall n :: n in names ==> n in inspect && inspect[n] in ConfigsOf(found, inspect)
  {
    DistinctCard(found);
    forall n | n in names ensures n in inspect && inspect[n] in ConfigsOf(found, inspect) {
      var k :| 0 <= k < |found| && found[k] == n;
      assert ConfigsOf(found, inspect)[k] == inspect[n];
    }
  }
}
