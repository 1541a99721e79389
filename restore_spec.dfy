/** pkg/backup/engine.go, the single-container Restore around its host and
    network policies: reading container.json, choosing the image, restoring
    the mounts' data, the container's name, creating it with the fallback
    to the CLI, and starting it. The Docker and file-system calls are
    parameters: their outcomes are given, and the model says which calls
    are made and what Restore makes of their results. */
module RestoreSpec {
  import opened Wrappers
  import opened Strs
  import opened Errors
  import opened Paths
  import opened DockerTypes
  import DockerClient
  import opened EngineNames
  import opened EngineBackup
  import opened Archive
  import opened Options

  // ---------------------------------------------------------------------
  // container.json: an object or an array

  /** The container Restore reads from container.json. `asObject` is the
      outcome of decoding it as one object, `asArray` as an array; None
      stands for an inspect record without its base part. A decoding that
      succeeds on an unusable value leaves no error to wrap. */
  function ReadInspect<T>(asObject: Result<Option<T>, Error>, asArray: Result<seq<Option<T>>, Error>): (r: Result<T, Error>)
    ensures asObject.Ok? && asObject.value.Some? ==> r == Ok(asObject.value.value)
    ensures r.Err? ==> r.error.Operation? && r.error.op == "unmarshal container.json"
                       && (r.error.inner.Some? <==> asArray.Err?)
    ensures r.Ok? ==> (asObject.Ok? && asObject.value == Some(r.value))
                      || (asArray.Ok? && |asArray.value| > 0 && asArray.value[0] == Some(r.value))
  {
    if asObject.Ok? && asObject.value.Some? then Ok(asObject.value.value)
    else if asArray.Err? then Err(Operation("unmarshal container.json", Some(asArray.error)))
    else if |asArray.value| == 0 || asArray.value[0].None? then Err(Operation("unmarshal container.json", None))
    else Ok(asArray.value[0].value)
  }

  /** Restore accepts every array ParseContainerInfo accepts, takes the
      same first element, and strips the leading "/" later, when it names
      the new container; it also accepts the single-object form that
      ParseContainerInfo refuses. */
  lemma ReadInspectAcceptsMore(infos: seq<ContainerInfo>, objectErr: Error)
    ensures var r := ReadInspect(Err(objectErr), Ok(seq(|infos|, i requires 0 <= i < |infos| => Some(infos[i]))));
            (r.Ok? <==> ParseContainerInfo(Some(infos)).Ok?)
            && (r.Ok? ==> ParseContainerInfo(Some(infos)).value == r.value.(name := NewName(r.value.name, "")))
    ensures ReadInspect(Ok(Some(infos)), Err(objectErr)) == Ok(infos)
    ensures ParseContainerInfo(None).Err?
  {
  }

  // ---------------------------------------------------------------------
  // The image

  /** The image the container is created from. A saved image.tar that
      loads gives the original image reference; failing that (no
      image.tar, a failed load, or an original reference of ""),
      filesystem.tar is imported. `fsTarStat` is None when filesystem.tar
      exists, else the error stat gave. */
  function ImageRef(imageTarPresent: bool, load: Option<Error>, originalImage: string,
                    fsTarStat: Option<Error>, imported: Result<string, Error>): (r: Result<string, Error>)
    ensures imageTarPresent && load.None? && originalImage != "" ==> r == Ok(originalImage)
    ensures !(imageTarPresent && load.None? && originalImage != "") ==>
              r == (if fsTarStat.Some? then Err(Operation("filesystem.tar missing", fsTarStat))
                    else if imported.Err? then Err(Operation("docker import image", Some(imported.error)))
                    else imported)
  {
    var loaded := if imageTarPresent && load.None? then originalImage else "";
    if loaded != "" then Ok(loaded)
    else if fsTarStat.Some? then Err(Operation("filesystem.tar missing", fsTarStat))
    else match imported
      case Err(e) => Err(Operation("docker import image", Some(e)))
      case Ok(id) => Ok(id)
  }

  /** The import is attempted only when the saved image gave nothing; its
      failures and a missing filesystem.tar are the only errors. */
  lemma ImageRefErrors(imageTarPresent: bool, load: Option<Error>, originalImage: string,
                       fsTarStat: Option<Error>, imported: Result<string, Error>)
    ensures var r := ImageRef(imageTarPresent, load, originalImage, fsTarStat, imported);
            r.Err? ==> (r.error.op == "filesystem.tar missing" && Unwrap(r.error) == fsTarStat)
                       || (r.error.op == "docker import image" && Unwrap(r.error) == Some(imported.error))
    ensures var r := ImageRef(imageTarPresent, load, originalImage, fsTarStat, imported);
            r.Ok? ==> r.value == originalImage || (fsTarStat.None? && imported == r)
    ensures var r := ImageRef(imageTarPresent, load, originalImage, fsTarStat, imported);
            load.Some? ==> r == ImageRef(false, None, originalImage, fsTarStat, imported)
  {
  }

  // ---------------------------------------------------------------------
  // Restoring the mounts' data

  /** The calls that restore a mount's data, in the order Restore makes
      them. The archives are named relative to the backup's volumes/
      directory; `root` is the top directory stripped on extraction. */
  datatype MountStep =
    | CreateVolume(volume: string)
    | ExtractToVolume(volume: string, archive: string, root: string)
    | MakeBindDir(path: string)
    | ExtractToHost(archive: string, dest: string, root: string)

  /** The operation an error of the step is reported under. */
  function StepOp(s: MountStep): string {
    match s
    case CreateVolume(v) => "create volume " + v
    case ExtractToVolume(v, _, _) => "restore volume " + v
    case MakeBindDir(p) => "mkdir bind path " + p
    case ExtractToHost(_, d, _) => "restore bind mount " + d
  }

  /** A named volume is created, then filled when its archive is in the
      backup; a bind mount's directory is made and filled only when its
      archive is there. `present` holds the archive names in volumes/. */
  function MountSteps(m: Mount, present: set<string>): seq<MountStep> {
    (if m.kind == "volume" && m.name != "" then
       [CreateVolume(m.name)] + (if RestoreArchiveName(m) in present then [ExtractToVolume(m.name, RestoreArchiveName(m), m.name)] else [])
     else [])
    + (if m.kind == "bind" && m.source != "" && RestoreArchiveName(m) in present then
         [MakeBindDir(m.source), ExtractToHost(RestoreArchiveName(m), m.source, Base(m.source))]
       else [])
  }

  function AllMountSteps(ms: seq<Mount>, present: set<string>): seq<MountStep> {
    if ms == [] then [] else AllMountSteps(ms[..|ms| - 1], present) + MountSteps(ms[|ms| - 1], present)
  }

  /** Running steps until one fails: the steps done, and the error of the
      failing one. `failed` gives the steps that fail and their errors. */
  function Run(steps: seq<MountStep>, failed: map<MountStep, Error>): (r: (seq<MountStep>, Option<Error>))
    ensures |r.0| <= |steps| && r.0 == steps[..|r.0|]
    ensures forall s :: s in r.0 ==> s !in failed
    ensures r.1.None? <==> |r.0| == |steps|
    ensures r.1.Some? ==> steps[|r.0|] in failed && r.1.value == Operation(StepOp(steps[|r.0|]), Some(failed[steps[|r.0|]]))
  {
    if steps == [] then ([], None)
    else if steps[0] in failed then ([], Some(Operation(StepOp(steps[0]), Some(failed[steps[0]]))))
    else
      var rest := Run(steps[1..], failed);
      assert steps == [steps[0]] + steps[1..];
      ([steps[0]] + rest.0, rest.1)
  }

  lemma {:induction false} RunConcat(a: seq<MountStep>, b: seq<MountStep>, failed: map<MountStep, Error>)
    ensures Run(a + b, failed) == if Run(a, failed).1.Some? then Run(a, failed)
                                  else (Run(a, failed).0 + Run(b, failed).0, Run(b, failed).1)
  {
    if a == [] {
      assert a + b == b;
      assert Run(a, failed) == (a, None);
      assert a + Run(b, failed).0 == Run(b, failed).0;
    } else {
      assert (a + b)[0] == a[0];
      assert (a + b)[1..] == a[1..] + b;
      if a[0] !in failed {
        RunConcat(a[1..], b, failed);
        var ra, rb := Run(a[1..], failed), Run(b, failed);
        if ra.1.None? {
          assert [a[0]] + (ra.0 + rb.0) == ([a[0]] + ra.0) + rb.0;
        }
      }
    }
  }

  lemma RunOne(x: MountStep, failed: map<MountStep, Error>)
    ensures Run([x], failed) == if x in failed then ([], Some(Operation(StepOp(x), Some(failed[x])))) else ([x], None)
  {
    var none: seq<MountStep> := [];
    assert [x][1..] == none;
    assert Run(none, failed) == (none, None);
    assert [x] + none == [x];
  }

  lemma RunPair(x: MountStep, y: MountStep, failed: map<MountStep, Error>)
    ensures Run([x, y], failed) == if x in failed then ([], Some(Operation(StepOp(x), Some(failed[x]))))
                                   else if y in failed then ([x], Some(Operation(StepOp(y), Some(failed[y]))))
                                   else ([x, y], None)
  {
    assert [x, y][1..] == [y];
    RunOne(y, failed);
    assert [x] + [y] == [x, y];
  }

  /** The data loop of Restore for one mount. */
  method RestoreMount(m: Mount, present: set<string>, failed: map<MountStep, Error>)
    returns (done: seq<MountStep>, err: Option<Error>)
    ensures (done, err) == Run(MountSteps(m, present), failed)
  {
    done, err := [], None;
    if m.kind == "volume" && m.name != "" {
      var create := CreateVolume(m.name);
      RunOne(create, failed);
      RunPair(create, ExtractToVolume(m.name, m.name + ".tar.gz", m.name), failed);
      if create in failed {
        return [], Some(Operation("create volume " + m.name, Some(failed[create])));
      }
      done := [create];
      var volTarGz := m.name + ".tar.gz";
      if volTarGz in present {
        var extract := ExtractToVolume(m.name, volTarGz, m.name);
        if extract in failed {
          return done, Some(Operation("restore volume " + m.name, Some(failed[extract])));
        }
        done := done + [extract];
      }
    }
    if m.kind == "bind" && m.source != "" {
      var base := Base(m.source);
      var bindName := "bind_" + SafeNameOf(base);
      var bindTarGz := bindName + ".tar.gz";
      assert bindTarGz == RestoreArchiveName(m);
      if bindTarGz in present {
        var mkdir := MakeBindDir(m.source);
        RunPair(mkdir, ExtractToHost(bindTarGz, m.source, base), failed);
        if mkdir in failed {
          return [], Some(Operation("mkdir bind path " + m.source, Some(failed[mkdir])));
        }
        var extract := ExtractToHost(bindTarGz, m.source, base);
        if extract in failed {
          return [mkdir], Some(Operation("restore bind mount " + m.source, Some(failed[extract])));
        }
        done := [mkdir, extract];
      }
    }
  }

  /** The data loop of Restore: every mount in turn, stopping at the first
      call that fails. */
  method RestoreMounts(mounts: seq<Mount>, present: set<string>, failed: map<MountStep, Error>)
    returns (done: seq<MountStep>, err: Option<Error>)
    ensures (done, err) == Run(AllMountSteps(mounts, present), failed)
  {
    done, err := [], None;
    for i := 0 to |mounts|
      invariant Run(AllMountSteps(mounts[..i], present), failed) == (done, None)
    {
      assert mounts[..i + 1][..i] == mounts[..i];
      RunConcat(AllMountSteps(mounts[..i], present), MountSteps(mounts[i], present), failed);
      var d, e := RestoreMount(mounts[i], present, failed);
      if e.Some? {
        AllMountStepsPrefix(mounts, i + 1, present, failed);
        return done + d, e;
      }
      done := done + d;
    }
    assert mounts[..|mounts|] == mounts;
  }

  lemma AllMountStepsPrefix(mounts: seq<Mount>, i: nat, present: set<string>, failed: map<MountStep, Error>)
    requires i <= |mounts|
    requires Run(AllMountSteps(mounts[..i], present), failed).1.Some?
    ensures Run(AllMountSteps(mounts, present), failed) == Run(AllMountSteps(mounts[..i], present), failed)
  {
    var rest := mounts[i..];
    assert mounts == mounts[..i] + rest;
    AllMountStepsConcat(mounts[..i], rest, present);
    RunConcat(AllMountSteps(mounts[..i], present), AllMountSteps(rest, present), failed);
  }

  lemma {:induction false} AllMountStepsConcat(a: seq<Mount>, b: seq<Mount>, present: set<string>)
    ensures AllMountSteps(a + b, present) == AllMountSteps(a, present) + AllMountSteps(b, present)
    decreases |b|
  {
    if b != [] {
      assert (a + b)[..|a + b| - 1] == a + b[..|b| - 1];
      AllMountStepsConcat(a, b[..|b| - 1], present);
    } else {
      assert a + b == a;
    }
  }

  /** What Backup archived, Restore extracts: a bind mount whose archive
      file is in the backup gets its directory made and that file extracted
      into it, stripping the root Backup wrote it under; so does a named
      volume whose name safeName leaves alone. The file holds this mount's
      own archive only when no later mount of the container was archived
      under the same file name (OnDiskKeeps, SharedBindArchiveRestored). */
  lemma RestoresWhatBackupWrote(m: Mount, present: set<string>)
    requires MountArchive(m).Some? && MountArchive(m).value.file in present
    requires m.kind == "bind" || NoUnsafe(m.name)
    ensures var a := MountArchive(m).value;
            m.kind == "bind" ==> MountSteps(m, present) == [MakeBindDir(m.source), ExtractToHost(a.file, m.source, RootName(a.source))]
    ensures var a := MountArchive(m).value;
            m.kind == "volume" ==> MountSteps(m, present) == [CreateVolume(m.name), ExtractToVolume(m.name, a.file, RootName(a.source))]
  {
    MountArchiveRestorable(m);
  }

  /** Two bind mounts whose sources end in the same element: Backup leaves
      one archive under their shared file name, made from the second
      source, and Restore extracts that file into the first mount's
      directory as well. */
  lemma SharedBindArchiveRestored(m1: Mount, m2: Mount)
    requires m1.kind == "bind" && m1.source != "" && m2.kind == "bind" && m2.source != ""
    requires Base(m1.source) == Base(m2.source)
    ensures var f := MountArchive(m2).value.file;
            var d := OnDisk(MountPlan([m1, m2]));
            && f in d && d[f].source.path == m2.source
            && MountSteps(m1, {f}) == [MakeBindDir(m1.source), ExtractToHost(f, m1.source, Base(m1.source))]
  {
    BindArchiveReplaced(m1, m2);
    MountArchiveRestorable(m1);
  }

  /** A volume whose name has a character safeName replaces is archived
      under another name than the one Restore looks for: with only Backup's
      archive present, Restore creates the volume and leaves it empty. */
  lemma UnsafeVolumeNotRefilled(m: Mount)
    requires m.kind == "volume" && m.name != "" && m.source != "" && !NoUnsafe(m.name)
    ensures MountSteps(m, {MountArchive(m).value.file}) == [CreateVolume(m.name)]
  {
    MountArchiveRestorable(m);
  }

  /** Only volume and bind mounts cause calls, and each only its own. */
  lemma OtherMountsUntouched(m: Mount, present: set<string>)
    requires m.kind != "volume" && m.kind != "bind"
    ensures MountSteps(m, present) == []
  {
  }

  // ---------------------------------------------------------------------
  // The new container's name

  /** The name to create the container under: the requested one, else the
      inspected name without its leading "/". */
  function NewName(inspectName: string, containerName: string): (n: string)
    ensures containerName != "" ==> n == containerName
    ensures containerName == "" && HasPrefix(inspectName, "/") ==> "/" + n == inspectName
    ensures containerName == "" && !HasPrefix(inspectName, "/") ==> n == inspectName
  {
    var n := TrimPrefix(inspectName, "/");
    if containerName != "" then containerName else n
  }

  /** Without a requested name, Restore names the container as
      ParseContainerInfo names the inspected one. */
  lemma NewNameAsParsed(info: ContainerInfo, rest: seq<ContainerInfo>)
    ensures ParseContainerInfo(Some([info] + rest)).Ok?
    ensures NewName(info.name, "") == ParseContainerInfo(Some([info] + rest)).value.name
  {
    assert ([info] + rest)[0] == info;
  }

  /** With ReplaceExisting, the existing container of that name is removed
      first (its failure is ignored); never without a name. */
  function RemoveExistingArgs(opts: RestoreOptions, newName: string): (args: Option<seq<string>>)
    ensures args.Some? <==> opts.replaceExisting && newName != ""
    ensures args.Some? ==> args.value == ["rm", "-f", newName]
  {
    if opts.replaceExisting && newName != "" then Some(["rm", "-f", newName]) else None
  }

  // ---------------------------------------------------------------------
  // Creating the container

  /** The spec-based creation falls back to `docker create` exactly when
      its error's text mentions "not implemented". */
  predicate FallsBack(spec: Result<string, Error>) {
    spec.Err? && Contains(Message(spec.error), NotImplementedText)
  }

  /** The outcome of creating: the spec's container; an error of the spec
      path that does not fall back; else the CLI's container or error. */
  function CreateResult(spec: Result<string, Error>, cli: Result<string, Error>): Result<string, Error> {
    if spec.Ok? then spec
    else if !FallsBack(spec) then Err(Operation("container create from spec", Some(spec.error)))
    else if cli.Err? then Err(Operation("docker create", Some(cli.error)))
    else cli
  }

  /** The create step. `spec` is the outcome of CreateContainerFromSpec,
      `cli` that of the `docker create` command when it is run. The CLI
      is given the mounts as inspected (not the relocated host config),
      the image and the new name; `cliArgs` is its argument list, None when
      it is not run. */
  method CreateContainer(spec: Result<string, Error>, imageRef: string, newName: string,
                         effective: seq<Mount>, cli: Result<string, Error>)
    returns (r: Result<string, Error>, cliArgs: Option<seq<string>>)
    ensures r == CreateResult(spec, cli)
    ensures cliArgs.Some? <==> FallsBack(spec)
    ensures cliArgs.Some? ==> cliArgs.value == ["create"] + DockerClient.NameArgs(newName)
                                               + DockerClient.MountArgs(effective) + [imageRef]
  {
    if spec.Err? && !Contains(Message(spec.error), "not implemented") {
      return Err(Operation("container create from spec", Some(spec.error))), None;
    }
    if spec.Ok? {
      return spec, None;
    }
    var mounts: seq<Mount> := [];
    for i := 0 to |effective|
      invariant mounts == effective[..i]
    {
      var m := effective[i];
      mounts := mounts + [Mount(m.name, m.source, m.destination, m.kind, m.rw)];
    }
    assert effective[..|effective|] == effective;
    var args := DockerClient.CreateContainerArgs(imageRef, newName, mounts);
    cliArgs := Some(args);
    if cli.Err? {
      return Err(Operation("docker create", Some(cli.error))), cliArgs;
    }
    r := cli;
  }

  /** With the CLI client, whose spec-based creation is not implemented,
      every restore creates its container with `docker create`. */
  lemma CliClientFallsBack(newName: string, cli: Result<string, Error>)
    ensures FallsBack(DockerClient.CreateContainerFromSpec(newName))
    ensures CreateResult(DockerClient.CreateContainerFromSpec(newName), cli).Ok? <==> cli.Ok?
  {
  }

  /** ErrNotImplemented still triggers the fallback when wrapped in
      operation errors, and so does any error that mentions the phrase. */
  lemma WrappedNotImplementedFallsBack(e: Error, op: string)
    requires WrapsNotImplemented(e)
    ensures FallsBack(Err(e)) && FallsBack(Err(Operation(op, Some(e))))
  {
    NotImplementedShowsThrough(e);
    NotImplementedShowsThrough(Operation(op, Some(e)));
  }

  lemma UnrelatedFailureFallsBack()
    ensures FallsBack(Err(Failure("driver not implemented")))
  {
    assert OccursAt("driver not implemented", NotImplementedText, 7);
  }

  /** A create error names the path that failed and wraps its error. */
  lemma CreateErrors(spec: Result<string, Error>, cli: Result<string, Error>)
    ensures var r := CreateResult(spec, cli);
            r.Err? ==> (spec.Err? && !FallsBack(spec) && r.error.op == "container create from spec" && Unwrap(r.error) == Some(spec.error))
                       || (FallsBack(spec) && cli.Err? && r.error.op == "docker create" && Unwrap(r.error) == Some(cli.error))
    ensures var r := CreateResult(spec, cli);
            r.Ok? ==> r == spec || (FallsBack(spec) && r == cli)
  {
  }

  // ---------------------------------------------------------------------
  // Starting and waiting

  /** What waiting for health sees at one poll: whether the deadline has
      passed, then the container's status and health. */
  datatype Poll = Poll(expired: bool, status: string, health: string)

  datatype WaitEnd = TimedOut | Stopped(status: string) | Healthy | StillWaiting

  /** The wait is given WaitTimeoutSeconds; none or a negative one means
      two minutes. */
  function TimeoutSeconds(waitTimeoutSeconds: int): (t: int)
    ensures t > 0
    ensures waitTimeoutSeconds > 0 ==> t == waitTimeoutSeconds
  {
    if waitTimeoutSeconds <= 0 then 120 else waitTimeoutSeconds
  }

  predicate Terminal(status: string) {
    status == "exited" || status == "dead" || status == "removing"
  }

  /** How the poll ends the wait, if it does: the deadline first, then a
      container that stopped, then a healthy one. */
  function EndAt(p: Poll): WaitEnd {
    if p.expired then TimedOut
    else if Terminal(p.status) then Stopped(p.status)
    else if p.health == "healthy" then Healthy
    else StillWaiting
  }

  /** The wait over successive polls: it ends at the first poll that ends
      it; StillWaiting when none of the given polls does. */
  function WaitOutcome(polls: seq<Poll>): (r: (WaitEnd, nat))
    ensures r.1 <= |polls|
    ensures forall j :: 0 <= j < r.1 ==> EndAt(polls[j]) == StillWaiting
    ensures r.1 < |polls| ==> r.0 == EndAt(polls[r.1]) && r.0 != StillWaiting
    ensures r.1 == |polls| <==> r.0 == StillWaiting
  {
    if polls == [] then (StillWaiting, 0)
    else if EndAt(polls[0]) != StillWaiting then (EndAt(polls[0]), 0)
    else
      var rest := WaitOutcome(polls[1..]);
      (rest.0, rest.1 + 1)
  }

  /** The polling loop of Restore; `used` is the number of polls made. */
  method WaitHealthy(polls: seq<Poll>) returns (end: WaitEnd, used: nat)
    ensures (end, used) == WaitOutcome(polls)
  {
    used := 0;
    while used < |polls|
      invariant used <= |polls|
      invariant WaitOutcome(polls) == (var r := WaitOutcome(polls[used..]); (r.0, r.1 + used))
    {
      var p := polls[used];
      if p.expired {
        return TimedOut, used;
      }
      if p.status == "exited" || p.status == "dead" || p.status == "removing" {
        return Stopped(p.status), used;
      }
      if p.health == "healthy" {
        return Healthy, used;
      }
      assert polls[used..][1..] == polls[used + 1..];
      used := used + 1;
    }
    end := StillWaiting;
  }

  /** The end of Restore: start the container if asked, then wait for it
      only when asked and when the inspected container had a healthcheck.
      However the wait ends, the result is the new container. */
  method StartAndWait(opts: RestoreOptions, containerID: string, startErr: Option<Error>,
                      hasHealthcheck: bool, polls: seq<Poll>)
    returns (r: Result<string, Error>, waited: bool)
    ensures waited <==> opts.start && startErr.None? && opts.waitHealthy && hasHealthcheck
    ensures r == if opts.start && startErr.Some? then Err(Operation("docker start", startErr)) else Ok(containerID)
  {
    waited := false;
    if opts.start {
      if startErr.Some? {
        return Err(Operation("docker start", startErr)), false;
      }
      if opts.waitHealthy && hasHealthcheck {
        var end, used := WaitHealthy(polls);
        waited := true;
      }
    }
    r := Ok(containerID);
  }

  /** The wait stops at the first poll that sees the deadline passed, a
      stopped container or a healthy one, and never at any other. */
  lemma {:induction false} WaitStopsAtFirst(polls: seq<Poll>, k: nat)
    requires k < |polls| && EndAt(polls[k]) != StillWaiting
    requires forall j :: 0 <= j < k ==> EndAt(polls[j]) == StillWaiting
    ensures WaitOutcome(polls) == (EndAt(polls[k]), k)
    decreases k
  {
    if k > 0 {
      WaitStopsAtFirst(polls[1..], k - 1);
    }
  }
}
