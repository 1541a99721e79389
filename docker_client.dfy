/** pkg/docker/client.go, the CLI client: the argument lists it hands to the
    `docker` command and how it reads that command's standard output.
    Running the command is not part of this model: the output is an input. */
module DockerClient {
  import opened Wrappers
  import opened Strs
  import opened Errors
  import opened DockerTypes

  // ---------------------------------------------------------------------
  // ListVolumes: `docker volume ls --format {{.Name}}`

  /** The trimmed lines that are not blank, in order. */
  function NonBlank(lines: seq<string>): (r: seq<string>)
    ensures forall i :: 0 <= i < |r| ==> r[i] != "" && NoSpaceAtEnds(r[i])
  {
    if lines == [] then []
    else
      var t := TrimSpace(lines[|lines| - 1]);
      NonBlank(lines[..|lines| - 1]) + (if t != "" then [t] else [])
  }

  method ListVolumes(stdout: string) returns (vols: seq<string>)
    ensures vols == NonBlank(Split(TrimSpace(stdout), '\n'))
  {
    var lines := Split(TrimSpace(stdout), '\n');
    vols := [];
    for i := 0 to |lines|
      invariant vols == NonBlank(lines[..i])
    {
      NonBlankStep(lines, i);
      var line := TrimSpace(lines[i]);
      if line != "" {
        vols := vols + [line];
      }
    }
    assert lines[..|lines|] == lines;
  }

  lemma NonBlankStep(lines: seq<string>, i: nat)
    requires i < |lines|
    ensures NonBlank(lines[..i + 1])
         == NonBlank(lines[..i]) + if TrimSpace(lines[i]) != "" then [TrimSpace(lines[i])] else []
  {
    var s := lines[..i + 1];
    assert s[..i] == lines[..i] && s[i] == lines[i];
  }

  /** A word: non-empty, without white space. */
  predicate Word(s: string) {
    s != "" && forall j :: 0 <= j < |s| ==> !IsSpace(s[j])
  }

  lemma WordTrimmed(s: string)
    requires Word(s)
    ensures TrimSpace(s) == s
  {
    assert TrimLeft(s) == s;
    assert TrimRight(s) == s;
  }

  /** A joined list ends with its last part's last character. */
  lemma {:induction false} JoinLast(parts: seq<string>, sep: char)
    requires |parts| >= 1 && parts[|parts| - 1] != ""
    ensures |Join(parts, sep)| > 0
    ensures Join(parts, sep)[|Join(parts, sep)| - 1] == parts[|parts| - 1][|parts[|parts| - 1]| - 1]
  {
    if |parts| > 1 {
      JoinLast(parts[1..], sep);
    }
  }

  lemma JoinFirst(parts: seq<string>, sep: char)
    requires |parts| >= 1 && parts[0] != ""
    ensures |Join(parts, sep)| > 0 && Join(parts, sep)[0] == parts[0][0]
  {
  }

  lemma {:induction false} NonBlankWords(lines: seq<string>)
    requires forall i :: 0 <= i < |lines| ==> Word(lines[i])
    ensures NonBlank(lines) == lines
  {
    if lines != [] {
      NonBlankWords(lines[..|lines| - 1]);
      WordTrimmed(lines[|lines| - 1]);
    }
  }

  /** `docker volume ls` prints one name per line: ListVolumes reads back
      exactly those names, in order. */
  lemma VolumesRoundTrip(names: seq<string>)
    requires |names| >= 1 && forall i :: 0 <= i < |names| ==> Word(names[i])
    ensures NonBlank(Split(TrimSpace(Join(names, '\n') + "\n"), '\n')) == names
  {
    TrimJoined(names);
    assert forall i :: 0 <= i < |names| ==> '\n' !in names[i];
    SplitJoin(names, '\n');
    NonBlankWords(names);
  }

  lemma TrimJoined(names: seq<string>)
    requires |names| >= 1 && forall i :: 0 <= i < |names| ==> Word(names[i])
    ensures TrimSpace(Join(names, '\n') + "\n") == Join(names, '\n')
  {
    var x := Join(names, '\n');
    var first, last := names[0], names[|names| - 1];
    assert Word(first) && Word(last);
    JoinLast(names, '\n');
    JoinFirst(names, '\n');
    assert !IsSpace(first[0]) && !IsSpace(last[|last| - 1]);
    TrimLineEnd(x);
  }

  /** Text that starts and ends with a non-space, then a newline, trims to the text. */
  lemma TrimLineEnd(x: string)
    requires x != [] && !IsSpace(x[0]) && !IsSpace(x[|x| - 1])
    ensures TrimSpace(x + "\n") == x
  {
    TrimLeftKeeps(x + "\n");
    TrimRightDrop(x, '\n');
    TrimRightKeeps(x);
  }

  // ---------------------------------------------------------------------
  // ImportImage: `docker import [tarPath] [ref]`

  /** The non-empty strings, in order. */
  function Present(xs: seq<string>): (r: seq<string>)
    ensures |r| <= |xs| && forall i :: 0 <= i < |r| ==> r[i] != "" && r[i] in xs
  {
    if xs == [] then []
    else Present(xs[..|xs| - 1]) + (if xs[|xs| - 1] != "" then [xs[|xs| - 1]] else [])
  }

  method ImportImageArgs(tarPath: string, ref: string) returns (args: seq<string>)
    ensures args == ["import"] + Present([tarPath, ref])
  {
    assert [tarPath, ref][..1] == [tarPath];
    args := ["import"];
    if tarPath != "" {
      args := args + [tarPath];
    }
    if ref != "" {
      args := args + [ref];
    }
  }

  // ---------------------------------------------------------------------
  // CreateContainer: `docker create [--name name] (-v spec)* image`

  predicate Mountable(m: Mount) {
    m.kind == "bind" || m.kind == "volume"
  }

  function Mode(m: Mount): string {
    if m.rw then "rw" else "ro"
  }

  /** What a -v flag mounts: the host path of a bind; a volume's name, or
      its source when it has none. */
  function VolumeSource(m: Mount): string {
    if m.kind == "volume" && m.name != "" then m.name else m.source
  }

  function MountSpec(m: Mount): string {
    VolumeSource(m) + ":" + m.destination + ":" + Mode(m)
  }

  /** The -v pairs for the mounts, in order; other mount kinds give none. */
  function MountArgs(ms: seq<Mount>): seq<string> {
    if ms == [] then []
    else
      var m := ms[|ms| - 1];
      MountArgs(ms[..|ms| - 1]) + (if Mountable(m) then ["-v", MountSpec(m)] else [])
  }

  function NameArgs(name: string): seq<string> {
    if name != "" then ["--name", name] else []
  }

  method CreateContainerArgs(imageRef: string, name: string, mounts: seq<Mount>) returns (args: seq<string>)
    ensures args == ["create"] + NameArgs(name) + MountArgs(mounts) + [imageRef]
  {
    args := ["create"];
    if name != "" {
      args := args + ["--name", name];
    }
    for i := 0 to |mounts|
      invariant args == ["create"] + NameArgs(name) + MountArgs(mounts[..i])
    {
      assert mounts[..i + 1][..i] == mounts[..i];
      var m := mounts[i];
      var mode := "rw";
      if !m.rw {
        mode := "ro";
      }
      if m.kind == "bind" {
        args := args + ["-v", m.source + ":" + m.destination + ":" + mode];
      } else if m.kind == "volume" {
        var volName := m.name;
        if volName == "" {
          volName := m.source;
        }
        args := args + ["-v", volName + ":" + m.destination + ":" + mode];
      }
    }
    assert mounts[..|mounts|] == mounts;
    args := args + [imageRef];
  }

  /** The mounts that get a -v flag. */
  function Mountables(ms: seq<Mount>): (r: seq<Mount>)
    ensures forall i :: 0 <= i < |r| ==> Mountable(r[i])
  {
    if ms == [] then []
    else Mountables(ms[..|ms| - 1]) + (if Mountable(ms[|ms| - 1]) then [ms[|ms| - 1]] else [])
  }

  /** One "-v spec" pair per bind or volume mount, in mount order. */
  lemma {:induction false} MountArgsPairs(ms: seq<Mount>)
    ensures |MountArgs(ms)| == 2 * |Mountables(ms)|
    ensures forall k :: 0 <= k < |Mountables(ms)| ==>
              MountArgs(ms)[2 * k] == "-v" && MountArgs(ms)[2 * k + 1] == MountSpec(Mountables(ms)[k])
  {
    if ms != [] {
      MountArgsPairs(ms[..|ms| - 1]);
    }
  }

  /** Docker reads a spec back as source, destination and mode; the mode
      is "ro" exactly for read-only mounts. */
  lemma MountSpecParses(m: Mount)
    requires ':' !in VolumeSource(m) && ':' !in m.destination
    ensures Split(MountSpec(m), ':') == [VolumeSource(m), m.destination, Mode(m)]
    ensures Split(MountSpec(m), ':')[2] == "ro" <==> !m.rw
  {
    var parts := [VolumeSource(m), m.destination, Mode(m)];
    assert Join(parts, ':') == MountSpec(m) by {
      assert parts[1..][1..] == [Mode(m)];
      assert Join(parts[1..], ':') == m.destination + [':'] + Mode(m);
      assert Join(parts, ':') == VolumeSource(m) + [':'] + (m.destination + [':'] + Mode(m));
    }
    SplitJoin(parts, ':');
  }

  // ---------------------------------------------------------------------
  // ContainerState: `docker inspect --format "{{.State.Status}} {{health}}"`

  function ContainerState(stdout: string): (string, string) {
    var parts := Fields(TrimSpace(stdout));
    if |parts| == 0 then ("", "")
    else if |parts| == 1 then (parts[0], "")
    else (parts[0], parts[1])
  }

  /** The status and, when there is a health check, the health status are
      read back from the line the format prints. */
  lemma StateRoundTrip(status: string, health: string)
    requires Word(status) && (health == "" || Word(health))
    ensures ContainerState(status + " " + health + "\n") == (status, health)
  {
    StateLineFields(status, health);
  }

  /** The fields of the trimmed line are the status and, when present, the health. */
  lemma StateLineFields(status: string, health: string)
    requires Word(status) && (health == "" || Word(health))
    ensures Fields(TrimSpace(status + " " + health + "\n")) == if health == "" then [status] else [status, health]
  {
    var t := TrimSpace(status + " " + health + "\n");
    TrimmedStateLine(status, health);
    if health == "" {
      assert t == status;
      OneField(status);
    } else {
      assert t == status + " " + health;
      TwoFields(status, health);
    }
  }

  lemma OneField(w: string)
    requires Word(w)
    ensures Fields(w) == [w]
  {
    FieldsOfWordThenSpace(w, "");
    assert w + "" == w;
    assert Fields("") == [];
  }

  lemma TwoFields(a: string, b: string)
    requires Word(a) && Word(b)
    ensures Fields(a + " " + b) == [a] + [b]
  {
    var rest := [' '] + b;
    assert a + " " + b == a + rest;
    OneField(b);
    FieldsSkipSpace(' ', b);
    FieldsOfWordThenSpace(a, rest);
    assert Fields(rest) == [b];
  }

  /** The line trims to the status, followed by a space and the health when there is one. */
  lemma TrimmedStateLine(status: string, health: string)
    requires Word(status) && (health == "" || Word(health))
    ensures TrimSpace(status + " " + health + "\n") == if health == "" then status else status + " " + health
  {
    var text := status + " " + health;
    assert (text + "\n")[0] == status[0];
    TrimLeftKeeps(text + "\n");
    TrimRightDrop(text, '\n');
    if health == "" {
      assert text == status + [' '];
      TrimRightDrop(status, ' ');
      TrimRightKeeps(status);
    } else {
      TrimRightKeeps(text);
    }
  }

  // ---------------------------------------------------------------------
  // ListProjectContainers: `docker ps -a --filter label=... --format "{{.ID}}\t{{.Names}}"`

  function PsArgs(project: string): seq<string> {
    ["ps", "-a", "--filter", "label=com.docker.compose.project=" + project, "--format", "{{.ID}}\t{{.Names}}"]
  }

  /** The compose service of a container: the middle of "project_service_n",
      otherwise the whole name. */
  function ServiceOf(project: string, name: string): string {
    var us := Split(name, '_');
    if |us| >= 3 && us[0] == project then us[1] else name
  }

  /** One output line: skipped when blank or without a tab; otherwise the ID
      before the first tab and the name after it. */
  function LineRef(project: string, line: string): Option<ProjectContainerRef> {
    if TrimSpace(line) == "" then None
    else
      var parts := Split(line, '\t');
      if |parts| < 2 then None
      else
        var name := Join(parts[1..], '\t');
        Some(ProjectContainerRef(ServiceOf(project, name), parts[0], name))
  }

  function ProjectRefs(project: string, lines: seq<string>): seq<ProjectContainerRef> {
    if lines == [] then []
    else
      var r := LineRef(project, lines[|lines| - 1]);
      ProjectRefs(project, lines[..|lines| - 1]) + (if r.Some? then [r.value] else [])
  }

  method ParseProjectContainers(project: string, stdout: string) returns (refs: seq<ProjectContainerRef>)
    ensures refs == ProjectRefs(project, Split(TrimSpace(stdout), '\n'))
  {
    var lines := Split(TrimSpace(stdout), '\n');
    refs := [];
    for i := 0 to |lines|
      invariant refs == ProjectRefs(project, lines[..i])
    {
      assert lines[..i + 1][..i] == lines[..i];
      var line := lines[i];
      if TrimSpace(line) == "" {
        continue;
      }
      var parts := Split(line, '\t');
      if |parts| < 2 {
        continue;
      }
      var id := parts[0];
      var name := Join(parts[1..], '\t');
      var svc := name;
      var us := Split(name, '_');
      if |us| >= 3 && us[0] == project {
        svc := us[1];
      }
      refs := refs + [ProjectContainerRef(svc, id, name)];
    }
    assert lines[..|lines|] == lines;
  }

  /** ListProjectContainers: the arguments of the `docker ps` call and the
      references read from its output. */
  method ListProjectContainers(project: string, stdout: string) returns (args: seq<string>, refs: seq<ProjectContainerRef>)
    ensures args == PsArgs(project)
    ensures refs == ProjectRefs(project, Split(TrimSpace(stdout), '\n'))
  {
    args := PsArgs(project);
    refs := ParseProjectContainers(project, stdout);
  }

  /** ListProjectContainersByLabel runs the same command and reads it the
      same way: the same arguments and references as ListProjectContainers. */
  method ListProjectContainersByLabel(project: string, stdout: string) returns (args: seq<string>, refs: seq<ProjectContainerRef>)
    ensures args == PsArgs(project)
    ensures refs == ProjectRefs(project, Split(TrimSpace(stdout), '\n'))
  {
    args := PsArgs(project);
    refs := ParseProjectContainers(project, stdout);
  }

  /** The line `docker ps` prints for a container reads back as that
      container's ID and name. */
  lemma LineRoundTrip(project: string, id: string, name: string)
    requires Word(id)
    ensures LineRef(project, id + "\t" + name) == Some(ProjectContainerRef(ServiceOf(project, name), id, name))
  {
    var line := id + "\t" + name;
    assert line[0] == id[0];
    assert TrimLeft(line) == line;
    assert TrimSpace(line) != "";
    assert '\t' !in id by {
      assert IsSpace('\t');
    }
    SplitAtSep(id, '\t', name);
    assert id + ['\t'] + name == line;
    JoinSplit(name, '\t');
  }

  /** Compose v1 names containers "project_service_index". */
  lemma ComposeV1Service(project: string, service: string, index: string)
    requires '_' !in project && '_' !in service && '_' !in index
    ensures ServiceOf(project, project + "_" + service + "_" + index) == service
  {
    SplitNoSep(index, '_');
    SplitAtSep(service, '_', index);
    SplitAtSep(project, '_', service + "_" + index);
    assert project + "_" + service + "_" + index == project + ['_'] + (service + ['_'] + index);
  }

  /** A name without underscores (compose v2 joins with "-") is its own service. */
  lemma NoUnderscoreService(project: string, name: string)
    requires '_' !in name
    ensures ServiceOf(project, name) == name
  {
    SplitNoSep(name, '_');
  }

  // ---------------------------------------------------------------------
  // What the CLI client leaves to the SDK client

  /** CreateContainerFromSpec fails with ErrNotImplemented, whatever the spec. */
  function CreateContainerFromSpec(name: string): (r: Result<string, Error>)
    ensures r.Err? && Contains(Message(r.error), NotImplementedText)
  {
    assert OccursAt(Message(NotImplemented), NotImplementedText, 0);
    Err(NotImplemented)
  }

  function EnsureVolume(cfg: VolumeConfig): (r: Option<Error>)
    ensures r.Some? && Contains(Message(r.value), NotImplementedText)
  {
    assert OccursAt(Message(NotImplemented), NotImplementedText, 0);
    Some(NotImplemented)
  }

  function EnsureNetwork(cfg: NetworkConfig): (r: Option<Error>)
    ensures r.Some? && Contains(Message(r.value), NotImplementedText)
  {
    assert OccursAt(Message(NotImplemented), NotImplementedText, 0);
    Some(NotImplemented)
  }
}
