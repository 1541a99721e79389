/** pkg/archive/tar.go: how sources are named inside a tar archive, how an
    archive is listed, and how it is extracted under a destination directory
    without letting any entry escape it. The gzip/tar byte encoding is
    library code: an archive is the sequence of its headers, each carrying
    the bytes that follow it. */
module Archive {
  import opened Wrappers
  import opened Strs
  import opened Paths
  import Lex

  type Byte = b: int | 0 <= b < 256

  /** tar type flags (archive/tar). */
  const TypeRegA: Byte := 0     // '\x00'
  const TypeReg: Byte := 48     // '0'
  const TypeSymlink: Byte := 50 // '2'
  const TypeDir: Byte := 53     // '5'

  /** A tar header together with the file bytes that follow it. */
  datatype Header = Header(name: string, typeflag: Byte, size: int, mode: int, linkname: string, data: seq<Byte>)

  datatype ArchiveSource = ArchiveSource(path: string, destPath: string)

  datatype ArchiveEntry = ArchiveEntry(path: string, size: int, mode: int, kind: string)

  // ---------------------------------------------------------------------
  // The file system the sources are read from

  /** What os.Lstat finds at a path; directory entries are listed in the
      order filepath.WalkDir reads them (by name). */
  datatype Node =
    | File(mode: int, content: seq<Byte>)
    | Link(mode: int, target: string)
    | Directory(mode: int, children: seq<Child>)

  datatype Child = Child(name: string, node: Node)

  type FileSystem = map<string, Node>

  /** Entries of a directory have distinct names that are single path
      elements, listed in byte order of their names as filepath.WalkDir
      reads them. */
  predicate WellFormed(n: Node)
    decreases n
  {
    match n
    case Directory(_, cs) =>
      && (forall i :: 0 <= i < |cs| ==> Plain(cs[i].name))
      && (forall i, j :: 0 <= i < j < |cs| ==> cs[i].name != cs[j].name)
      && (forall i, j :: 0 <= i < j < |cs| ==> Lex.Le(cs[i].name, cs[j].name))
      && (forall i :: 0 <= i < |cs| ==> WellFormed(cs[i].node))
    case _ => true
  }

  predicate FsValid(fs: FileSystem) {
    forall p :: p in fs ==> WellFormed(fs[p])
  }

  /** os.Lstat. */
  function Lstat(fs: FileSystem, p: string): (r: Result<Node, string>)
    ensures r.Ok? <==> p != "" && p in fs
  {
    if p != "" && p in fs then Ok(fs[p]) else Err("lstat " + p + ": no such file or directory")
  }

  /** One node reached by the walk, by its elements below the walk's root. */
  datatype Visit = Visit(rel: seq<string>, node: Node)

  /** filepath.WalkDir: the node itself, then each entry's subtree in order. */
  function Walk(n: Node, rel: seq<string>): (vs: seq<Visit>)
    ensures |vs| >= 1 && vs[0] == Visit(rel, n)
    decreases n, 1
  {
    [Visit(rel, n)] + (if n.Directory? then WalkChildren(n.children, rel) else [])
  }

  function WalkChildren(cs: seq<Child>, rel: seq<string>): seq<Visit>
    decreases cs, 0
  {
    if cs == [] then [] else Walk(cs[0].node, rel + [cs[0].name]) + WalkChildren(cs[1..], rel)
  }

  predicate AllPlain(es: seq<string>) {
    forall i :: 0 <= i < |es| ==> Plain(es[i])
  }

  predicate VisitsPlain(vs: seq<Visit>) {
    forall i :: 0 <= i < |vs| ==> AllPlain(vs[i].rel)
  }

  // ---------------------------------------------------------------------
  // Writing

  /** tar.FileInfoHeader for the node, renamed to `name`, with the file's bytes. */
  function InfoHeader(name: string, n: Node): (h: Header)
    ensures h.name == name
  {
    match n
    case File(mode, content) => Header(name, TypeReg, |content|, mode, "", content)
    case Link(mode, target) => Header(name, TypeSymlink, 0, mode, target, [])
    case Directory(mode, _) => Header(name, TypeDir, 0, mode, "", [])
  }

  /** The name inside the archive of the node at `rel` below the source
      directory `srcPath`: filepath.Rel(srcPath, curr) joined onto rootName. */
  function EntryName(srcPath: string, rootName: string, rel: seq<string>): string
    requires srcPath != "" && AllPlain(rel)
  {
    var curr := if rel == [] then srcPath else JoinPath(srcPath, Unsplit(rel));
    RelOfWalked(srcPath, rel);
    JoinPath(rootName, Rel(srcPath, curr).value)
  }

  /** The header written for one visited node: directories get a trailing "/". */
  function VisitHeader(srcPath: string, rootName: string, v: Visit): Header
    requires srcPath != "" && AllPlain(v.rel)
  {
    var name := EntryName(srcPath, rootName, v.rel);
    if v.node.Directory? then InfoHeader(name + "/", v.node) else InfoHeader(name, v.node)
  }

  /** The header the walk callback writes for a visit. Every walked node
      has plain path elements (WalkPlain), so the second branch is never
      taken; it only makes the function total. */
  function HeaderFor(srcPath: string, rootName: string): Visit -> Header {
    (v: Visit) => if srcPath != "" && AllPlain(v.rel) then VisitHeader(srcPath, rootName, v) else InfoHeader("", v.node)
  }

  /** `f` applied to each visit, in order. */
  function MapVisits(f: Visit -> Header, vs: seq<Visit>): seq<Header> {
    if vs == [] then [] else MapVisits(f, vs[..|vs| - 1]) + [f(vs[|vs| - 1])]
  }

  /** The headers of a walk, in walk order. */
  function WalkHeaders(srcPath: string, rootName: string, vs: seq<Visit>): seq<Header> {
    MapVisits(HeaderFor(srcPath, rootName), vs)
  }

  lemma {:induction false} MapVisitsLength(f: Visit -> Header, vs: seq<Visit>)
    ensures |MapVisits(f, vs)| == |vs|
    decreases |vs|
  {
    if vs != [] {
      MapVisitsLength(f, vs[..|vs| - 1]);
    }
  }

  lemma {:induction false} MapVisitsAt(f: Visit -> Header, vs: seq<Visit>, i: nat)
    requires i < |vs|
    ensures |MapVisits(f, vs)| == |vs| && MapVisits(f, vs)[i] == f(vs[i])
    decreases |vs|
  {
    var n := |vs| - 1;
    MapVisitsLength(f, vs);
    MapVisitsLength(f, vs[..n]);
    if i < n {
      MapVisitsAt(f, vs[..n], i);
      assert vs[..n][i] == vs[i];
    }
  }

  lemma MapVisitsStep(f: Visit -> Header, vs: seq<Visit>, i: nat)
    requires i < |vs|
    ensures MapVisits(f, vs[..i + 1]) == MapVisits(f, vs[..i]) + [f(vs[i])]
  {
    var s := vs[..i + 1];
    assert s[..i] == vs[..i] && s[i] == vs[i];
  }

  /** One header per visited node, in walk order. */
  lemma WalkHeadersAt(srcPath: string, rootName: string, vs: seq<Visit>)
    requires srcPath != "" && VisitsPlain(vs)
    ensures |WalkHeaders(srcPath, rootName, vs)| == |vs|
    ensures forall i :: 0 <= i < |vs| ==> WalkHeaders(srcPath, rootName, vs)[i] == VisitHeader(srcPath, rootName, vs[i])
  {
    var f := HeaderFor(srcPath, rootName);
    MapVisitsLength(f, vs);
    forall i | 0 <= i < |vs| ensures WalkHeaders(srcPath, rootName, vs)[i] == VisitHeader(srcPath, rootName, vs[i]) {
      MapVisitsAt(f, vs, i);
    }
  }

  lemma WalkHeadersStep(srcPath: string, rootName: string, vs: seq<Visit>, i: nat)
    requires srcPath != "" && VisitsPlain(vs) && i < |vs|
    ensures WalkHeaders(srcPath, rootName, vs[..i + 1])
         == WalkHeaders(srcPath, rootName, vs[..i]) + [VisitHeader(srcPath, rootName, vs[i])]
  {
    MapVisitsStep(HeaderFor(srcPath, rootName), vs, i);
  }

  function RootName(src: ArchiveSource): (r: string)
    ensures r != ""
  {
    if src.destPath == "" then Base(src.path) else src.destPath
  }

  /** What addSourceToTar writes for one source: every node of a directory
      source under its root name, or the single file under its name. */
  function SourceHeaders(src: ArchiveSource, fs: FileSystem): Result<seq<Header>, string>
    requires FsValid(fs)
  {
    match Lstat(fs, src.path)
    case Err(e) => Err(e)
    case Ok(n) =>
      if n.Directory? then
        var none: seq<string> := [];
        WalkPlain(n, none);
        Ok(WalkHeaders(src.path, RootName(src), Walk(n, none)))
      else
        Ok([InfoHeader(RootName(src), n)])
  }

  predicate AllSourcesOk(sources: seq<ArchiveSource>, fs: FileSystem)
    requires FsValid(fs)
  {
    forall k :: 0 <= k < |sources| ==> SourceHeaders(sources[k], fs).Ok?
  }

  /** The archive of the sources, in order. */
  function AllHeaders(sources: seq<ArchiveSource>, fs: FileSystem): seq<Header>
    requires FsValid(fs) && AllSourcesOk(sources, fs)
  {
    if sources == [] then []
    else AllHeaders(sources[..|sources| - 1], fs) + SourceHeaders(sources[|sources| - 1], fs).value
  }

  /** tar.Writer, as the entries written so far; the bytes written after
      a header belong to that header's entry. */
  class TarWriter {
    var written: seq<Header>

    constructor()
      ensures written == []
    {
      written := [];
    }

    method WriteHeader(h: Header)
      modifies this
      ensures written == old(written) + [h]
    {
      written := written + [h];
    }

    /** Write: bytes of the entry whose header was written last. */
    method Write(bytes: seq<Byte>)
      requires written != []
      modifies this
      ensures var n := |old(written)| - 1;
              written == old(written)[..n] + [old(written)[n].(data := old(written)[n].data + bytes)]
    {
      var n := |written| - 1;
      written := written[..n] + [written[n].(data := written[n].data + bytes)];
    }
  }

  // ---------------------------------------------------------------------
  // What can go wrong while writing

  /** context.Context as archive creation polls it with ctx.Done(): it
      reports done from poll number cancelAt on (never, when None). */
  class Context {
    const cancelAt: Option<nat>
    var polls: nat

    constructor(cancelAt: Option<nat>)
      ensures this.cancelAt == cancelAt && polls == 0
    {
      this.cancelAt := cancelAt;
      polls := 0;
    }

    method Done() returns (done: bool)
      modifies this
      ensures polls == old(polls) + 1
      ensures done == DoneAt(cancelAt, old(polls))
    {
      done := cancelAt.Some? && polls >= cancelAt.value;
      polls := polls + 1;
    }
  }

  /** Whether poll number `poll` finds the context done; once done, it stays done. */
  predicate DoneAt(cancelAt: Option<nat>, poll: nat) {
    cancelAt.Some? && poll >= cancelAt.value
  }

  /** What the operating system may answer for a path while an archive is
      written, besides what the file system holds: os.Lstat failing, the
      walk failing to read a directory's entries (after the directory's
      header is written), os.Readlink failing, os.Open failing (after the
      file's header is written), or io.Copy failing after `copied` bytes. */
  datatype Fault =
    | LstatFault(err: string)
    | ReadDirFault(err: string)
    | ReadlinkFault(err: string)
    | OpenFault(err: string)
    | CopyFault(err: string, copied: nat)

  type Faults = map<string, Fault>

  /** One poll of the context during archive creation: the one
      addSourceToTar makes before a source, or the one the walk callback
      makes at a visited node of a directory source. */
  datatype Poll =
    | SourcePoll(src: ArchiveSource)
    | VisitPoll(srcPath: string, rootName: string, v: Visit)

  /** What one step appends to the archive, and the error it returns. */
  datatype Effect = Effect(out: seq<Header>, err: Option<string>)

  /** The path WalkDir hands the callback for the node at `rel`. */
  function VisitPath(srcPath: string, rel: seq<string>): string {
    if rel == [] then srcPath else JoinPath(srcPath, Unsplit(rel))
  }

  /** The steps of one source: its own poll, then one per walked node when
      it is a directory. */
  function SourcePolls(src: ArchiveSource, fs: FileSystem): (ss: seq<Poll>)
    ensures |ss| >= 1 && ss[0] == SourcePoll(src)
  {
    var none: seq<string> := [];
    match Lstat(fs, src.path)
    case Ok(n) =>
      if n.Directory? then [SourcePoll(src)] + VisitPolls(src.path, RootName(src), Walk(n, none)) else [SourcePoll(src)]
    case Err(_) => [SourcePoll(src)]
  }

  function VisitPolls(srcPath: string, rootName: string, vs: seq<Visit>): (ss: seq<Poll>)
    ensures |ss| == |vs|
  {
    seq(|vs|, i requires 0 <= i < |vs| => VisitPoll(srcPath, rootName, vs[i]))
  }

  /** `f` applied to each source, the results concatenated in order. */
  function ConcatMap(f: ArchiveSource -> seq<Poll>, sources: seq<ArchiveSource>): seq<Poll> {
    if sources == [] then [] else ConcatMap(f, sources[..|sources| - 1]) + f(sources[|sources| - 1])
  }

  /** The steps of all sources, in order. */
  function Polls(sources: seq<ArchiveSource>, fs: FileSystem): seq<Poll> {
    ConcatMap((src: ArchiveSource) => SourcePolls(src, fs), sources)
  }

  /** writeFileOrSymlinkToTar: a symlink entry records the target
      os.Readlink gives; a file's header is written before the file is
      opened and its bytes copied, so a failure there leaves the header
      with the bytes copied so far. */
  function FileEffect(path: string, n: Node, name: string, faults: Faults): Effect {
    var h := InfoHeader(name, n);
    if n.Link? then
      if path in faults && faults[path].ReadlinkFault? then Effect([], Some(faults[path].err)) else Effect([h], None)
    else if path in faults && faults[path].OpenFault? then
      Effect([h.(data := [])], Some(faults[path].err))
    else if path in faults && faults[path].CopyFault? then
      var k := if faults[path].copied < |h.data| then faults[path].copied else |h.data|;
      Effect([h.(data := h.data[..k])], Some(faults[path].err))
    else
      Effect([h], None)
  }

  /** The walk callback at a visited node, once the context is found not done. */
  function VisitEffect(srcPath: string, rootName: string, v: Visit, faults: Faults): Effect {
    var curr := VisitPath(srcPath, v.rel);
    var h := HeaderFor(srcPath, rootName)(v);
    if curr in faults && faults[curr].LstatFault? then Effect([], Some(faults[curr].err))
    else if v.node.Directory? then
      if curr in faults && faults[curr].ReadDirFault? then Effect([h], Some(faults[curr].err)) else Effect([h], None)
    else FileEffect(curr, v.node, h.name, faults)
  }

  /** addSourceToTar after its poll: a directory writes nothing yet (its
      walk's steps follow), anything else is written as one entry. */
  function SourceEffect(src: ArchiveSource, fs: FileSystem, faults: Faults): Effect {
    if src.path in faults && src.path != "" && faults[src.path].LstatFault? then Effect([], Some(faults[src.path].err))
    else
      match Lstat(fs, src.path)
      case Err(e) => Effect([], Some(e))
      case Ok(n) => if n.Directory? then Effect([], None) else FileEffect(src.path, n, RootName(src), faults)
  }

  /** One step, given what its poll finds. */
  function PollEffect(s: Poll, fs: FileSystem, faults: Faults, done: bool): Effect {
    if done then Effect([], Some(ContextCanceled))
    else
      match s
      case SourcePoll(src) => SourceEffect(src, fs, faults)
      case VisitPoll(srcPath, rootName, v) => VisitEffect(srcPath, rootName, v, faults)
  }

  /** What a step does at a given poll number, on this file system, with
      these faults and this context. */
  function Effects(fs: FileSystem, faults: Faults, cancelAt: Option<nat>): (Poll, nat) -> Effect {
    (s: Poll, poll: nat) => PollEffect(s, fs, faults, DoneAt(cancelAt, poll))
  }

  /** `b` after `a`, unless `a` failed. */
  function Then(a: Effect, b: Effect): Effect {
    if a.err.Some? then a else Effect(a.out + b.out, b.err)
  }

  /** The steps run one after another, their polls numbered from p0: what
      is written, and the first error, after which nothing more runs. */
  function Run(eff: (Poll, nat) -> Effect, steps: seq<Poll>, p0: nat): Effect {
    if steps == [] then Effect([], None)
    else
      var n := |steps| - 1;
      Then(Run(eff, steps[..n], p0), eff(steps[n], p0 + n))
  }

  // ---------------------------------------------------------------------
  // Creating an archive

  const NoSources := "no sources provided for archive creation"

  /** CreateArchive: fails before writing anything when there are no
      sources; otherwise runs the steps of every source in turn and stops
      at the first failure or cancellation, leaving what was written. */
  method CreateArchive(ctx: Context, sources: seq<ArchiveSource>, fs: FileSystem, faults: Faults)
    returns (r: Result<(), string>, written: seq<Header>)
    requires FsValid(fs)
    modifies ctx
    ensures sources == [] ==> r == Err(NoSources) && written == []
    ensures sources != [] ==>
      var e := Run(Effects(fs, faults, ctx.cancelAt), Polls(sources, fs), old(ctx.polls));
      written == e.out && (r.Ok? <==> e.err.None?) && (r.Err? ==> e.err == Some(r.error))
  {
    if |sources| == 0 {
      return Err(NoSources), [];
    }
    var tw := new TarWriter();
    ghost var eff := Effects(fs, faults, ctx.cancelAt);
    ghost var p0 := ctx.polls;
    var i := 0;
    while i < |sources|
      invariant 0 <= i <= |sources|
      invariant ctx.polls == p0 + |Polls(sources[..i], fs)|
      invariant Run(eff, Polls(sources[..i], fs), p0) == Effect(tw.written, None)
    {
      ghost var prev := tw.written;
      ghost var q := ctx.polls;
      var err := AddSourceToTar(ctx, tw, sources[i], fs, faults);
      SourcesStep(eff, sources, i, fs, p0, q, prev, tw.written);
      if err.Some? {
        return Err(err.value), tw.written;
      }
      i := i + 1;
    }
    assert sources[..i] == sources;
    return Ok(()), tw.written;
  }

  lemma SourcesStep(eff: (Poll, nat) -> Effect, sources: seq<ArchiveSource>, i: nat, fs: FileSystem, p0: nat, q: nat,
                    prev: seq<Header>, written: seq<Header>)
    requires i < |sources| && q == p0 + |Polls(sources[..i], fs)|
    requires Run(eff, Polls(sources[..i], fs), p0) == Effect(prev, None)
    requires written == prev + Run(eff, SourcePolls(sources[i], fs), q).out
    ensures var e := Run(eff, SourcePolls(sources[i], fs), q);
            && (e.err.None? ==> Run(eff, Polls(sources[..i + 1], fs), p0) == Effect(written, None)
                                && |Polls(sources[..i + 1], fs)| == |Polls(sources[..i], fs)| + |SourcePolls(sources[i], fs)|)
            && (e.err.Some? ==> Run(eff, Polls(sources, fs), p0) == Effect(written, e.err))
  {
    PollsSnoc(sources, i, fs);
    RunConcat(eff, Polls(sources[..i], fs), SourcePolls(sources[i], fs), p0);
    if Run(eff, SourcePolls(sources[i], fs), q).err.Some? {
      SourcesPrefixFails(eff, sources, i + 1, fs, p0);
    }
  }

  /** addSourceToTar: polls the context, then writes a directory source by
      walking it and anything else as a single entry. */
  method AddSourceToTar(ctx: Context, tw: TarWriter, src: ArchiveSource, fs: FileSystem, faults: Faults)
    returns (err: Option<string>)
    requires FsValid(fs)
    modifies ctx, tw
    ensures var e := Run(Effects(fs, faults, ctx.cancelAt), SourcePolls(src, fs), old(ctx.polls));
            tw.written == old(tw.written) + e.out && err == e.err
    ensures err.None? ==> ctx.polls == old(ctx.polls) + |SourcePolls(src, fs)|
  {
    ghost var p0 := ctx.polls;
    var done := ctx.Done();
    if done {
      SourceRunStops(src, fs, faults, ctx.cancelAt, p0, Effect([], Some(ContextCanceled)));
      return Some(ContextCanceled);
    }
    if src.path in faults && src.path != "" && faults[src.path].LstatFault? {
      SourceRunStops(src, fs, faults, ctx.cancelAt, p0, Effect([], Some(faults[src.path].err)));
      return Some(faults[src.path].err);
    }
    var info := Lstat(fs, src.path);
    if info.Err? {
      SourceRunStops(src, fs, faults, ctx.cancelAt, p0, Effect([], Some(info.error)));
      return Some(info.error);
    }
    var n := info.value;
    if n.Directory? {
      err := WalkSource(ctx, tw, src, n, fs, faults, p0);
      return;
    }
    var nameInTar := src.destPath;
    if nameInTar == "" {
      nameInTar := Base(src.path);
    }
    SourceRunFile(src, fs, faults, ctx.cancelAt, p0);
    err := WriteFileOrSymlinkToTar(tw, src.path, n, nameInTar, faults);
  }

  /** The directory branch of addSourceToTar, after its poll (number p0):
      filepath.WalkDir under the source's root name. */
  method WalkSource(ctx: Context, tw: TarWriter, src: ArchiveSource, n: Node, fs: FileSystem, faults: Faults, ghost p0: nat)
    returns (err: Option<string>)
    requires FsValid(fs) && Lstat(fs, src.path) == Ok(n) && n.Directory?
    requires !DoneAt(ctx.cancelAt, p0) && !(src.path in faults && src.path != "" && faults[src.path].LstatFault?)
    requires ctx.polls == p0 + 1
    modifies ctx, tw
    ensures var e := Run(Effects(fs, faults, ctx.cancelAt), SourcePolls(src, fs), p0);
            tw.written == old(tw.written) + e.out && err == e.err
    ensures err.None? ==> ctx.polls == p0 + |SourcePolls(src, fs)|
  {
    var rootName := src.destPath;
    if rootName == "" {
      rootName := Base(src.path);
    }
    var none: seq<string> := [];
    WalkPlain(n, none);
    SourceRunWalks(src, fs, faults, ctx.cancelAt, p0);
    err := WriteWalk(ctx, tw, src.path, rootName, Walk(n, none), fs, faults);
  }

  /** A source whose poll finds the context done, or whose own step
      fails, ends the run there. */
  lemma SourceRunStops(src: ArchiveSource, fs: FileSystem, faults: Faults, cancelAt: Option<nat>, p0: nat, e: Effect)
    requires e.err.Some?
    requires if DoneAt(cancelAt, p0) then e == Effect([], Some(ContextCanceled)) else e == SourceEffect(src, fs, faults)
    ensures Run(Effects(fs, faults, cancelAt), SourcePolls(src, fs), p0) == e
  {
    RunFirstCases(Effects(fs, faults, cancelAt), SourcePolls(src, fs), p0);
  }

  /** A directory source, once polled, runs its walk. */
  lemma SourceRunWalks(src: ArchiveSource, fs: FileSystem, faults: Faults, cancelAt: Option<nat>, p0: nat)
    requires !DoneAt(cancelAt, p0) && !(src.path in faults && src.path != "" && faults[src.path].LstatFault?)
    requires Lstat(fs, src.path).Ok? && Lstat(fs, src.path).value.Directory?
    ensures var none: seq<string> := [];
            var visits := Walk(Lstat(fs, src.path).value, none);
            && |SourcePolls(src, fs)| == 1 + |visits|
            && Run(Effects(fs, faults, cancelAt), SourcePolls(src, fs), p0)
               == Run(Effects(fs, faults, cancelAt), VisitPolls(src.path, RootName(src), visits), p0 + 1)
  {
    RunFirstCases(Effects(fs, faults, cancelAt), SourcePolls(src, fs), p0);
  }

  /** Any other source, once polled, is written as one entry. */
  lemma SourceRunFile(src: ArchiveSource, fs: FileSystem, faults: Faults, cancelAt: Option<nat>, p0: nat)
    requires !DoneAt(cancelAt, p0) && !(src.path in faults && src.path != "" && faults[src.path].LstatFault?)
    requires Lstat(fs, src.path).Ok? && !Lstat(fs, src.path).value.Directory?
    ensures |SourcePolls(src, fs)| == 1
    ensures Run(Effects(fs, faults, cancelAt), SourcePolls(src, fs), p0)
         == FileEffect(src.path, Lstat(fs, src.path).value, RootName(src), faults)
  {
    RunFirstCases(Effects(fs, faults, cancelAt), SourcePolls(src, fs), p0);
  }

  /** A run whose first step fails is that step; one whose first step
      writes nothing and succeeds is the run of the rest. */
  lemma RunFirstCases(eff: (Poll, nat) -> Effect, steps: seq<Poll>, p0: nat)
    requires steps != []
    ensures eff(steps[0], p0).err.Some? ==> Run(eff, steps, p0) == eff(steps[0], p0)
    ensures eff(steps[0], p0) == Effect([], None) ==> Run(eff, steps, p0) == Run(eff, steps[1..], p0 + 1)
    ensures |steps| == 1 ==> Run(eff, steps, p0) == eff(steps[0], p0)
  {
    RunFirst(eff, steps, p0);
    if |steps| == 1 {
      assert steps[1..] == [];
    }
  }

  /** filepath.WalkDir with addSourceToTar's callback, over the visited
      nodes in walk order, until the callback returns an error. */
  method WriteWalk(ctx: Context, tw: TarWriter, srcPath: string, rootName: string, visits: seq<Visit>,
                   fs: FileSystem, faults: Faults)
    returns (err: Option<string>)
    requires srcPath != "" && VisitsPlain(visits)
    modifies ctx, tw
    ensures var e := Run(Effects(fs, faults, ctx.cancelAt), VisitPolls(srcPath, rootName, visits), old(ctx.polls));
            tw.written == old(tw.written) + e.out && err == e.err
    ensures err.None? ==> ctx.polls == old(ctx.polls) + |visits|
  {
    ghost var eff := Effects(fs, faults, ctx.cancelAt);
    ghost var p0 := ctx.polls;
    ghost var steps := VisitPolls(srcPath, rootName, visits);
    var i := 0;
    while i < |visits|
      invariant 0 <= i <= |visits|
      invariant ctx.polls == p0 + i
      invariant WalkedSoFar(tw.written, old(tw.written), eff, steps, i, p0)
    {
      ghost var prev := tw.written;
      ghost var q := ctx.polls;
      assert steps[i] == VisitPoll(srcPath, rootName, visits[i]);
      err := WriteVisit(ctx, tw, srcPath, rootName, visits[i], fs, faults);
      WalkedStep(old(tw.written), prev, tw.written, eff, steps, i, p0, q);
      if err.Some? {
        return;
      }
      i := i + 1;
    }
    assert steps[..i] == steps;
    return None;
  }

  ghost predicate WalkedSoFar(written: seq<Header>, before: seq<Header>, eff: (Poll, nat) -> Effect,
                              steps: seq<Poll>, i: nat, p0: nat)
    requires i <= |steps|
  {
    var e := Run(eff, steps[..i], p0);
    written == before + e.out && e.err.None?
  }

  lemma WalkedStep(before: seq<Header>, prev: seq<Header>, written: seq<Header>, eff: (Poll, nat) -> Effect,
                    steps: seq<Poll>, i: nat, p0: nat, q: nat)
    requires i < |steps| && q == p0 + i && WalkedSoFar(prev, before, eff, steps, i, p0)
    requires written == prev + eff(steps[i], q).out
    ensures eff(steps[i], q).err.None? ==> WalkedSoFar(written, before, eff, steps, i + 1, p0)
    ensures eff(steps[i], q).err.Some? ==>
              written == before + Run(eff, steps, p0).out && Run(eff, steps, p0).err == eff(steps[i], q).err
  {
    RunStep(eff, steps, i, p0);
    if eff(steps[i], p0 + i).err.Some? {
      RunPrefixFails(eff, steps, i + 1, p0);
    }
  }

  /** One call of the callback: the context poll, the entry's name inside
      the archive, os.Lstat, then a directory header or the file or symlink
      entry. */
  method WriteVisit(ctx: Context, tw: TarWriter, srcPath: string, rootName: string, v: Visit,
                    fs: FileSystem, faults: Faults)
    returns (err: Option<string>)
    requires srcPath != "" && AllPlain(v.rel)
    modifies ctx, tw
    ensures ctx.polls == old(ctx.polls) + 1
    ensures var e := Effects(fs, faults, ctx.cancelAt)(VisitPoll(srcPath, rootName, v), old(ctx.polls));
            tw.written == old(tw.written) + e.out && err == e.err
  {
    var done := ctx.Done();
    if done {
      return Some(ContextCanceled);
    }
    var curr := VisitPath(srcPath, v.rel);
    var name := EntryName(srcPath, rootName, v.rel);
    if curr in faults && faults[curr].LstatFault? {
      return Some(faults[curr].err);
    }
    if v.node.Directory? {
      tw.WriteHeader(InfoHeader(name + "/", v.node));
      if curr in faults && faults[curr].ReadDirFault? {
        return Some(faults[curr].err);
      }
      return None;
    }
    err := WriteFileOrSymlinkToTar(tw, curr, v.node, name, faults);
  }

  /** writeFileOrSymlinkToTar for the node at `path`. */
  method WriteFileOrSymlinkToTar(tw: TarWriter, path: string, n: Node, nameInTar: string, faults: Faults)
    returns (err: Option<string>)
    requires !n.Directory?
    modifies tw
    ensures tw.written == old(tw.written) + FileEffect(path, n, nameInTar, faults).out
    ensures err == FileEffect(path, n, nameInTar, faults).err
  {
    if n.Link? {
      if path in faults && faults[path].ReadlinkFault? {
        return Some(faults[path].err);
      }
      tw.WriteHeader(Header(nameInTar, TypeSymlink, 0, n.mode, n.target, []));
      return None;
    }
    var h := Header(nameInTar, TypeReg, |n.content|, n.mode, "", []);
    tw.WriteHeader(h);
    assert (old(tw.written) + [h])[..|old(tw.written)|] == old(tw.written);
    if path in faults && faults[path].OpenFault? {
      return Some(faults[path].err);
    }
    if path in faults && faults[path].CopyFault? {
      var k := if faults[path].copied < |n.content| then faults[path].copied else |n.content|;
      tw.Write(n.content[..k]);
      assert [] + n.content[..k] == n.content[..k];
      return Some(faults[path].err);
    }
    tw.Write(n.content);
    assert [] + n.content == n.content;
    return None;
  }

  // ---------------------------------------------------------------------
  // Properties of a run

  lemma RunStep(eff: (Poll, nat) -> Effect, steps: seq<Poll>, i: nat, p0: nat)
    requires i < |steps|
    ensures Run(eff, steps[..i + 1], p0) == Then(Run(eff, steps[..i], p0), eff(steps[i], p0 + i))
  {
    assert steps[..i + 1][..i] == steps[..i];
  }

  /** The first step runs first. */
  lemma RunFirst(eff: (Poll, nat) -> Effect, steps: seq<Poll>, p0: nat)
    requires steps != []
    ensures Run(eff, steps, p0) == Then(eff(steps[0], p0), Run(eff, steps[1..], p0 + 1))
  {
    assert steps == [steps[0]] + steps[1..];
    RunConcat(eff, [steps[0]], steps[1..], p0);
    assert [steps[0]][..0] == [];
  }

  lemma ThenAssoc(a: Effect, b: Effect, c: Effect)
    ensures Then(Then(a, b), c) == Then(a, Then(b, c))
  {
  }

  /** Running two step lists one after the other. */
  lemma {:induction false} RunConcat(eff: (Poll, nat) -> Effect, a: seq<Poll>, b: seq<Poll>, p0: nat)
    ensures Run(eff, a + b, p0) == Then(Run(eff, a, p0), Run(eff, b, p0 + |a|))
    decreases |b|
  {
    if b == [] {
      assert a + b == a;
    } else {
      var n := |b| - 1;
      assert (a + b)[..|a + b| - 1] == a + b[..n];
      RunConcat(eff, a, b[..n], p0);
      ThenAssoc(Run(eff, a, p0), Run(eff, b[..n], p0 + |a|), eff(b[n], p0 + |a| + n));
    }
  }

  /** Once a prefix fails, the steps after it change nothing. */
  lemma RunPrefixFails(eff: (Poll, nat) -> Effect, steps: seq<Poll>, k: nat, p0: nat)
    requires k <= |steps| && Run(eff, steps[..k], p0).err.Some?
    ensures Run(eff, steps, p0) == Run(eff, steps[..k], p0)
  {
    assert steps == steps[..k] + steps[k..];
    RunConcat(eff, steps[..k], steps[k..], p0);
  }

  lemma {:induction false} ConcatMapConcat(f: ArchiveSource -> seq<Poll>, a: seq<ArchiveSource>, b: seq<ArchiveSource>)
    ensures ConcatMap(f, a + b) == ConcatMap(f, a) + ConcatMap(f, b)
    decreases |b|
  {
    if b == [] {
      assert a + b == a;
    } else {
      assert (a + b)[..|a + b| - 1] == a + b[..|b| - 1];
      ConcatMapConcat(f, a, b[..|b| - 1]);
    }
  }

  lemma PollsSnoc(sources: seq<ArchiveSource>, i: nat, fs: FileSystem)
    requires i < |sources|
    ensures Polls(sources[..i + 1], fs) == Polls(sources[..i], fs) + SourcePolls(sources[i], fs)
  {
    assert sources[..i + 1][..i] == sources[..i];
  }

  /** Once the first k sources fail, the later ones change nothing. */
  lemma SourcesPrefixFails(eff: (Poll, nat) -> Effect, sources: seq<ArchiveSource>, k: nat, fs: FileSystem, p0: nat)
    requires k <= |sources| && Run(eff, Polls(sources[..k], fs), p0).err.Some?
    ensures Run(eff, Polls(sources, fs), p0) == Run(eff, Polls(sources[..k], fs), p0)
  {
    assert sources == sources[..k] + sources[k..];
    ConcatMapConcat((src: ArchiveSource) => SourcePolls(src, fs), sources[..k], sources[k..]);
    RunConcat(eff, Polls(sources[..k], fs), Polls(sources[k..], fs), p0);
  }

  /** Step k is where the run fails: the steps before it all succeed, it
      fails, and the run's output and error are those of the steps before
      it followed by its own. */
  ghost predicate FailsAt(eff: (Poll, nat) -> Effect, steps: seq<Poll>, p0: nat, k: nat) {
    && k < |steps|
    && Run(eff, steps[..k], p0).err.None?
    && eff(steps[k], p0 + k).err.Some?
    && Run(eff, steps, p0) == Then(Run(eff, steps[..k], p0), eff(steps[k], p0 + k))
  }

  /** Writing stops at the first step that fails: what was written before
      it stays, followed by whatever that step wrote before failing (a
      header whose file could not be opened or copied, a directory header
      whose entries could not be read), and its error is returned. */
  lemma {:induction false} RunStopsAtFirstFailure(eff: (Poll, nat) -> Effect, steps: seq<Poll>, p0: nat)
    requires Run(eff, steps, p0).err.Some?
    ensures exists k :: FailsAt(eff, steps, p0, k)
    decreases |steps|
  {
    var n := |steps| - 1;
    var front := steps[..n];
    if Run(eff, front, p0).err.Some? {
      RunStopsAtFirstFailure(eff, front, p0);
      var k :| FailsAt(eff, front, p0, k);
      FailsAtSnoc(eff, steps, p0, k);
    } else {
      assert steps[..n] == front;
      assert FailsAt(eff, steps, p0, n);
    }
  }

  lemma FailsAtSnoc(eff: (Poll, nat) -> Effect, steps: seq<Poll>, p0: nat, k: nat)
    requires steps != [] && FailsAt(eff, steps[..|steps| - 1], p0, k)
    ensures FailsAt(eff, steps, p0, k)
  {
    var front := steps[..|steps| - 1];
    assert front[..k] == steps[..k] && front[k] == steps[k];
  }

  /** A run succeeds exactly when none of its steps fails. */
  lemma {:induction false} RunOk(eff: (Poll, nat) -> Effect, steps: seq<Poll>, p0: nat)
    ensures Run(eff, steps, p0).err.None? <==> forall k :: 0 <= k < |steps| ==> eff(steps[k], p0 + k).err.None?
    decreases |steps|
  {
    if steps != [] {
      var n := |steps| - 1;
      RunOk(eff, steps[..n], p0);
      assert forall k :: 0 <= k < n ==> steps[..n][k] == steps[k];
    }
  }

  /** Polls whose polls all fail with error e write nothing and return e. */
  lemma {:induction false} RunAllFail(eff: (Poll, nat) -> Effect, steps: seq<Poll>, p0: nat, e: string)
    requires steps != []
    requires forall s: Poll, poll: nat :: poll >= p0 ==> eff(s, poll) == Effect([], Some(e))
    ensures Run(eff, steps, p0) == Effect([], Some(e))
    decreases |steps|
  {
    var n := |steps| - 1;
    if n > 0 {
      RunAllFail(eff, steps[..n], p0, e);
    }
  }

  /** A context that becomes done at poll c, within the run, makes the run
      fail; nothing is written from that poll on, and if nothing failed
      before it, the error is the context's. */
  lemma CanceledRunFails(steps: seq<Poll>, fs: FileSystem, faults: Faults, c: nat, p0: nat)
    requires p0 <= c < p0 + |steps|
    ensures Run(Effects(fs, faults, Some(c)), steps, p0).err.Some?
    ensures var before := Run(Effects(fs, faults, Some(c)), steps[..c - p0], p0);
            before.err.None? ==> Run(Effects(fs, faults, Some(c)), steps, p0) == Effect(before.out, Some(ContextCanceled))
  {
    var eff := Effects(fs, faults, Some(c));
    var k := c - p0;
    assert steps == steps[..k] + steps[k..];
    RunConcat(eff, steps[..k], steps[k..], p0);
    RunAllFail(eff, steps[k..], p0 + k, ContextCanceled);
  }

  /** A file that cannot be opened leaves its header, declaring the file's
      size, with no bytes after it. */
  lemma OpenFailureLeavesHeader(path: string, mode: int, content: seq<Byte>, name: string, faults: Faults)
    requires path in faults && faults[path].OpenFault?
    ensures FileEffect(path, File(mode, content), name, faults)
         == Effect([Header(name, TypeReg, |content|, mode, "", [])], Some(faults[path].err))
  {
  }

  // ---------------------------------------------------------------------
  // Without faults or cancellation: the archive of the sources

  function AsEffect(r: Result<seq<Header>, string>): Effect {
    match r
    case Ok(hs) => Effect(hs, None)
    case Err(e) => Effect([], Some(e))
  }

  lemma HeaderForInfo(srcPath: string, rootName: string, v: Visit)
    requires !v.node.Directory?
    ensures HeaderFor(srcPath, rootName)(v) == InfoHeader(HeaderFor(srcPath, rootName)(v).name, v.node)
  {
    if srcPath != "" && AllPlain(v.rel) {
      var name := EntryName(srcPath, rootName, v.rel);
      assert HeaderFor(srcPath, rootName)(v) == InfoHeader(name, v.node);
    }
  }

  /** Without faults, a visit writes the header HeaderFor gives it. */
  lemma VisitRunsClean(srcPath: string, rootName: string, v: Visit)
    ensures VisitEffect(srcPath, rootName, v, map[]) == Effect([HeaderFor(srcPath, rootName)(v)], None)
  {
    if !v.node.Directory? {
      HeaderForInfo(srcPath, rootName, v);
    }
  }

  /** Every visit of a walk writes its header, in walk order. */
  lemma {:induction false} WalkRunsClean(srcPath: string, rootName: string, vs: seq<Visit>, fs: FileSystem, p0: nat)
    ensures Run(Effects(fs, map[], None), VisitPolls(srcPath, rootName, vs), p0) == Effect(WalkHeaders(srcPath, rootName, vs), None)
    decreases |vs|
  {
    if vs != [] {
      var n := |vs| - 1;
      var steps := VisitPolls(srcPath, rootName, vs);
      assert steps[..n] == VisitPolls(srcPath, rootName, vs[..n]);
      WalkRunsClean(srcPath, rootName, vs[..n], fs, p0);
      VisitRunsClean(srcPath, rootName, vs[n]);
      var eff := Effects(fs, map[], None);
      assert Run(eff, steps, p0) == Then(Run(eff, steps[..n], p0), eff(steps[n], p0 + n));
      assert eff(steps[n], p0 + n) == VisitEffect(srcPath, rootName, vs[n], map[]);
      assert WalkHeaders(srcPath, rootName, vs) == WalkHeaders(srcPath, rootName, vs[..n]) + [HeaderFor(srcPath, rootName)(vs[n])];
    }
  }

  /** One source writes exactly SourceHeaders, or fails with its error. */
  lemma SourceRunsClean(src: ArchiveSource, fs: FileSystem, p0: nat)
    requires FsValid(fs)
    ensures Run(Effects(fs, map[], None), SourcePolls(src, fs), p0) == AsEffect(SourceHeaders(src, fs))
  {
    if Lstat(fs, src.path).Ok? && Lstat(fs, src.path).value.Directory? {
      DirectoryRunsClean(src, fs, p0);
    } else {
      SingleRunsClean(src, fs, p0);
    }
  }

  lemma DirectoryRunsClean(src: ArchiveSource, fs: FileSystem, p0: nat)
    requires FsValid(fs) && Lstat(fs, src.path).Ok? && Lstat(fs, src.path).value.Directory?
    ensures Run(Effects(fs, map[], None), SourcePolls(src, fs), p0) == AsEffect(SourceHeaders(src, fs))
  {
    var eff := Effects(fs, map[], None);
    var steps := SourcePolls(src, fs);
    var n := Lstat(fs, src.path).value;
    var none: seq<string> := [];
    var hs := WalkHeaders(src.path, RootName(src), Walk(n, none));
    var walk := VisitPolls(src.path, RootName(src), Walk(n, none));
    assert steps == [SourcePoll(src)] + walk;
    assert steps[1..] == walk;
    assert SourceEffect(src, fs, map[]) == Effect([], None);
    assert eff(SourcePoll(src), p0) == SourceEffect(src, fs, map[]);
    RunFirst(eff, steps, p0);
    WalkRunsClean(src.path, RootName(src), Walk(n, none), fs, p0 + 1);
    assert [] + hs == hs;
  }

  lemma SingleRunsClean(src: ArchiveSource, fs: FileSystem, p0: nat)
    requires FsValid(fs) && !(Lstat(fs, src.path).Ok? && Lstat(fs, src.path).value.Directory?)
    ensures Run(Effects(fs, map[], None), SourcePolls(src, fs), p0) == AsEffect(SourceHeaders(src, fs))
  {
    var eff := Effects(fs, map[], None);
    var steps := SourcePolls(src, fs);
    RunFirst(eff, steps, p0);
    assert steps[1..] == [];
    var e := eff(steps[0], p0);
    assert e.out + [] == e.out;
  }

  /** With no faults and a context that never becomes done, creating the
      archive writes every source's headers in order when every source can
      be read, and otherwise stops at the first source that cannot, with
      its error and the headers of the sources before it. */
  lemma RunsClean(sources: seq<ArchiveSource>, fs: FileSystem, p0: nat)
    requires FsValid(fs)
    ensures var e := Run(Effects(fs, map[], None), Polls(sources, fs), p0);
            (e.err.None? <==> AllSourcesOk(sources, fs))
            && (e.err.None? ==> e.out == AllHeaders(sources, fs))
            && (e.err.Some? ==> exists k :: 0 <= k < |sources| && AllSourcesOk(sources[..k], fs)
                                  && SourceHeaders(sources[k], fs) == Err(e.err.value)
                                  && e.out == AllHeaders(sources[..k], fs))
  {
    var eff := Effects(fs, map[], None);
    forall src: ArchiveSource, p: nat
      ensures Run(eff, SourcePolls(src, fs), p) == AsEffect(SourceHeaders(src, fs))
    {
      SourceRunsClean(src, fs, p);
    }
    RunsAsSourceHeaders(eff, sources, fs, p0);
  }

  lemma AllSourcesOkSnoc(sources: seq<ArchiveSource>, fs: FileSystem)
    requires FsValid(fs) && sources != []
    ensures var n := |sources| - 1;
            AllSourcesOk(sources, fs) <==> AllSourcesOk(sources[..n], fs) && SourceHeaders(sources[n], fs).Ok?
  {
    var n := |sources| - 1;
    assert forall k :: 0 <= k < n ==> sources[..n][k] == sources[k];
  }

  /** An outcome agrees with the sources' archive: success exactly when
      every source has one, with those headers; otherwise the error of the
      first failing source after the headers of the sources before it. */
  ghost predicate AgreesWithSources(e: Effect, sources: seq<ArchiveSource>, fs: FileSystem)
    requires FsValid(fs)
  {
    (e.err.None? <==> AllSourcesOk(sources, fs))
    && (e.err.None? ==> e.out == AllHeaders(sources, fs))
    && (e.err.Some? ==> exists k :: 0 <= k < |sources| && AllSourcesOk(sources[..k], fs)
                          && SourceHeaders(sources[k], fs) == Err(e.err.value)
                          && e.out == AllHeaders(sources[..k], fs))
  }

  lemma AgreesWithSourcesSnoc(e0: Effect, sources: seq<ArchiveSource>, fs: FileSystem)
    requires FsValid(fs) && sources != []
    requires AgreesWithSources(e0, sources[..|sources| - 1], fs)
    ensures AgreesWithSources(Then(e0, AsEffect(SourceHeaders(sources[|sources| - 1], fs))), sources, fs)
  {
    var n := |sources| - 1;
    var front := sources[..n];
    AllSourcesOkSnoc(sources, fs);
    if e0.err.Some? {
      var k :| 0 <= k < |front| && AllSourcesOk(front[..k], fs)
               && SourceHeaders(front[k], fs) == Err(e0.err.value) && e0.out == AllHeaders(front[..k], fs);
      assert front[..k] == sources[..k];
    } else if SourceHeaders(sources[n], fs).Err? {
      assert sources[..n] == front;
    }
  }

  /** RunsClean for any step semantics under which every source runs as
      its SourceHeaders. */
  lemma RunsAsSourceHeaders(eff: (Poll, nat) -> Effect, sources: seq<ArchiveSource>, fs: FileSystem, p0: nat)
    requires FsValid(fs)
    requires forall src: ArchiveSource, p: nat :: Run(eff, SourcePolls(src, fs), p) == AsEffect(SourceHeaders(src, fs))
    ensures var e := Run(eff, Polls(sources, fs), p0);
            (e.err.None? <==> AllSourcesOk(sources, fs))
            && (e.err.None? ==> e.out == AllHeaders(sources, fs))
            && (e.err.Some? ==> exists k :: 0 <= k < |sources| && AllSourcesOk(sources[..k], fs)
                                  && SourceHeaders(sources[k], fs) == Err(e.err.value)
                                  && e.out == AllHeaders(sources[..k], fs))
  {
    RunsAgree(eff, sources, fs, p0);
  }

  lemma {:induction false} RunsAgree(eff: (Poll, nat) -> Effect, sources: seq<ArchiveSource>, fs: FileSystem, p0: nat)
    requires FsValid(fs)
    requires forall src: ArchiveSource, p: nat :: Run(eff, SourcePolls(src, fs), p) == AsEffect(SourceHeaders(src, fs))
    ensures AgreesWithSources(Run(eff, Polls(sources, fs), p0), sources, fs)
    decreases |sources|
  {
    if sources != [] {
      var n := |sources| - 1;
      var front := sources[..n];
      RunsAgree(eff, front, fs, p0);
      PollsSnoc(sources, n, fs);
      assert sources[..n + 1] == sources;
      RunConcat(eff, Polls(front, fs), SourcePolls(sources[n], fs), p0);
      assert Run(eff, SourcePolls(sources[n], fs), p0 + |Polls(front, fs)|) == AsEffect(SourceHeaders(sources[n], fs));
      AgreesWithSourcesSnoc(Run(eff, Polls(front, fs), p0), sources, fs);
    }
  }

  // ---------------------------------------------------------------------
  // Reading

  /** One step of tar.Reader.Next, with the context checked before it. */
  datatype Read = Next(h: Header) | ReadError(err: string) | Canceled

  const ContextCanceled := "context canceled"

  function ReadFailure(x: Read): Option<string> {
    match x
    case Next(_) => None
    case ReadError(e) => Some(e)
    case Canceled => Some(ContextCanceled)
  }

  /** tarTypeToString. */
  function TarTypeToString(b: Byte): string {
    if b == TypeDir then "dir"
    else if b == TypeReg || b == TypeRegA then "file"
    else if b == TypeSymlink then "symlink"
    else "type_" + Decimal(b)
  }

  function EntryOf(h: Header): (e: ArchiveEntry) {
    ArchiveEntry(h.name, h.size, h.mode, TarTypeToString(h.typeflag))
  }

  /** ListArchive: one entry per header, in archive order; a read error or
      a cancellation returns no entries at all. */
  method ListArchive(stream: seq<Read>) returns (r: Result<seq<ArchiveEntry>, string>)
    ensures r.Ok? <==> forall i :: 0 <= i < |stream| ==> stream[i].Next?
    ensures r.Ok? ==> |r.value| == |stream| && forall i :: 0 <= i < |stream| ==> r.value[i] == EntryOf(stream[i].h)
    ensures r.Err? ==> exists k :: 0 <= k < |stream| && (forall i :: 0 <= i < k ==> stream[i].Next?)
                                   && ReadFailure(stream[k]) == Some(r.error)
  {
    var entries: seq<ArchiveEntry> := [];
    var i := 0;
    while i < |stream|
      invariant 0 <= i <= |stream|
      invariant forall j :: 0 <= j < i ==> stream[j].Next?
      invariant |entries| == i && forall j :: 0 <= j < i ==> entries[j] == EntryOf(stream[j].h)
    {
      match stream[i]
      case Canceled =>
        return Err(ContextCanceled);
      case ReadError(e) =>
        return Err(e);
      case Next(h) =>
        entries := entries + [EntryOf(h)];
      i := i + 1;
    }
    return Ok(entries);
  }

  /** secureJoin: the path under baseDir for an entry name, or an error
      when the name would lead out of baseDir. */
  function SecureJoin(baseDir: string, name: string): Result<string, string> {
    var cleanName := Clean(TrimPrefix(name, "/"));
    if cleanName == "." || cleanName == "" then Ok(baseDir)
    else
      var joined := JoinPath(baseDir, cleanName);
      match Rel(baseDir, joined)
      case Err(e) => Err(e)
      case Ok(rel) =>
        if HasPrefix(rel, "..") || IsAbs(rel) then Err("path traversal detected") else Ok(joined)
  }

  /** fmt's %q for names without characters that need escaping. */
  function Quote(s: string): string {
    "\"" + s + "\""
  }

  /** What stops extraction at this step, if anything. */
  function ExtractFailure(destDir: string, x: Read): Option<string> {
    match x
    case Next(h) =>
      (match SecureJoin(destDir, h.name)
       case Err(e) => Some("unsafe path " + Quote(h.name) + " in archive: " + e)
       case Ok(_) => None)
    case _ => ReadFailure(x)
  }

  /** A change extraction makes on disk. MakeParent(p) is
      os.MkdirAll(filepath.Dir(p), 0o755). */
  datatype Action =
    | MakeDir(path: string, mode: int)
    | MakeParent(child: string)
    | MakeLink(path: string, target: string)
    | WriteFile(path: string, mode: int, content: seq<Byte>)

  /** What extracting one header to `target` does: directories, symlinks and
      regular files are created; every other kind is skipped. */
  function EntryActions(target: string, h: Header): seq<Action> {
    if h.typeflag == TypeDir then [MakeDir(target, h.mode)]
    else if h.typeflag == TypeSymlink then [MakeParent(target), MakeLink(target, h.linkname)]
    else if h.typeflag == TypeReg || h.typeflag == TypeRegA then [MakeParent(target), WriteFile(target, h.mode, h.data)]
    else []
  }

  predicate Extractable(destDir: string, stream: seq<Read>) {
    forall i :: 0 <= i < |stream| ==> ExtractFailure(destDir, stream[i]) == None
  }

  /** The actions for an archive none of whose steps fails. */
  function Extracted(destDir: string, stream: seq<Read>): seq<Action>
    requires Extractable(destDir, stream)
  {
    if stream == [] then []
    else
      var x := stream[|stream| - 1];
      Extracted(destDir, stream[..|stream| - 1]) + EntryActions(SecureJoin(destDir, x.h.name).value, x.h)
  }

  const DirMode := 0x1ED // 0o755

  /** ExtractArchive: creates destDir, then each entry in order; the first
      failing step ends it, and what was written before stays written. */
  method ExtractArchive(destDir: string, stream: seq<Read>) returns (r: Result<(), string>, actions: seq<Action>)
    ensures r.Ok? <==> Extractable(destDir, stream)
    ensures r.Ok? ==> actions == [MakeDir(destDir, DirMode)] + Extracted(destDir, stream)
    ensures r.Err? ==> exists k :: 0 <= k < |stream| && Extractable(destDir, stream[..k])
                                   && ExtractFailure(destDir, stream[k]) == Some(r.error)
                                   && actions == [MakeDir(destDir, DirMode)] + Extracted(destDir, stream[..k])
  {
    actions := [MakeDir(destDir, DirMode)];
    var none: seq<Read> := [];
    assert stream[..0] == none;
    var i := 0;
    while i < |stream|
      invariant 0 <= i <= |stream|
      invariant ExtractedSoFar(destDir, stream, i, actions)
    {
      var failure;
      failure, actions := ExtractEntry(destDir, stream, i, actions);
      if failure.Some? {
        return Err(failure.value), actions;
      }
      i := i + 1;
    }
    assert stream[..i] == stream;
    return Ok(()), actions;
  }

  /** One pass of ExtractArchive's loop. */
  method ExtractEntry(destDir: string, stream: seq<Read>, i: nat, actions: seq<Action>)
      returns (failure: Option<string>, actions': seq<Action>)
    requires i < |stream| && ExtractedSoFar(destDir, stream, i, actions)
    ensures failure == ExtractFailure(destDir, stream[i])
    ensures failure.Some? ==> actions' == actions
    ensures failure.None? ==> ExtractedSoFar(destDir, stream, i + 1, actions')
  {
    match stream[i]
    case Canceled =>
      return Some(ContextCanceled), actions;
    case ReadError(e) =>
      return Some(e), actions;
    case Next(h) =>
      var joined := SecureJoin(destDir, h.name);
      if joined.Err? {
        return Some("unsafe path " + Quote(h.name) + " in archive: " + joined.error), actions;
      }
      ExtractedSoFarStep(destDir, stream, i, actions);
      return None, actions + EntryActions(joined.value, h);
  }

  ghost predicate ExtractedSoFar(destDir: string, stream: seq<Read>, i: nat, actions: seq<Action>)
    requires i <= |stream|
  {
    Extractable(destDir, stream[..i]) && actions == [MakeDir(destDir, DirMode)] + Extracted(destDir, stream[..i])
  }

  lemma ExtractedSoFarStep(destDir: string, stream: seq<Read>, i: nat, actions: seq<Action>)
    requires i < |stream| && ExtractedSoFar(destDir, stream, i, actions) && ExtractFailure(destDir, stream[i]) == None
    ensures ExtractedSoFar(destDir, stream, i + 1,
                           actions + EntryActions(SecureJoin(destDir, stream[i].h.name).value, stream[i].h))
  {
    ExtractedStep(destDir, stream, i);
  }

  lemma ExtractedStep(destDir: string, stream: seq<Read>, i: nat)
    requires i < |stream| && Extractable(destDir, stream[..i]) && ExtractFailure(destDir, stream[i]) == None
    ensures Extractable(destDir, stream[..i + 1])
    ensures Extracted(destDir, stream[..i + 1])
         == Extracted(destDir, stream[..i]) + EntryActions(SecureJoin(destDir, stream[i].h.name).value, stream[i].h)
  {
    ExtractableStep(destDir, stream, i);
    var s := stream[..i + 1];
    assert s[..i] == stream[..i] && s[i] == stream[i];
  }

  lemma ExtractableStep(destDir: string, stream: seq<Read>, i: nat)
    requires i < |stream| && Extractable(destDir, stream[..i]) && ExtractFailure(destDir, stream[i]) == None
    ensures Extractable(destDir, stream[..i + 1])
  {
    var s := stream[..i + 1];
    assert s == stream[..i] + [stream[i]];
    ExtractableSnoc(destDir, stream[..i], stream[i]);
  }

  lemma ExtractableSnoc(destDir: string, s: seq<Read>, x: Read)
    requires Extractable(destDir, s) && ExtractFailure(destDir, x) == None
    ensures Extractable(destDir, s + [x])
  {
    var t := s + [x];
    assert forall j :: 0 <= j < |s| ==> t[j] == s[j];
  }

  // ---------------------------------------------------------------------
  // Lemmas

  /** Walking from plain elements reaches only plain elements. */
  lemma {:induction false} WalkPlain(n: Node, rel: seq<string>)
    requires WellFormed(n) && AllPlain(rel)
    ensures VisitsPlain(Walk(n, rel))
    decreases n, 1
  {
    if n.Directory? {
      WalkChildrenPlain(n.children, rel);
    }
  }

  lemma {:induction false} WalkChildrenPlain(cs: seq<Child>, rel: seq<string>)
    requires AllPlain(rel)
    requires forall i :: 0 <= i < |cs| ==> Plain(cs[i].name) && WellFormed(cs[i].node)
    ensures VisitsPlain(WalkChildren(cs, rel))
    decreases cs, 0
  {
    if cs != [] {
      WalkPlain(cs[0].node, rel + [cs[0].name]);
      WalkChildrenPlain(cs[1..], rel);
    }
  }

  /** The plain relative path as a Path. */
  lemma ParseUnsplit(rel: seq<string>)
    requires AllPlain(rel) && rel != []
    ensures Parse(Unsplit(rel)) == Path(false, rel)
  {
    ParseRender(Path(false, rel));
  }

  /** filepath.Rel of a walked node against the walk's root. */
  lemma RelOfWalked(srcPath: string, rel: seq<string>)
    requires srcPath != "" && AllPlain(rel)
    ensures rel == [] ==> Rel(srcPath, srcPath) == Ok(".")
    ensures rel != [] ==> Rel(srcPath, JoinPath(srcPath, Unsplit(rel))) == Ok(Unsplit(rel))
  {
    if rel != [] {
      ParseUnsplit(rel);
      RelBelow(srcPath, Unsplit(rel));
    }
  }

  /** Every path secureJoin accepts is baseDir or lies below it. */
  lemma SecureJoinContained(baseDir: string, name: string)
    ensures SecureJoin(baseDir, name).Ok? ==> Within(baseDir, SecureJoin(baseDir, name).value)
  {
    var cleanName := Clean(TrimPrefix(name, "/"));
    if cleanName == "." || cleanName == "" {
      var b := Parse(baseDir);
      assert b.elems[..|b.elems|] == b.elems;
    } else {
      RelInside(baseDir, JoinPath(baseDir, cleanName));
    }
  }

  /** A name that cleans to plain relative elements is accepted exactly
      when its first element does not start with "..", and then lands at
      those elements below baseDir. A leading "/" is dropped first, so
      absolute names are re-rooted under baseDir. */
  lemma SecureJoinAccepts(baseDir: string, name: string)
    requires baseDir != ""
    requires !Parse(TrimPrefix(name, "/")).rooted && Parse(TrimPrefix(name, "/")).elems != []
    requires AllPlain(Parse(TrimPrefix(name, "/")).elems)
    ensures SecureJoin(baseDir, name).Ok? <==> !HasPrefix(Parse(TrimPrefix(name, "/")).elems[0], "..")
    ensures SecureJoin(baseDir, name).Ok? ==> SecureJoin(baseDir, name).value == Under(baseDir, Parse(TrimPrefix(name, "/")).elems)
  {
    var s := TrimPrefix(name, "/");
    var n := Parse(s);
    var cleanName := Clean(s);
    CleanDot(s);
    CleanIdempotent(s);
    assert cleanName == Unsplit(n.elems);
    RelBelow(baseDir, cleanName);
    FirstElemPrefix(n.elems);
    JoinHead(n.elems);
    assert !IsAbs(Unsplit(n.elems));
    var x := baseDir + "/" + cleanName;
    JoinPlain(baseDir, cleanName);
    CleanIdempotent(x);
  }

  /** Names that clean to nothing ("", ".", "/", "a/..") are baseDir itself. */
  lemma SecureJoinDot(baseDir: string, name: string)
    requires Parse(TrimPrefix(name, "/")) == Path(false, [])
    ensures SecureJoin(baseDir, name) == Ok(baseDir)
  {
    CleanDot(TrimPrefix(name, "/"));
  }

  /** An absolute entry name is treated as the same name relative to baseDir. */
  lemma LeadingSlashDropped(baseDir: string, name: string)
    requires !HasPrefix(name, "/")
    ensures SecureJoin(baseDir, "/" + name) == SecureJoin(baseDir, name)
  {
    assert TrimPrefix("/" + name, "/") == name by {
      assert HasPrefix("/" + name, "/");
    }
  }

  /** The prefix test is on characters: a file named "..foo" is refused too. */
  lemma DotDotPrefixedNameRefused(baseDir: string)
    requires baseDir != ""
    ensures SecureJoin(baseDir, "..foo").Err?
  {
    var es := ["..foo"];
    assert Unsplit(es) == "..foo";
    ParseUnsplit(es);
    assert TrimPrefix("..foo", "/") == "..foo" by {
      assert "..foo"[..1] != "/";
    }
    SecureJoinAccepts(baseDir, "..foo");
    assert HasPrefix("..foo", "..");
  }

  /** The path an action names. */
  function ActionPath(a: Action): string {
    match a
    case MakeDir(p, _) => p
    case MakeParent(c) => c
    case MakeLink(p, _) => p
    case WriteFile(p, _, _) => p
  }

  /** Extraction never names a path outside destDir. */
  lemma {:induction false} ExtractContained(destDir: string, stream: seq<Read>)
    requires Extractable(destDir, stream)
    ensures forall a :: a in Extracted(destDir, stream) ==> Within(destDir, ActionPath(a))
  {
    if stream != [] {
      var x := stream[|stream| - 1];
      var front := stream[..|stream| - 1];
      ExtractContained(destDir, front);
      SecureJoinContained(destDir, x.h.name);
    }
  }

  /** Each part of an extractable archive is extractable. */
  lemma ExtractableParts(destDir: string, s: seq<Read>, t: seq<Read>)
    requires Extractable(destDir, s + t)
    ensures Extractable(destDir, s) && Extractable(destDir, t)
  {
    forall i | 0 <= i < |s| ensures ExtractFailure(destDir, s[i]) == None {
      assert s[i] == (s + t)[i];
    }
    forall i | 0 <= i < |t| ensures ExtractFailure(destDir, t[i]) == None {
      assert t[i] == (s + t)[|s| + i];
    }
  }

  /** Extracting a concatenation is extracting one part after the other. */
  lemma {:induction false} ExtractedConcat(destDir: string, s: seq<Read>, t: seq<Read>)
    requires Extractable(destDir, s + t)
    ensures Extractable(destDir, s) && Extractable(destDir, t)
    ensures Extracted(destDir, s + t) == Extracted(destDir, s) + Extracted(destDir, t)
    decreases |t|
  {
    ExtractableParts(destDir, s, t);
    if t == [] {
      assert s + t == s;
    } else {
      var t' := t[..|t| - 1];
      var x := t[|t| - 1];
      assert s + t == (s + t') + [x];
      assert (s + t)[..|s + t| - 1] == s + t';
      ExtractableParts(destDir, s + t', [x]);
      ExtractedConcat(destDir, s, t');
    }
  }

  /** Parts that are each extractable make an extractable archive. */
  lemma ExtractableJoin(destDir: string, s: seq<Read>, t: seq<Read>)
    requires Extractable(destDir, s) && Extractable(destDir, t)
    ensures Extractable(destDir, s + t)
  {
    forall i | 0 <= i < |s + t| ensures ExtractFailure(destDir, (s + t)[i]) == None {
      if i < |s| {
        assert (s + t)[i] == s[i];
      } else {
        assert (s + t)[i] == t[i - |s|];
      }
    }
  }

  /** The last entry, of another kind, adds nothing. */
  lemma SkipOne(destDir: string, s: seq<Read>, h: Header)
    requires Extractable(destDir, s + [Next(h)])
    requires h.typeflag !in {TypeDir, TypeSymlink, TypeReg, TypeRegA}
    ensures Extractable(destDir, s)
    ensures Extracted(destDir, s + [Next(h)]) == Extracted(destDir, s)
  {
    assert (s + [Next(h)])[..|s|] == s;
    ExtractableParts(destDir, s, [Next(h)]);
  }

  /** An entry of any other kind (hard link, device, fifo, ...) is skipped:
      the archive extracts as if it were not there. */
  lemma OtherKindSkipped(destDir: string, s: seq<Read>, h: Header, t: seq<Read>)
    requires Extractable(destDir, s + [Next(h)] + t)
    requires h.typeflag !in {TypeDir, TypeSymlink, TypeReg, TypeRegA}
    ensures Extractable(destDir, s + t)
    ensures Extracted(destDir, s + [Next(h)] + t) == Extracted(destDir, s + t)
  {
    var one := [Next(h)];
    ExtractedConcat(destDir, s + one, t);
    SkipOne(destDir, s, h);
    ExtractableJoin(destDir, s, t);
    ExtractedConcat(destDir, s, t);
  }

  /** The name of a kind that has none of its own starts with 't'. */
  lemma OtherTypeName(b: Byte)
    requires b !in {TypeDir, TypeReg, TypeRegA, TypeSymlink}
    ensures TarTypeToString(b) == "type_" + Decimal(b) && TarTypeToString(b)[0] == 't'
  {
  }

  /** tarTypeToString tells every kind apart, except that both spellings of
      a regular file read "file". */
  lemma TarTypeNames(a: Byte, b: Byte)
    ensures TarTypeToString(a) == TarTypeToString(b)
        <==> a == b || (a in {TypeReg, TypeRegA} && b in {TypeReg, TypeRegA})
  {
    var special := {TypeDir, TypeReg, TypeRegA, TypeSymlink};
    if a !in special && b !in special {
      OtherTypeName(a);
      OtherTypeName(b);
      var x := TarTypeToString(a);
      var y := TarTypeToString(b);
      assert Decimal(a) == x[5..] && Decimal(b) == y[5..];
      DecimalRoundTrip(a);
      DecimalRoundTrip(b);
    } else if a !in special {
      OtherTypeName(a);
      assert TarTypeToString(b)[0] != 't';
    } else if b !in special {
      OtherTypeName(b);
      assert TarTypeToString(a)[0] != 't';
    }
  }

  // ---------------------------------------------------------------------
  // Round trip: what CreateArchive writes, ExtractArchive puts back

  /** The archive stream that reads the headers back without failure. */
  function Reads(hs: seq<Header>): (rs: seq<Read>)
    ensures |rs| == |hs| && forall i :: 0 <= i < |hs| ==> rs[i] == Next(hs[i])
  {
    seq(|hs|, i requires 0 <= i < |hs| => Next(hs[i]))
  }

  /** What re-creating the node `n` at `target` takes: its directory, or its
      parent directory and then the file with its bytes or the link with its
      target, each with the node's mode. */
  function Restored(target: string, n: Node): seq<Action> {
    match n
    case Directory(mode, _) => [MakeDir(target, mode)]
    case File(mode, content) => [MakeParent(target), WriteFile(target, mode, content)]
    case Link(_, linkTarget) => [MakeParent(target), MakeLink(target, linkTarget)]
  }

  /** Every visited node re-created at its place below destDir/root, in walk order. */
  function RestoredTree(destDir: string, root: seq<string>, vs: seq<Visit>): seq<Action> {
    if vs == [] then []
    else
      var v := vs[|vs| - 1];
      RestoredTree(destDir, root, vs[..|vs| - 1]) + Restored(Under(destDir, root + v.rel), v.node)
  }

  /** Joining a plain relative path onto a plain root appends its elements. */
  lemma JoinUnderRoot(root: seq<string>, x: string, rel: seq<string>)
    requires root != [] && AllPlain(root) && AllPlain(rel) && Parse(x) == Path(false, rel)
    ensures JoinPath(Unsplit(root), x) == Unsplit(root + rel)
  {
    var r := Unsplit(root);
    ParseUnsplit(root);
    JoinHead(root);
    JoinPlain(r, x);
    CleanIdempotent(r + "/" + x);
  }

  /** Inside the archive, the node at `rel` of a directory source is named
      by the root name followed by `rel`. */
  lemma EntryNameUnderRoot(srcPath: string, root: seq<string>, rel: seq<string>)
    requires srcPath != "" && root != [] && AllPlain(root) && AllPlain(rel)
    ensures EntryName(srcPath, Unsplit(root), rel) == Unsplit(root + rel)
  {
    RelOfWalked(srcPath, rel);
    if rel == [] {
      var none: seq<string> := [];
      SplitNoSep(".", '/');
      assert Resolve(none, false, ["."]) == none;
      assert Parse(".") == Path(false, none);
      JoinUnderRoot(root, ".", rel);
      assert root + rel == root;
    } else {
      ParseUnsplit(rel);
      JoinUnderRoot(root, Unsplit(rel), rel);
    }
  }

  /** A plain relative name, with or without a trailing "/", cleans to its
      elements and does not start with "/". */
  lemma PlainName(es: seq<string>)
    requires es != [] && AllPlain(es)
    ensures !HasPrefix(Unsplit(es), "/") && !HasPrefix(Unsplit(es) + "/", "/")
    ensures Parse(Unsplit(es)) == Path(false, es) && Parse(Unsplit(es) + "/") == Path(false, es)
  {
    var name := Unsplit(es);
    ParseUnsplit(es);
    JoinHead(es);
    TrailingSlash(name);
    assert (name + "/")[0] == name[0];
  }

  /** The header of a visited node names root/rel, with no leading "/". */
  lemma VisitHeaderName(srcPath: string, root: seq<string>, v: Visit)
    requires srcPath != "" && root != [] && AllPlain(root) && AllPlain(v.rel)
    ensures !HasPrefix(VisitHeader(srcPath, Unsplit(root), v).name, "/")
    ensures Parse(VisitHeader(srcPath, Unsplit(root), v).name) == Path(false, root + v.rel)
  {
    assert AllPlain(root + v.rel);
    EntryNameUnderRoot(srcPath, root, v.rel);
    PlainName(root + v.rel);
  }

  /** The header written for a node re-creates that node. */
  lemma HeaderRestores(target: string, name: string, n: Node)
    ensures EntryActions(target, InfoHeader(name, n)) == Restored(target, n)
  {
  }

  /** The header written for a visited node extracts to that node's place
      below destDir/root and re-creates it there. */
  lemma VisitRestores(srcPath: string, root: seq<string>, destDir: string, v: Visit)
    requires srcPath != "" && destDir != ""
    requires root != [] && AllPlain(root) && !HasPrefix(root[0], "..") && AllPlain(v.rel)
    ensures SecureJoin(destDir, VisitHeader(srcPath, Unsplit(root), v).name) == Ok(Under(destDir, root + v.rel))
    ensures EntryActions(Under(destDir, root + v.rel), VisitHeader(srcPath, Unsplit(root), v))
         == Restored(Under(destDir, root + v.rel), v.node)
  {
    var h := VisitHeader(srcPath, Unsplit(root), v);
    VisitHeaderName(srcPath, root, v);
    assert TrimPrefix(h.name, "/") == h.name;
    assert (root + v.rel)[0] == root[0];
    SecureJoinAccepts(destDir, h.name);
    var target := Under(destDir, root + v.rel);
    HeaderRestores(target, h.name, v.node);
  }

  /** Extracting the headers of a walk re-creates every walked node. */
  lemma {:induction false} RestoreVisits(srcPath: string, root: seq<string>, destDir: string, vs: seq<Visit>)
    requires srcPath != "" && destDir != ""
    requires root != [] && AllPlain(root) && !HasPrefix(root[0], "..") && VisitsPlain(vs)
    ensures Extractable(destDir, Reads(WalkHeaders(srcPath, Unsplit(root), vs)))
    ensures Extracted(destDir, Reads(WalkHeaders(srcPath, Unsplit(root), vs))) == RestoredTree(destDir, root, vs)
  {
    var rs := Reads(WalkHeaders(srcPath, Unsplit(root), vs));
    if vs != [] {
      var front := vs[..|vs| - 1];
      var v := vs[|vs| - 1];
      RestoreVisits(srcPath, root, destDir, front);
      var rs' := Reads(WalkHeaders(srcPath, Unsplit(root), front));
      VisitRestores(srcPath, root, destDir, v);
      var h := VisitHeader(srcPath, Unsplit(root), v);
      var last := [Next(h)];
      WalkHeadersStep(srcPath, Unsplit(root), vs, |vs| - 1);
      assert vs[..|vs|] == vs;
      ReadsSnoc(WalkHeaders(srcPath, Unsplit(root), front), h);
      ExtractOne(destDir, VisitHeader(srcPath, Unsplit(root), v), Under(destDir, root + v.rel));
      ExtractableJoin(destDir, rs', last);
      ExtractedConcat(destDir, rs', last);
    }
  }

  lemma OneVisitHeaders(srcPath: string, rootName: string, vs: seq<Visit>)
    requires srcPath != "" && |vs| == 1 && vs[0].rel == [] && !vs[0].node.Directory?
    ensures WalkHeaders(srcPath, rootName, vs) == [InfoHeader(EntryName(srcPath, rootName, []), vs[0].node)]
  {
    MapVisitsAt(HeaderFor(srcPath, rootName), vs, 0);
  }

  lemma ReadsSnoc(hs: seq<Header>, h: Header)
    ensures Reads(hs + [h]) == Reads(hs) + [Next(h)]
  {
    assert forall i :: 0 <= i < |hs| ==> (hs + [h])[i] == hs[i];
  }

  /** A one-entry archive whose name is accepted. */
  lemma ExtractOne(destDir: string, h: Header, target: string)
    requires SecureJoin(destDir, h.name) == Ok(target)
    ensures Extractable(destDir, [Next(h)])
    ensures Extracted(destDir, [Next(h)]) == EntryActions(target, h)
  {
    var one := [Next(h)];
    assert one[..0] == [];
  }

  /** Creating an archive of a source and extracting it under destDir
      re-creates every node of the source below destDir, under the source's
      root name, with its mode, its bytes and its link target. */
  lemma RoundTrip(fs: FileSystem, src: ArchiveSource, destDir: string, root: seq<string>)
    requires FsValid(fs) && src.path != "" && src.path in fs && destDir != ""
    requires RootName(src) == Unsplit(root) && root != [] && AllPlain(root) && !HasPrefix(root[0], "..")
    ensures SourceHeaders(src, fs).Ok?
    ensures Extractable(destDir, Reads(SourceHeaders(src, fs).value))
    ensures Extracted(destDir, Reads(SourceHeaders(src, fs).value)) == RestoredTree(destDir, root, Walk(fs[src.path], []))
  {
    var n := fs[src.path];
    var none: seq<string> := [];
    WalkPlain(n, none);
    RestoreVisits(src.path, root, destDir, Walk(n, none));
    if !n.Directory? {
      var vs := Walk(n, none);
      assert vs == [Visit(none, n)];
      EntryNameUnderRoot(src.path, root, none);
      assert root + none == root;
      OneVisitHeaders(src.path, Unsplit(root), vs);
    }
  }
}
