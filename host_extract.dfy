/** pkg/backup/engine.go, extractTarGzToHost: restores a bind mount's
    archive into its host directory, removing the archive's root directory
    from each entry name. As written it joins the remaining name onto the
    destination with no containment check, so an entry name with ".."
    lands outside the destination; the corrected extraction below checks
    each name with secureJoin, as ExtractArchive does. Opening and
    decompressing the file are library calls; the archive is the sequence
    of reads of its headers. */
module HostExtract {
  import opened Wrappers
  import opened Strs
  import opened Paths
  import opened Archive

  /** The entry name with the expected root directory removed, when the
      name starts with it and a separator. */
  function StripRoot(name: string, expectedRoot: string): (r: string)
    ensures expectedRoot != "" && HasPrefix(name, expectedRoot + "/") ==> expectedRoot + "/" + r == name
    ensures !(expectedRoot != "" && HasPrefix(name, expectedRoot + "/")) ==> r == name
  {
    if expectedRoot != "" && HasPrefix(name, expectedRoot + "/") then TrimPrefix(name, expectedRoot + "/") else name
  }

  /** What extracting one header to `target` does: directories and regular
      files are created; symlinks and every other kind are skipped. */
  function HostActions(target: string, h: Header): seq<Action> {
    if h.typeflag == TypeDir then [MakeDir(target, h.mode)]
    else if h.typeflag == TypeReg || h.typeflag == TypeRegA then [MakeParent(target), WriteFile(target, h.mode, h.data)]
    else []
  }

  predicate AllNext(stream: seq<Read>) {
    forall i :: 0 <= i < |stream| ==> stream[i].Next?
  }

  // ---------------------------------------------------------------------
  // As written

  /** Where an entry is written, as written: the stripped name joined onto
      the destination. */
  function HostTarget(destDir: string, expectedRoot: string, name: string): string {
    JoinPath(destDir, StripRoot(name, expectedRoot))
  }

  function HostExtracted(destDir: string, expectedRoot: string, stream: seq<Read>): seq<Action>
    requires AllNext(stream)
  {
    if stream == [] then []
    else
      var h := stream[|stream| - 1].h;
      HostExtracted(destDir, expectedRoot, stream[..|stream| - 1]) + HostActions(HostTarget(destDir, expectedRoot, h.name), h)
  }

  ghost predicate HostSoFar(destDir: string, expectedRoot: string, stream: seq<Read>, i: nat, actions: seq<Action>)
    requires i <= |stream|
  {
    AllNext(stream[..i]) && actions == HostExtracted(destDir, expectedRoot, stream[..i])
  }

  lemma HostStep(destDir: string, expectedRoot: string, stream: seq<Read>, i: nat, actions: seq<Action>)
    requires i < |stream| && HostSoFar(destDir, expectedRoot, stream, i, actions) && stream[i].Next?
    ensures HostSoFar(destDir, expectedRoot, stream, i + 1,
                      actions + HostActions(HostTarget(destDir, expectedRoot, stream[i].h.name), stream[i].h))
  {
    var front := stream[..i + 1];
    assert front[..i] == stream[..i] && front[i] == stream[i];
    assert front == stream[..i] + [stream[i]];
    AllNextSnoc(stream[..i], stream[i]);
  }

  lemma AllNextSnoc(s: seq<Read>, x: Read)
    requires AllNext(s) && x.Next?
    ensures AllNext(s + [x])
  {
    var t := s + [x];
    assert forall j :: 0 <= j < |s| ==> t[j] == s[j];
  }

  /** extractTarGzToHost as written: every entry in order until a read
      fails or the context is canceled. */
  method ExtractTarGzToHost(destDir: string, expectedRoot: string, stream: seq<Read>)
    returns (err: Option<string>, actions: seq<Action>)
    ensures err.None? <==> AllNext(stream)
    ensures err.None? ==> actions == HostExtracted(destDir, expectedRoot, stream)
    ensures err.Some? ==> exists k :: 0 <= k < |stream| && AllNext(stream[..k]) && ReadFailure(stream[k]) == err
                                      && actions == HostExtracted(destDir, expectedRoot, stream[..k])
  {
    actions := [];
    var none: seq<Read> := [];
    assert stream[..0] == none;
    var i := 0;
    while i < |stream|
      invariant 0 <= i <= |stream|
      invariant HostSoFar(destDir, expectedRoot, stream, i, actions)
    {
      match stream[i]
      case Canceled =>
        return Some(ContextCanceled), actions;
      case ReadError(e) =>
        return Some(e), actions;
      case Next(hdr) =>
        var name := hdr.name;
        if expectedRoot != "" {
          if HasPrefix(name, expectedRoot + "/") {
            name := TrimPrefix(name, expectedRoot + "/");
          }
        }
        var outPath := JoinPath(destDir, name);
        HostStep(destDir, expectedRoot, stream, i, actions);
        if hdr.typeflag == TypeDir {
          actions := actions + [MakeDir(outPath, hdr.mode)];
        } else if hdr.typeflag == TypeReg || hdr.typeflag == TypeRegA {
          actions := actions + [MakeParent(outPath), WriteFile(outPath, hdr.mode, hdr.data)];
        }
        i := i + 1;
    }
    assert stream[..i] == stream;
    err := None;
  }

  /** The entries Backup writes for a bind mount (its root, then root/rel
      for each node below it) land where they belong: the root on the
      destination, the others at their relative path below it. */
  lemma BackupEntriesLandInside(destDir: string, root: string, rel: seq<string>)
    requires destDir != "" && root != ""
    requires AllPlain(rel) && rel != []
    ensures HostTarget(destDir, root, root + "/") == Clean(destDir)
    ensures HostTarget(destDir, root, root + "/" + Unsplit(rel)) == Under(destDir, rel)
    ensures Within(destDir, HostTarget(destDir, root, root + "/" + Unsplit(rel)))
  {
    var name := root + "/" + Unsplit(rel);
    assert HasPrefix(name, root + "/") by {
      assert name[..|root + "/"|] == root + "/";
    }
    assert HasPrefix(root + "/", root + "/");
    assert StripRoot(root + "/", root) == "";
    assert destDir + "/" + "" == destDir + "/";
    TrailingSlash(destDir);
    CleanEq(destDir + "/", destDir);
    var target := HostTarget(destDir, root, name);
    ParseUnsplit(rel);
    JoinPlain(destDir, Unsplit(rel));
    CleanIdempotent(destDir + "/" + Unsplit(rel));
    var d := Parse(destDir);
    assert Parse(target) == Path(d.rooted, d.elems + rel);
    assert (d.elems + rel)[..|d.elems|] == d.elems;
  }

  /** The escape: an entry "../x" of an archive restored into an absolute
      directory whose last element is not x is written next to that
      directory, outside it. */
  lemma DotDotEntryEscapes(destDir: string, expectedRoot: string, x: string)
    requires Rooted(destDir) && Parse(destDir).elems != []
    requires expectedRoot == "" || Plain(expectedRoot)
    requires Plain(x) && x != Parse(destDir).elems[|Parse(destDir).elems| - 1]
    ensures var target := HostTarget(destDir, expectedRoot, "../" + x);
            Parse(target) == Path(true, Parse(destDir).elems[..|Parse(destDir).elems| - 1] + [x])
            && !Within(destDir, target)
  {
    var name := "../" + x;
    NotUnderPlainRoot(x, expectedRoot);
    assert StripRoot(name, expectedRoot) == name;
    var none: seq<string> := [];
    var es := Parse(destDir).elems;
    var n := |es|;
    DotDotName(x);
    SplitConcat(destDir, name);
    var full := destDir + "/" + name;
    assert Rooted(full);
    ResolveConcat(none, true, Split(destDir, '/'), ["..", x]);
    assert ["..", x][1..] == [x];
    assert [x][1..] == [];
    assert Resolve(none, true, Split(destDir, '/')) == es;
    assert es[n - 1] != "..";
    assert Step(es, true, "..") == es[..n - 1];
    assert Resolve(es, true, ["..", x]) == Resolve(es[..n - 1], true, [x]);
    assert Resolve(es[..n - 1], true, [x]) == Resolve(es[..n - 1] + [x], true, []);
    assert Parse(full) == Path(true, es[..n - 1] + [x]);
    CleanIdempotent(full);
    var target := HostTarget(destDir, expectedRoot, name);
    assert Parse(target) == Parse(full);
    assert Parse(target).elems[..n] != es by {
      assert Parse(target).elems[n - 1] == x;
    }
  }

  /** "../x" splits into its two elements and is already clean. */
  lemma DotDotName(x: string)
    requires Plain(x)
    ensures Split("../" + x, '/') == ["..", x]
    ensures Parse("../" + x) == Path(false, ["..", x])
    ensures Clean("../" + x) == "../" + x
  {
    var none: seq<string> := [];
    var name := "../" + x;
    assert name == ".." + "/" + x;
    SplitConcat("..", x);
    SplitNoSep("..", '/');
    SplitNoSep(x, '/');
    assert !Rooted(name);
    assert Step(none, false, "..") == [".."];
    assert Resolve(none, false, ["..", x]) == Resolve([".."], false, [x]);
    assert Resolve([".."], false, [x]) == Resolve(["..", x], false, []);
    assert Join(["..", x], '/') == ".." + "/" + x;
  }

  /** "../x" does not start with a plain root directory and a separator. */
  lemma NotUnderPlainRoot(x: string, root: string)
    requires root == "" || Plain(root)
    ensures !(root != "" && HasPrefix("../" + x, root + "/"))
  {
    var name := "../" + x;
    var p := root + "/";
    if root != "" && |p| <= |name| {
      var k := |root|;
      if k == 1 {
        assert name[1] == '.' && p[1] == '/';
      } else if k == 2 {
        assert name[..2] == ".." && p[..2] == root;
        assert name[..|p|][..2] == name[..2];
      } else {
        assert name[2] == '/' && p[2] == root[2];
      }
    }
  }

  // ---------------------------------------------------------------------
  // Corrected: each stripped name goes through secureJoin

  /** Where an entry is written, corrected; an error when the name would
      lead out of the destination. */
  function SafeHostTarget(destDir: string, expectedRoot: string, name: string): Result<string, string> {
    SecureJoin(destDir, StripRoot(name, expectedRoot))
  }

  function SafeHostFailure(destDir: string, expectedRoot: string, x: Read): Option<string> {
    match x
    case Next(h) =>
      (match SafeHostTarget(destDir, expectedRoot, h.name)
       case Err(e) => Some("unsafe path " + Quote(h.name) + " in archive: " + e)
       case Ok(_) => None)
    case _ => ReadFailure(x)
  }

  predicate SafeExtractable(destDir: string, expectedRoot: string, stream: seq<Read>) {
    forall i :: 0 <= i < |stream| ==> SafeHostFailure(destDir, expectedRoot, stream[i]) == None
  }

  function SafeHostExtracted(destDir: string, expectedRoot: string, stream: seq<Read>): seq<Action>
    requires SafeExtractable(destDir, expectedRoot, stream)
  {
    if stream == [] then []
    else
      var h := stream[|stream| - 1].h;
      SafeHostExtracted(destDir, expectedRoot, stream[..|stream| - 1])
      + HostActions(SafeHostTarget(destDir, expectedRoot, h.name).value, h)
  }

  ghost predicate SafeSoFar(destDir: string, expectedRoot: string, stream: seq<Read>, i: nat, actions: seq<Action>)
    requires i <= |stream|
  {
    SafeExtractable(destDir, expectedRoot, stream[..i]) && actions == SafeHostExtracted(destDir, expectedRoot, stream[..i])
  }

  lemma SafeStep(destDir: string, expectedRoot: string, stream: seq<Read>, i: nat, actions: seq<Action>)
    requires i < |stream| && SafeSoFar(destDir, expectedRoot, stream, i, actions)
    requires SafeHostFailure(destDir, expectedRoot, stream[i]) == None
    ensures SafeSoFar(destDir, expectedRoot, stream, i + 1,
                      actions + HostActions(SafeHostTarget(destDir, expectedRoot, stream[i].h.name).value, stream[i].h))
  {
    SafeExtractableStep(destDir, expectedRoot, stream, i);
    var front := stream[..i + 1];
    assert front[..i] == stream[..i] && front[i] == stream[i];
  }

  lemma SafeExtractableStep(destDir: string, expectedRoot: string, stream: seq<Read>, i: nat)
    requires i < |stream| && SafeExtractable(destDir, expectedRoot, stream[..i])
    requires SafeHostFailure(destDir, expectedRoot, stream[i]) == None
    ensures SafeExtractable(destDir, expectedRoot, stream[..i + 1])
  {
    assert stream[..i + 1] == stream[..i] + [stream[i]];
    SafeExtractableSnoc(destDir, expectedRoot, stream[..i], stream[i]);
  }

  lemma SafeExtractableSnoc(destDir: string, expectedRoot: string, s: seq<Read>, x: Read)
    requires SafeExtractable(destDir, expectedRoot, s) && SafeHostFailure(destDir, expectedRoot, x) == None
    ensures SafeExtractable(destDir, expectedRoot, s + [x])
  {
    var t := s + [x];
    assert forall j :: 0 <= j < |s| ==> t[j] == s[j];
  }

  /** extractTarGzToHost with the containment check: the first entry
      whose stripped name leaves the destination stops it, as a read
      failure does. */
  method ExtractTarGzToHostContained(destDir: string, expectedRoot: string, stream: seq<Read>)
    returns (err: Option<string>, actions: seq<Action>)
    ensures err.None? <==> SafeExtractable(destDir, expectedRoot, stream)
    ensures err.None? ==> actions == SafeHostExtracted(destDir, expectedRoot, stream)
    ensures err.Some? ==> exists k :: 0 <= k < |stream| && SafeExtractable(destDir, expectedRoot, stream[..k])
                                      && SafeHostFailure(destDir, expectedRoot, stream[k]) == err
                                      && actions == SafeHostExtracted(destDir, expectedRoot, stream[..k])
  {
    actions := [];
    var none: seq<Read> := [];
    assert stream[..0] == none;
    var i := 0;
    while i < |stream|
      invariant 0 <= i <= |stream|
      invariant SafeSoFar(destDir, expectedRoot, stream, i, actions)
    {
      var failure;
      failure, actions := SafeEntry(destDir, expectedRoot, stream, i, actions);
      if failure.Some? {
        return failure, actions;
      }
      i := i + 1;
    }
    assert stream[..i] == stream;
    err := None;
  }

  /** One pass of the corrected loop. */
  method SafeEntry(destDir: string, expectedRoot: string, stream: seq<Read>, i: nat, actions: seq<Action>)
    returns (failure: Option<string>, actions': seq<Action>)
    requires i < |stream| && SafeSoFar(destDir, expectedRoot, stream, i, actions)
    ensures failure == SafeHostFailure(destDir, expectedRoot, stream[i])
    ensures failure.Some? ==> actions' == actions
    ensures failure.None? ==> SafeSoFar(destDir, expectedRoot, stream, i + 1, actions')
  {
    match stream[i]
    case Canceled =>
      return Some(ContextCanceled), actions;
    case ReadError(e) =>
      return Some(e), actions;
    case Next(hdr) =>
      var name := hdr.name;
      if expectedRoot != "" {
        if HasPrefix(name, expectedRoot + "/") {
          name := TrimPrefix(name, expectedRoot + "/");
        }
      }
      var outPath := SecureJoin(destDir, name);
      if outPath.Err? {
        return Some("unsafe path " + Quote(hdr.name) + " in archive: " + outPath.error), actions;
      }
      SafeStep(destDir, expectedRoot, stream, i, actions);
      actions' := actions;
      if hdr.typeflag == TypeDir {
        actions' := actions + [MakeDir(outPath.value, hdr.mode)];
      } else if hdr.typeflag == TypeReg || hdr.typeflag == TypeRegA {
        actions' := actions + [MakeParent(outPath.value), WriteFile(outPath.value, hdr.mode, hdr.data)];
      }
      failure := None;
  }

  /** The corrected extraction never names a path outside the destination. */
  lemma {:induction false} ContainedExtractionStaysInside(destDir: string, expectedRoot: string, stream: seq<Read>)
    requires SafeExtractable(destDir, expectedRoot, stream)
    ensures forall a :: a in SafeHostExtracted(destDir, expectedRoot, stream) ==> Within(destDir, ActionPath(a))
  {
    if stream != [] {
      var front := stream[..|stream| - 1];
      assert SafeExtractable(destDir, expectedRoot, front) by {
        forall i | 0 <= i < |front| ensures SafeHostFailure(destDir, expectedRoot, front[i]) == None {
          assert front[i] == stream[i];
        }
      }
      ContainedExtractionStaysInside(destDir, expectedRoot, front);
      var h := stream[|stream| - 1].h;
      SecureJoinContained(destDir, StripRoot(h.name, expectedRoot));
    }
  }

  /** The check costs nothing on archives Backup writes: their entries
      below the root are accepted and land where the unchecked extraction
      puts them. */
  lemma CorrectionKeepsBackupEntries(destDir: string, root: string, rel: seq<string>)
    requires destDir != "" && root != ""
    requires AllPlain(rel) && rel != [] && !HasPrefix(rel[0], "..")
    ensures SafeHostTarget(destDir, root, root + "/" + Unsplit(rel)) == Ok(HostTarget(destDir, root, root + "/" + Unsplit(rel)))
  {
    var name := root + "/" + Unsplit(rel);
    BackupEntriesLandInside(destDir, root, rel);
    assert StripRoot(name, root) == Unsplit(rel) by {
      assert name[..|root + "/"|] == root + "/";
    }
    ParseUnsplit(rel);
    assert TrimPrefix(Unsplit(rel), "/") == Unsplit(rel) by {
      JoinHead(rel);
    }
    SecureJoinAccepts(destDir, Unsplit(rel));
  }

  /** The corrected extraction refuses the escaping entry. */
  lemma CorrectionRefusesDotDot(destDir: string, expectedRoot: string, x: string)
    requires Rooted(destDir) && Parse(destDir).elems != []
    requires expectedRoot == "" || Plain(expectedRoot)
    requires Plain(x) && x != Parse(destDir).elems[|Parse(destDir).elems| - 1]
    ensures SafeHostTarget(destDir, expectedRoot, "../" + x).Err?
  {
    NotUnderPlainRoot(x, expectedRoot);
    var name := "../" + x;
    assert TrimPrefix(name, "/") == name by {
      assert name[0] == '.';
    }
    DotDotName(x);
    if SafeHostTarget(destDir, expectedRoot, name).Ok? {
      SecureJoinContained(destDir, name);
      DotDotEntryEscapes(destDir, expectedRoot, x);
      assert false;
    }
  }
}
