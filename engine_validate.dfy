/** pkg/backup/engine.go: Validate, the structural check of a container
    backup archive. The archive is read through ListArchive; the entries'
    headers are the input. */
module EngineValidate {
  import opened Wrappers
  import opened Strs
  import opened Lex
  import opened Archive
  import opened Errors

  datatype ValidationResult = ValidationResult(valid: bool, details: string)

  /** The top-level entries every container backup must hold. */
  const Required: seq<string> := ["container.json", "filesystem.tar", "metadata.json"]

  const ValidText := "backup structure is valid"
  const MissingText := "missing required entries: "

  /** The paths the listing names. */
  function Listed(entries: seq<ArchiveEntry>): set<string> {
    set e | e in entries :: e.path
  }

  /** The required entries the listing does not name. */
  function Missing(entries: seq<ArchiveEntry>): (r: set<string>)
    ensures r <= Elements(Required)
  {
    Elements(Required) - Listed(entries)
  }

  /** fmt's %v of a []string: the elements between brackets, one space apart. */
  function Bracketed(xs: seq<string>): string {
    "[" + (if xs == [] then "" else Join(xs, ' ')) + "]"
  }

  /** The details of a failed validation naming `ms`. */
  function Report(ms: seq<string>): string {
    MissingText + Bracketed(ms)
  }

  method Validate(stream: seq<Read>) returns (r: Result<ValidationResult, Error>)
    ensures (forall i :: 0 <= i < |stream| ==> stream[i].Next?) <==> r.Ok?
    ensures r.Err? ==> r.error.Operation? && r.error.op == "list archive" && r.error.inner.Some?
    ensures r.Ok? ==> var es := seq(|stream|, i requires 0 <= i < |stream| && stream[i].Next? => EntryOf(stream[i].h));
                      (r.value.valid <==> Missing(es) == {})
                      && (r.value.valid ==> r.value.details == ValidText)
                      && (!r.value.valid ==> exists ms :: Distinct(ms) && Elements(ms) == Missing(es)
                                                         && r.value.details == Report(ms))
  {
    var listed := ListArchive(stream);
    if listed.Err? {
      return Err(Operation("list archive", Some(Failure(listed.error))));
    }
    var entries := listed.value;
    assert entries == seq(|stream|, i requires 0 <= i < |stream| && stream[i].Next? => EntryOf(stream[i].h));
    var res := CheckEntries(entries);
    return Ok(res);
  }

  /** The part of Validate after the listing: flags the required entries
      seen, then reports the unflagged ones. */
  method CheckEntries(entries: seq<ArchiveEntry>) returns (res: ValidationResult)
    ensures res.valid <==> Missing(entries) == {}
    ensures res.valid ==> res.details == ValidText
    ensures !res.valid ==> exists ms :: Distinct(ms) && Elements(ms) == Missing(entries) && res.details == Report(ms)
  {
    var required := FlagRequired(entries);
    var missing := Unflagged(required);
    assert Elements(missing) == Missing(entries);
    if |missing| > 0 {
      assert missing[0] in Elements(missing);
      return ValidationResult(false, Report(missing));
    }
    return ValidationResult(true, ValidText);
  }

  /** The `required` map once every entry has been looked at: each required
      name maps to whether it was listed. */
  function Flags(listed: set<string>): (m: map<string, bool>)
    ensures m.Keys == Elements(Required)
  {
    map k | k in Elements(Required) :: k in listed
  }

  lemma FlagStep(listed: set<string>, p: string)
    ensures p in Required ==> Flags(listed + {p}) == Flags(listed)[p := true]
    ensures p !in Required ==> Flags(listed + {p}) == Flags(listed)
  {
  }

  /** The first loop of Validate. */
  method FlagRequired(entries: seq<ArchiveEntry>) returns (required: map<string, bool>)
    ensures required == Flags(Listed(entries))
  {
    required := map["container.json" := false, "filesystem.tar" := false, "metadata.json" := false];
    assert Listed(entries[..0]) == {};
    assert required == Flags({});
    for j := 0 to |entries|
      invariant required == Flags(Listed(entries[..j]))
    {
      var en := entries[j];
      ListedSnoc(entries, j);
      FlagStep(Listed(entries[..j]), en.path);
      if en.path == "container.json" {
        required := required["container.json" := true];
      } else if en.path == "filesystem.tar" {
        required := required["filesystem.tar" := true];
      } else if en.path == "metadata.json" {
        required := required["metadata.json" := true];
      }
    }
    assert entries[..|entries|] == entries;
  }

  /** The second loop of Validate: the unflagged names, each once, in
      whatever order the map is visited. */
  method Unflagged(required: map<string, bool>) returns (missing: seq<string>)
    ensures Distinct(missing)
    ensures Elements(missing) == set k | k in required && !required[k]
  {
    missing := [];
    var todo := required.Keys;
    while todo != {}
      invariant todo <= required.Keys
      invariant Distinct(missing)
      invariant Elements(missing) == set k | k in required && k !in todo && !required[k]
      decreases |todo|
    {
      var name :| name in todo;
      ghost var before := missing;
      if !required[name] {
        assert name !in Elements(before);
        missing := missing + [name];
        assert Elements(missing) == Elements(before) + {name};
      }
      todo := todo - {name};
    }
  }

  lemma ListedSnoc(entries: seq<ArchiveEntry>, j: int)
    requires 0 <= j < |entries|
    ensures Listed(entries[..j + 1]) == Listed(entries[..j]) + {entries[j].path}
  {
    assert entries[..j + 1] == entries[..j] + [entries[j]];
  }

  /** Entries at other paths never matter, wherever they come. */
  lemma ExtraEntriesIrrelevant(before: seq<ArchiveEntry>, extra: ArchiveEntry, after: seq<ArchiveEntry>)
    requires extra.path !in Required
    ensures Missing(before + [extra] + after) == Missing(before + after)
  {
    var all := before + [extra] + after;
    assert Listed(all) == Listed(before + after) + {extra.path} by {
      forall p | p in Listed(all) ensures p in Listed(before + after) + {extra.path} {
        var e :| e in all && e.path == p;
        if e != extra {
          assert e in before || e in after;
        }
      }
    }
  }

  /** Only which paths are listed matters: not order, not repetition. */
  lemma SamePathsSameOutcome(a: seq<ArchiveEntry>, b: seq<ArchiveEntry>)
    requires forall e :: e in a ==> exists f :: f in b && f.path == e.path
    requires forall f :: f in b ==> exists e :: e in a && e.path == f.path
    ensures Missing(a) == Missing(b)
  {
    assert Listed(a) == Listed(b);
  }

  /** A backup listing exactly the required entries is valid; one missing
      any of them is not. */
  lemma RequiredAlone(es: seq<ArchiveEntry>)
    requires |es| == 3 && forall i :: 0 <= i < 3 ==> es[i].path == Required[i]
    ensures Missing(es) == {}
    ensures Missing(es[1..]) == {"container.json"}
  {
    assert es[0] in es && es[1] in es && es[2] in es;
    assert Listed(es[1..]) == {"filesystem.tar", "metadata.json"} by {
      assert es[1..] == [es[1], es[2]];
    }
  }

  /** The report gives the missing names back: between the brackets, split
      at spaces, are the names it was built from. */
  lemma ReportNames(ms: seq<string>)
    requires |ms| >= 1 && forall i :: 0 <= i < |ms| ==> ms[i] in Required
    ensures var d := Report(ms);
            HasPrefix(d, MissingText + "[") && HasSuffix(d, "]")
            && Split(d[|MissingText| + 1..|d| - 1], ' ') == ms
  {
    var d := Report(ms);
    var body := Join(ms, ' ');
    assert d == (MissingText + "[") + body + "]";
    assert d[..|MissingText + "["|] == MissingText + "[";
    assert d[|MissingText| + 1..|d| - 1] == body;
    forall i | 0 <= i < |ms| ensures ' ' !in ms[i] {
      assert ms[i] == "container.json" || ms[i] == "filesystem.tar" || ms[i] == "metadata.json";
    }
    SplitJoin(ms, ' ');
  }
}
