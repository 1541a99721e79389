/** Go's path/filepath on Unix (separator '/'), modelled on lists of path
    elements: Clean, Join, Rel, Base and IsAbs, the operations the archive
    and restore code build their paths with. */
module Paths {
  import opened Wrappers
  import opened Strs

  /** A cleaned path: whether it starts at the root, and its elements. */
  datatype Path = Path(rooted: bool, elems: seq<string>)

  /** An element that names a child: not empty, not "." or "..", no separator. */
  predicate Plain(e: string) {
    e != "" && e != "." && e != ".." && '/' !in e
  }

  /** The shape Clean produces: plain elements, except for leading ".."
      elements in a relative path. */
  predicate CleanElems(rooted: bool, es: seq<string>) {
    && (forall i :: 0 <= i < |es| ==> Plain(es[i]) || (es[i] == ".." && !rooted))
    && (forall i, j :: 0 <= i < j < |es| && es[j] == ".." ==> es[i] == "..")
  }

  /** One element of Clean's lexical processing. */
  function Step(stack: seq<string>, rooted: bool, e: string): (r: seq<string>)
    requires CleanElems(rooted, stack) && '/' !in e
    ensures CleanElems(rooted, r)
  {
    if e == "" || e == "." then stack
    else if e == ".." then
      if |stack| > 0 && stack[|stack| - 1] != ".." then stack[..|stack| - 1]
      else if rooted then stack
      else
        assert forall i :: 0 <= i < |stack| ==> stack[i] == "..";
        stack + [".."]
    else
      stack + [e]
  }

  /** Processes the elements left to right. */
  function Resolve(stack: seq<string>, rooted: bool, es: seq<string>): (r: seq<string>)
    requires CleanElems(rooted, stack) && forall i :: 0 <= i < |es| ==> '/' !in es[i]
    ensures CleanElems(rooted, r)
    decreases |es|
  {
    if es == [] then stack else Resolve(Step(stack, rooted, es[0]), rooted, es[1..])
  }

  predicate Rooted(s: string) {
    |s| > 0 && s[0] == '/'
  }

  /** The cleaned form of `s`: separators collapsed, "." dropped, ".." resolved
      lexically, ".." at the root dropped. */
  function Parse(s: string): (p: Path)
    ensures CleanElems(p.rooted, p.elems) && p.rooted == Rooted(s)
  {
    var none: seq<string> := [];
    Path(Rooted(s), Resolve(none, Rooted(s), Split(s, '/')))
  }

  /** strings.Join of the elements with "/", "" for none. */
  function Unsplit(es: seq<string>): string {
    if es == [] then "" else Join(es, '/')
  }

  function Render(p: Path): string {
    if p.rooted then "/" + Unsplit(p.elems)
    else if p.elems == [] then "."
    else Unsplit(p.elems)
  }

  /** filepath.Clean. */
  function Clean(s: string): (c: string)
    ensures c != ""
  {
    Render(Parse(s))
  }

  /** filepath.IsAbs. */
  predicate IsAbs(s: string) {
    Rooted(s)
  }

  /** filepath.Join of two elements: the elements from the first non-empty
      one on, joined with "/" and cleaned; "" when both are empty. */
  function JoinPath(a: string, b: string): (r: string)
    ensures a == "" && b == "" <==> r == ""
  {
    if a != "" then Clean(a + "/" + b)
    else if b != "" then Clean(b)
    else ""
  }

  /** Length of the longest common prefix of two element lists. */
  function CommonPrefix(a: seq<string>, b: seq<string>): (k: nat)
    ensures k <= |a| && k <= |b| && a[..k] == b[..k]
    ensures k < |a| && k < |b| ==> a[k] != b[k]
  {
    if a == [] || b == [] || a[0] != b[0] then 0
    else
      var k := CommonPrefix(a[1..], b[1..]);
      assert a[..k + 1] == [a[0]] + a[1..][..k];
      assert b[..k + 1] == [b[0]] + b[1..][..k];
      k + 1
  }

  function Dots(n: nat): (r: seq<string>)
    ensures |r| == n && forall i :: 0 <= i < n ==> r[i] == ".."
  {
    seq(n, i => "..")
  }

  /** filepath.Rel: a path that Join(basepath, r) cleans to targpath, built
      by going up out of the elements of `basepath` that `targpath` does
      not share. Two paths clean to the same string exactly when they parse
      to the same Path (CleanEq), and to "." exactly when they parse to the
      empty relative path (CleanDot). */
  function Rel(basepath: string, targpath: string): (r: Result<string, string>)
  {
    RelOf(Parse(basepath), Parse(targpath), "Rel: can't make " + targpath + " relative to " + basepath)
  }

  const Here := Path(false, [])

  /** Rel on cleaned paths. Like Go it treats a target of "." as the one
      element ".", and a base of "." as no elements at all. */
  function RelOf(b: Path, t: Path, msg: string): (r: Result<string, string>)
  {
    if t == b then Ok(".")
    else if b.rooted != t.rooted then Err(msg)
    else if b == Here then Ok(Render(t))
    else
      var ts := if t == Here then ["."] else t.elems;
      var k := CommonPrefix(b.elems, ts);
      if k < |b.elems| && b.elems[k] == ".." then Err(msg)
      else if k < |b.elems| then Ok(Unsplit(Dots(|b.elems| - k) + ts[k..]))
      else Ok(Unsplit(ts[k..]))
  }

  /** filepath.Base: the last element, "." for "", "/" for only slashes. */
  function Base(s: string): (r: string)
    ensures r != ""
    ensures r == "/" || '/' !in r
  {
    if s == "" then "."
    else
      var es := Split(s, '/');
      var nonEmpty := NonEmptyElems(es);
      if nonEmpty == [] then "/" else nonEmpty[|nonEmpty| - 1]
  }

  function NonEmptyElems(es: seq<string>): (r: seq<string>)
    ensures forall i :: 0 <= i < |r| ==> r[i] != "" && r[i] in es
  {
    if es == [] then []
    else if es[0] == "" then NonEmptyElems(es[1..])
    else [es[0]] + NonEmptyElems(es[1..])
  }

  /** `p` is `base` itself or lies below it. */
  predicate Within(base: string, p: string) {
    Below(Parse(base), Parse(p))
  }

  predicate Below(b: Path, q: Path) {
    && b.rooted == q.rooted
    && |b.elems| <= |q.elems|
    && q.elems[..|b.elems|] == b.elems
    && forall i :: |b.elems| <= i < |q.elems| ==> q.elems[i] != ".."
  }

  // ---------------------------------------------------------------------
  // Lemmas

  lemma {:induction false} SplitConcat(x: string, y: string)
    ensures Split(x + "/" + y, '/') == Split(x, '/') + Split(y, '/')
  {
    if x == [] {
      SplitAtSep(x, '/', y);
    } else {
      assert (x + "/" + y)[1..] == x[1..] + "/" + y;
      SplitConcat(x[1..], y);
    }
  }

  lemma {:induction false} ResolveConcat(st: seq<string>, rooted: bool, a: seq<string>, b: seq<string>)
    requires CleanElems(rooted, st)
    requires forall i :: 0 <= i < |a| ==> '/' !in a[i]
    requires forall i :: 0 <= i < |b| ==> '/' !in b[i]
    ensures Resolve(st, rooted, a + b) == Resolve(Resolve(st, rooted, a), rooted, b)
    decreases |a|
  {
    if a != [] {
      assert (a + b)[1..] == a[1..] + b;
      ResolveConcat(Step(st, rooted, a[0]), rooted, a[1..], b);
    } else {
      assert a + b == b;
    }
  }

  /** Resolving elements that are already clean after a clean prefix keeps them all. */
  lemma {:induction false} ResolveClean(st: seq<string>, rooted: bool, es: seq<string>)
    requires CleanElems(rooted, st + es)
    ensures CleanElems(rooted, st)
    ensures forall i :: 0 <= i < |es| ==> '/' !in es[i]
    ensures Resolve(st, rooted, es) == st + es
    decreases |es|
  {
    assert forall i :: 0 <= i < |st| ==> st[i] == (st + es)[i];
    assert forall i :: 0 <= i < |es| ==> es[i] == (st + es)[|st| + i];
    if es != [] {
      var st' := st + [es[0]];
      assert st' + es[1..] == st + es;
      if es[0] == ".." && |st| > 0 {
        assert (st + es)[|st|] == "..";
        assert (st + es)[|st| - 1] == "..";
      }
      assert Step(st, rooted, es[0]) == st';
      ResolveClean(st', rooted, es[1..]);
    } else {
      assert st + es == st;
    }
  }

  /** The elements of a rendered clean path. */
  lemma SplitRender(p: Path)
    requires CleanElems(p.rooted, p.elems) && p.elems != []
    ensures !p.rooted ==> Split(Render(p), '/') == p.elems
    ensures p.rooted ==> Split(Render(p), '/') == [""] + p.elems
  {
    assert forall i :: 0 <= i < |p.elems| ==> '/' !in p.elems[i];
    SplitJoin(p.elems, '/');
    if p.rooted {
      SplitAtSep("", '/', Join(p.elems, '/'));
      assert "" + "/" + Join(p.elems, '/') == Render(p);
    }
  }

  /** The first character of a joined list is that of its first element. */
  lemma JoinHead(es: seq<string>)
    requires |es| >= 1 && es[0] != ""
    ensures |Join(es, '/')| > 0 && Join(es, '/')[0] == es[0][0]
    ensures Join(es, '/')[..|es[0]|] == es[0]
  {
  }

  /** Clean's output parses back to the same path. */
  lemma ParseRender(p: Path)
    requires CleanElems(p.rooted, p.elems)
    ensures Parse(Render(p)) == p
  {
    var none: seq<string> := [];
    if p.elems == [] {
      if p.rooted {
        assert Render(p) == "" + ['/'] + "";
        SplitAtSep("", '/', "");
        assert Split(Render(p), '/') == ["", ""];
        assert Resolve(none, true, [""]) == none;
        assert ["", ""][1..] == [""];
      } else {
        SplitNoSep(".", '/');
        assert Resolve(none, false, ["."]) == none;
      }
    } else {
      SplitRender(p);
      ResolveClean(none, p.rooted, p.elems);
      assert none + p.elems == p.elems;
      if !p.rooted {
        JoinHead(p.elems);
        assert Rooted(Render(p)) == false;
      } else {
        assert Step(none, true, "") == none;
        assert ([""] + p.elems)[1..] == p.elems;
      }
    }
  }

  /** Clean is idempotent, and a cleaned path parses to what the original did. */
  lemma CleanIdempotent(s: string)
    ensures Parse(Clean(s)) == Parse(s)
    ensures Clean(Clean(s)) == Clean(s)
  {
    ParseRender(Parse(s));
  }

  /** Two paths clean alike exactly when they parse alike. */
  lemma CleanEq(a: string, b: string)
    ensures Clean(a) == Clean(b) <==> Parse(a) == Parse(b)
  {
    CleanIdempotent(a);
    CleanIdempotent(b);
  }

  /** Clean yields "." for exactly the empty relative path. */
  lemma CleanDot(s: string)
    ensures Clean(s) == "." <==> Parse(s) == Path(false, [])
  {
    ParseRender(Parse(s));
    assert Parse(".") == Path(false, []) by {
      ParseRender(Path(false, []));
    }
  }

  /** Joining a plain relative path onto a directory appends its elements. */
  lemma JoinPlain(a: string, b: string)
    requires a != ""
    requires !Parse(b).rooted && forall i :: 0 <= i < |Parse(b).elems| ==> Plain(Parse(b).elems[i])
    ensures Parse(JoinPath(a, b)) == Path(Parse(a).rooted, Parse(a).elems + Parse(b).elems)
  {
    var none: seq<string> := [];
    var pa := Parse(a);
    var pb := Parse(b);
    SplitConcat(a, b);
    assert Rooted(a + "/" + b) == Rooted(a);
    ResolveConcat(none, pa.rooted, Split(a, '/'), Split(b, '/'));
    PlainResolve(pa.elems, pa.rooted, Split(b, '/'));
    CleanIdempotent(a + "/" + b);
  }

  /** Resolving after any clean prefix appends what the elements resolve to
      on their own, when those are all plain. */
  lemma {:induction false} PlainResolve(st: seq<string>, rooted: bool, es: seq<string>)
    requires CleanElems(rooted, st) && forall i :: 0 <= i < |es| ==> '/' !in es[i]
    requires forall i :: 0 <= i < |Resolve([], false, es)| ==> Plain(Resolve([], false, es)[i])
    ensures Resolve(st, rooted, es) == st + Resolve([], false, es)
  {
    var none: seq<string> := [];
    assert st + none == st;
    PlainResolveFrom(st, rooted, none, es);
  }

  lemma {:induction false} PlainResolveFrom(st: seq<string>, rooted: bool, acc: seq<string>, es: seq<string>)
    requires CleanElems(rooted, st) && CleanElems(false, acc) && CleanElems(rooted, st + acc)
    requires forall i :: 0 <= i < |es| ==> '/' !in es[i]
    requires forall i :: 0 <= i < |acc| ==> Plain(acc[i])
    requires forall i :: 0 <= i < |Resolve(acc, false, es)| ==> Plain(Resolve(acc, false, es)[i])
    ensures Resolve(st + acc, rooted, es) == st + Resolve(acc, false, es)
    decreases |es|
  {
    if es != [] {
      var e := es[0];
      var acc' := Step(acc, false, e);
      assert Resolve(acc, false, es) == Resolve(acc', false, es[1..]);
      PlainAcc(acc', es[1..]);
      var left := Step(st + acc, rooted, e);
      assert left == st + acc' by {
        if e == ".." {
          assert acc == [] ==> acc' == [".."];
          assert acc != [] && acc[|acc| - 1] != "..";
          assert (st + acc)[..|st + acc| - 1] == st + acc[..|acc| - 1];
        } else if e != "" && e != "." {
          assert st + acc + [e] == st + (acc + [e]);
        }
      }
      PlainResolveFrom(st, rooted, acc', es[1..]);
    } else {
      assert Resolve(st + acc, rooted, es) == st + acc;
    }
  }

  /** A leading ".." in the stack survives resolution. */
  lemma {:induction false} LeadingDotDotSurvives(acc: seq<string>, es: seq<string>)
    requires CleanElems(false, acc) && forall i :: 0 <= i < |es| ==> '/' !in es[i]
    ensures acc != [] && acc[0] == ".." ==> |Resolve(acc, false, es)| > 0 && Resolve(acc, false, es)[0] == ".."
    decreases |es|
  {
    if es != [] {
      var acc' := Step(acc, false, es[0]);
      assert acc != [] && acc[0] == ".." ==> acc' != [] && acc'[0] == "..";
      LeadingDotDotSurvives(acc', es[1..]);
    }
  }

  /** If the final stack is all plain, so was every intermediate one. */
  lemma PlainAcc(acc: seq<string>, es: seq<string>)
    requires CleanElems(false, acc) && forall i :: 0 <= i < |es| ==> '/' !in es[i]
    requires forall i :: 0 <= i < |Resolve(acc, false, es)| ==> Plain(Resolve(acc, false, es)[i])
    ensures forall i :: 0 <= i < |acc| ==> Plain(acc[i])
  {
    LeadingDotDotSurvives(acc, es);
    if acc != [] {
      assert acc[0] != "..";
      assert forall i :: 0 < i < |acc| ==> acc[i] != "..";
    }
  }

  /** Whether a joined list starts with ".." depends on its first element only. */
  lemma FirstElemPrefix(es: seq<string>)
    requires es != [] && es[0] != ""
    ensures HasPrefix(Unsplit(es), "..") <==> HasPrefix(es[0], "..")
  {
    JoinHead(es);
    if |es[0]| == 1 && |es| > 1 {
      assert Unsplit(es) == es[0] + "/" + Join(es[1..], '/');
      assert Unsplit(es)[1] == '/';
    }
  }

  /** Rel never leads out of `base` unless its answer starts with "..": a
      target whose relative path does not start with ".." is `base` or lies
      below it. */
  lemma RelInside(base: string, targ: string)
    ensures Rel(base, targ).Ok? && !HasPrefix(Rel(base, targ).value, "..") ==> Within(base, targ)
  {
    RelOfInside(Parse(base), Parse(targ), "Rel: can't make " + targ + " relative to " + base);
  }

  lemma RelOfInside(b: Path, t: Path, msg: string)
    requires CleanElems(b.rooted, b.elems) && CleanElems(t.rooted, t.elems)
    ensures RelOf(b, t, msg).Ok? && !HasPrefix(RelOf(b, t, msg).value, "..") ==> Below(b, t)
  {
    if t == b {
      assert b.elems[..|b.elems|] == b.elems;
    } else if b.rooted == t.rooted {
      if b == Here {
        RelOfHere(t, msg);
      } else {
        RelOfOther(b, t, msg);
      }
    }
  }

  lemma RelOfHere(t: Path, msg: string)
    requires CleanElems(t.rooted, t.elems) && t != Here && !t.rooted
    ensures RelOf(Here, t, msg) == Ok(Render(t))
    ensures !HasPrefix(Render(t), "..") ==> Below(Here, t)
  {
    if t.elems != [] {
      FirstElemPrefix(t.elems);
    }
  }

  lemma RelOfOther(b: Path, t: Path, msg: string)
    requires CleanElems(b.rooted, b.elems) && CleanElems(t.rooted, t.elems)
    requires t != b && b.rooted == t.rooted && b != Here
    ensures RelOf(b, t, msg).Ok? && !HasPrefix(RelOf(b, t, msg).value, "..") ==> Below(b, t)
  {
    var ts := if t == Here then ["."] else t.elems;
    var k := CommonPrefix(b.elems, ts);
    if k < |b.elems| {
      FirstElemPrefix(Dots(|b.elems| - k) + ts[k..]);
    } else {
      assert t != Here by {
        assert ["."][..0] == [];
      }
      UpperSuffix(b, t, k);
    }
  }

  /** When the base is a prefix of the target, what remains is free of ".."
      unless it starts with "..". */
  lemma UpperSuffix(b: Path, t: Path, k: nat)
    requires CleanElems(t.rooted, t.elems)
    requires b.rooted == t.rooted
    requires k == |b.elems| && k <= |t.elems| && t.elems[..k] == b.elems
    ensures !HasPrefix(Unsplit(t.elems[k..]), "..") ==> Below(b, t)
  {
    if k < |t.elems| {
      FirstElemPrefix(t.elems[k..]);
      assert t.elems[k..][0] == t.elems[k];
      forall i | k < i < |t.elems| ensures t.elems[i] == ".." ==> t.elems[k] == ".." {
      }
    }
  }

  /** Rel of a plain path joined onto a directory is that plain path. */
  lemma RelBelow(base: string, name: string)
    requires base != ""
    requires !Parse(name).rooted && Parse(name).elems != []
    requires forall i :: 0 <= i < |Parse(name).elems| ==> Plain(Parse(name).elems[i])
    ensures Rel(base, JoinPath(base, name)) == Ok(Unsplit(Parse(name).elems))
  {
    var b := Parse(base);
    var n := Parse(name);
    var joined := JoinPath(base, name);
    JoinPlain(base, name);
    if b != Here {
      var ts := b.elems + n.elems;
      var k := CommonPrefix(b.elems, ts);
      assert ts[..|b.elems|] == b.elems;
      assert ts[k..] == n.elems;
    } else {
      assert b.elems + n.elems == n.elems;
    }
  }

  /** Joining two lists joins their joins. */
  lemma {:induction false} UnsplitConcat(a: seq<string>, b: seq<string>)
    requires a != [] && b != []
    ensures Unsplit(a + b) == Unsplit(a) + "/" + Unsplit(b)
    decreases |a|
  {
    assert (a + b)[0] == a[0];
    if |a| == 1 {
      assert (a + b)[1..] == b;
    } else {
      assert (a + b)[1..] == a[1..] + b;
      UnsplitConcat(a[1..], b);
    }
  }

  /** A trailing separator changes nothing after cleaning. */
  lemma TrailingSlash(x: string)
    requires x != ""
    ensures Parse(x + "/") == Parse(x)
  {
    var none: seq<string> := [];
    SplitConcat(x, "");
    assert x + "/" + "" == x + "/";
    assert Split("", '/') == [""];
    ResolveConcat(none, Rooted(x), Split(x, '/'), [""]);
    var st := Resolve(none, Rooted(x), Split(x, '/'));
    assert Resolve(st, Rooted(x), [""]) == Resolve(st, Rooted(x), []);
  }

  /** The path of the elements `es` below `dir`. */
  function Under(dir: string, es: seq<string>): string {
    Render(Path(Parse(dir).rooted, Parse(dir).elems + es))
  }
}
