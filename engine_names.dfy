/** pkg/backup/engine.go: safeName and the two hand-written string helpers
    it is built on, indexOf and stringReplaceAll. */
module EngineNames {
  import opened Strs

  // ---------------------------------------------------------------------
  // indexOf

  /** The answer indexOf must give: the least index at which `sub` occurs
      (so 0 for an empty `sub`), or -1 when it occurs nowhere. */
  predicate IsFirstIndex(s: string, sub: string, r: int) {
    if r < 0 then r == -1 && forall i :: 0 <= i <= |s| ==> !OccursAt(s, sub, i)
    else OccursAt(s, sub, r) && forall i :: 0 <= i < r ==> !OccursAt(s, sub, i)
  }

  method IndexOf(s: string, sub: string) returns (idx: int)
    ensures IsFirstIndex(s, sub, idx)
    ensures idx == -1 <==> !Contains(s, sub)
  {
    var n := |s|;
    var m := |sub|;
    if m == 0 {
      assert OccursAt(s, sub, 0);
      return 0;
    }
    var i := 0;
    while i + m <= n
      invariant 0 <= i
      invariant forall j :: 0 <= j < i ==> !OccursAt(s, sub, j)
      decreases n - i
    {
      if s[i..i + m] == sub {
        assert OccursAt(s, sub, i);
        return i;
      }
      i := i + 1;
    }
    return -1;
  }

  // ---------------------------------------------------------------------
  // stringReplaceAll

  /** Every `c` in `s` replaced by `rep`. */
  function ReplaceChar(s: string, c: char, rep: string): string {
    if s == [] then []
    else (if s[0] == c then rep else [s[0]]) + ReplaceChar(s[1..], c, rep)
  }

  lemma {:induction false} ReplaceCharConcat(a: string, b: string, c: char, rep: string)
    ensures ReplaceChar(a + b, c, rep) == ReplaceChar(a, c, rep) + ReplaceChar(b, c, rep)
  {
    if a != [] {
      assert (a + b)[1..] == a[1..] + b;
      ReplaceCharConcat(a[1..], b, c, rep);
    } else {
      assert a + b == b;
    }
  }

  lemma {:induction false} ReplaceCharAbsent(s: string, c: char, rep: string)
    requires c !in s
    ensures ReplaceChar(s, c, rep) == s
  {
    if s != [] {
      ReplaceCharAbsent(s[1..], c, rep);
      assert [s[0]] + s[1..] == s;
    }
  }

  /** Replacing the occurrence at `idx` leaves the full replacement as it
      was and leaves one `c` fewer. */
  lemma ReplaceStep(r: string, idx: int, c: char, rep: string)
    requires 0 <= idx < |r| && r[idx] == c && c !in rep
    ensures ReplaceChar(r[..idx] + rep + r[idx + 1..], c, rep) == ReplaceChar(r, c, rep)
    ensures multiset(r[..idx] + rep + r[idx + 1..])[c] < multiset(r)[c]
  {
    var pre, post := r[..idx], r[idx + 1..];
    assert r == pre + [c] + post;
    ReplaceCharConcat(pre + [c], post, c, rep);
    ReplaceCharConcat(pre, [c], c, rep);
    ReplaceCharConcat(pre + rep, post, c, rep);
    ReplaceCharConcat(pre, rep, c, rep);
    ReplaceCharAbsent(rep, c, rep);
    assert ReplaceChar([c], c, rep) == rep;
    assert multiset(pre + rep + post) == multiset(pre) + multiset(rep) + multiset(post);
    assert multiset(r) == multiset(pre) + multiset{c} + multiset(post);
  }

  /** stringReplaceAll for the one-character patterns safeName uses. The Go
      loop restarts its search from the front after every replacement, so
      it only ends when the replacement does not bring the pattern back. */
  method StringReplaceAll(s: string, pattern: string, rep: string) returns (r: string)
    requires |pattern| == 1 && pattern[0] !in rep
    ensures r == ReplaceChar(s, pattern[0], rep)
  {
    var c := pattern[0];
    r := s;
    var idx := IndexOf(r, pattern);
    while idx >= 0
      invariant ReplaceChar(r, c, rep) == ReplaceChar(s, c, rep)
      invariant IsFirstIndex(r, pattern, idx)
      decreases multiset(r)[c]
    {
      assert r[idx..idx + 1] == pattern;
      ReplaceStep(r, idx, c, rep);
      r := r[..idx] + rep + r[idx + |pattern|..];
      idx := IndexOf(r, pattern);
    }
    assert c !in r by {
      forall i | 0 <= i < |r| ensures r[i] != c {
        assert !OccursAt(r, pattern, i);
        assert r[i..i + 1] == [r[i]];
      }
    }
    ReplaceCharAbsent(r, c, rep);
  }

  /** Replacing a character by one character works position by position. */
  lemma {:induction false} ReplaceByChar(s: string, c: char, d: char)
    ensures ReplaceChar(s, c, [d]) == seq(|s|, i requires 0 <= i < |s| => if s[i] == c then d else s[i])
  {
    if s != [] {
      ReplaceByChar(s[1..], c, d);
    }
  }

  // ---------------------------------------------------------------------
  // safeName

  /** The characters safeName replaces, in the order it replaces them. */
  const Unsafe: seq<char> := ['/', '\\', ' ', ':', '\t']

  /** A name as a file name: "container" for none, else every unsafe
      character turned into '-'. */
  function SafeNameOf(name: string): string {
    if name == "" then "container"
    else seq(|name|, i requires 0 <= i < |name| => if name[i] in Unsafe then '-' else name[i])
  }

  predicate NoUnsafe(s: string) {
    forall i :: 0 <= i < |s| ==> s[i] !in Unsafe
  }

  method SafeName(name: string) returns (r: string)
    ensures r == SafeNameOf(name)
  {
    if name == "" {
      return "container";
    }
    r := name;
    for k := 0 to |Unsafe|
      invariant r == seq(|name|, i requires 0 <= i < |name| => if name[i] in Unsafe[..k] then '-' else name[i])
    {
      var c := Unsafe[k];
      ReplaceByChar(r, c, '-');
      assert Unsafe[..k + 1] == Unsafe[..k] + [c];
      r := StringReplaceAll(r, [c], "-");
    }
    assert Unsafe[..|Unsafe|] == Unsafe;
  }

  /** safeName changes a name exactly when it is empty or has an unsafe
      character; its result never has one. */
  lemma SafeNameFixes(name: string)
    ensures SafeNameOf(name) != "" && NoUnsafe(SafeNameOf(name))
    ensures SafeNameOf(name) == name <==> name != "" && NoUnsafe(name)
  {
    var r := SafeNameOf(name);
    if name != "" && r == name {
      forall i | 0 <= i < |name| ensures name[i] !in Unsafe {
        assert r[i] == name[i];
      }
    }
  }

  /** Applying safeName twice changes nothing more. */
  lemma SafeNameIdempotent(name: string)
    ensures SafeNameOf(SafeNameOf(name)) == SafeNameOf(name)
  {
    SafeNameFixes(name);
    SafeNameFixes(SafeNameOf(name));
  }

  /** Names that differ only in which unsafe character they use collide. */
  lemma SafeNameCollides(a: string, b: string)
    requires |a| == |b| && a != ""
    requires forall i :: 0 <= i < |a| ==> a[i] == b[i] || (a[i] in Unsafe && b[i] in Unsafe)
    ensures SafeNameOf(a) == SafeNameOf(b)
  {
  }
}
