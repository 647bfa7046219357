/** Extension stripping from `rcpputils::fs`.

    A path is treated as its plain string: the source converts the path to a
    string, cuts it, and builds a new path from the piece. On POSIX targets
    that leaves the characters unchanged; the Windows narrow-string conversion
    and its failure are not modelled. */
module FilesystemHelper {
  import opened Wrappers

  /** Number of '.' characters in `s`. */
  function DotCount(s: string): nat {
    multiset(s)['.']
  }

  /** Position of the last '.' in `s`, or None when there is none
      (`std::string::find_last_of('.')`, with None for `npos`). */
  function LastDot(s: string): (r: Option<nat>)
    ensures r.None? <==> '.' !in s
    ensures r.Some? ==> r.value < |s| && s[r.value] == '.'
    ensures r.Some? ==> forall j :: r.value < j < |s| ==> s[j] != '.'
  {
    if s == [] then None
    else if s[|s| - 1] == '.' then Some(|s| - 1)
    else
      assert s == s[..|s| - 1] + [s[|s| - 1]];
      LastDot(s[..|s| - 1])
  }

  /** What `remove_extension(p, n)` returns: cut at the last dot, at most `n`
      times, stopping as soon as no dot is left. */
  function RemoveExtensionSpec(p: string, n: int): (r: string)
    ensures |r| <= |p|
    ensures n >= 1 && '.' in p ==> |r| < |p|
    decreases if n <= 0 then 0 else n
  {
    if n <= 0 then p
    else match LastDot(p)
      case None => p
      case Some(i) => RemoveExtensionSpec(p[..i], n - 1)
  }

  /** The loop of `remove_extension`: each pass finds the last dot and keeps
      only what precedes it; a pass that finds no dot returns at once. The
      count defaults to one, as in the source. */
  method RemoveExtension(filePath: string, nTimes: int := 1) returns (newPath: string)
    ensures newPath == RemoveExtensionSpec(filePath, nTimes)
    ensures newPath <= filePath
    ensures nTimes >= 0 ==> DotCount(newPath) == if DotCount(filePath) <= nTimes then 0 else DotCount(filePath) - nTimes
  {
    RemoveExtensionPrefix(filePath, nTimes);
    if nTimes >= 0 {
      RemoveExtensionDots(filePath, nTimes);
    }
    newPath := filePath;
    var i := 0;
    while i < nTimes
      invariant 0 <= i && (i <= nTimes || i == 0)
      invariant RemoveExtensionSpec(newPath, nTimes - i) == RemoveExtensionSpec(filePath, nTimes)
      decreases nTimes - i
    {
      var lastDot := LastDot(newPath);
      if lastDot.None? {
        return;
      }
      newPath := newPath[..lastDot.value];
      i := i + 1;
    }
  }

  /** With a non-positive count nothing is removed. */
  lemma RemoveExtensionNonPositive(p: string, n: int)
    requires n <= 0
    ensures RemoveExtensionSpec(p, n) == p
  {
  }

  /** A string without any dot is returned unchanged, whatever the count. */
  lemma RemoveExtensionNoDot(p: string, n: int)
    requires '.' !in p
    ensures RemoveExtensionSpec(p, n) == p
  {
  }

  /** One step removes exactly the last dot and everything after it. */
  lemma RemoveExtensionOneStep(p: string, i: nat)
    requires i < |p| && p[i] == '.' && forall j :: i < j < |p| ==> p[j] != '.'
    ensures RemoveExtensionSpec(p, 1) == p[..i]
  {
  }

  /** The result is always a prefix of the input. */
  lemma {:induction false} RemoveExtensionPrefix(p: string, n: int)
    ensures RemoveExtensionSpec(p, n) <= p
    decreases if n <= 0 then 0 else n
  {
    if n >= 1 && '.' in p {
      var i := LastDot(p).value;
      RemoveExtensionStep(p, n);
      RemoveExtensionPrefix(p[..i], n - 1);
    }
  }

  /** Cutting at the last dot removes exactly one dot. */
  lemma CutAtLastDot(p: string, i: nat)
    requires i < |p| && p[i] == '.' && forall j :: i < j < |p| ==> p[j] != '.'
    ensures DotCount(p[..i]) + 1 == DotCount(p)
  {
    assert p == p[..i] + [p[i]] + p[i + 1..];
    assert multiset(p) == multiset(p[..i]) + multiset{'.'} + multiset(p[i + 1..]);
  }

  /** A string with `k` dots keeps `max(k - n, 0)` of them. */
  lemma {:induction false} RemoveExtensionDots(p: string, n: nat)
    ensures DotCount(RemoveExtensionSpec(p, n)) == if DotCount(p) <= n then 0 else DotCount(p) - n
  {
    if n == 0 {
    } else {
      match LastDot(p)
      case None =>
        assert DotCount(p) == 0;
      case Some(i) =>
        CutAtLastDot(p, i);
        RemoveExtensionDots(p[..i], n - 1);
    }
  }

  /** A count of at least one on a path with a dot cuts at the last dot and
      goes on with one step fewer. */
  lemma RemoveExtensionStep(p: string, n: int)
    requires n >= 1 && '.' in p
    ensures RemoveExtensionSpec(p, n) == RemoveExtensionSpec(p[..LastDot(p).value], n - 1)
  {
  }

  /** Stripping `a` extensions and then `b` more is stripping `a + b`. */
  lemma {:induction false} RemoveExtensionCompose(p: string, a: nat, b: nat)
    ensures RemoveExtensionSpec(RemoveExtensionSpec(p, a), b) == RemoveExtensionSpec(p, a + b)
  {
    if a == 0 {
      RemoveExtensionNonPositive(p, a);
    } else if '.' !in p {
      RemoveExtensionNoDot(p, a);
      RemoveExtensionNoDot(p, b);
      RemoveExtensionNoDot(p, a + b);
    } else {
      var q := p[..LastDot(p).value];
      RemoveExtensionStep(p, a);
      RemoveExtensionStep(p, a + b);
      RemoveExtensionCompose(q, a - 1, b);
    }
  }

  /** The last dot may sit in a directory component: the whole tail after it,
      separators included, is dropped. */
  lemma RemoveExtensionDirectoryDot(dir: string, tail: string)
    requires '.' !in tail
    ensures RemoveExtensionSpec(dir + "." + tail, 1) == dir
  {
    var p := dir + "." + tail;
    assert p[|dir| + 1..] == tail;
    RemoveExtensionOneStep(p, |dir|);
    assert p[..|dir|] == dir;
  }

  /** `"a.d/file"` becomes `"a"`. */
  lemma RemoveExtensionDirectoryExample()
    ensures RemoveExtensionSpec("a.d/file", 1) == "a"
  {
  }

  /** When the second part holds a dot, the last dot of the concatenation is
      the last dot of the second part. */
  lemma {:induction false} LastDotAppend(a: string, b: string)
    requires '.' in b
    ensures LastDot(a + b) == Some(|a| + LastDot(b).value)
  {
    if b[|b| - 1] != '.' {
      var b' := b[..|b| - 1];
      assert b == b' + [b[|b| - 1]];
      assert (a + b)[..|a + b| - 1] == a + b';
      LastDotAppend(a, b');
    }
  }
}
