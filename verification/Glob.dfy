/** The '*' matcher behind ignore rules and archive search (fnmatch.c). */
module Glob {
  import opened Bytes
  import opened Seqs

  const STAR: byte := 42

  /** What a pattern means: a star stands for any bytes, every other byte for itself. */
  ghost predicate Matches(p: seq<byte>, s: seq<byte>)
    decreases |p|
  {
    if p == [] then s == []
    else if p[0] == STAR then exists k :: 0 <= k <= |s| && Matches(p[1..], s[k..])
    else s != [] && s[0] == p[0] && Matches(p[1..], s[1..])
  }

  /** A pattern without a star is the text itself; one with a star is what stands before it, then any bytes, then a
      match of what follows it. */
  lemma {:induction false} PatternMeans(a: seq<byte>, q: seq<byte>, s: seq<byte>)
    requires 42 !in a
    ensures Matches(a, s) <==> s == a
    ensures Matches(a + [42] + q, s) <==> a <= s && exists k :: |a| <= k <= |s| && Matches(q, s[k..])
    decreases |a|
  {
    var p := a + [42] + q;
    if a == [] {
      assert p == [42] + q && p[1..] == q;
    } else {
      assert p[0] == a[0] && p[1..] == a[1..] + [42] + q;
      if s != [] && s[0] == a[0] {
        var b, t := a[1..], s[1..];
        PatternMeans(b, q, t);
        assert a == [a[0]] + b && s == [a[0]] + t;
        ShiftedMatch(q, s, |a|);
      }
    }
  }

  lemma ShiftedMatch(q: seq<byte>, s: seq<byte>, n: nat)
    requires 0 < n && s != []
    ensures (exists k :: n - 1 <= k <= |s[1..]| && Matches(q, s[1..][k..])) <==>
            exists k :: n <= k <= |s| && Matches(q, s[k..])
  {
    var t := s[1..];
    if k :| n - 1 <= k <= |t| && Matches(q, t[k..]) {
      DropDrop(s, 1, k);
      assert Matches(q, s[k + 1..]);
    }
    if k :| n <= k <= |s| && Matches(q, s[k..]) {
      DropDrop(s, 1, k - 1);
      assert Matches(q, t[k - 1..]);
    }
  }

  /** The pattern from position i on matches the text from position j on. */
  ghost predicate Rest(p: seq<byte>, s: seq<byte>, i: nat, j: nat)
    requires i <= |p| && j <= |s|
  {
    Matches(p[i..], s[j..])
  }

  /** The pattern after a star matches the text from some position at or after j. */
  ghost predicate Later(p: seq<byte>, s: seq<byte>, i: nat, j: nat)
    requires i <= |p| && j <= |s|
  {
    exists k :: j <= k <= |s| && Rest(p, s, i, k)
  }

  lemma RestOfStar(p: seq<byte>, s: seq<byte>, i: nat, j: nat)
    requires i < |p| && j <= |s| && p[i] == STAR
    ensures Rest(p, s, i, j) <==> Later(p, s, i + 1, j)
  {
    var q, t := p[i..], s[j..];
    assert q[1..] == p[i + 1..];
    if Later(p, s, i + 1, j) {
      var k :| j <= k <= |s| && Rest(p, s, i + 1, k);
      DropDrop(s, j, k - j);
      assert Matches(q[1..], t[k - j..]);
    }
    if Rest(p, s, i, j) {
      var k :| 0 <= k <= |t| && Matches(q[1..], t[k..]);
      DropDrop(s, j, k);
      assert Rest(p, s, i + 1, j + k);
    }
  }

  lemma RestOfByte(p: seq<byte>, s: seq<byte>, i: nat, j: nat)
    requires i < |p| && j <= |s| && p[i] != STAR
    ensures Rest(p, s, i, j) <==> j < |s| && s[j] == p[i] && Rest(p, s, i + 1, j + 1)
  {
    assert p[i..][1..] == p[i + 1..];
    if j < |s| {
      assert s[j..][1..] == s[j + 1..];
    }
  }

  ghost predicate StarFree(p: seq<byte>, from: nat, to: nat) {
    from <= to <= |p| && forall k :: from <= k < to ==> p[k] != STAR
  }

  /** The n pattern bytes from i stand literally in the text from j. */
  ghost predicate Literal(p: seq<byte>, s: seq<byte>, i: nat, j: nat, n: nat) {
    StarFree(p, i, i + n) && j + n <= |s| && p[i..i + n] == s[j..j + n]
  }

  /** Over n star-free pattern bytes a match advances in step, wherever it starts. */
  lemma {:induction false} RestOverLiteral(p: seq<byte>, s: seq<byte>, i: nat, j: nat, n: nat)
    requires StarFree(p, i, i + n) && j <= |s|
    ensures Rest(p, s, i, j) <==> Literal(p, s, i, j, n) && Rest(p, s, i + n, j + n)
    decreases n
  {
    if n > 0 {
      RestOfByte(p, s, i, j);
      if j < |s| {
        RestOverLiteral(p, s, i + 1, j + 1, n - 1);
        LiteralStep(p, s, i, j, n);
      }
    }
  }

  lemma LiteralStep(p: seq<byte>, s: seq<byte>, i: nat, j: nat, n: nat)
    requires n > 0 && StarFree(p, i, i + n) && j < |s|
    ensures Literal(p, s, i, j, n) <==> p[i] == s[j] && Literal(p, s, i + 1, j + 1, n - 1)
  {
    if j + n <= |s| {
      assert p[i..i + n] == [p[i]] + p[i + 1..i + n];
      assert s[j..j + n] == [s[j]] + s[j + 1..j + n];
      assert p[i..i + n][1..] == p[i + 1..i + n] && s[j..j + n][1..] == s[j + 1..j + n];
      assert p[i..i + n][0] == p[i] && s[j..j + n][0] == s[j];
    }
  }

  /** What the loop knows. Without a star seen, the whole match reduces to the rest; with one, to the star's
      tail matching at or after retry, while the literal bytes since the star match at retry itself. */
  ghost predicate Knows(p: seq<byte>, s: seq<byte>, pi: nat, si: nat, star: Option<nat>, retry: nat) {
    && pi <= |p| && si <= |s|
    && match star
       case None => retry == 0 && (Matches(p, s) <==> Rest(p, s, pi, si))
       case Some(t) =>
         && t <= pi && retry <= si && si - retry == pi - t
         && Literal(p, s, t, retry, pi - t)
         && (Matches(p, s) <==> Later(p, s, t, retry))
  }

  /** A new star: earlier stars need never be retried, since whatever a later retry could reach,
      the new star reaches from here. */
  lemma NewStar(p: seq<byte>, s: seq<byte>, pi: nat, si: nat, star: Option<nat>, retry: nat)
    requires Knows(p, s, pi, si, star, retry) && pi < |p| && p[pi] == STAR
    ensures Knows(p, s, pi + 1, si, Some(pi + 1), si)
  {
    RestOfStar(p, s, pi, si);
    if star.Some? {
      var t, n := star.value, pi - star.value;
      RestOverLiteral(p, s, t, retry, n);
      if Later(p, s, pi + 1, si) {
        assert Rest(p, s, t, retry);
      }
      if Later(p, s, t, retry) {
        var k :| retry <= k <= |s| && Rest(p, s, t, k);
        RestOverLiteral(p, s, t, k, n);
        RestOfStar(p, s, pi, k + n);
        var m :| k + n <= m <= |s| && Rest(p, s, pi + 1, m);
        assert Later(p, s, pi + 1, si);
      }
    }
  }

  lemma SameByte(p: seq<byte>, s: seq<byte>, pi: nat, si: nat, star: Option<nat>, retry: nat)
    requires Knows(p, s, pi, si, star, retry) && pi < |p| && si < |s| && p[pi] != STAR && p[pi] == s[si]
    ensures Knows(p, s, pi + 1, si + 1, star, retry)
  {
    RestOfByte(p, s, pi, si);
    if star.Some? {
      var t, n := star.value, pi - star.value;
      assert p[t..t + n + 1] == p[t..t + n] + [p[pi]] && s[retry..retry + n + 1] == s[retry..retry + n] + [s[si]];
    }
  }

  /** A mismatch rules out the current retry position for the latest star's tail. */
  lemma {:induction false} Mismatch(p: seq<byte>, s: seq<byte>, pi: nat, si: nat, star: Option<nat>, retry: nat)
    requires Knows(p, s, pi, si, star, retry) && si < |s|
    requires pi < |p| ==> p[pi] != STAR && p[pi] != s[si]
    ensures star.None? ==> !Matches(p, s)
    ensures star.Some? ==> Knows(p, s, star.value, retry + 1, star, retry + 1)
  {
    if pi < |p| {
      RestOfByte(p, s, pi, si);
    } else {
      assert p[pi..] == [] && s[si..] != [];
    }
    assert !Rest(p, s, pi, si);
    if star.Some? {
      RestOverLiteral(p, s, star.value, retry, pi - star.value);
      assert !Rest(p, s, star.value, retry);
      assert Later(p, s, star.value, retry) <==> Later(p, s, star.value, retry + 1);
    }
  }

  lemma {:induction false} OnlyStarsMatchEmpty(p: seq<byte>)
    ensures Matches(p, []) <==> forall k :: 0 <= k < |p| ==> p[k] == STAR
  {
    if p != [] {
      OnlyStarsMatchEmpty(p[1..]);
      var empty: seq<byte> := [];
      assert empty[0..] == empty;
      assert p[0] == STAR ==> (Matches(p, []) <==> Matches(p[1..], []));
      assert forall k :: 0 < k < |p| ==> p[k] == p[1..][k - 1];
    }
  }

  ghost predicate AllStars(p: seq<byte>, from: nat) {
    forall k :: from <= k < |p| ==> p[k] == STAR
  }

  lemma RestAtEnd(p: seq<byte>, s: seq<byte>, pi: nat)
    requires pi <= |p|
    ensures Rest(p, s, pi, |s|) <==> AllStars(p, pi)
  {
    OnlyStarsMatchEmpty(p[pi..]);
    assert s[|s|..] == [];
    assert forall k :: pi <= k < |p| ==> p[k] == p[pi..][k - pi];
  }

  /** At the end of the text the rest of the pattern decides. */
  lemma {:induction false} AtEnd(p: seq<byte>, s: seq<byte>, pi: nat, star: Option<nat>, retry: nat)
    requires Knows(p, s, pi, |s|, star, retry)
    ensures Matches(p, s) <==> AllStars(p, pi)
  {
    RestAtEnd(p, s, pi);
    if star.Some? {
      var t, n := star.value, pi - star.value;
      RestOverLiteral(p, s, t, retry, n);
      forall k | retry < k <= |s| ensures !Rest(p, s, t, k) {
        RestOverLiteral(p, s, t, k, n);
      }
    }
  }

  const FNM_NOMATCH: int := 1

  /** fnmatch: 0 for a match. Positions stand for the C pointers; the byte at the end of either is its NUL. */
  method Fnmatch(p: seq<byte>, s: seq<byte>) returns (r: int)
    ensures r == 0 <==> Matches(p, s)
    ensures r == 0 || r == 1
  {
    var pi: nat, si: nat, star: Option<nat>, retry: nat := 0, 0, None, 0;
    assert p[0..] == p && s[0..] == s;
    while si < |s|
      invariant Knows(p, s, pi, si, star, retry)
      decreases |p| + 1 - (if star.None? then 0 else star.value + 1), |s| - retry, |s| - si
    {
      if pi < |p| && p[pi] == STAR {
        NewStar(p, s, pi, si, star, retry);
        pi := pi + 1;
        star, retry := Some(pi), si;
        if pi == |p| {
          assert p[pi..] == [] && s[|s|..] == [];
          assert Rest(p, s, pi, |s|);
          return 0;
        }
      } else if pi < |p| && p[pi] == s[si] {
        SameByte(p, s, pi, si, star, retry);
        pi, si := pi + 1, si + 1;
      } else if star.Some? {
        Mismatch(p, s, pi, si, star, retry);
        retry := retry + 1;
        pi, si := star.value, retry;
      } else {
        Mismatch(p, s, pi, si, star, retry);
        return FNM_NOMATCH;
      }
    }
    AtEnd(p, s, pi, star, retry);
    while pi < |p| && p[pi] == STAR
      invariant pi <= |p|
      invariant Matches(p, s) <==> AllStars(p, pi)
    {
      pi := pi + 1;
    }
    return if pi < |p| then FNM_NOMATCH else 0;
  }

  /** match_ignore: whether some rule matches the name. */
  method MatchIgnore(name: seq<byte>, rules: seq<seq<byte>>) returns (ignored: bool)
    ensures ignored <==> exists i :: 0 <= i < |rules| && Matches(rules[i], name)
  {
    for i := 0 to |rules|
      invariant forall k :: 0 <= k < i ==> !Matches(rules[k], name)
    {
      var r := Fnmatch(rules[i], name);
      if r == 0 { return true; }
    }
    return false;
  }

  /** An entry path as paf_gpu_search_files sees it: None when its length or its read rules it out. */
  type SearchPath = Option<seq<byte>>

  /** How many of the first n paths match. */
  ghost function Hits(paths: seq<SearchPath>, pattern: seq<byte>, n: nat): nat
    requires n <= |paths|
  {
    if n == 0 then 0
    else Hits(paths, pattern, n - 1) + if paths[n - 1].Some? && Matches(pattern, paths[n - 1].value) then 1 else 0
  }

  /** The scan of paf_gpu_search_files: the first max matching indices, in order. */
  method SearchFiles(paths: seq<SearchPath>, pattern: seq<byte>, max: nat) returns (found: seq<nat>)
    requires max > 0
    ensures |found| == if Hits(paths, pattern, |paths|) < max then Hits(paths, pattern, |paths|) else max
    ensures forall k :: 0 <= k < |found| ==>
                          found[k] < |paths| && paths[found[k]].Some? && Matches(pattern, paths[found[k]].value)
    ensures forall k :: 0 <= k < |found| ==> Hits(paths, pattern, found[k]) == k
  {
    found := [];
    var i := 0;
    while i < |paths| && |found| < max
      invariant i <= |paths| && |found| <= max && |found| == Hits(paths, pattern, i)
      invariant forall k :: 0 <= k < |found| ==>
                              found[k] < i && paths[found[k]].Some? && Matches(pattern, paths[found[k]].value)
      invariant forall k :: 0 <= k < |found| ==> Hits(paths, pattern, found[k]) == k
    {
      if paths[i].Some? {
        var r := Fnmatch(pattern, paths[i].value);
        if r == 0 { found := found + [i]; }
      }
      i := i + 1;
    }
    HitsMonotone(paths, pattern, i, |paths|);
  }

  lemma {:induction false} HitsMonotone(paths: seq<SearchPath>, pattern: seq<byte>, m: nat, n: nat)
    requires m <= n <= |paths|
    ensures Hits(paths, pattern, m) <= Hits(paths, pattern, n)
    decreases n
  {
    if m < n {
      HitsMonotone(paths, pattern, m, n - 1);
    }
  }
}
