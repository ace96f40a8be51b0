/** The difference of two archive listings, found by hashing the new paths (paf_delta.c). */
module DeltaIndex {
  import opened Bytes
  import opened Seqs
  import opened Probing
  import opened ArchiveFormat
  import opened ArchiveReader

  /** One delta entry; a deletion carries no data. */
  datatype Change =
    | Added(path: Path, offset: nat, size: nat, hash: seq<byte>)
    | Updated(path: Path, offset: nat, size: nat, hash: seq<byte>)
    | Deleted(path: Path)

  // ---- What a delta of two listings is ----

  ghost predicate DistinctPaths(l: seq<Listed>) {
    forall i, j :: 0 <= i < j < |l| ==> l[i].path != l[j].path
  }

  ghost function PathSet(l: seq<Listed>): set<Path> {
    set e | e in l :: e.path
  }

  ghost function EntryOf(l: seq<Listed>, p: Path): (e: Listed)
    requires DistinctPaths(l) && p in PathSet(l)
    ensures forall i :: 0 <= i < |l| && l[i].path == p ==> l[i] == e
  {
    var i :| 0 <= i < |l| && l[i].path == p;
    l[i]
  }

  ghost function ByPath(l: seq<Listed>): (m: map<Path, Listed>)
    requires DistinctPaths(l)
    ensures m.Keys == PathSet(l) && forall i :: 0 <= i < |l| ==> l[i].path in m && m[l[i].path] == l[i]
  {
    map p | p in PathSet(l) :: EntryOf(l, p)
  }

  /** The entry a path deserves: DELETED, ADDED, UPDATED with the new size, offset and hash, or none. */
  ghost function Expected(was: map<Path, Listed>, now: map<Path, Listed>, p: Path): Option<Change> {
    if p !in now then if p in was then Some(Deleted(p)) else None
    else
      var e := now[p];
      if p !in was then Some(Added(p, e.offset, e.size, e.hash))
      else if was[p].hash != e.hash then Some(Updated(p, e.offset, e.size, e.hash))
      else None
  }

  ghost predicate DistinctChanges(changes: seq<Change>) {
    forall a, b :: 0 <= a < b < |changes| ==> changes[a].path != changes[b].path
  }

  /** The entries of changes are, once each, the expected entries of the paths in scope. */
  ghost predicate Covers(changes: seq<Change>, was: map<Path, Listed>, now: map<Path, Listed>, scope: set<Path>) {
    && DistinctChanges(changes)
    && forall c :: c in changes <==> c.path in scope && Expected(was, now, c.path) == Some(c)
  }

  /** changes is exactly the difference of two listings, each path at most once. */
  ghost predicate ExactDelta(changes: seq<Change>, was: seq<Listed>, now: seq<Listed>)
    requires DistinctPaths(was) && DistinctPaths(now)
  {
    && DistinctChanges(changes)
    && forall c :: c in changes <==> Expected(ByPath(was), ByPath(now), c.path) == Some(c)
  }

  lemma ExpectedIsListed(changes: seq<Change>, was: seq<Listed>, now: seq<Listed>, p: Path)
    requires DistinctPaths(was) && DistinctPaths(now) && ExactDelta(changes, was, now)
    ensures var x := Expected(ByPath(was), ByPath(now), p); x.Some? ==> x.value in changes && x.value.path == p
  {
  }

  lemma CoversEmpty(was: map<Path, Listed>, now: map<Path, Listed>)
    ensures Covers([], was, now, {})
  {
  }

  /** Looking at one more path adds its expected entry, if it has one. */
  lemma CoversMore(changes: seq<Change>, was: map<Path, Listed>, now: map<Path, Listed>, scope: set<Path>, p: Path)
    requires Covers(changes, was, now, scope) && p !in scope
    ensures var x := Expected(was, now, p);
            Covers(if x.Some? then changes + [x.value] else changes, was, now, scope + {p})
  {
    var x := Expected(was, now, p);
    if x.Some? {
      forall a | 0 <= a < |changes| ensures changes[a].path != p {
        assert changes[a] in changes;
      }
    }
  }

  lemma CoversAll(changes: seq<Change>, was: seq<Listed>, now: seq<Listed>)
    requires DistinctPaths(was) && DistinctPaths(now)
    requires Covers(changes, ByPath(was), ByPath(now), PathSet(was) + PathSet(now))
    ensures ExactDelta(changes, was, now)
  {
  }

  // ---- The order of the entries ----

  lemma PathSetOneMore(l: seq<Listed>, n: nat)
    requires n < |l|
    ensures PathSet(l[..n + 1]) == PathSet(l[..n]) + {l[n].path}
    ensures DistinctPaths(l) ==> l[n].path !in PathSet(l[..n])
  {
    TakeOneMore(l, n);
  }

  /** The expected entries of the old paths, in the order of the old listing. */
  ghost function OldPart(l: seq<Listed>, was: map<Path, Listed>, now: map<Path, Listed>): seq<Change> {
    if l == [] then []
    else
      var x := Expected(was, now, l[|l| - 1].path);
      OldPart(l[..|l| - 1], was, now) + if x.Some? then [x.value] else []
  }

  /** The old paths come first, in the order of their listing; the order of the new ones is not determined. */
  ghost predicate OldFirst(changes: seq<Change>, was: seq<Listed>, now: seq<Listed>)
    requires DistinctPaths(was) && DistinctPaths(now)
  {
    OldPart(was, ByPath(was), ByPath(now)) <= changes
  }

  lemma {:induction false} OldPartOneMore(l: seq<Listed>, n: nat, was: map<Path, Listed>, now: map<Path, Listed>)
    requires n < |l|
    ensures var x := Expected(was, now, l[n].path);
            OldPart(l[..n + 1], was, now)
            == if x.Some? then OldPart(l[..n], was, now) + [x.value] else OldPart(l[..n], was, now)
  {
    assert l[..n + 1][..n] == l[..n];
    assert OldPart(l[..n], was, now) + [] == OldPart(l[..n], was, now);
  }

  /** p comes before q. */
  ghost predicate Before(l: seq<Listed>, p: Path, q: Path) {
    exists i, j :: 0 <= i < j < |l| && l[i].path == p && l[j].path == q
  }

  lemma {:induction false} OldPartPaths(l: seq<Listed>, was: map<Path, Listed>, now: map<Path, Listed>, a: nat)
    requires a < |OldPart(l, was, now)|
    ensures OldPart(l, was, now)[a].path in PathSet(l)
  {
    var n := |l| - 1;
    if a < |OldPart(l[..n], was, now)| {
      OldPartPaths(l[..n], was, now, a);
    }
  }

  lemma {:induction false} OldPartHas(l: seq<Listed>, was: map<Path, Listed>, now: map<Path, Listed>, p: Path)
    requires p in PathSet(l) && Expected(was, now, p).Some?
    ensures Expected(was, now, p).value in OldPart(l, was, now)
  {
    var n := |l| - 1;
    if l[n].path != p {
      assert p in PathSet(l[..n]);
      OldPartHas(l[..n], was, now, p);
    }
  }

  /** The entries of the old paths are in the order of the listing. */
  lemma {:induction false} OldPartOrder(l: seq<Listed>, was: map<Path, Listed>, now: map<Path, Listed>, a: nat, b: nat)
    requires a < b < |OldPart(l, was, now)|
    ensures Before(l, OldPart(l, was, now)[a].path, OldPart(l, was, now)[b].path)
  {
    var n := |l| - 1;
    var front := OldPart(l[..n], was, now);
    if b < |front| {
      OldPartOrder(l[..n], was, now, a, b);
      var i, j :| 0 <= i < j < n && l[..n][i].path == front[a].path && l[..n][j].path == front[b].path;
      assert l[i].path == front[a].path && l[j].path == front[b].path;
    } else {
      OldPartPaths(l[..n], was, now, a);
      var i :| 0 <= i < n && l[..n][i].path == front[a].path;
      assert l[i].path == front[a].path;
    }
  }

  lemma SameIndex(changes: seq<Change>, a: nat, b: nat)
    requires DistinctChanges(changes) && a < |changes| && b < |changes| && changes[a].path == changes[b].path
    ensures a == b
  {
  }

  /** What comes before the entry of an old path is the entry of an old path listed earlier. */
  lemma OldFirstOrder(changes: seq<Change>, was: seq<Listed>, now: seq<Listed>, a: nat, b: nat)
    requires DistinctPaths(was) && DistinctPaths(now) && ExactDelta(changes, was, now) && OldFirst(changes, was, now)
    requires a < b < |changes| && changes[b].path in PathSet(was)
    ensures Before(was, changes[a].path, changes[b].path)
  {
    var part := OldPart(was, ByPath(was), ByPath(now));
    assert changes[b] in changes;
    OldPartHas(was, ByPath(was), ByPath(now), changes[b].path);
    var i :| 0 <= i < |part| && part[i] == changes[b];
    assert changes[i] == part[i];
    SameIndex(changes, i, b);
    assert changes[a] == part[a];
    OldPartOrder(was, ByPath(was), ByPath(now), a, b);
  }

  // ---- Every order of the new paths occurs ----

  /** The entries of the new paths that are not old, in the order of the new listing. */
  ghost function NewPart(l: seq<Listed>, was: map<Path, Listed>, now: map<Path, Listed>): seq<Change> {
    if l == [] then []
    else
      var p := l[|l| - 1].path;
      var x := Expected(was, now, p);
      NewPart(l[..|l| - 1], was, now) + if p !in was && x.Some? then [x.value] else []
  }

  lemma {:induction false} OldPartCovers(l: seq<Listed>, was: map<Path, Listed>, now: map<Path, Listed>)
    requires DistinctPaths(l)
    ensures Covers(OldPart(l, was, now), was, now, PathSet(l))
  {
    if l == [] {
      CoversEmpty(was, now);
    } else {
      var n := |l| - 1;
      OldPartCovers(l[..n], was, now);
      PathSetOneMore(l, n);
      assert l[..n + 1] == l;
      CoversMore(OldPart(l[..n], was, now), was, now, PathSet(l[..n]), l[n].path);
      OldPartOneMore(l, n, was, now);
    }
  }

  lemma {:induction false} NewPartCovers(first: seq<Change>, l: seq<Listed>, was: map<Path, Listed>,
                                         now: map<Path, Listed>)
    requires DistinctPaths(l) && Covers(first, was, now, was.Keys)
    ensures Covers(first + NewPart(l, was, now), was, now, was.Keys + PathSet(l))
  {
    if l == [] {
      assert first + [] == first && was.Keys + PathSet(l) == was.Keys;
    } else {
      var n := |l| - 1;
      var p, before := l[n].path, NewPart(l[..n], was, now);
      var x := Expected(was, now, p);
      NewPartCovers(first, l[..n], was, now);
      PathSetOneMore(l, n);
      assert l[..n + 1] == l;
      if p in was {
        assert was.Keys + PathSet(l) == was.Keys + PathSet(l[..n]);
        assert before + [] == before;
      } else {
        CoversMore(first + before, was, now, was.Keys + PathSet(l[..n]), p);
        assert was.Keys + PathSet(l) == was.Keys + PathSet(l[..n]) + {p};
        assert x.Some? ==> first + (before + [x.value]) == first + before + [x.value];
        assert before + [] == before;
      }
    }
  }

  /** The delta whose new paths are in the order of the new listing. */
  ghost function ListedDelta(was: seq<Listed>, now: seq<Listed>): seq<Change>
    requires DistinctPaths(was) && DistinctPaths(now)
  {
    OldPart(was, ByPath(was), ByPath(now)) + NewPart(now, ByPath(was), ByPath(now))
  }

  lemma ListedDeltaExact(was: seq<Listed>, now: seq<Listed>)
    requires DistinctPaths(was) && DistinctPaths(now)
    ensures ExactDelta(ListedDelta(was, now), was, now) && OldFirst(ListedDelta(was, now), was, now)
  {
    OldPartCovers(was, ByPath(was), ByPath(now));
    NewPartCovers(OldPart(was, ByPath(was), ByPath(now)), now, ByPath(was), ByPath(now));
    CoversAll(ListedDelta(was, now), was, now);
  }

  lemma {:induction false} FirstNew(l: seq<Listed>, was: map<Path, Listed>, now: map<Path, Listed>)
    requires l != [] && l[0].path !in was && Expected(was, now, l[0].path).Some?
    ensures NewPart(l, was, now) != [] && NewPart(l, was, now)[0].path == l[0].path
  {
    if |l| > 1 {
      FirstNew(l[..|l| - 1], was, now);
    } else {
      assert NewPart(l[..0], was, now) == [];
    }
  }

  // ---- The hash map of new paths ----

  datatype Node = Node(path: Option<Path>, index: nat, used: bool)

  const EMPTY: Node := Node(None, 0, false)

  type StringHash = Path -> nat

  function HomeIn(hash: StringHash, size: nat): Path -> nat
    requires size > 0
  {
    (p: Path) => hash(p) % size
  }

  ghost function KeyView(nodes: seq<Node>): (t: seq<Option<Path>>)
    ensures |t| == |nodes| && forall i :: 0 <= i < |nodes| ==> t[i] == nodes[i].path
  {
    seq(|nodes|, i requires 0 <= i < |nodes| => nodes[i].path)
  }

  /** The map holds the paths of the first n new entries, each with its index, reachable by probing. */
  ghost predicate Holds(nodes: seq<Node>, home: Path -> nat, now: seq<Listed>, n: nat)
    requires n <= |now|
  {
    && WellProbed(KeyView(nodes), home)
    && Keys(KeyView(nodes)) == PathSet(now[..n])
    && forall s :: 0 <= s < |nodes| && nodes[s].path.Some? ==>
                     nodes[s].index < n && now[nodes[s].index].path == nodes[s].path.value
  }

  /** The used flags mark the paths in seen. */
  ghost predicate Marks(nodes: seq<Node>, seen: set<Path>) {
    forall s :: 0 <= s < |nodes| && nodes[s].path.Some? ==> (nodes[s].used <==> nodes[s].path.value in seen)
  }

  lemma {:induction false} PathSetSize(l: seq<Listed>)
    ensures |PathSet(l)| <= |l|
  {
    if l != [] {
      var n := |l| - 1;
      PathSetSize(l[..n]);
      assert l == l[..n] + [l[n]];
      assert PathSet(l) == PathSet(l[..n]) + {l[n].path};
    }
  }

  lemma NextSlot(size: nat, x: nat)
    requires x < size
    ensures (x + 1) % size == if x + 1 == size then 0 else x + 1
  {
  }

  /** A probe that has not met its key or an empty slot can take one more step. */
  lemma ProbeOn(t: seq<Option<Path>>, home: nat, d: nat, p: Path, free: nat)
    requires home < |t| && d < |t| && free < |t| && t[free].None?
    requires Clear(t, home, d, p) && t[At(|t|, home, d)].Some? && t[At(|t|, home, d)].value != p
    ensures d + 1 < |t| && Clear(t, home, d + 1, p) && At(|t|, home, d + 1) == (At(|t|, home, d) + 1) % |t|
  {
    assert Clear(t, home, d + 1, p);
    ProbeBounded(t, home, d + 1, p, free);
    NextSlot(|t|, At(|t|, home, d));
  }

  lemma FreeNode(nodes: seq<Node>, home: Path -> nat, now: seq<Listed>, n: nat) returns (free: nat)
    requires n <= |now| && n < |nodes| && Holds(nodes, home, now, n)
    ensures free < |nodes| && nodes[free].path.None?
  {
    PathSetSize(now[..n]);
    free := FreeSlotExists(KeyView(nodes), home);
  }

  lemma KeyInMap(nodes: seq<Node>, home: Path -> nat, now: seq<Listed>, n: nat, s: nat)
    requires n <= |now| && Holds(nodes, home, now, n) && s < |nodes| && nodes[s].path.Some?
    ensures nodes[s].path.value in PathSet(now[..n])
  {
    assert KeyView(nodes)[s] == nodes[s].path;
  }

  /** The probe of the first loop: skips taken slots without looking at their paths. */
  method ProbeFree(nodes: array<Node>, hash: StringHash, ghost now: seq<Listed>, ghost n: nat, p: Path)
      returns (h: nat, ghost d: nat)
    requires n <= |now| && n < nodes.Length && p !in PathSet(now[..n])
    requires Holds(nodes[..], HomeIn(hash, nodes.Length), now, n)
    ensures d < nodes.Length && h == At(nodes.Length, HomeIn(hash, nodes.Length)(p), d) && nodes[h].path.None?
    ensures Clear(KeyView(nodes[..]), HomeIn(hash, nodes.Length)(p), d, p)
  {
    ghost var s, home := nodes[..], HomeIn(hash, nodes.Length);
    ghost var free := FreeNode(s, home, now, n);
    h, d := hash(p) % nodes.Length, 0;
    while nodes[h].path.Some?
      invariant d < nodes.Length && h == At(nodes.Length, home(p), d)
      invariant Clear(KeyView(s), home(p), d, p)
      decreases nodes.Length - d
    {
      KeyInMap(s, home, now, n, h);
      ProbeOn(KeyView(s), home(p), d, p, free);
      h, d := (h + 1) % nodes.Length, d + 1;
    }
  }

  lemma PutHolds(nodes: seq<Node>, home: Path -> nat, now: seq<Listed>, n: nat, d: nat, node: Node)
    requires n < |now| && Holds(nodes, home, now, n) && node.path == Some(now[n].path) && node.index == n
    requires home(now[n].path) < |nodes| && d < |nodes|
    requires Clear(KeyView(nodes), home(now[n].path), d, now[n].path)
    requires nodes[At(|nodes|, home(now[n].path), d)].path.None?
    ensures Holds(nodes[At(|nodes|, home(now[n].path), d) := node], home, now, n + 1)
  {
    var p, h := now[n].path, At(|nodes|, home(now[n].path), d);
    PutKeepsProbes(KeyView(nodes), home, d, p);
    assert KeyView(nodes[h := node]) == KeyView(nodes)[h := Some(p)];
    PathSetOneMore(now, n);
  }

  method BuildMap(now: seq<Listed>, hash: StringHash) returns (nodes: array<Node>)
    requires DistinctPaths(now)
    ensures fresh(nodes) && nodes.Length > |now|
    ensures Holds(nodes[..], HomeIn(hash, nodes.Length), now, |now|) && Marks(nodes[..], {})
  {
    var size := if |now| > 0 then |now| * 4 else 16;
    nodes := new Node[size](_ => EMPTY);
    assert Keys(KeyView(nodes[..])) == {};
    for i := 0 to |now|
      invariant Holds(nodes[..], HomeIn(hash, size), now, i) && Marks(nodes[..], {})
    {
      PathSetOneMore(now, i);
      var h, d := ProbeFree(nodes, hash, now, i, now[i].path);
      PutHolds(nodes[..], HomeIn(hash, size), now, i, d, Node(Some(now[i].path), i, false));
      ghost var before := nodes[..];
      nodes[h] := Node(Some(now[i].path), i, false);
      assert nodes[..] == before[h := nodes[h]];
    }
    assert now[..|now|] == now;
  }

  lemma AbsentAtStop(nodes: seq<Node>, home: Path -> nat, now: seq<Listed>, n: nat, d: nat, p: Path)
    requires n <= |now| && Holds(nodes, home, now, n) && home(p) < |nodes| && d < |nodes|
    requires Clear(KeyView(nodes), home(p), d, p) && nodes[At(|nodes|, home(p), d)].path.None?
    ensures p !in PathSet(now[..n])
  {
    StopMeansAbsent(KeyView(nodes), home, d, p);
  }

  /** The probe of the second loop: the slot of a path, if it has one. */
  method Probe(nodes: array<Node>, hash: StringHash, ghost now: seq<Listed>, p: Path) returns (found: bool, h: nat)
    requires nodes.Length > |now| && Holds(nodes[..], HomeIn(hash, nodes.Length), now, |now|)
    ensures found <==> p in PathSet(now)
    ensures found ==> h < nodes.Length && nodes[h].path == Some(p)
  {
    ghost var s, home := nodes[..], HomeIn(hash, nodes.Length);
    ghost var free := FreeNode(s, home, now, |now|);
    assert now[..|now|] == now;
    ghost var d := 0;
    h := hash(p) % nodes.Length;
    while nodes[h].path.Some?
      invariant d < nodes.Length && h == At(nodes.Length, home(p), d)
      invariant Clear(KeyView(s), home(p), d, p)
      decreases nodes.Length - d
    {
      if nodes[h].path.value == p {
        KeyInMap(s, home, now, |now|, h);
        return true, h;
      }
      ProbeOn(KeyView(s), home(p), d, p, free);
      h, d := (h + 1) % nodes.Length, d + 1;
    }
    AbsentAtStop(s, home, now, |now|, d, p);
    return false, h;
  }

  // ---- The two result loops ----

  lemma MarkUsed(nodes: seq<Node>, home: Path -> nat, now: seq<Listed>, seen: set<Path>, h: nat)
    requires Holds(nodes, home, now, |now|) && Marks(nodes, seen) && h < |nodes| && nodes[h].path.Some?
    ensures var nodes' := nodes[h := nodes[h].(used := true)];
            Holds(nodes', home, now, |now|) && Marks(nodes', seen + {nodes[h].path.value})
  {
    var nodes' := nodes[h := nodes[h].(used := true)];
    assert KeyView(nodes') == KeyView(nodes);
    forall s | 0 <= s < |nodes| && nodes[s].path == nodes[h].path ensures s == h {
      OneSlotPerKey(KeyView(nodes), home, s, h);
    }
  }

  lemma MarkAbsent(nodes: seq<Node>, home: Path -> nat, now: seq<Listed>, seen: set<Path>, p: Path)
    requires Holds(nodes, home, now, |now|) && Marks(nodes, seen) && p !in PathSet(now)
    ensures Marks(nodes, seen + {p})
  {
    assert now[..|now|] == now;
    forall s | 0 <= s < |nodes| && nodes[s].path.Some? ensures nodes[s].path.value != p {
      KeyInMap(nodes, home, now, |now|, s);
    }
  }

  /** The second loop: old paths are DELETED, UPDATED or unchanged, and found ones are marked. */
  method OldPaths(was: seq<Listed>, now: seq<Listed>, hash: StringHash, nodes: array<Node>)
      returns (results: seq<Change>)
    requires DistinctPaths(was) && DistinctPaths(now) && nodes.Length > |now|
    requires Holds(nodes[..], HomeIn(hash, nodes.Length), now, |now|) && Marks(nodes[..], {})
    modifies nodes
    ensures Holds(nodes[..], HomeIn(hash, nodes.Length), now, |now|) && Marks(nodes[..], PathSet(was))
    ensures Covers(results, ByPath(was), ByPath(now), PathSet(was))
    ensures results == OldPart(was, ByPath(was), ByPath(now))
  {
    results := [];
    ghost var home, wasMap, nowMap := HomeIn(hash, nodes.Length), ByPath(was), ByPath(now);
    CoversEmpty(wasMap, nowMap);
    assert PathSet(was[..0]) == {};
    for i := 0 to |was|
      invariant Holds(nodes[..], home, now, |now|) && Marks(nodes[..], PathSet(was[..i]))
      invariant Covers(results, wasMap, nowMap, PathSet(was[..i]))
      invariant results == OldPart(was[..i], wasMap, nowMap)
    {
      var path := was[i].path;
      OldPartOneMore(was, i, wasMap, nowMap);
      PathSetOneMore(was, i);
      CoversMore(results, wasMap, nowMap, PathSet(was[..i]), path);
      var found, h := Probe(nodes, hash, now, path);
      if found {
        ghost var before := nodes[..];
        MarkUsed(before, home, now, PathSet(was[..i]), h);
        nodes[h] := nodes[h].(used := true);
        assert nodes[..] == before[h := before[h].(used := true)];
        var e := now[nodes[h].index];
        if was[i].hash != e.hash {
          results := results + [Updated(path, e.offset, e.size, e.hash)];
        }
      } else {
        MarkAbsent(nodes[..], home, now, PathSet(was[..i]), path);
        results := results + [Deleted(path)];
      }
    }
    assert was[..|was|] == was;
  }

  /** The paths of the slots before s. */
  ghost function SlotPaths(nodes: seq<Node>, s: nat): set<Path>
    requires s <= |nodes|
  {
    Keys(KeyView(nodes)[..s])
  }

  lemma SlotPathsOneMore(nodes: seq<Node>, home: Path -> nat, s: nat)
    requires s < |nodes| && WellProbed(KeyView(nodes), home)
    ensures SlotPaths(nodes, s + 1) == SlotPaths(nodes, s) + (if nodes[s].path.Some? then {nodes[s].path.value} else {})
    ensures nodes[s].path.Some? ==> nodes[s].path.value !in SlotPaths(nodes, s)
  {
    var t := KeyView(nodes);
    TakeOneMore(t, s);
    var last := if t[s].Some? then {t[s].value} else {};
    forall p | p in SlotPaths(nodes, s) + last ensures p in SlotPaths(nodes, s + 1) {
      if p in SlotPaths(nodes, s) {
        var i :| 0 <= i < s && t[..s][i] == Some(p);
        assert t[..s + 1][i] == Some(p);
      } else {
        assert t[..s + 1][s] == Some(p);
      }
    }
    forall i | 0 <= i < s && t[i].Some? && t[s].Some? ensures t[i] != t[s] {
      OneSlotPerKey(t, home, i, s);
    }
  }

  /** One slot of the third loop: an unmarked path is ADDED, any other slot adds nothing. */
  lemma SlotStep(results: seq<Change>, nodes: seq<Node>, home: Path -> nat, was: seq<Listed>, now: seq<Listed>, s: nat)
    requires DistinctPaths(was) && DistinctPaths(now)
    requires Holds(nodes, home, now, |now|) && Marks(nodes, PathSet(was)) && s < |nodes|
    requires Covers(results, ByPath(was), ByPath(now), PathSet(was) + SlotPaths(nodes, s))
    ensures var added := if nodes[s].path.Some? && !nodes[s].used then [AddedAt(now, nodes[s].index)] else [];
            Covers(results + added, ByPath(was), ByPath(now), PathSet(was) + SlotPaths(nodes, s + 1))
  {
    SlotPathsOneMore(nodes, home, s);
    var scope := PathSet(was) + SlotPaths(nodes, s);
    assert results + [] == results;
    if nodes[s].path.Some? && !nodes[s].used {
      var p := nodes[s].path.value;
      assert PathSet(was) + SlotPaths(nodes, s + 1) == scope + {p};
      CoversMore(results, ByPath(was), ByPath(now), scope, p);
    } else {
      assert PathSet(was) + SlotPaths(nodes, s + 1) == scope;
    }
  }

  function AddedAt(now: seq<Listed>, index: nat): Change
    requires index < |now|
  {
    Added(now[index].path, now[index].offset, now[index].size, now[index].hash)
  }

  /** The third loop: paths never marked are ADDED, in slot order. */
  method NewPaths(was: seq<Listed>, now: seq<Listed>, ghost hash: StringHash, nodes: array<Node>, found: seq<Change>)
      returns (results: seq<Change>)
    requires DistinctPaths(was) && DistinctPaths(now) && nodes.Length > |now|
    requires Holds(nodes[..], HomeIn(hash, nodes.Length), now, |now|) && Marks(nodes[..], PathSet(was))
    requires Covers(found, ByPath(was), ByPath(now), PathSet(was))
    ensures ExactDelta(results, was, now) && found <= results
  {
    results := found;
    ghost var s, home := nodes[..], HomeIn(hash, nodes.Length);
    assert PathSet(was) + SlotPaths(s, 0) == PathSet(was);
    for i := 0 to nodes.Length
      invariant Covers(results, ByPath(was), ByPath(now), PathSet(was) + SlotPaths(s, i)) && found <= results
    {
      SlotStep(results, s, home, was, now, i);
      assert results + [] == results;
      if nodes[i].path.Some? && !nodes[i].used {
        results := results + [AddedAt(now, nodes[i].index)];
      }
    }
    assert KeyView(s)[..nodes.Length] == KeyView(s) && now[..|now|] == now;
    CoversAll(results, was, now);
  }

  /** paf_delta_calculate on two listings. The 32-bit size of the map limits the number of new entries. */
  method Calculate(was: seq<Listed>, now: seq<Listed>, hash: StringHash) returns (results: seq<Change>)
    requires DistinctPaths(was) && DistinctPaths(now) && |now| * 4 < U32_LIMIT
    ensures ExactDelta(results, was, now) && OldFirst(results, was, now)
  {
    var nodes := BuildMap(now, hash);
    var found := OldPaths(was, now, hash, nodes);
    results := NewPaths(was, now, hash, nodes, found);
  }
}
