/** What can be said before a patch is built: the exact condition on two directories, whatever order the hash map gives
    the new paths (libpaf_core.c, paf_delta.c). */
module PatchOrders {
  import opened Hashing
  import opened ArchiveFormat
  import opened ArchiveReader
  import opened Directory
  import opened DeltaIndex
  import opened StagedApply
  import opened PatchBuild
  import opened PatchEntries
  import opened StageClashes
  import DeltaApply
  import BlockDiff

  // ---- The condition on two directories ----

  /** A walk meets p before q. */
  ghost predicate Sooner(order: seq<Path>, p: Path, q: Path) {
    exists i, j :: 0 <= i < j < |order| && order[i] == p && order[j] == q
  }

  /** The file p, called like the stage file of q, survives or goes as it should. */
  ghost predicate Unharmed(digest: Digest, was: Dir, wasOrder: seq<Path>, now: Dir, p: Path, q: Path) {
    if p !in now then q !in was || Sooner(wasOrder, p, q)
    else if p !in was then q in was
    else Renewed(digest, was, now, p) && Rewritten(was, p) && q in was && Sooner(wasOrder, q, p)
  }

  /** No file is harmed by being called like the stage file of a path the patch writes. */
  ghost predicate Harmless(digest: Digest, was: Dir, wasOrder: seq<Path>, now: Dir) {
    forall q :: Renewed(digest, was, now, q) && StagePath(q) in was.Keys + now.Keys ==>
                  Unharmed(digest, was, wasOrder, now, StagePath(q), q)
  }

  ghost predicate Differs(digest: Digest, was: Dir, now: Dir, p: Path) {
    Renewed(digest, was, now, p) || (p in was && p !in now)
  }

  ghost predicate DifferencesAllowed(digest: Digest, dstLen: nat, was: Dir, now: Dir) {
    forall p :: Differs(digest, was, now, p) ==> Allowed(dstLen, p)
  }

  // ---- Positions in the delta ----

  lemma BeforeSooner(l: seq<Listed>, order: seq<Path>, p: Path, q: Path)
    requires Before(l, p, q) && Follows(l, order)
    ensures Sooner(order, p, q) && p in PathSet(l)
  {
    var i, j :| 0 <= i < j < |l| && l[i].path == p && l[j].path == q;
    assert order[i] == p && order[j] == q;
  }

  lemma ListsInOrder(digest: Digest, was: Dir, wasOrder: seq<Path>, wasList: seq<Listed>, nowList: seq<Listed>,
                     changes: seq<Change>, a: nat, b: nat)
    requires DeltaApply.Describes(wasList, was, digest) && Follows(wasList, wasOrder) && DistinctPaths(nowList)
    requires ExactDelta(changes, wasList, nowList) && OldFirst(changes, wasList, nowList)
    requires a < b < |changes| && changes[b].path in was
    ensures changes[a].path in was && Sooner(wasOrder, changes[a].path, changes[b].path)
  {
    OldFirstOrder(changes, wasList, nowList, a, b);
    BeforeSooner(wasList, wasOrder, changes[a].path, changes[b].path);
  }

  /** What comes before the entry of an old path is the entry of an old path the walk meets sooner. */
  lemma EntriesInOrder(step: Compression, was: Dir, wasOrder: seq<Path>, now: Dir, changes: seq<Change>, a: nat, b: nat)
    requires IsDelta(step, was, wasOrder, now, changes) && a < b < |changes|
    ensures changes[b].path in was ==> changes[a].path in was && Sooner(wasOrder, changes[a].path, changes[b].path)
  {
    var wasList: seq<Listed>, nowList: seq<Listed> :| DeltaApply.Describes(wasList, was, DigestOf(step)) &&
      DeltaApply.Describes(nowList, now, DigestOf(step)) && Follows(wasList, wasOrder) &&
      ExactDelta(changes, wasList, nowList) && OldFirst(changes, wasList, nowList);
    if changes[b].path in was {
      ListsInOrder(DigestOf(step), was, wasOrder, wasList, nowList, changes, a, b);
    }
  }

  lemma SoonerIndex(order: seq<Path>, dir: Dir, i: nat, j: nat)
    requires Walk(order, dir) && i < |order| && j < |order|
    ensures Sooner(order, order[i], order[j]) <==> i < j
  {
  }

  lemma NotBoth(order: seq<Path>, dir: Dir, p: Path, q: Path)
    requires Walk(order, dir)
    ensures !(Sooner(order, p, q) && Sooner(order, q, p))
  {
    if Sooner(order, p, q) {
      var i, j :| 0 <= i < j < |order| && order[i] == p && order[j] == q;
      SoonerIndex(order, dir, j, i);
    }
  }

  /** The change of a path that differs. */
  lemma DiffersAt(digest: Digest, was: Dir, now: Dir, changes: seq<Change>, p: Path)
    requires Explains(digest, was, now, changes)
    ensures Differs(digest, was, now, p) <==> exists j: nat :: ChangesAt(changes, j, p)
  {
    if Differs(digest, was, now, p) && forall j: nat :: !ChangesAt(changes, j, p) {
      Unchanged(digest, was, now, changes, p);
    }
    if j: nat :| ChangesAt(changes, j, p) {
      ChangeAt(digest, was, now, changes, j);
    }
  }

  lemma UnharmedInTime(digest: Digest, was: Dir, wasOrder: seq<Path>, now: Dir, changes: seq<Change>, j: nat, k: nat)
    requires j < |changes| && k < |changes| && j != k && Walk(wasOrder, was)
    requires ChangeOk(digest, was, now, changes[j])
    requires Unharmed(digest, was, wasOrder, now, changes[j].path, changes[k].path)
    requires j < k && changes[k].path in was ==>
               changes[j].path in was && Sooner(wasOrder, changes[j].path, changes[k].path)
    requires k < j && changes[j].path in was ==>
               changes[k].path in was && Sooner(wasOrder, changes[k].path, changes[j].path)
    ensures InTime(was, changes, j, k)
  {
    NotBoth(wasOrder, was, changes[j].path, changes[k].path);
  }

  /** The condition on the directories keeps every entry in time. */
  lemma HarmlessInTime(step: Compression, dstLen: nat, was: Dir, wasOrder: seq<Path>, now: Dir, changes: seq<Change>,
                       k: nat, p: Path)
    requires IsDelta(step, was, wasOrder, now, changes) && Explains(DigestOf(step), was, now, changes)
    requires Walk(wasOrder, was) && Harmless(DigestOf(step), was, wasOrder, now)
    requires Takes(dstLen, changes, k, p) && p in was.Keys + now.Keys
    ensures exists j: nat :: ChangesAt(changes, j, p) && InTime(was, changes, j, k)
  {
    ChangeAt(DigestOf(step), was, now, changes, k);
    assert Renewed(DigestOf(step), was, now, changes[k].path);
    DiffersAt(DigestOf(step), was, now, changes, p);
    var j: nat :| ChangesAt(changes, j, p);
    ChangeAt(DigestOf(step), was, now, changes, j);
    if j < k {
      EntriesInOrder(step, was, wasOrder, now, changes, j, k);
    } else {
      EntriesInOrder(step, was, wasOrder, now, changes, k, j);
    }
    UnharmedInTime(DigestOf(step), was, wasOrder, now, changes, j, k);
  }

  lemma HarmlessNoClash(step: Compression, dstLen: nat, was: Dir, wasOrder: seq<Path>, now: Dir, changes: seq<Change>)
    requires IsDelta(step, was, wasOrder, now, changes) && Walk(wasOrder, was)
    requires Harmless(DigestOf(step), was, wasOrder, now)
    ensures NoClash(dstLen, was, now, changes)
  {
    DeltaExplains(step, was, wasOrder, now, changes);
    forall k: nat, p | Takes(dstLen, changes, k, p) && p in was.Keys + now.Keys
      ensures exists j: nat :: ChangesAt(changes, j, p) && InTime(was, changes, j, k)
    {
      HarmlessInTime(step, dstLen, was, wasOrder, now, changes, k, p);
    }
  }

  lemma AllowedChanges(digest: Digest, dstLen: nat, was: Dir, now: Dir, changes: seq<Change>)
    requires Explains(digest, was, now, changes)
    ensures AllAllowed(dstLen, changes) <==> DifferencesAllowed(digest, dstLen, was, now)
  {
    forall k: nat | k < |changes| ensures Differs(digest, was, now, changes[k].path) {
      ChangeAt(digest, was, now, changes, k);
    }
    if AllAllowed(dstLen, changes) {
      forall p | Differs(digest, was, now, p) ensures Allowed(dstLen, p) {
        DiffersAt(digest, was, now, changes, p);
        var j: nat :| ChangesAt(changes, j, p);
      }
    }
  }

  // ---- A delta for every order of the new paths ----

  /** order lists the files of dir, each once. */
  ghost predicate Enumerates(order: seq<Path>, dir: Dir) {
    (forall i, j :: 0 <= i < j < |order| ==> order[i] != order[j]) && forall p :: p in order <==> p in dir
  }

  function ListingOf(digest: Digest, order: seq<Path>, dir: Dir): (l: seq<Listed>)
    ensures |l| == |order|
    ensures forall k :: 0 <= k < |order| ==> l[k] == Listed(order[k], 0, 0, digest(Contents(dir, order[k])))
  {
    seq(|order|, k requires 0 <= k < |order| => Listed(order[k], 0, 0, digest(Contents(dir, order[k]))))
  }

  lemma ListingDescribes(digest: Digest, order: seq<Path>, dir: Dir)
    requires Enumerates(order, dir)
    ensures DeltaApply.Describes(ListingOf(digest, order, dir), dir, digest)
    ensures Follows(ListingOf(digest, order, dir), order)
  {
    var l := ListingOf(digest, order, dir);
    forall p | p in dir ensures p in PathSet(l) {
      var k :| 0 <= k < |order| && order[k] == p;
      assert l[k] in l;
    }
    forall e | e in l ensures e.path in dir {
      var k :| 0 <= k < |l| && l[k] == e;
      assert order[k] in order;
    }
  }

  /** Any path of a directory can come first. */
  lemma PutFirst(order: seq<Path>, dir: Dir, p: Path) returns (first: seq<Path>)
    requires Enumerates(order, dir) && p in dir
    ensures Enumerates(first, dir) && first != [] && first[0] == p
  {
    var i :| 0 <= i < |order| && order[i] == p;
    var rest := order[..i] + order[i + 1..];
    first := [p] + rest;
    forall x ensures x in rest <==> x in order && x != p {
      if x in order && x != p {
        var k :| 0 <= k < |order| && order[k] == x;
        assert if k < i then rest[k] == x else rest[k - 1] == x;
      }
    }
  }

  /** The entry of p comes before those of all other new paths. */
  ghost predicate LeadsNew(was: Dir, changes: seq<Change>, p: Path) {
    exists j: nat :: ChangesAt(changes, j, p) && forall k: nat :: k < |changes| && changes[k].path !in was ==> j <= k
  }

  /** A delta in which the new path that is first in nowOrder, if it is one, leads. */
  lemma SomeDelta(step: Compression, was: Dir, wasOrder: seq<Path>, now: Dir, nowOrder: seq<Path>)
      returns (changes: seq<Change>)
    requires Enumerates(wasOrder, was) && Enumerates(nowOrder, now)
    ensures IsDelta(step, was, wasOrder, now, changes)
    ensures nowOrder != [] && nowOrder[0] !in was ==> LeadsNew(was, changes, nowOrder[0])
  {
    var wasList, nowList := ListingOf(DigestOf(step), wasOrder, was), ListingOf(DigestOf(step), nowOrder, now);
    ListingDescribes(DigestOf(step), wasOrder, was);
    ListingDescribes(DigestOf(step), nowOrder, now);
    ListedDeltaExact(wasList, nowList);
    changes := ListedDelta(wasList, nowList);
    if nowOrder != [] && nowOrder[0] !in was {
      var part := OldPart(wasList, ByPath(wasList), ByPath(nowList));
      assert nowList[0] in nowList;
      FirstNew(nowList, ByPath(wasList), ByPath(nowList));
      forall k: nat | k < |changes| && changes[k].path !in was ensures |part| <= k {
        if k < |part| {
          OldPartPaths(wasList, ByPath(wasList), ByPath(nowList), k);
        }
      }
      assert ChangesAt(changes, |part|, nowOrder[0]);
    }
  }

  lemma HarmedNotInTime(step: Compression, was: Dir, wasOrder: seq<Path>, now: Dir, changes: seq<Change>, j: nat,
                        k: nat)
    requires IsDelta(step, was, wasOrder, now, changes) && j < |changes| && k < |changes|
    requires ChangeOk(DigestOf(step), was, now, changes[j])
    requires !Unharmed(DigestOf(step), was, wasOrder, now, changes[j].path, changes[k].path)
    requires changes[j].path !in was && changes[k].path !in was ==> j <= k
    ensures !InTime(was, changes, j, k)
  {
    if j < k {
      EntriesInOrder(step, was, wasOrder, now, changes, j, k);
    } else if k < j {
      EntriesInOrder(step, was, wasOrder, now, changes, k, j);
    }
  }

  lemma LeaderIndex(was: Dir, changes: seq<Change>, p: Path, j: nat, k: nat)
    requires DistinctChanges(changes) && LeadsNew(was, changes, p) && ChangesAt(changes, j, p)
    requires k < |changes| && changes[k].path !in was
    ensures j <= k
  {
    var i: nat :| ChangesAt(changes, i, p) && forall m: nat :: m < |changes| && changes[m].path !in was ==> i <= m;
    OneChange(changes, p, i, j);
  }

  lemma HarmedClash(step: Compression, dstLen: nat, was: Dir, wasOrder: seq<Path>, now: Dir, changes: seq<Change>,
                    q: Path)
    requires IsDelta(step, was, wasOrder, now, changes) && Explains(DigestOf(step), was, now, changes)
    requires Renewed(DigestOf(step), was, now, q) && Allowed(dstLen, q) && StagePath(q) in was.Keys + now.Keys
    requires !Unharmed(DigestOf(step), was, wasOrder, now, StagePath(q), q)
    requires StagePath(q) in now && StagePath(q) !in was ==> LeadsNew(was, changes, StagePath(q))
    ensures !NoClash(dstLen, was, now, changes)
  {
    var p := StagePath(q);
    var k := RenewedAt(DigestOf(step), was, now, changes, q);
    assert Takes(dstLen, changes, k, p);
    forall j: nat | ChangesAt(changes, j, p) ensures !InTime(was, changes, j, k) {
      ChangeAt(DigestOf(step), was, now, changes, j);
      if p !in was && q !in was {
        LeaderIndex(was, changes, p, j, k);
      }
      HarmedNotInTime(step, was, wasOrder, now, changes, j, k);
    }
  }

  /** When a file is in the way, some order of the new paths has a clash. */
  lemma HarmfulClash(step: Compression, dstLen: nat, was: Dir, wasOrder: seq<Path>, now: Dir, nowOrder: seq<Path>,
                     q: Path)
      returns (changes: seq<Change>)
    requires Walk(wasOrder, was) && Enumerates(nowOrder, now) && Renewed(DigestOf(step), was, now, q)
    requires Allowed(dstLen, q)
    requires StagePath(q) in was.Keys + now.Keys && !Unharmed(DigestOf(step), was, wasOrder, now, StagePath(q), q)
    ensures IsDelta(step, was, wasOrder, now, changes) && !NoClash(dstLen, was, now, changes)
  {
    var order := nowOrder;
    if StagePath(q) in now {
      order := PutFirst(nowOrder, now, StagePath(q));
    }
    changes := SomeDelta(step, was, wasOrder, now, order);
    DeltaExplains(step, was, wasOrder, now, changes);
    HarmedClash(step, dstLen, was, wasOrder, now, changes, q);
  }

  ghost predicate Works(digest: Digest, dstLen: nat, hash: BlockDiff.BlockHash, was: Dir, now: Dir,
                        changes: seq<Change>) {
    ApplyPlans(digest, Outcome(was, 0), PatchOf(dstLen, hash, was, now, changes)) == Outcome(now, 0)
  }

  /** What must be known of two directories before a patch is built. */
  ghost predicate Updatable(digest: Digest, dstLen: nat, was: Dir, wasOrder: seq<Path>, now: Dir) {
    && DeltaApply.ToldApart(was, now, digest) && DifferencesAllowed(digest, dstLen, was, now)
    && Harmless(digest, was, wasOrder, now)
  }

  lemma WorksIff(step: Compression, dstLen: nat, hash: BlockDiff.BlockHash, was: Dir, wasOrder: seq<Path>, now: Dir,
                 changes: seq<Change>)
    requires SmallFiles(was) && SmallFiles(now) && IsDelta(step, was, wasOrder, now, changes)
    ensures Works(DigestOf(step), dstLen, hash, was, now, changes) <==>
            && DeltaApply.ToldApart(was, now, DigestOf(step)) && DifferencesAllowed(DigestOf(step), dstLen, was, now)
            && NoClash(dstLen, was, now, changes)
  {
    DeltaExplains(step, was, wasOrder, now, changes);
    AllowedChanges(DigestOf(step), dstLen, was, now, changes);
    PatchExact(DigestOf(step), dstLen, hash, was, now, changes);
  }

  lemma HarmfulFails(step: Compression, dstLen: nat, was: Dir, wasOrder: seq<Path>, now: Dir, nowOrder: seq<Path>)
      returns (changes: seq<Change>)
    requires Walk(wasOrder, was) && Walk(nowOrder, now)
    requires DifferencesAllowed(DigestOf(step), dstLen, was, now) && !Harmless(DigestOf(step), was, wasOrder, now)
    ensures IsDelta(step, was, wasOrder, now, changes) && !NoClash(dstLen, was, now, changes)
  {
    var digest := DigestOf(step);
    var q :| Renewed(digest, was, now, q) && StagePath(q) in was.Keys + now.Keys &&
      !Unharmed(digest, was, wasOrder, now, StagePath(q), q);
    assert Differs(digest, was, now, q);
    changes := HarmfulClash(step, dstLen, was, wasOrder, now, nowOrder, q);
  }

  lemma SomePatchFails(step: Compression, dstLen: nat, hash: BlockDiff.BlockHash, was: Dir, wasOrder: seq<Path>,
                       now: Dir, nowOrder: seq<Path>)
      returns (changes: seq<Change>)
    requires Walk(wasOrder, was) && Walk(nowOrder, now) && !Updatable(DigestOf(step), dstLen, was, wasOrder, now)
    ensures IsDelta(step, was, wasOrder, now, changes) && !Works(DigestOf(step), dstLen, hash, was, now, changes)
  {
    if DifferencesAllowed(DigestOf(step), dstLen, was, now) && !Harmless(DigestOf(step), was, wasOrder, now) {
      changes := HarmfulFails(step, dstLen, was, wasOrder, now, nowOrder);
    } else {
      changes := SomeDelta(step, was, wasOrder, now, nowOrder);
    }
    WorksIff(step, dstLen, hash, was, wasOrder, now, changes);
  }

  /** Every patch that can be built of two directories works if and only if the digest tells common paths apart, every
      path that differs is accepted, and no file is harmed by being called like a stage file. */
  lemma EveryPatchWorks(step: Compression, dstLen: nat, hash: BlockDiff.BlockHash, was: Dir, wasOrder: seq<Path>,
                        now: Dir, nowOrder: seq<Path>)
    requires Walk(wasOrder, was) && Walk(nowOrder, now)
    ensures (forall changes :: IsDelta(step, was, wasOrder, now, changes) ==>
                                 Works(DigestOf(step), dstLen, hash, was, now, changes))
            <==> Updatable(DigestOf(step), dstLen, was, wasOrder, now)
  {
    if Updatable(DigestOf(step), dstLen, was, wasOrder, now) {
      forall changes | IsDelta(step, was, wasOrder, now, changes)
        ensures Works(DigestOf(step), dstLen, hash, was, now, changes)
      {
        HarmlessNoClash(step, dstLen, was, wasOrder, now, changes);
        WorksIff(step, dstLen, hash, was, wasOrder, now, changes);
      }
    } else {
      var bad := SomePatchFails(step, dstLen, hash, was, wasOrder, now, nowOrder);
    }
  }
}
