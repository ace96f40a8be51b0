/** Files called like the stage file of a path the patch writes: when exactly they do harm (libpaf_patch.c). */
module StageClashes {
  import opened Bytes
  import opened ArchiveFormat
  import opened Directory
  import opened DeltaIndex
  import opened StagedApply
  import opened StagedEffects
  import opened PatchEntries
  import DeltaApply
  import BlockDiff

  // ---- Which entry takes which path ----

  /** Entry k uses p as its stage file. */
  ghost predicate Takes(dstLen: nat, changes: seq<Change>, k: nat, p: Path) {
    k < |changes| && !changes[k].Deleted? && Allowed(dstLen, changes[k].path) && StagePath(changes[k].path) == p
  }

  ghost predicate ChangesAt(changes: seq<Change>, j: nat, p: Path) {
    j < |changes| && changes[j].path == p
  }

  /** Entry j copes with its path being taken by entry k: a deletion comes first; an addition comes after, and so does
      an update that does not need the old contents. */
  ghost predicate InTime(was: Dir, changes: seq<Change>, j: nat, k: nat)
    requires j < |changes|
  {
    match changes[j]
    case Deleted(_) => j < k
    case Added(_, _, _, _) => k < j
    case Updated(p, _, _, _) => k < j && Rewritten(was, p)
  }

  /** Every file whose path is taken has an entry of its own that copes with it. */
  ghost predicate NoClash(dstLen: nat, was: Dir, now: Dir, changes: seq<Change>) {
    forall k: nat, p :: Takes(dstLen, changes, k, p) && p in was.Keys + now.Keys ==>
                          exists j: nat :: ChangesAt(changes, j, p) && InTime(was, changes, j, k)
  }

  ghost predicate AllAllowed(dstLen: nat, changes: seq<Change>) {
    forall k :: 0 <= k < |changes| ==> Allowed(dstLen, changes[k].path)
  }

  /** The changes of two directories whose files are within the limits of a delta. */
  ghost predicate Updates(digest: Digest, was: Dir, now: Dir, changes: seq<Change>) {
    Explains(digest, was, now, changes) && SmallFiles(was) && SmallFiles(now)
  }

  lemma EntriesOf(dstLen: nat, hash: BlockDiff.BlockHash, was: Dir, now: Dir, changes: seq<Change>, p: Path, m: nat)
    ensures OwnedAt(PatchOf(dstLen, hash, was, now, changes), p, m) <==> ChangesAt(changes, m, p) && Allowed(dstLen, p)
    ensures StagedAt(PatchOf(dstLen, hash, was, now, changes), p, m) <==> Takes(dstLen, changes, m, p)
  {
    if m < |changes| {
      PlanAtChange(dstLen, hash, was, now, changes, m);
    }
  }

  lemma OneChange(changes: seq<Change>, p: Path, i: nat, j: nat)
    requires DistinctChanges(changes) && ChangesAt(changes, i, p) && ChangesAt(changes, j, p)
    ensures i == j
  {
  }

  lemma OneTaker(dstLen: nat, changes: seq<Change>, p: Path, i: nat, j: nat)
    requires DistinctChanges(changes) && Takes(dstLen, changes, i, p) && Takes(dstLen, changes, j, p)
    ensures i == j
  {
    SameStage(changes[i].path, changes[j].path);
  }

  lemma ChangeAt(digest: Digest, was: Dir, now: Dir, changes: seq<Change>, j: nat)
    requires Explains(digest, was, now, changes) && j < |changes|
    ensures ChangeOk(digest, was, now, changes[j])
  {
    assert changes[j] in changes;
  }

  lemma Unchanged(digest: Digest, was: Dir, now: Dir, changes: seq<Change>, p: Path)
    requires Explains(digest, was, now, changes) && forall j: nat :: !ChangesAt(changes, j, p)
    ensures (p in was <==> p in now) && (p in now && p in was ==> digest(was[p]) == digest(now[p]))
  {
    if p in DeltaApply.ChangedPaths(changes) {
      var j: nat :| j < |changes| && changes[j].path == p;
      assert ChangesAt(changes, j, p);
    }
  }

  // ---- What a patch leaves at a path, whatever the path held before ----

  /** A changed path that is accepted and not taken. */
  lemma {:induction false} OwnLeft(digest: Digest, dstLen: nat, hash: BlockDiff.BlockHash, was: Dir, now: Dir,
                                   changes: seq<Change>, v: Option<seq<byte>>, p: Path, j: nat)
    requires DistinctChanges(changes) && ChangesAt(changes, j, p) && Allowed(dstLen, p)
    requires forall k: nat :: !Takes(dstLen, changes, k, p)
    ensures var plans := PatchOf(dstLen, hash, was, now, changes);
            && PathAfter(digest, v, plans[..j], p) == v && !plans[j].Skip? && plans[j].path == p
            && PathAfter(digest, v, plans, p) == AfterPlan(digest, v, ChangePlan(dstLen, hash, was, now, changes[j]))
  {
    var plans := PatchOf(dstLen, hash, was, now, changes);
    PatchApart(dstLen, hash, was, now, changes);
    PlanAtChange(dstLen, hash, was, now, changes, j);
    forall m: nat ensures OwnedAt(plans, p, m) <==> ChangesAt(changes, m, p) && Allowed(dstLen, p)
      ensures !StagedAt(plans, p, m)
    {
      EntriesOf(dstLen, hash, was, now, changes, p, m);
      assert !Takes(dstLen, changes, m, p);
    }
    OwnedOnly(digest, v, plans, p, j);
  }

  /** A changed path that is accepted and taken: what counts is which entry comes first. */
  lemma {:induction false} OwnAndTakenLeft(digest: Digest, dstLen: nat, hash: BlockDiff.BlockHash, was: Dir, now: Dir,
                                           changes: seq<Change>, v: Option<seq<byte>>, p: Path, j: nat, k: nat)
    requires DistinctChanges(changes) && ChangesAt(changes, j, p) && Allowed(dstLen, p) && Takes(dstLen, changes, k, p)
    ensures var plans := PatchOf(dstLen, hash, was, now, changes);
            && j != k && !plans[j].Skip? && plans[j].path == p
            && (j < k ==> PathAfter(digest, v, plans[..j], p) == v && PathAfter(digest, v, plans, p) == None)
            && (k < j ==> PathAfter(digest, v, plans[..j], p) == None &&
                          PathAfter(digest, v, plans, p)
                          == AfterPlan(digest, None, ChangePlan(dstLen, hash, was, now, changes[j])))
  {
    var plans := PatchOf(dstLen, hash, was, now, changes);
    PatchApart(dstLen, hash, was, now, changes);
    PlanAtChange(dstLen, hash, was, now, changes, j);
    EntriesOf(dstLen, hash, was, now, changes, p, j);
    EntriesOf(dstLen, hash, was, now, changes, p, k);
    OwnedAndStaged(digest, v, plans, p, j, k);
  }

  /** A path without an accepted entry: gone if it is taken, untouched otherwise. */
  lemma {:induction false} OthersLeft(digest: Digest, dstLen: nat, hash: BlockDiff.BlockHash, was: Dir, now: Dir,
                                      changes: seq<Change>, v: Option<seq<byte>>, p: Path)
    requires DistinctChanges(changes) && forall j: nat :: !(ChangesAt(changes, j, p) && Allowed(dstLen, p))
    ensures PathAfter(digest, v, PatchOf(dstLen, hash, was, now, changes), p)
         == if exists k: nat :: Takes(dstLen, changes, k, p) then None else v
  {
    var plans := PatchOf(dstLen, hash, was, now, changes);
    PatchApart(dstLen, hash, was, now, changes);
    forall m: nat ensures !OwnedAt(plans, p, m) && (StagedAt(plans, p, m) <==> Takes(dstLen, changes, m, p)) {
      EntriesOf(dstLen, hash, was, now, changes, p, m);
      assert !(ChangesAt(changes, m, p) && Allowed(dstLen, p));
    }
    if k: nat :| Takes(dstLen, changes, k, p) {
      StagedOnly(digest, v, plans, p, k);
    } else {
      Untouched(digest, v, plans, p);
    }
  }

  // ---- The exact condition ----

  /** Without a clash an accepted entry succeeds and leaves the new contents at its path. */
  lemma ChangeArrives(digest: Digest, dstLen: nat, hash: BlockDiff.BlockHash, was: Dir, now: Dir, changes: seq<Change>,
                      j: nat)
    requires Updates(digest, was, now, changes) && NoClash(dstLen, was, now, changes)
    requires j < |changes| && Allowed(dstLen, changes[j].path)
    ensures var plans, p := PatchOf(dstLen, hash, was, now, changes), changes[j].path;
            && !FailsAt(digest, was, plans, j)
            && PathAfter(digest, Lookup(was, p), plans, p) == Lookup(now, p)
  {
    var plans, p := PatchOf(dstLen, hash, was, now, changes), changes[j].path;
    ChangeAt(digest, was, now, changes, j);
    assert ChangesAt(changes, j, p);
    if k: nat :| Takes(dstLen, changes, k, p) {
      var i: nat :| ChangesAt(changes, i, p) && InTime(was, changes, i, k);
      OneChange(changes, p, i, j);
      OwnAndTakenLeft(digest, dstLen, hash, was, now, changes, Lookup(was, p), p, j, k);
      ChangeEffect(digest, dstLen, hash, was, now, changes[j]);
      ChangeOnNothing(digest, dstLen, hash, was, now, changes[j]);
    } else {
      OwnLeft(digest, dstLen, hash, was, now, changes, Lookup(was, p), p, j);
      ChangeEffect(digest, dstLen, hash, was, now, changes[j]);
    }
  }

  /** Without a clash a path without a change is as it was. */
  lemma {:induction false} UnchangedArrives(digest: Digest, dstLen: nat, hash: BlockDiff.BlockHash, was: Dir, now: Dir,
                                            changes: seq<Change>, p: Path)
    requires Updates(digest, was, now, changes) && NoClash(dstLen, was, now, changes)
    requires forall j: nat :: !ChangesAt(changes, j, p)
    ensures PathAfter(digest, Lookup(was, p), PatchOf(dstLen, hash, was, now, changes), p) == Lookup(was, p)
  {
    OthersLeft(digest, dstLen, hash, was, now, changes, Lookup(was, p), p);
    Unchanged(digest, was, now, changes, p);
  }

  lemma ClashFree(digest: Digest, dstLen: nat, hash: BlockDiff.BlockHash, was: Dir, now: Dir, changes: seq<Change>)
    requires Updates(digest, was, now, changes) && NoClash(dstLen, was, now, changes) && AllAllowed(dstLen, changes)
    requires DeltaApply.ToldApart(was, now, digest)
    ensures ApplyPlans(digest, Outcome(was, 0), PatchOf(dstLen, hash, was, now, changes)) == Outcome(now, 0)
  {
    var plans := PatchOf(dstLen, hash, was, now, changes);
    var r := ApplyPlans(digest, Outcome(was, 0), plans);
    forall k: nat | k < |plans| ensures !FailsAt(digest, was, plans, k) {
      ChangeArrives(digest, dstLen, hash, was, now, changes, k);
    }
    NoErrorsIff(digest, Outcome(was, 0), plans);
    forall p ensures Lookup(r.dir, p) == Lookup(now, p) {
      PlansLeave(digest, Outcome(was, 0), plans, p);
      if j: nat :| ChangesAt(changes, j, p) {
        ChangeArrives(digest, dstLen, hash, was, now, changes, j);
      } else {
        UnchangedArrives(digest, dstLen, hash, was, now, changes, p);
        Unchanged(digest, was, now, changes, p);
      }
    }
    SameDir(r.dir, now);
  }

  /** A clash shows: an entry fails, or a file of the new directory is missing. */
  lemma ClashShows(digest: Digest, dstLen: nat, hash: BlockDiff.BlockHash, was: Dir, now: Dir, changes: seq<Change>,
                   k: nat, p: Path)
    requires Updates(digest, was, now, changes) && AllAllowed(dstLen, changes)
    requires Takes(dstLen, changes, k, p) && p in was.Keys + now.Keys
    requires forall j: nat :: ChangesAt(changes, j, p) ==> !InTime(was, changes, j, k)
    ensures ApplyPlans(digest, Outcome(was, 0), PatchOf(dstLen, hash, was, now, changes)) != Outcome(now, 0)
  {
    var plans := PatchOf(dstLen, hash, was, now, changes);
    PlansLeave(digest, Outcome(was, 0), plans, p);
    NoErrorsIff(digest, Outcome(was, 0), plans);
    if j: nat :| ChangesAt(changes, j, p) {
      ChangeAt(digest, was, now, changes, j);
      OwnAndTakenLeft(digest, dstLen, hash, was, now, changes, Lookup(was, p), p, j, k);
      ChangeOnNothing(digest, dstLen, hash, was, now, changes[j]);
      PlanAtChange(dstLen, hash, was, now, changes, j);
      assert changes[j].Deleted? ==> FailsAt(digest, was, plans, j);
    } else {
      OthersLeft(digest, dstLen, hash, was, now, changes, Lookup(was, p), p);
      Unchanged(digest, was, now, changes, p);
    }
  }

  /** A skipped entry is an error. */
  lemma SkipShows(digest: Digest, dstLen: nat, hash: BlockDiff.BlockHash, was: Dir, now: Dir, changes: seq<Change>,
                  k: nat)
    requires k < |changes| && !Allowed(dstLen, changes[k].path)
    ensures ApplyPlans(digest, Outcome(was, 0), PatchOf(dstLen, hash, was, now, changes)).errors > 0
  {
    var plans := PatchOf(dstLen, hash, was, now, changes);
    PlanAtChange(dstLen, hash, was, now, changes, k);
    assert FailsAt(digest, was, plans, k);
    NoErrorsIff(digest, Outcome(was, 0), plans);
    ErrorsCounted(digest, Outcome(was, 0), plans);
  }

  /** A path whose digest is the same in both directories keeps its contents if and only if no path the patch writes
      has it as its stage file. */
  lemma KeptIff(digest: Digest, dstLen: nat, hash: BlockDiff.BlockHash, was: Dir, now: Dir, changes: seq<Change>,
                p: Path)
    requires Updates(digest, was, now, changes) && p in was && p in now && digest(was[p]) == digest(now[p])
    ensures Lookup(ApplyPlans(digest, Outcome(was, 0), PatchOf(dstLen, hash, was, now, changes)).dir, p) == Some(was[p])
            <==> !exists q :: Renewed(digest, was, now, q) && Allowed(dstLen, q) && StagePath(q) == p
  {
    PlansLeave(digest, Outcome(was, 0), PatchOf(dstLen, hash, was, now, changes), p);
    forall j: nat | j < |changes| ensures changes[j].path != p {
      ChangeAt(digest, was, now, changes, j);
    }
    OthersLeft(digest, dstLen, hash, was, now, changes, Lookup(was, p), p);
    if k: nat :| Takes(dstLen, changes, k, p) {
      ChangeAt(digest, was, now, changes, k);
      assert Renewed(digest, was, now, changes[k].path);
    }
    if q :| Renewed(digest, was, now, q) && Allowed(dstLen, q) && StagePath(q) == p {
      var k := RenewedAt(digest, was, now, changes, q);
      assert Takes(dstLen, changes, k, p);
    }
  }

  /** A path the patch writes: new, or with a new digest. */
  ghost predicate Renewed(digest: Digest, was: Dir, now: Dir, q: Path) {
    q in now && (q in was ==> digest(was[q]) != digest(now[q]))
  }

  lemma RenewedAt(digest: Digest, was: Dir, now: Dir, changes: seq<Change>, q: Path) returns (k: nat)
    requires Explains(digest, was, now, changes) && Renewed(digest, was, now, q)
    ensures ChangesAt(changes, k, q) && !changes[k].Deleted?
  {
    if forall j: nat :: !ChangesAt(changes, j, q) {
      Unchanged(digest, was, now, changes, q);
    }
    k :| ChangesAt(changes, k, q);
    ChangeAt(digest, was, now, changes, k);
  }

  /** The digest tells common paths apart, every changed path is accepted, and no stage file gets in the way. */
  ghost predicate Appliable(digest: Digest, dstLen: nat, was: Dir, now: Dir, changes: seq<Change>) {
    DeltaApply.ToldApart(was, now, digest) && AllAllowed(dstLen, changes) && NoClash(dstLen, was, now, changes)
  }

  /** Applying a patch to the old directory gives the new one without an error if and only if the digest tells common
      paths apart, every changed path is accepted, and no stage file gets in the way. */
  lemma PatchExact(digest: Digest, dstLen: nat, hash: BlockDiff.BlockHash, was: Dir, now: Dir, changes: seq<Change>)
    requires Updates(digest, was, now, changes)
    ensures ApplyPlans(digest, Outcome(was, 0), PatchOf(dstLen, hash, was, now, changes)) == Outcome(now, 0) <==>
            Appliable(digest, dstLen, was, now, changes)
  {
    if k: nat :| k < |changes| && !Allowed(dstLen, changes[k].path) {
      SkipShows(digest, dstLen, hash, was, now, changes, k);
    } else if !NoClash(dstLen, was, now, changes) {
      var k: nat, p :| Takes(dstLen, changes, k, p) && p in was.Keys + now.Keys &&
        !exists j: nat :: ChangesAt(changes, j, p) && InTime(was, changes, j, k);
      ClashShows(digest, dstLen, hash, was, now, changes, k, p);
    } else if DeltaApply.ToldApart(was, now, digest) {
      ClashFree(digest, dstLen, hash, was, now, changes);
    } else {
      NotToldShows(digest, dstLen, hash, was, now, changes);
    }
  }

  lemma NotToldShows(digest: Digest, dstLen: nat, hash: BlockDiff.BlockHash, was: Dir, now: Dir, changes: seq<Change>)
    requires Updates(digest, was, now, changes) && NoClash(dstLen, was, now, changes)
    requires !DeltaApply.ToldApart(was, now, digest)
    ensures ApplyPlans(digest, Outcome(was, 0), PatchOf(dstLen, hash, was, now, changes)).dir != now
  {
    var p :| p in was && p in now && digest(was[p]) == digest(now[p]) && was[p] != now[p];
    forall j: nat | j < |changes| ensures changes[j].path != p {
      ChangeAt(digest, was, now, changes, j);
    }
    UnchangedArrives(digest, dstLen, hash, was, now, changes, p);
    PlansLeave(digest, Outcome(was, 0), PatchOf(dstLen, hash, was, now, changes), p);
  }

  ghost function Refusals(dstLen: nat, changes: seq<Change>): set<nat> {
    set k: nat | k < |changes| && !Allowed(dstLen, changes[k].path)
  }

  /** Without a clash the errors are the changed paths that are unsafe or too long. */
  lemma RefusalsCounted(digest: Digest, dstLen: nat, hash: BlockDiff.BlockHash, was: Dir, now: Dir,
                        changes: seq<Change>)
    requires Updates(digest, was, now, changes) && NoClash(dstLen, was, now, changes)
    ensures ApplyPlans(digest, Outcome(was, 0), PatchOf(dstLen, hash, was, now, changes)).errors
         == |Refusals(dstLen, changes)|
  {
    var plans := PatchOf(dstLen, hash, was, now, changes);
    ErrorsCounted(digest, Outcome(was, 0), plans);
    forall k: nat | k < |changes| ensures FailsAt(digest, was, plans, k) <==> !Allowed(dstLen, changes[k].path) {
      PlanAtChange(dstLen, hash, was, now, changes, k);
      if Allowed(dstLen, changes[k].path) {
        ChangeArrives(digest, dstLen, hash, was, now, changes, k);
      }
    }
    assert Failing(digest, was, plans) == Refusals(dstLen, changes);
  }
}
