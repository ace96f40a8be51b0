/** What building a patch and applying it guarantee together (libpaf_core.c, libpaf_patch.c). */
module PatchTheorems {
  import opened Bytes
  import opened Seqs
  import opened Hashing
  import opened ArchiveFormat
  import opened Directory
  import opened DeltaIndex
  import opened StagedApply
  import opened StagedEffects
  import opened SafePaths
  import opened AtomicApply
  import opened PatchBuild
  import opened PatchEntries
  import opened StageClashes
  import opened PatchOrders
  import opened Collisions
  import BinaryDelta
  import BlockDiff

  // ---- Main results ----

  /** The two directories as the walks meet them. */
  ghost predicate Walked(was: Dir, wasOrder: seq<Path>, now: Dir, nowOrder: seq<Path>) {
    Walk(wasOrder, was) && Walk(nowOrder, now)
  }

  lemma PatchStays(dstLen: nat, hash: BlockDiff.BlockHash, was: Dir, now: Dir, changes: seq<Change>)
    requires SmallFiles(was) && SmallFiles(now)
    ensures DeltasStay(PatchOf(dstLen, hash, was, now, changes))
  {
    var plans := PatchOf(dstLen, hash, was, now, changes);
    forall k: nat | k < |plans| && plans[k].Stage? && plans[k].content.FromDelta?
      ensures BinaryDelta.NeverAstray(plans[k].content.delta)
    {
      PlanAtChange(dstLen, hash, was, now, changes, k);
      EntryStays(dstLen, hash, was, now, changes[k]);
    }
  }

  /** What a patch file of two directories holds: the plans of their changes, none of which ever goes astray. */
  lemma PatchUnpacks(step: Compression, hash: BlockDiff.BlockHash, was: Dir, wasOrder: seq<Path>, now: Dir,
                     nowOrder: seq<Path>, dstLen: nat, patch: seq<byte>)
      returns (changes: seq<Change>)
    requires Walked(was, wasOrder, now, nowOrder) && IsPatch(step, hash, was, wasOrder, now, patch)
    ensures IsDelta(step, was, wasOrder, now, changes) && Updates(DigestOf(step), was, now, changes)
    ensures PatchPlans(patch, dstLen) == Some(PatchOf(dstLen, hash, was, now, changes))
    ensures DeltasStay(PatchOf(dstLen, hash, was, now, changes))
  {
    changes :| IsDelta(step, was, wasOrder, now, changes) && IsFileOf(hash, was, now, changes, patch);
    DeltaExplains(step, was, wasOrder, now, changes);
    PatchReadsBack(step, hash, was, now, dstLen, wasOrder, nowOrder, changes);
    PatchStays(dstLen, hash, was, now, changes);
  }

  /** End to end: the patch built from two directories, read back and applied to the old one, gives exactly the new one
      without an error if and only if the digest tells the contents of common paths apart, the applier accepts every
      changed path, and no stage file gets in the way of another file. */
  lemma EndToEnd(step: Compression, hash: BlockDiff.BlockHash, was: Dir, wasOrder: seq<Path>, now: Dir,
                 nowOrder: seq<Path>, dstLen: nat, patch: seq<byte>)
      returns (changes: seq<Change>)
    requires Walked(was, wasOrder, now, nowOrder) && IsPatch(step, hash, was, wasOrder, now, patch)
    ensures PatchPlans(patch, dstLen).Some? && DeltasStay(PatchPlans(patch, dstLen).value)
    ensures IsDelta(step, was, wasOrder, now, changes)
    ensures ApplyPlans(DigestOf(step), Outcome(was, 0), PatchPlans(patch, dstLen).value) == Outcome(now, 0) <==>
            Appliable(DigestOf(step), dstLen, was, now, changes)
    ensures Updatable(DigestOf(step), dstLen, was, wasOrder, now) ==>
              ApplyPlans(DigestOf(step), Outcome(was, 0), PatchPlans(patch, dstLen).value) == Outcome(now, 0)
  {
    changes := PatchUnpacks(step, hash, was, wasOrder, now, nowOrder, dstLen, patch);
    PatchExact(DigestOf(step), dstLen, hash, was, now, changes);
    if Updatable(DigestOf(step), dstLen, was, wasOrder, now) {
      HarmlessNoClash(step, dstLen, was, wasOrder, now, changes);
      AllowedChanges(DigestOf(step), dstLen, was, now, changes);
    }
  }

  // ---- Where the condition fails ----

  /** A directory whose one file is called "a". */
  function OneFile(content: seq<byte>): Dir {
    map[[97] := content]
  }

  lemma OneFileWalk(content: seq<byte>)
    requires |content| < U32_LIMIT
    ensures Walk([[97]], OneFile(content))
  {
  }

  lemma NothingToChange(digest: Digest, x: seq<byte>, y: seq<byte>, changes: seq<Change>)
    requires Explains(digest, OneFile(x), OneFile(y), changes) && digest(x) == digest(y)
    ensures changes == []
  {
    assert forall c :: c in changes ==> ChangeOk(digest, OneFile(x), OneFile(y), c);
    if changes != [] {
      HasMember(changes);
    }
  }

  /** Two contents with one digest: the changed file is not in the patch, and applying it changes nothing. */
  lemma CollisionIsMissed(step: Compression, hash: BlockDiff.BlockHash, x: seq<byte>, y: seq<byte>, patch: seq<byte>)
    requires |x| < U32_LIMIT && |y| < U32_LIMIT && DigestOf(step)(x) == DigestOf(step)(y)
    requires IsPatch(step, hash, OneFile(x), [[97]], OneFile(y), patch)
    ensures PatchPlans(patch, 0) == Some([])
    ensures ApplyPlans(DigestOf(step), Outcome(OneFile(x), 0), []) == Outcome(OneFile(x), 0)
    ensures x != y ==> OneFile(x) != OneFile(y)
  {
    OneFileWalk(x);
    OneFileWalk(y);
    var changes := PatchUnpacks(step, hash, OneFile(x), [[97]], OneFile(y), [[97]], 0, patch);
    NothingToChange(DigestOf(step), x, y, changes);
    assert OneFile(x)[[97]] == x && OneFile(y)[[97]] == y;
  }

  /** SHA-256 is no exception, nor is any other compression function: some change of a 33-byte file is missing
      from every patch made for it. */
  lemma SomeChangeIsMissed(step: Compression, hash: BlockDiff.BlockHash) returns (x: seq<byte>, y: seq<byte>)
    ensures |x| == |y| == 33 && OneFile(x) != OneFile(y)
    ensures Walked(OneFile(x), [[97]], OneFile(y), [[97]])
    ensures forall patch :: IsPatch(step, hash, OneFile(x), [[97]], OneFile(y), patch) ==>
                              PatchPlans(patch, 0) == Some([])
  {
    x, y := CollisionExists(step);
    OneFileWalk(x);
    OneFileWalk(y);
    assert OneFile(x)[[97]] == x && OneFile(y)[[97]] == y;
    forall patch | IsPatch(step, hash, OneFile(x), [[97]], OneFile(y), patch) ensures PatchPlans(patch, 0) == Some([]) {
      CollisionIsMissed(step, hash, x, y, patch);
    }
  }

  // ---- Crash safety ----

  lemma ChangesCrashSafety(digest: Digest, dstLen: nat, hash: BlockDiff.BlockHash, was: Dir, now: Dir,
                           changes: seq<Change>, run: seq<Moment>, k: nat, p: Path)
    requires Explains(digest, was, now, changes)
    requires IsInterruptedRun(PatchOf(dstLen, hash, was, now, changes), digest, run)
    requires k < |run| && run[0] == Start(was) && !IsStage(PatchOf(dstLen, hash, was, now, changes), p)
    ensures Underway(digest, was, now, p, Lookup(run[k].fs, p))
    ensures !Allowed(dstLen, p) ==> Lookup(run[k].fs, p) == Lookup(was, p)
  {
    var plans, fs := PatchOf(dstLen, hash, was, now, changes), run[k].fs;
    CrashSafety(plans, digest, run, k);
    assert PathSafe(plans, digest, was, fs, p);
    if p in fs && Announced(plans, p, digest(fs[p])) {
      var j: nat :| j < |plans| && plans[j].Stage? && plans[j].path == p && plans[j].digest == digest(fs[p]);
      PlanAtChange(dstLen, hash, was, now, changes, j);
      ChangeAt(digest, was, now, changes, j);
    }
    if p !in fs && Delete(p) in plans {
      var j: nat :| j < |plans| && plans[j] == Delete(p);
      PlanAtChange(dstLen, hash, was, now, changes, j);
      ChangeAt(digest, was, now, changes, j);
    }
  }

  /** At every moment of any interrupted and repeated application of a patch file, every path but the stage
      files holds its old contents, contents with its new digest, or nothing if it is to go. */
  lemma PatchCrashSafety(step: Compression, hash: BlockDiff.BlockHash, was: Dir, wasOrder: seq<Path>, now: Dir,
                         nowOrder: seq<Path>, dstLen: nat, patch: seq<byte>, run: seq<Moment>, k: nat, p: Path)
    requires Walked(was, wasOrder, now, nowOrder) && IsPatch(step, hash, was, wasOrder, now, patch)
    requires PatchPlans(patch, dstLen).Some? && IsInterruptedRun(PatchPlans(patch, dstLen).value, DigestOf(step), run)
    requires k < |run| && run[0] == Start(was) && !IsStage(PatchPlans(patch, dstLen).value, p)
    ensures Underway(DigestOf(step), was, now, p, Lookup(run[k].fs, p))
  {
    var changes := PatchUnpacks(step, hash, was, wasOrder, now, nowOrder, dstLen, patch);
    ChangesCrashSafety(DigestOf(step), dstLen, hash, was, now, changes, run, k, p);
  }

  // ---- Recovery ----

  /** A state an interrupted application of these changes may leave. */
  ghost predicate Interrupted(digest: Digest, dstLen: nat, hash: BlockDiff.BlockHash, was: Dir, now: Dir,
                              changes: seq<Change>, fs: Dir) {
    exists run: seq<Moment>, k ::
      IsInterruptedRun(PatchOf(dstLen, hash, was, now, changes), digest, run) && 0 <= k < |run| &&
      run[0] == Start(was) && run[k].fs == fs
  }

  /** What such a state holds at a path that no entry takes. */
  lemma InterruptedAt(digest: Digest, dstLen: nat, hash: BlockDiff.BlockHash, was: Dir, now: Dir, changes: seq<Change>,
                      fs: Dir, p: Path)
    requires Explains(digest, was, now, changes) && Interrupted(digest, dstLen, hash, was, now, changes, fs)
    requires forall k: nat :: !Takes(dstLen, changes, k, p)
    ensures Underway(digest, was, now, p, Lookup(fs, p))
    ensures !Allowed(dstLen, p) ==> Lookup(fs, p) == Lookup(was, p)
  {
    var plans := PatchOf(dstLen, hash, was, now, changes);
    var run: seq<Moment>, k :| IsInterruptedRun(plans, digest, run) && 0 <= k < |run| &&
                               run[0] == Start(was) && run[k].fs == fs;
    if IsStage(plans, p) {
      var m: nat :| m < |plans| && plans[m].Stage? && p == StagePath(plans[m].path);
      EntriesOf(dstLen, hash, was, now, changes, p, m);
      assert StagedAt(plans, p, m);
    }
    ChangesCrashSafety(digest, dstLen, hash, was, now, changes, run, k, p);
  }

  /** Where the entry of a path takes it, however often the application was interrupted. */
  ghost predicate Lands(dstLen: nat, was: Dir, changes: seq<Change>, j: nat)
    requires j < |changes|
  {
    var p := changes[j].path;
    if changes[j].Deleted? then Allowed(dstLen, p) || exists k: nat :: Takes(dstLen, changes, k, p)
    else Allowed(dstLen, p) && forall k: nat :: Takes(dstLen, changes, k, p) ==> InTime(was, changes, j, k)
  }

  /** A path arrives if its entry takes it there; without one it must not be taken unless it is to be absent. */
  ghost predicate PathLands(dstLen: nat, was: Dir, now: Dir, changes: seq<Change>, p: Path) {
    && (forall j: nat :: ChangesAt(changes, j, p) ==> Lands(dstLen, was, changes, j))
    && (p in now && (forall j: nat :: !ChangesAt(changes, j, p)) ==> forall k: nat :: !Takes(dstLen, changes, k, p))
  }

  ghost predicate AllLand(dstLen: nat, was: Dir, now: Dir, changes: seq<Change>) {
    forall p :: PathLands(dstLen, was, now, changes, p)
  }

  lemma {:induction false} ChangedPathLands(digest: Digest, dstLen: nat, hash: BlockDiff.BlockHash, was: Dir, now: Dir,
                                            changes: seq<Change>, fs: Dir, p: Path, j: nat)
    requires Updates(digest, was, now, changes) && Interrupted(digest, dstLen, hash, was, now, changes, fs)
    requires ChangesAt(changes, j, p) && Allowed(dstLen, p)
    ensures Arrived(digest, now, p, PathAfter(digest, Lookup(fs, p), PatchOf(dstLen, hash, was, now, changes), p))
            <==> Lands(dstLen, was, changes, j)
  {
    ChangeAt(digest, was, now, changes, j);
    if k: nat :| Takes(dstLen, changes, k, p) {
      forall i: nat | Takes(dstLen, changes, i, p) ensures i == k {
        OneTaker(dstLen, changes, p, i, k);
      }
      OwnAndTakenLeft(digest, dstLen, hash, was, now, changes, Lookup(fs, p), p, j, k);
      ChangeOnNothing(digest, dstLen, hash, was, now, changes[j]);
    } else {
      InterruptedAt(digest, dstLen, hash, was, now, changes, fs, p);
      OwnLeft(digest, dstLen, hash, was, now, changes, Lookup(fs, p), p, j);
      ChangeRecovers(digest, dstLen, hash, was, now, changes[j], Lookup(fs, p));
    }
  }

  lemma {:induction false} RefusedPathLands(digest: Digest, dstLen: nat, hash: BlockDiff.BlockHash, was: Dir, now: Dir,
                                            changes: seq<Change>, fs: Dir, p: Path, j: nat)
    requires Updates(digest, was, now, changes) && Interrupted(digest, dstLen, hash, was, now, changes, fs)
    requires ChangesAt(changes, j, p) && !Allowed(dstLen, p)
    ensures Arrived(digest, now, p, PathAfter(digest, Lookup(fs, p), PatchOf(dstLen, hash, was, now, changes), p))
            <==> Lands(dstLen, was, changes, j)
  {
    ChangeAt(digest, was, now, changes, j);
    OthersLeft(digest, dstLen, hash, was, now, changes, Lookup(fs, p), p);
    if forall k: nat :: !Takes(dstLen, changes, k, p) {
      InterruptedAt(digest, dstLen, hash, was, now, changes, fs, p);
    }
  }

  lemma {:induction false} UnchangedPathLands(digest: Digest, dstLen: nat, hash: BlockDiff.BlockHash, was: Dir,
                                              now: Dir, changes: seq<Change>, fs: Dir, p: Path)
    requires Updates(digest, was, now, changes) && Interrupted(digest, dstLen, hash, was, now, changes, fs)
    requires forall j: nat :: !ChangesAt(changes, j, p)
    ensures Arrived(digest, now, p, PathAfter(digest, Lookup(fs, p), PatchOf(dstLen, hash, was, now, changes), p))
            <==> (p in now ==> forall k: nat :: !Takes(dstLen, changes, k, p))
  {
    Unchanged(digest, was, now, changes, p);
    OthersLeft(digest, dstLen, hash, was, now, changes, Lookup(fs, p), p);
    if forall k: nat :: !Takes(dstLen, changes, k, p) {
      InterruptedAt(digest, dstLen, hash, was, now, changes, fs, p);
    }
  }

  /** One path: after any interruptions a complete application takes it where it should be if and only if it lands. */
  lemma PathRecovered(digest: Digest, dstLen: nat, hash: BlockDiff.BlockHash, was: Dir, now: Dir, changes: seq<Change>,
                      fs: Dir, p: Path)
    requires Updates(digest, was, now, changes) && Interrupted(digest, dstLen, hash, was, now, changes, fs)
    ensures var r := ApplyPlans(digest, Outcome(fs, 0), PatchOf(dstLen, hash, was, now, changes));
            Arrived(digest, now, p, Lookup(r.dir, p)) <==> PathLands(dstLen, was, now, changes, p)
  {
    PlansLeave(digest, Outcome(fs, 0), PatchOf(dstLen, hash, was, now, changes), p);
    if j: nat :| ChangesAt(changes, j, p) {
      forall i: nat | ChangesAt(changes, i, p) ensures i == j {
        OneChange(changes, p, i, j);
      }
      if Allowed(dstLen, p) {
        ChangedPathLands(digest, dstLen, hash, was, now, changes, fs, p, j);
      } else {
        RefusedPathLands(digest, dstLen, hash, was, now, changes, fs, p, j);
      }
    } else {
      UnchangedPathLands(digest, dstLen, hash, was, now, changes, fs, p);
    }
  }

  /** The new paths and nothing else, each with contents of its new digest. */
  ghost predicate Renovated(digest: Digest, now: Dir, fs: Dir) {
    fs.Keys == now.Keys && forall p :: p in now && p in fs ==> digest(fs[p]) == digest(now[p])
  }

  lemma AllArrived(digest: Digest, now: Dir, fs: Dir)
    ensures Renovated(digest, now, fs) <==> forall p :: Arrived(digest, now, p, Lookup(fs, p))
  {
    if forall p :: Arrived(digest, now, p, Lookup(fs, p)) {
      forall p ensures (p in fs <==> p in now) && (p in now && p in fs ==> digest(fs[p]) == digest(now[p])) {
        assert Arrived(digest, now, p, Lookup(fs, p));
      }
    }
  }

  /** An entry whose path is to go fails if the path is gone already. */
  lemma GoneFails(digest: Digest, dstLen: nat, hash: BlockDiff.BlockHash, was: Dir, now: Dir, changes: seq<Change>,
                  fs: Dir, p: Path)
    requires Explains(digest, was, now, changes) && p in was && p !in now && p !in fs
    ensures Failing(digest, fs, PatchOf(dstLen, hash, was, now, changes)) != {}
  {
    var plans := PatchOf(dstLen, hash, was, now, changes);
    DiffersAt(digest, was, now, changes, p);
    var j: nat :| ChangesAt(changes, j, p);
    ChangeAt(digest, was, now, changes, j);
    PlanAtChange(dstLen, hash, was, now, changes, j);
    if Allowed(dstLen, p) {
      if k: nat :| Takes(dstLen, changes, k, p) {
        OwnAndTakenLeft(digest, dstLen, hash, was, now, changes, None, p, j, k);
      } else {
        OwnLeft(digest, dstLen, hash, was, now, changes, None, p, j);
      }
    }
    assert FailsAt(digest, fs, plans, j);
    assert j in Failing(digest, fs, plans);
  }

  /** The complete application after the interruptions. */
  ghost predicate Retries(plans: seq<Plan>, digest: Digest, fs: Dir, retry: seq<Moment>) {
    retry != [] && IsRun(plans, digest, retry) && retry[0] == Start(fs) && retry[|retry| - 1].i == |plans|
  }

  lemma ChangesRecover(digest: Digest, dstLen: nat, hash: BlockDiff.BlockHash, was: Dir, now: Dir, changes: seq<Change>,
                       fs: Dir, retry: seq<Moment>)
    requires Updates(digest, was, now, changes) && Interrupted(digest, dstLen, hash, was, now, changes, fs)
    requires Retries(PatchOf(dstLen, hash, was, now, changes), digest, fs, retry)
    requires DeltasStay(PatchOf(dstLen, hash, was, now, changes))
    ensures Renovated(digest, now, retry[|retry| - 1].fs) <==> AllLand(dstLen, was, now, changes)
    ensures retry[|retry| - 1].errors == |Failing(digest, fs, PatchOf(dstLen, hash, was, now, changes))|
  {
    var plans := PatchOf(dstLen, hash, was, now, changes);
    RunIsClean(plans, digest, retry);
    CompleteRun(plans, digest, retry, fs);
    ErrorsCounted(digest, Outcome(fs, 0), plans);
    var end := retry[|retry| - 1].fs;
    forall p ensures Arrived(digest, now, p, Lookup(end, p)) <==> PathLands(dstLen, was, now, changes, p) {
      PathRecovered(digest, dstLen, hash, was, now, changes, fs, p);
    }
    AllArrived(digest, now, end);
  }

  lemma InterruptedBy(digest: Digest, dstLen: nat, hash: BlockDiff.BlockHash, was: Dir, now: Dir, changes: seq<Change>,
                      run: seq<Moment>, k: nat)
    requires IsInterruptedRun(PatchOf(dstLen, hash, was, now, changes), digest, run) && k < |run|
    requires run[0] == Start(was)
    ensures Interrupted(digest, dstLen, hash, was, now, changes, run[k].fs)
  {
  }

  lemma DeletedAlready(digest: Digest, dstLen: nat, hash: BlockDiff.BlockHash, was: Dir, now: Dir, changes: seq<Change>,
                       fs: Dir)
    requires Explains(digest, was, now, changes)
    ensures (exists p :: p in was && p !in now && p !in fs) ==>
              |Failing(digest, fs, PatchOf(dstLen, hash, was, now, changes))| > 0
  {
    if p :| p in was && p !in now && p !in fs {
      GoneFails(digest, dstLen, hash, was, now, changes, fs, p);
    }
  }

  /** Recovery: whatever interruptions came before, one complete application of the patch file afterwards ends with
      exactly the new paths, each holding contents of its new digest, if and only if every path lands, which does not
      depend on the interruptions. No assumption about the digest is needed. The error count is the number of entries
      that do not succeed on what they find, so the return code is not 0 once a deletion has been carried out. */
  lemma Recovery(step: Compression, hash: BlockDiff.BlockHash, was: Dir, wasOrder: seq<Path>, now: Dir,
                 nowOrder: seq<Path>, dstLen: nat, patch: seq<byte>, run: seq<Moment>, k: nat, retry: seq<Moment>)
      returns (changes: seq<Change>)
    requires Walked(was, wasOrder, now, nowOrder) && IsPatch(step, hash, was, wasOrder, now, patch)
    requires PatchPlans(patch, dstLen).Some? && IsInterruptedRun(PatchPlans(patch, dstLen).value, DigestOf(step), run)
    requires k < |run| && run[0] == Start(was)
    requires Retries(PatchPlans(patch, dstLen).value, DigestOf(step), run[k].fs, retry)
    ensures IsDelta(step, was, wasOrder, now, changes)
    ensures Renovated(DigestOf(step), now, retry[|retry| - 1].fs) <==> AllLand(dstLen, was, now, changes)
    ensures retry[|retry| - 1].errors == |Failing(DigestOf(step), run[k].fs, PatchPlans(patch, dstLen).value)|
    ensures (exists p :: p in was && p !in now && p !in run[k].fs) ==> retry[|retry| - 1].errors > 0
  {
    changes := PatchUnpacks(step, hash, was, wasOrder, now, nowOrder, dstLen, patch);
    InterruptedBy(DigestOf(step), dstLen, hash, was, now, changes, run, k);
    ChangesRecover(DigestOf(step), dstLen, hash, was, now, changes, run[k].fs, retry);
    DeletedAlready(DigestOf(step), dstLen, hash, was, now, changes, run[k].fs);
  }

  lemma ClashFreeLands(digest: Digest, dstLen: nat, was: Dir, now: Dir, changes: seq<Change>)
    requires Explains(digest, was, now, changes) && NoClash(dstLen, was, now, changes) && AllAllowed(dstLen, changes)
    ensures AllLand(dstLen, was, now, changes)
  {
    forall p, j: nat | ChangesAt(changes, j, p) ensures Lands(dstLen, was, changes, j) {
      ChangeAt(digest, was, now, changes, j);
      forall k: nat | Takes(dstLen, changes, k, p) ensures InTime(was, changes, j, k) {
        var i: nat :| ChangesAt(changes, i, p) && InTime(was, changes, i, k);
        OneChange(changes, p, i, j);
      }
    }
  }

  /** Directories fit for an update are fit for recovery. */
  lemma UpdatableLands(step: Compression, dstLen: nat, was: Dir, wasOrder: seq<Path>, now: Dir, changes: seq<Change>)
    requires Walk(wasOrder, was) && IsDelta(step, was, wasOrder, now, changes)
    requires DifferencesAllowed(DigestOf(step), dstLen, was, now) && Harmless(DigestOf(step), was, wasOrder, now)
    ensures AllLand(dstLen, was, now, changes)
  {
    DeltaExplains(step, was, wasOrder, now, changes);
    HarmlessNoClash(step, dstLen, was, wasOrder, now, changes);
    AllowedChanges(DigestOf(step), dstLen, was, now, changes);
    ClashFreeLands(DigestOf(step), dstLen, was, now, changes);
  }

  /** Different contents of a path have different digests, and every path that differs is relative, without ".." and
      short enough. */
  ghost predicate PlainChanges(digest: Digest, dstLen: nat, was: Dir, now: Dir) {
    && (forall p :: p in was && p in now && was[p] != now[p] ==> digest(was[p]) != digest(now[p]))
    && (forall p :: Lookup(was, p) != Lookup(now, p) ==> Inside(dstLen, p))
  }

  /** No file has a name that ends in ".paf_stage". */
  ghost predicate NoStageNames(dir: Dir) {
    forall q: Path :: q + [46, 112, 97, 102, 95, 115, 116, 97, 103, 101] !in dir
  }

  /** In terms of the bytes of the paths: such changes and no file in the way of a stage file. */
  ghost predicate PlainUpdate(digest: Digest, dstLen: nat, was: Dir, wasOrder: seq<Path>, now: Dir) {
    && PlainChanges(digest, dstLen, was, now)
    && (Harmless(digest, was, wasOrder, now) || (NoStageNames(was) && NoStageNames(now)))
  }

  lemma PlainlyUpdatable(digest: Digest, dstLen: nat, was: Dir, wasOrder: seq<Path>, now: Dir)
    ensures PlainUpdate(digest, dstLen, was, wasOrder, now) ==> Updatable(digest, dstLen, was, wasOrder, now)
  {
    if PlainUpdate(digest, dstLen, was, wasOrder, now) {
      forall p | Differs(digest, was, now, p) ensures Allowed(dstLen, p) {
        assert Lookup(was, p) != Lookup(now, p);
        AcceptedIff(dstLen, p);
      }
    }
  }

  lemma StaysInside(digest: Digest, o: Outcome, plans: seq<Plan>)
    requires DeltasStay(plans)
    ensures !RunsAstray(digest, o, plans)
  {
  }

  /** Applies a patch none of whose deltas ever goes astray. */
  method ApplyPatch(step: Compression, patch: seq<byte>, dst: Folder, dstLen: nat) returns (status: int)
    requires PatchPlans(patch, dstLen).Some? && DeltasStay(PatchPlans(patch, dstLen).value)
    modifies dst
    ensures status <= 0
    ensures Outcome(dst.files, -status)
         == ApplyPlans(DigestOf(step), Outcome(old(dst.files), 0), PatchPlans(patch, dstLen).value)
  {
    StaysInside(DigestOf(step), Outcome(dst.files, 0), PatchPlans(patch, dstLen).value);
    var strayed;
    ghost var run;
    strayed, status, run := PatchApplyAtomic(step, patch, dst, dstLen);
  }

  lemma NoErrorLeft(dir: Dir, status: int, now: Dir)
    requires status <= 0
    ensures Outcome(dir, -status) == Outcome(now, 0) <==> status == 0 && dir == now
  {
  }

  /** Builds a patch and applies it to a copy of the old directory. */
  method UpdateDirectory(step: Compression, stringHash: StringHash, hash: BlockDiff.BlockHash, wasOrder: seq<Path>,
                         now: Dir, nowOrder: seq<Path>, dst: Folder, dstLen: nat)
      returns (status: int, ghost changes: seq<Change>)
    requires Walked(dst.files, wasOrder, now, nowOrder)
    modifies dst
    ensures IsDelta(step, old(dst.files), wasOrder, now, changes)
    ensures status == 0 && dst.files == now <==> Appliable(DigestOf(step), dstLen, old(dst.files), now, changes)
    ensures Updatable(DigestOf(step), dstLen, old(dst.files), wasOrder, now) ==> status == 0 && dst.files == now
    ensures PlainUpdate(DigestOf(step), dstLen, old(dst.files), wasOrder, now) ==> status == 0 && dst.files == now
  {
    PlainlyUpdatable(DigestOf(step), dstLen, dst.files, wasOrder, now);
    var patch := CreatePatch(step, stringHash, hash, dst.files, wasOrder, now, nowOrder);
    changes := EndToEnd(step, hash, dst.files, wasOrder, now, nowOrder, dstLen, patch);
    status := ApplyPatch(step, patch, dst, dstLen);
    NoErrorLeft(dst.files, status, now);
  }
}
