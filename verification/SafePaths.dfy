/** Where an application can write at all: the path checks in terms of the bytes of a path (libpaf_patch.c). */
module SafePaths {
  import opened Bytes
  import opened ArchiveFormat
  import opened Directory
  import opened StagedApply

  /** A relative path that has ".." nowhere and fits beside a target path of this length. */
  ghost predicate Inside(dstLen: nat, p: Path) {
    && p != [] && p[0] != 47 && p[0] != 92 && dstLen + 1 + |p| < 1024
    && !exists a: Path, b: Path :: p == a + [46, 46] + b
  }

  /** Such a path, or one of them with ".paf_stage" behind it. */
  ghost predicate Reachable(dstLen: nat, p: Path) {
    Inside(dstLen, p) ||
    exists q :: Inside(dstLen, q) && p == q + [46, 112, 97, 102, 95, 115, 116, 97, 103, 101]
  }

  /** The applier accepts exactly the relative paths without "..". */
  lemma AcceptedIff(dstLen: nat, p: Path)
    ensures SafePath(p) && !TooLong(dstLen, p) <==> Inside(dstLen, p)
  {
    if a: Path, b: Path :| p == a + [46, 46] + b {
      assert p[|a|] == 46 && p[|a| + 1] == 46;
    }
    if i :| 0 <= i < |p| - 1 && p[i] == 46 && p[i + 1] == 46 {
      assert p == p[..i] + [46, 46] + p[i + 2..];
    }
  }

  ghost predicate AllInside(dstLen: nat, plans: seq<Plan>) {
    forall k :: 0 <= k < |plans| && !plans[k].Skip? ==> Inside(dstLen, plans[k].path)
  }

  /** Whatever the bytes of a patch are, an entry that is not refused has such a path. */
  lemma PlansInside(file: seq<byte>, h: Header, es: seq<Entry>, dstLen: nat)
    ensures AllInside(dstLen, Plans(file, h, es, dstLen))
  {
    var plans := Plans(file, h, es, dstLen);
    forall k | 0 <= k < |plans| && !plans[k].Skip? ensures Inside(dstLen, plans[k].path) {
      AcceptedIff(dstLen, plans[k].path);
    }
  }

  /** At no moment of any interrupted and repeated application has any other path changed. */
  lemma ChangesReachable(plans: seq<Plan>, digest: Digest, dstLen: nat, run: seq<Moment>, k: nat, p: Path)
    requires AllInside(dstLen, plans) && IsInterruptedRun(plans, digest, run) && k < |run| && run[0].phase == Begin
    ensures Lookup(run[k].fs, p) != Lookup(run[0].fs, p) ==> Reachable(dstLen, p)
  {
    if IsStage(plans, p) {
      var j :| 0 <= j < |plans| && plans[j].Stage? && p == StagePath(plans[j].path);
      assert Inside(dstLen, plans[j].path);
    } else {
      CrashSafety(plans, digest, run, k);
      assert PathSafe(plans, digest, run[0].fs, run[k].fs, p);
    }
  }

  lemma CleanRunReachable(plans: seq<Plan>, digest: Digest, dstLen: nat, run: seq<Moment>, from: Dir)
    requires AllInside(dstLen, plans) && run != [] && IsCleanRun(plans, digest, run) && run[0] == Start(from)
    ensures forall k, p :: 0 <= k < |run| && Lookup(run[k].fs, p) != Lookup(from, p) ==> Reachable(dstLen, p)
  {
    forall k, p | 0 <= k < |run| && Lookup(run[k].fs, p) != Lookup(from, p) ensures Reachable(dstLen, p) {
      ChangesReachable(plans, digest, dstLen, run, k, p);
    }
  }
}
