/** paf_patch_apply_atomic: every operation on the target directory is a step of the machine in StagedApply. */
module AtomicApply {
  import opened Bytes
  import opened Seqs
  import opened Hashing
  import opened ArchiveFormat
  import opened Directory
  import BinaryDelta
  import opened StagedApply
  import opened SafePaths
  import Sha256Stream

  const COPY_CHUNK: nat := 65536

  /** hash_file and the comparison with the digest in the index. */
  method MatchesDigest(step: Compression, content: seq<byte>, expected: seq<byte>) returns (same: bool)
    ensures same <==> DigestOf(step)(content) == expected
  {
    var computed := Sha256Stream.HashFileWith(step, content);
    return computed == expected;
  }

  /** The target directory under application. Its operations record the machine states they lead to. */
  class Target {
    const step: Compression
    const plans: seq<Plan>
    const dst: Folder
    ghost var run: seq<Moment>

    ghost predicate Valid()
      reads this, dst
    {
      run != [] && IsCleanRun(plans, DigestOf(step), run) && Now().fs == dst.files
    }

    ghost function Now(): Moment
      requires run != []
      reads this
    {
      run[|run| - 1]
    }

    constructor (step: Compression, plans: seq<Plan>, dst: Folder)
      ensures Valid() && run == [Start(dst.files)] && this.dst == dst && this.step == step && this.plans == plans
    {
      this.step, this.plans, this.dst := step, plans, dst;
      run := [Start(dst.files)];
    }

    /** A decision that touches no file. */
    ghost method Decide(t: Moment)
      requires Valid() && CleanStep(plans, DigestOf(step), Now(), t) && t.fs == dst.files
      modifies this`run
      ensures Valid() && run == old(run) + [t]
    {
      run := run + [t];
    }

    method Write(p: Path, content: seq<byte>, ghost t: Moment)
      requires Valid() && CleanStep(plans, DigestOf(step), Now(), t) && t.fs == dst.files[p := content]
      modifies this, dst
      ensures Valid() && run == old(run) + [t] && dst.files == old(dst.files)[p := content]
    {
      dst.files := dst.files[p := content];
      run := run + [t];
    }

    method Unlink(p: Path, ghost t: Moment)
      requires Valid() && CleanStep(plans, DigestOf(step), Now(), t) && t.fs == dst.files - {p}
      modifies this, dst
      ensures Valid() && run == old(run) + [t] && dst.files == old(dst.files) - {p}
    {
      dst.files := dst.files - {p};
      run := run + [t];
    }

    method Rename(from: Path, to: Path, ghost t: Moment)
      requires Valid() && from in dst.files && CleanStep(plans, DigestOf(step), Now(), t)
      requires t.fs == dst.files[to := dst.files[from]] - {from}
      modifies this, dst
      ensures Valid() && run == old(run) + [t] && dst.files == old(dst.files)[to := old(dst.files)[from]] - {from}
    {
      dst.files := dst.files[to := dst.files[from]] - {from};
      run := run + [t];
    }

    /** Writes the produced bytes to the stage file, a chunk at a time. */
    method WriteStage(k: nat, errors: nat, out: seq<byte>, ok: bool)
      requires Valid() && k < |plans| && plans[k].Stage? && StagePath(plans[k].path) in dst.files
      requires dst.files[StagePath(plans[k].path)] == [] && Now() == Moment(dst.files, k, errors, Writing(out, ok))
      modifies this, dst
      ensures Valid() && old(run) <= run && dst.files == old(dst.files)[StagePath(plans[k].path) := out]
      ensures Now() == Moment(dst.files, k, errors, if ok then Verify else Discard)
    {
      ghost var before, files := run, dst.files;
      var stage, written := StagePath(plans[k].path), 0;
      assert files[stage := out[..0]] == files;
      while written < |out|
        invariant written <= |out| && Valid() && before <= run && dst.files == files[stage := out[..written]]
        invariant Now() == Moment(dst.files, k, errors, Writing(out[written..], ok))
      {
        var n := if |out| - written > COPY_CHUNK then COPY_CHUNK else |out| - written;
        SplitAt(out, 0, written, written + n);
        WriteMore(plans, DigestOf(step), Now(), out, written, n, ok);
        var content := dst.files[stage] + out[written..written + n];
        assert content == out[..written + n];
        Write(stage, content, Moment(dst.files[stage := content], k, errors, Writing(out[written + n..], ok)));
        written := written + n;
      }
      assert out[..written] == out;
      Decide(Moment(dst.files, k, errors, if ok then Verify else Discard));
    }

    /** Removes the stage file of an entry that failed. */
    method DropStage(k: nat, errors: nat)
      requires Valid() && k < |plans| && plans[k].Stage? && Now() == Moment(dst.files, k, errors, Discard)
      modifies this, dst
      ensures Valid() && old(run) <= run && Now() == Moment(dst.files, k + 1, errors + 1, Begin)
    {
      var stage := StagePath(plans[k].path);
      Unlink(stage, Moment(dst.files - {stage}, k + 1, errors + 1, Begin));
    }

    /** Hashes the stage file and compares. */
    method VerifyStage(k: nat, errors: nat) returns (same: bool)
      requires Valid() && k < |plans| && plans[k].Stage? && StagePath(plans[k].path) in dst.files
      requires Now() == Moment(dst.files, k, errors, Verify)
      modifies this`run
      ensures Valid() && old(run) <= run && Now() == Moment(dst.files, k, errors, if same then Commit else Discard)
    {
      same := MatchesDigest(step, dst.files[StagePath(plans[k].path)], plans[k].digest);
      VerifyDecides(plans, DigestOf(step), Now(), same);
      Decide(Moment(dst.files, k, errors, if same then Commit else Discard));
    }

    /** Renames the verified stage file over the target. */
    method RenameStage(k: nat, errors: nat)
      requires Valid() && k < |plans| && plans[k].Stage? && StagePath(plans[k].path) in dst.files
      requires Now() == Moment(dst.files, k, errors, Commit)
      modifies this, dst
      ensures Valid() && old(run) <= run && Now() == Moment(dst.files, k + 1, errors, Begin)
    {
      var p, stage := plans[k].path, StagePath(plans[k].path);
      Rename(stage, p, Moment(dst.files[p := dst.files[stage]] - {stage}, k + 1, errors, Begin));
    }

    /** Fills the stage file: a replayed delta or the data bytes. Stops before a replay that goes astray. */
    method FillStage(k: nat, errors: nat) returns (strayed: bool, ok: bool)
      requires Valid() && k < |plans| && plans[k].Stage? && Now() == Moment(dst.files, k, errors, Begin)
      modifies this, dst
      ensures Valid() && old(run) <= run && (strayed <==> EntryStrays(plans[k], old(dst.files)))
      ensures strayed ==> Now() == old(Now()) && dst.files == old(dst.files)
      ensures !strayed ==> Now() == Moment(dst.files, k, errors, if ok then Verify else Discard)
      ensures !strayed && ok ==> StagePath(plans[k].path) in dst.files
    {
      var p, stage := plans[k].path, StagePath(plans[k].path);
      match plans[k].content {
        case FromDelta(delta) =>
          var astray, status, out := BinaryDelta.Apply(delta, Lookup(dst.files, p));
          if astray { return true, false; }
          if out.None? {
            Decide(Moment(dst.files, k, errors, Discard));
            return false, false;
          }
          ok := status == 0;
          Write(stage, [], Moment(dst.files[stage := []], k, errors, Writing(out.value, ok)));
          WriteStage(k, errors, out.value, ok);
        case FromData(data, complete) =>
          ok := complete;
          Write(stage, [], Moment(dst.files[stage := []], k, errors, Writing(data, ok)));
          WriteStage(k, errors, data, ok);
      }
      strayed := false;
    }

    /** Verifies the filled stage file and renames it, or removes it. */
    method FinishStage(k: nat, errors: nat, ok: bool) returns (failed: bool)
      requires Valid() && k < |plans| && plans[k].Stage?
      requires Now() == Moment(dst.files, k, errors, if ok then Verify else Discard)
      requires ok ==> StagePath(plans[k].path) in dst.files
      modifies this, dst
      ensures Valid() && old(run) <= run
      ensures Now() == Moment(dst.files, k + 1, if failed then errors + 1 else errors, Begin)
    {
      if !ok {
        DropStage(k, errors);
        return true;
      }
      var same := VerifyStage(k, errors);
      if same {
        RenameStage(k, errors);
      } else {
        DropStage(k, errors);
      }
      return !same;
    }

    /** One entry of the index, unless it goes astray. */
    method ApplyEntry(k: nat, errors: nat) returns (strayed: bool, failed: bool)
      requires Valid() && k < |plans| && Now() == Moment(dst.files, k, errors, Begin)
      modifies this, dst
      ensures Valid() && old(run) <= run && (strayed <==> EntryStrays(plans[k], old(dst.files)))
      ensures strayed ==> Now() == old(Now()) && dst.files == old(dst.files)
      ensures !strayed ==> Now() == Moment(dst.files, k + 1, if failed then errors + 1 else errors, Begin)
    {
      match plans[k] {
        case Skip =>
          Decide(Moment(dst.files, k + 1, errors + 1, Begin));
          return false, true;
        case Delete(p) =>
          if p !in dst.files {
            Decide(Moment(dst.files, k + 1, errors + 1, Begin));
            return false, true;
          }
          Unlink(p, Moment(dst.files - {p}, k + 1, errors, Begin));
          return false, false;
        case Stage(p, content, digest) =>
          var ok;
          strayed, ok := FillStage(k, errors);
          if strayed { return true, false; }
          failed := FinishStage(k, errors, ok);
      }
    }

    /** The loop over the index, from a directory no entry has been applied to, up to an entry that goes astray. */
    method ApplyEntries() returns (strayed: bool, k: nat, errors: nat)
      requires Valid() && run == [Start(dst.files)]
      modifies this, dst
      ensures Valid() && old(run) <= run && k <= |plans| && Now() == Moment(dst.files, k, errors, Begin)
      ensures strayed <==> RunsAstray(DigestOf(step), Outcome(old(dst.files), 0), plans)
      ensures if strayed then k < |plans| && EntryStrays(plans[k], dst.files) else k == |plans|
    {
      errors, k := 0, 0;
      ghost var from, digest := dst.files, DigestOf(step);
      while k < |plans|
        invariant k <= |plans| && Valid() && [Start(from)] <= run && Now() == Moment(dst.files, k, errors, Begin)
        invariant CleanBefore(digest, Outcome(from, 0), plans, k)
      {
        AstrayAt(plans, digest, run, from, k);
        var failed;
        strayed, failed := ApplyEntry(k, errors);
        if strayed { return true, k, errors; }
        k := k + 1;
        if failed {
          errors := errors + 1;
        }
      }
      strayed := false;
    }
  }

  /** The plans of a patch file, or the status that stops the application before any entry. */
  function PatchPlans(patch: seq<byte>, dstLen: nat): Option<seq<Plan>> {
    var h := ParseHeader(patch);
    if h.None? then None
    else
      var es := ReadIndex(patch, h.value);
      if es.None? then None else Some(Plans(patch, h.value, es.value, dstLen))
  }

  /** Whatever the bytes of a patch are, and however often its application is interrupted and repeated: no path has ever
      changed but relative ones without ".." and their stage files. */
  lemma PatchStaysInside(patch: seq<byte>, dstLen: nat, digest: Digest, run: seq<Moment>, k: nat, p: Path)
    requires PatchPlans(patch, dstLen).Some? && IsInterruptedRun(PatchPlans(patch, dstLen).value, digest, run)
    requires k < |run| && run[0].phase.Begin?
    ensures AllInside(dstLen, PatchPlans(patch, dstLen).value)
    ensures Lookup(run[k].fs, p) != Lookup(run[0].fs, p) ==> Reachable(dstLen, p)
  {
    var h := ParseHeader(patch).value;
    PlansInside(patch, h, ReadIndex(patch, h).value, dstLen);
    ChangesReachable(PatchPlans(patch, dstLen).value, digest, dstLen, run, k, p);
  }

  /** What a run over the plans of a patch amounts to: complete, with the outcome of the entries in order, or cut off
      before the first entry that goes astray. */
  ghost predicate Applied(digest: Digest, plans: seq<Plan>, from: Dir, run: seq<Moment>, strayed: bool, status: int) {
    && status <= 0 && run != [] && IsCleanRun(plans, digest, run) && run[0] == Start(from)
    && var end := run[|run| - 1];
       end == Moment(end.fs, end.i, -status, Begin) &&
       if strayed then end.i < |plans| && EntryStrays(plans[end.i], end.fs)
       else end.i == |plans| && Outcome(end.fs, -status) == ApplyPlans(digest, Outcome(from, 0), plans)
  }

  method ApplyIndex(step: Compression, plans: seq<Plan>, dst: Folder)
      returns (strayed: bool, status: int, ghost run: seq<Moment>)
    modifies dst
    ensures strayed <==> RunsAstray(DigestOf(step), Outcome(old(dst.files), 0), plans)
    ensures Applied(DigestOf(step), plans, old(dst.files), run, strayed, status) && run[|run| - 1].fs == dst.files
  {
    var target := new Target(step, plans, dst);
    var k, errors;
    strayed, k, errors := target.ApplyEntries();
    run := target.run;
    if !strayed {
      CompleteRun(plans, DigestOf(step), run, old(dst.files));
    }
    var failures: int := errors;
    status := 0 - failures;
  }

  /** paf_patch_apply_atomic on any bytes. run is the sequence of states the directory went through. A delta whose
      replay reads outside the old file ends the model: that happens exactly if some entry strays on what the entries
      before leave. */
  method PatchApplyAtomic(step: Compression, patch: seq<byte>, dst: Folder, dstLen: nat)
      returns (strayed: bool, status: int, ghost run: seq<Moment>)
    modifies dst
    ensures ParseHeader(patch).None? ==> status == -2
    ensures ParseHeader(patch).Some? && PatchPlans(patch, dstLen).None? ==> status == -3
    ensures PatchPlans(patch, dstLen).None? ==> dst.files == old(dst.files)
    ensures strayed <==> PatchPlans(patch, dstLen).Some? &&
                         RunsAstray(DigestOf(step), Outcome(old(dst.files), 0), PatchPlans(patch, dstLen).value)
    ensures PatchPlans(patch, dstLen).Some? ==>
              Applied(DigestOf(step), PatchPlans(patch, dstLen).value, old(dst.files), run, strayed, status) &&
              run[|run| - 1].fs == dst.files
    ensures forall k, p :: 0 <= k < |run| && Lookup(run[k].fs, p) != Lookup(old(dst.files), p) ==> Reachable(dstLen, p)
    ensures forall p :: Lookup(dst.files, p) != Lookup(old(dst.files), p) ==> Reachable(dstLen, p)
  {
    var header := ParseHeader(patch);
    if header.None? { return false, -2, []; }
    var index := ReadIndex(patch, header.value);
    if index.None? { return false, -3, []; }
    var plans := Plans(patch, header.value, index.value, dstLen);
    PlansInside(patch, header.value, index.value, dstLen);
    ghost var from := dst.files;
    strayed, status, run := ApplyIndex(step, plans, dst);
    CleanRunReachable(plans, DigestOf(step), dstLen, run, from);
  }
}
