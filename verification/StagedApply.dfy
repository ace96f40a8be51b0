/** The atomic applier as a machine over its file operations: stage, verify, rename (libpaf_patch.c). */
module StagedApply {
  import opened Bytes
  import opened Seqs
  import opened ArchiveFormat
  import opened Directory
  import opened BinaryDelta

  type Digest = seq<byte> -> seq<byte>

  /** The bytes of ".paf_stage". */
  const STAGE_SUFFIX: seq<byte> := [46, 112, 97, 102, 95, 115, 116, 97, 103, 101]

  function StagePath(p: Path): (s: Path)
    ensures s != p
  {
    p + STAGE_SUFFIX
  }

  // ---- What an index entry asks for ----

  /** The staged contents: a delta to replay, or data bytes that may have been cut short. */
  datatype Content = FromDelta(delta: seq<byte>) | FromData(data: seq<byte>, complete: bool)

  /** Skip is an entry refused before any file is touched. */
  datatype Plan = Skip | Delete(path: Path) | Stage(path: Path, content: Content, digest: seq<byte>)

  predicate HasDotDot(p: Path) {
    exists i :: 0 <= i < |p| - 1 && p[i] == 46 && p[i + 1] == 46
  }

  /** paf_is_safe_path. */
  predicate SafePath(p: Path) {
    p != [] && p[0] != 47 && p[0] != 92 && !HasDotDot(p)
  }

  predicate HasFlag(flags: nat, bit: nat)
    requires bit > 0
  {
    flags / bit % 2 == 1
  }

  /** The relative path of an entry, or None when its length is out of range or its bytes are missing. */
  function EntryPath(file: seq<byte>, h: Header, e: Entry): Option<Path> {
    if e.pathLength == 0 || e.pathLength >= PATH_BUFFER then None
    else
      var raw := ReadAt(file, h.pathOffset + e.pathOffset, e.pathLength);
      if |raw| != e.pathLength then None else Some(CString(raw))
  }

  /** The path of a well-formed archive's member is read whole. */
  lemma {:induction false} MemberPathRead(f: seq<byte>, h: Header, items: seq<Item>, k: nat)
    requires IsArchive(f, h, items) && k < |items| && 0 < |items[k].path| < PATH_BUFFER && 0 !in items[k].path
    ensures EntryPath(f, h, Entries(items)[k]) == Some(items[k].path)
  {
    ArchiveMember(f, h, items, k);
  }

  function PlanAt(file: seq<byte>, e: Entry, path: Path): Plan {
    if HasFlag(e.flags, PAF_ENTRY_DELETED) then Delete(path)
    else
      var bytes := ReadAt(file, HEADER_SIZE + e.dataOffset, e.dataSize);
      if HasFlag(e.flags, PAF_ENTRY_BINARY_DELTA) then
        if |bytes| != e.dataSize then Skip else Stage(path, FromDelta(bytes), e.digest)
      else Stage(path, FromData(bytes, |bytes| == e.dataSize), e.digest)
  }

  function PlanOf(file: seq<byte>, h: Header, e: Entry, dstLen: nat): Plan {
    var path := EntryPath(file, h, e);
    if path.None? || !SafePath(path.value) || TooLong(dstLen, path.value) then Skip
    else PlanAt(file, e, path.value)
  }

  function Plans(file: seq<byte>, h: Header, es: seq<Entry>, dstLen: nat): (plans: seq<Plan>)
    ensures |plans| == |es| && forall i :: 0 <= i < |es| ==> plans[i] == PlanOf(file, h, es[i], dstLen)
  {
    seq(|es|, i requires 0 <= i < |es| => PlanOf(file, h, es[i], dstLen))
  }

  /** What staging writes, given the contents the target path holds. */
  function Produced(c: Content, was: Option<seq<byte>>): Applied {
    match c
    case FromDelta(delta) => Applying(delta, was)
    case FromData(data, complete) => Written(complete, data)
  }

  /** Producing the contents reads outside the file at the target path. */
  ghost predicate Astray(c: Content, was: Option<seq<byte>>) {
    c.FromDelta? && GoesAstray(c.delta, was)
  }

  ghost predicate EntryStrays(plan: Plan, dir: Dir) {
    plan.Stage? && Astray(plan.content, Lookup(dir, plan.path))
  }

  // ---- The machine ----

  datatype Phase =
    | Begin
    | Writing(rest: seq<byte>, ok: bool)
    | Verify
    | Commit
    | Discard

  /** The directory, the entry at hand, the errors so far and where the entry's processing stands. */
  datatype Moment = Moment(fs: Dir, i: nat, errors: nat, phase: Phase)

  function Start(fs: Dir): Moment {
    Moment(fs, 0, 0, Begin)
  }

  /** The first step of an entry. A replay that goes astray may write anything to the stage file. */
  ghost predicate BeginStep(plan: Plan, s: Moment, t: Moment) {
    match plan
    case Skip => t == Moment(s.fs, s.i + 1, s.errors + 1, Begin)
    case Delete(p) =>
      t == if p in s.fs then Moment(s.fs - {p}, s.i + 1, s.errors, Begin)
            else Moment(s.fs, s.i + 1, s.errors + 1, Begin)
    case Stage(p, c, _) =>
      if Astray(c, Lookup(s.fs, p)) then
        t.phase.Writing? && t == s.(fs := s.fs[StagePath(p) := []], phase := t.phase)
      else match Produced(c, Lookup(s.fs, p))
      case Refused => t == s.(phase := Discard)
      case Written(ok, out) => t == s.(fs := s.fs[StagePath(p) := []], phase := Writing(out, ok))
  }

  /** Some more of the remaining bytes reach the stage file; or none remain and the entry moves on. */
  predicate WriteStep(stage: Path, rest: seq<byte>, ok: bool, s: Moment, t: Moment) {
    if rest == [] then t == s.(phase := if ok then Verify else Discard)
    else
      && stage in s.fs && t.phase.Writing? && |t.phase.rest| < |rest|
      && var n := |rest| - |t.phase.rest|;
         t == s.(fs := s.fs[stage := s.fs[stage] + rest[..n]], phase := Writing(rest[n..], ok))
  }

  /** One file operation, or one decision, in the processing of an entry. */
  ghost predicate EntryStep(plan: Plan, digest: Digest, s: Moment, t: Moment) {
    if s.phase.Begin? then BeginStep(plan, s, t)
    else
      plan.Stage? &&
      var p, stage := plan.path, StagePath(plan.path);
      match s.phase
      case Writing(rest, ok) => WriteStep(stage, rest, ok, s, t)
      case Verify => stage in s.fs && t == s.(phase := if digest(s.fs[stage]) == plan.digest then Commit else Discard)
      case Commit => stage in s.fs && t == Moment(s.fs[p := s.fs[stage]] - {stage}, s.i + 1, s.errors, Begin)
      case Discard => t == Moment(s.fs - {stage}, s.i + 1, s.errors + 1, Begin)
      case Begin => false
  }

  ghost predicate Step(plans: seq<Plan>, digest: Digest, s: Moment, t: Moment) {
    s.i < |plans| && EntryStep(plans[s.i], digest, s, t)
  }

  /** The process stops anywhere and the whole application is started again on the directory it left. */
  predicate Restart(s: Moment, t: Moment) {
    t == Start(s.fs)
  }

  ghost predicate IsRun(plans: seq<Plan>, digest: Digest, run: seq<Moment>) {
    forall k :: 0 <= k < |run| - 1 ==> Step(plans, digest, run[k], run[k + 1])
  }

  /** The machine is not about to replay a delta that goes astray. */
  ghost predicate Clean(plans: seq<Plan>, s: Moment) {
    s.phase.Begin? && s.i < |plans| ==> !EntryStrays(plans[s.i], s.fs)
  }

  ghost predicate CleanStep(plans: seq<Plan>, digest: Digest, s: Moment, t: Moment) {
    Clean(plans, s) && Step(plans, digest, s, t)
  }

  /** A run none of whose steps goes astray. */
  ghost predicate IsCleanRun(plans: seq<Plan>, digest: Digest, run: seq<Moment>) {
    forall k :: 0 <= k < |run| - 1 ==> CleanStep(plans, digest, run[k], run[k + 1])
  }

  /** Comparing the digest of the stage file is a step. */
  lemma VerifyDecides(plans: seq<Plan>, digest: Digest, s: Moment, same: bool)
    requires s.i < |plans| && plans[s.i].Stage? && s.phase.Verify? && StagePath(plans[s.i].path) in s.fs
    requires same <==> digest(s.fs[StagePath(plans[s.i].path)]) == plans[s.i].digest
    ensures CleanStep(plans, digest, s, Moment(s.fs, s.i, s.errors, if same then Commit else Discard))
  {
  }

  /** Appending the next n bytes of out to a stage file that holds the first w is a step. */
  lemma WriteMore(plans: seq<Plan>, digest: Digest, s: Moment, out: seq<byte>, w: nat, n: nat, ok: bool)
    requires s.i < |plans| && plans[s.i].Stage? && 0 < n && w + n <= |out| && s.phase == Writing(out[w..], ok)
    requires Lookup(s.fs, StagePath(plans[s.i].path)) == Some(out[..w])
    ensures var fs := s.fs[StagePath(plans[s.i].path) := out[..w + n]];
            CleanStep(plans, digest, s, Moment(fs, s.i, s.errors, Writing(out[w + n..], ok)))
  {
    DropDrop(out, w, n);
    DropTake(out, w, n);
    SplitAt(out, 0, w, w + n);
  }

  ghost predicate IsInterruptedRun(plans: seq<Plan>, digest: Digest, run: seq<Moment>) {
    forall k :: 0 <= k < |run| - 1 ==> Step(plans, digest, run[k], run[k + 1]) || Restart(run[k], run[k + 1])
  }

  // ---- Crash safety ----

  ghost predicate IsStage(plans: seq<Plan>, p: Path) {
    exists k :: 0 <= k < |plans| && plans[k].Stage? && p == StagePath(plans[k].path)
  }

  ghost predicate Announced(plans: seq<Plan>, p: Path, d: seq<byte>) {
    exists k :: 0 <= k < |plans| && plans[k].Stage? && plans[k].path == p && plans[k].digest == d
  }

  /** Untouched, or contents with the digest the patch announces, or absent because the patch deletes it. */
  ghost predicate PathSafe(plans: seq<Plan>, digest: Digest, was: Dir, fs: Dir, p: Path) {
    || Lookup(fs, p) == Lookup(was, p)
    || (p in fs && Announced(plans, p, digest(fs[p])))
    || (p !in fs && Delete(p) in plans)
  }

  ghost predicate AllSafe(plans: seq<Plan>, digest: Digest, was: Dir, fs: Dir) {
    forall p :: !IsStage(plans, p) ==> PathSafe(plans, digest, was, fs, p)
  }

  /** A commit is only reached with a stage file of the announced digest. */
  ghost predicate CommitOk(plan: Plan, digest: Digest, s: Moment) {
    s.phase.Commit? ==> plan.Stage? && StagePath(plan.path) in s.fs && digest(s.fs[StagePath(plan.path)]) == plan.digest
  }

  ghost predicate PhaseOk(plans: seq<Plan>, digest: Digest, s: Moment) {
    s.phase.Commit? ==> s.i < |plans| && CommitOk(plans[s.i], digest, s)
  }

  /** What a successful entry makes of its own path. */
  ghost predicate Settled(plan: Plan, digest: Digest, fs: Dir, p: Path) {
    || (plan.Stage? && plan.path == p && p in fs && digest(fs[p]) == plan.digest)
    || (plan == Delete(p) && p !in fs)
  }

  /** How one step may change a path: only a rename of verified bytes or a deletion does, and neither fails. */
  lemma EntryStepLocal(plan: Plan, digest: Digest, s: Moment, t: Moment, p: Path)
    requires EntryStep(plan, digest, s, t) && CommitOk(plan, digest, s)
    requires plan.Stage? ==> p != StagePath(plan.path)
    ensures CommitOk(plan, digest, t)
    ensures t.i == s.i ==> t.errors == s.errors && Lookup(t.fs, p) == Lookup(s.fs, p)
    ensures t.i != s.i ==> t.i == s.i + 1 && t.phase.Begin? && s.errors <= t.errors <= s.errors + 1
    ensures t.errors > s.errors || (!plan.Skip? && p != plan.path) ==> Lookup(t.fs, p) == Lookup(s.fs, p)
    ensures t.i != s.i && t.errors == s.errors ==> !plan.Skip? && (p == plan.path ==> Settled(plan, digest, t.fs, p))
  {
    match s.phase
    case Begin =>
    case Writing(_, _) =>
    case Verify =>
    case Commit =>
    case Discard =>
  }

  lemma StepLocal(plans: seq<Plan>, digest: Digest, s: Moment, t: Moment, p: Path)
    requires Step(plans, digest, s, t) && PhaseOk(plans, digest, s) && !IsStage(plans, p)
    ensures Lookup(t.fs, p) == Lookup(s.fs, p) || (t.errors == s.errors && Settled(plans[s.i], digest, t.fs, p))
  {
    EntryStepLocal(plans[s.i], digest, s, t, p);
  }

  lemma StepPhase(plans: seq<Plan>, digest: Digest, s: Moment, t: Moment)
    requires Step(plans, digest, s, t)
    ensures PhaseOk(plans, digest, t)
  {
  }

  /** Crash safety: after any number of steps, interruptions and restarts, every path that is not
      a stage file is safe. */
  lemma {:induction false} CrashSafety(plans: seq<Plan>, digest: Digest, run: seq<Moment>, k: nat)
    requires IsInterruptedRun(plans, digest, run) && k < |run| && run[0].phase == Begin
    ensures PhaseOk(plans, digest, run[k]) && AllSafe(plans, digest, run[0].fs, run[k].fs)
  {
    if k > 0 {
      CrashSafety(plans, digest, run, k - 1);
      var s, t := run[k - 1], run[k - 1 + 1];
      if Step(plans, digest, s, t) {
        StepPhase(plans, digest, s, t);
        forall p | !IsStage(plans, p) ensures PathSafe(plans, digest, run[0].fs, t.fs, p) {
          StepLocal(plans, digest, s, t, p);
          assert PathSafe(plans, digest, run[0].fs, s.fs, p);
        }
      }
    }
  }

  /** The steps that process entry k of a run that started at from. */
  ghost predicate Processes(plans: seq<Plan>, digest: Digest, run: seq<Moment>, from: Dir, k: nat, errors: nat) {
    && run != [] && IsRun(plans, digest, run) && k < |plans|
    && run[0] == Moment(from, k, errors, Begin)
    && (forall j :: 0 <= j < |run| - 1 ==> run[j].i == k)
  }

  lemma {:induction false} WithinEntry(plans: seq<Plan>, digest: Digest, run: seq<Moment>, from: Dir, k: nat,
                                       errors: nat, j: nat, p: Path)
    requires Processes(plans, digest, run, from, k, errors) && j < |run| && run[j].i == k && !IsStage(plans, p)
    ensures CommitOk(plans[k], digest, run[j]) && run[j].errors == errors && Lookup(run[j].fs, p) == Lookup(from, p)
  {
    if j > 0 {
      WithinEntry(plans, digest, run, from, k, errors, j - 1, p);
      assert Step(plans, digest, run[j - 1], run[j - 1 + 1]);
      EntryStepLocal(plans[k], digest, run[j - 1], run[j], p);
    }
  }

  /** All or nothing: an entry that fails adds one error and leaves every path but stage files as it was;
      one that succeeds changes its own path only, to bytes of its digest or, if it deletes, to nothing. */
  lemma EntryAllOrNothing(plans: seq<Plan>, digest: Digest, run: seq<Moment>, from: Dir, k: nat, errors: nat, p: Path)
    requires Processes(plans, digest, run, from, k, errors) && run[|run| - 1].i == k + 1 && !IsStage(plans, p)
    ensures var end := run[|run| - 1];
            || (end.errors == errors + 1 && Lookup(end.fs, p) == Lookup(from, p))
            || (end.errors == errors && !plans[k].Skip? &&
                if p == plans[k].path then Settled(plans[k], digest, end.fs, p)
                 else Lookup(end.fs, p) == Lookup(from, p))
  {
    var j := |run| - 2;
    WithinEntry(plans, digest, run, from, k, errors, j, p);
    assert Step(plans, digest, run[j], run[j + 1]);
    EntryStepLocal(plans[k], digest, run[j], run[j + 1], p);
  }

  // ---- The result of a complete run ----

  /** One entry, in one go. */
  function ApplyEntry(digest: Digest, o: Outcome, plan: Plan): Outcome {
    match plan
    case Skip => Outcome(o.dir, o.errors + 1)
    case Delete(p) => if p in o.dir then Outcome(o.dir - {p}, o.errors) else Outcome(o.dir, o.errors + 1)
    case Stage(p, c, d) =>
      var made := Produced(c, Lookup(o.dir, p));
      if made.Written? && made.ok && digest(made.out) == d then Outcome(o.dir[p := made.out] - {StagePath(p)}, o.errors)
      else Outcome(o.dir - {StagePath(p)}, o.errors + 1)
  }

  function ApplyPlans(digest: Digest, o: Outcome, plans: seq<Plan>): Outcome {
    if plans == [] then o
    else ApplyEntry(digest, ApplyPlans(digest, o, plans[..|plans| - 1]), plans[|plans| - 1])
  }

  /** How a state inside an entry relates to the outcome o before the entry. */
  ghost predicate Amid(digest: Digest, o: Outcome, plan: Plan, s: Moment) {
    s.errors == o.errors &&
    if s.phase.Begin? then s.fs == o.dir
    else
      plan.Stage? &&
      var stage, made := StagePath(plan.path), Produced(plan.content, Lookup(o.dir, plan.path));
      match s.phase
      case Writing(rest, ok) => stage in s.fs && s.fs == o.dir[stage := s.fs[stage]]
                      && made == Written(ok, s.fs[stage] + rest)
      case Verify => stage in s.fs && s.fs == o.dir[stage := s.fs[stage]] && made == Written(true, s.fs[stage])
      case Commit =>
        stage in s.fs && s.fs == o.dir[stage := s.fs[stage]] && made == Written(true, s.fs[stage]) &&
        digest(s.fs[stage]) == plan.digest
      case Discard => s.fs - {stage} == o.dir - {stage}
                      && !(made.Written? && made.ok && digest(made.out) == plan.digest)
      case Begin => true
  }

  /** The state matches the outcome of the entries already processed. */
  ghost predicate Matches(plans: seq<Plan>, digest: Digest, o: Outcome, s: Moment) {
    s.i <= |plans| &&
    var before := ApplyPlans(digest, o, plans[..s.i]);
    if s.i == |plans| then s.phase.Begin? && Outcome(s.fs, s.errors) == before else Amid(digest, before, plans[s.i], s)
  }

  /** Still inside the entry, or past it with the effect of the whole entry. */
  ghost predicate AmidOrDone(plan: Plan, digest: Digest, o: Outcome, s: Moment, t: Moment) {
    if t.i == s.i then Amid(digest, o, plan, t)
    else t.i == s.i + 1 && t.phase.Begin? && Outcome(t.fs, t.errors) == ApplyEntry(digest, o, plan)
  }

  lemma AmidBegin(plan: Plan, digest: Digest, o: Outcome, s: Moment, t: Moment)
    requires s.phase.Begin? && EntryStep(plan, digest, s, t) && Amid(digest, o, plan, s) && !EntryStrays(plan, s.fs)
    ensures AmidOrDone(plan, digest, o, s, t)
  {
  }

  lemma AmidWriting(plan: Plan, digest: Digest, o: Outcome, s: Moment, t: Moment)
    requires s.phase.Writing? && EntryStep(plan, digest, s, t) && Amid(digest, o, plan, s)
    ensures AmidOrDone(plan, digest, o, s, t)
  {
    if s.phase.rest == [] {
      assert s.fs[StagePath(plan.path)] + [] == s.fs[StagePath(plan.path)];
      assert s.fs - {StagePath(plan.path)} == o.dir - {StagePath(plan.path)};
    } else {
      var n := |s.phase.rest| - |t.phase.rest|;
      Assoc(s.fs[StagePath(plan.path)], s.phase.rest[..n], s.phase.rest[n..]);
      assert s.phase.rest == s.phase.rest[..n] + s.phase.rest[n..];
    }
  }

  lemma AmidVerify(plan: Plan, digest: Digest, o: Outcome, s: Moment, t: Moment)
    requires s.phase.Verify? && EntryStep(plan, digest, s, t) && Amid(digest, o, plan, s)
    ensures AmidOrDone(plan, digest, o, s, t)
  {
    assert s.fs - {StagePath(plan.path)} == o.dir - {StagePath(plan.path)};
  }

  lemma AmidCommit(plan: Plan, digest: Digest, o: Outcome, s: Moment, t: Moment)
    requires s.phase.Commit? && EntryStep(plan, digest, s, t) && Amid(digest, o, plan, s)
    ensures AmidOrDone(plan, digest, o, s, t)
  {
    assert t.fs == o.dir[plan.path := s.fs[StagePath(plan.path)]] - {StagePath(plan.path)};
  }

  lemma AmidStep(plan: Plan, digest: Digest, o: Outcome, s: Moment, t: Moment)
    requires EntryStep(plan, digest, s, t) && Amid(digest, o, plan, s) && (s.phase.Begin? ==> !EntryStrays(plan, s.fs))
    ensures AmidOrDone(plan, digest, o, s, t)
  {
    match s.phase
    case Begin => AmidBegin(plan, digest, o, s, t);
    case Writing(_, _) => AmidWriting(plan, digest, o, s, t);
    case Verify => AmidVerify(plan, digest, o, s, t);
    case Commit => AmidCommit(plan, digest, o, s, t);
    case Discard =>
  }

  lemma MatchesStep(plans: seq<Plan>, digest: Digest, o: Outcome, s: Moment, t: Moment)
    requires CleanStep(plans, digest, s, t) && Matches(plans, digest, o, s)
    ensures Matches(plans, digest, o, t)
  {
    AmidStep(plans[s.i], digest, ApplyPlans(digest, o, plans[..s.i]), s, t);
    assert plans[..s.i + 1][..s.i] == plans[..s.i];
  }

  /** However the writes are split, every clean run passes through the outcomes of the entries in turn. */
  lemma {:induction false} RunMatches(plans: seq<Plan>, digest: Digest, run: seq<Moment>, from: Dir, k: nat)
    requires IsCleanRun(plans, digest, run) && k < |run| && run[0] == Start(from)
    ensures Matches(plans, digest, Outcome(from, 0), run[k])
  {
    if k == 0 {
      assert plans[..0] == [];
    } else {
      RunMatches(plans, digest, run, from, k - 1);
      assert CleanStep(plans, digest, run[k - 1], run[k - 1 + 1]);
      MatchesStep(plans, digest, Outcome(from, 0), run[k - 1], run[k]);
    }
  }

  /** A complete clean run ends with the outcome of the entries applied one after the other. */
  lemma {:induction false} CompleteRun(plans: seq<Plan>, digest: Digest, run: seq<Moment>, from: Dir)
    requires run != [] && IsCleanRun(plans, digest, run) && run[0] == Start(from) && run[|run| - 1].i == |plans|
    ensures var end := run[|run| - 1]; Outcome(end.fs, end.errors) == ApplyPlans(digest, Outcome(from, 0), plans)
  {
    RunMatches(plans, digest, run, from, |run| - 1);
    assert plans[..|plans|] == plans;
  }

  // ---- Applications that go astray ----

  /** Some entry goes astray on the directory the entries before it leave. */
  ghost predicate RunsAstray(digest: Digest, o: Outcome, plans: seq<Plan>) {
    exists k :: 0 <= k < |plans| && EntryStrays(plans[k], ApplyPlans(digest, o, plans[..k]).dir)
  }

  ghost predicate CleanBefore(digest: Digest, o: Outcome, plans: seq<Plan>, n: nat)
    requires n <= |plans|
  {
    forall k :: 0 <= k < n ==> !EntryStrays(plans[k], ApplyPlans(digest, o, plans[..k]).dir)
  }

  /** Where a clean run stands before entry k decides whether the application goes astray there. */
  lemma AstrayAt(plans: seq<Plan>, digest: Digest, run: seq<Moment>, from: Dir, k: nat)
    requires run != [] && IsCleanRun(plans, digest, run) && run[0] == Start(from) && k < |plans|
    requires run[|run| - 1].i == k && run[|run| - 1].phase.Begin?
    requires CleanBefore(digest, Outcome(from, 0), plans, k)
    ensures EntryStrays(plans[k], run[|run| - 1].fs) <==>
            EntryStrays(plans[k], ApplyPlans(digest, Outcome(from, 0), plans[..k]).dir)
    ensures EntryStrays(plans[k], run[|run| - 1].fs) ==> RunsAstray(digest, Outcome(from, 0), plans)
    ensures !EntryStrays(plans[k], run[|run| - 1].fs) ==> CleanBefore(digest, Outcome(from, 0), plans, k + 1)
  {
    RunMatches(plans, digest, run, from, |run| - 1);
  }

  /** Entries whose deltas never go astray make every run clean. */
  lemma RunIsClean(plans: seq<Plan>, digest: Digest, run: seq<Moment>)
    requires IsRun(plans, digest, run) && DeltasStay(plans)
    ensures IsCleanRun(plans, digest, run)
  {
  }

  /** No delta of the plans goes astray on any file. */
  ghost predicate DeltasStay(plans: seq<Plan>) {
    forall k :: 0 <= k < |plans| && plans[k].Stage? && plans[k].content.FromDelta? ==>
                     NeverAstray(plans[k].content.delta)
  }
}
