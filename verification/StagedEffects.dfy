/** What applying any entries leaves, path by path, which of them fail and which go astray (libpaf_patch.c). */
module StagedEffects {
  import opened Bytes
  import opened ArchiveFormat
  import opened Directory
  import opened StagedApply

  // ---- One path at a time ----

  ghost predicate Succeeds(digest: Digest, was: Option<seq<byte>>, plan: Plan) {
    match plan
    case Skip => false
    case Delete(_) => was.Some?
    case Stage(_, c, d) => var made := Produced(c, was); made.Written? && made.ok && digest(made.out) == d
  }

  /** What an entry leaves at its own path. */
  ghost function AfterPlan(digest: Digest, was: Option<seq<byte>>, plan: Plan): Option<seq<byte>> {
    if !Succeeds(digest, was, plan) then was
    else if plan.Delete? then None
    else Some(Produced(plan.content, was).out)
  }

  predicate Owns(plan: Plan, p: Path) {
    !plan.Skip? && plan.path == p
  }

  /** The entry uses p as its stage file. */
  predicate Stages(plan: Plan, p: Path) {
    plan.Stage? && StagePath(plan.path) == p
  }

  /** What an entry makes of the contents v of path p: a stage file is gone when the entry is done. */
  ghost function Touched(digest: Digest, v: Option<seq<byte>>, plan: Plan, p: Path): Option<seq<byte>> {
    if Owns(plan, p) then AfterPlan(digest, v, plan) else if Stages(plan, p) then None else v
  }

  /** What the entries make of the contents v of path p. No other path has a part in it. */
  ghost function PathAfter(digest: Digest, v: Option<seq<byte>>, plans: seq<Plan>, p: Path): Option<seq<byte>> {
    if plans == [] then v else Touched(digest, PathAfter(digest, v, plans[..|plans| - 1], p), plans[|plans| - 1], p)
  }

  /** One entry acts on each path by itself, and it fails exactly when it does not succeed on its own path. */
  lemma EntryLocal(digest: Digest, o: Outcome, plan: Plan, p: Path)
    ensures Lookup(ApplyEntry(digest, o, plan).dir, p) == Touched(digest, Lookup(o.dir, p), plan, p)
    ensures !plan.Skip? ==>
              ApplyEntry(digest, o, plan).errors
              == o.errors + if Succeeds(digest, Lookup(o.dir, plan.path), plan) then 0 else 1
  {
  }

  /** Whatever the entries, equal paths and stage names included: each path ends as the entries make it by itself. */
  lemma {:induction false} PlansLeave(digest: Digest, o: Outcome, plans: seq<Plan>, p: Path)
    ensures Lookup(ApplyPlans(digest, o, plans).dir, p) == PathAfter(digest, Lookup(o.dir, p), plans, p)
  {
    if plans != [] {
      var n := |plans| - 1;
      PlansLeave(digest, o, plans[..n], p);
      EntryLocal(digest, ApplyPlans(digest, o, plans[..n]), plans[n], p);
    }
  }

  /** What entry k finds at its path. */
  ghost function Found(digest: Digest, dir: Dir, plans: seq<Plan>, k: nat): Option<seq<byte>>
    requires k < |plans|
  {
    if plans[k].Skip? then None else PathAfter(digest, Lookup(dir, plans[k].path), plans[..k], plans[k].path)
  }

  lemma {:induction false} FoundIs(digest: Digest, o: Outcome, plans: seq<Plan>, k: nat)
    requires k < |plans| && !plans[k].Skip?
    ensures Lookup(ApplyPlans(digest, o, plans[..k]).dir, plans[k].path) == Found(digest, o.dir, plans, k)
  {
    PlansLeave(digest, o, plans[..k], plans[k].path);
  }

  // ---- Errors ----

  ghost predicate FailsAt(digest: Digest, dir: Dir, plans: seq<Plan>, k: nat) {
    k < |plans| && !Succeeds(digest, Found(digest, dir, plans, k), plans[k])
  }

  /** The entries that fail when the application starts from dir. */
  ghost function Failing(digest: Digest, dir: Dir, plans: seq<Plan>): set<nat> {
    set k: nat | k < |plans| && FailsAt(digest, dir, plans, k)
  }

  lemma FailsInFront(digest: Digest, dir: Dir, plans: seq<Plan>, n: nat, k: nat)
    requires k < n <= |plans|
    ensures FailsAt(digest, dir, plans[..n], k) <==> FailsAt(digest, dir, plans, k)
  {
    assert plans[..n][..k] == plans[..k];
  }

  lemma OneMoreFailing(digest: Digest, dir: Dir, plans: seq<Plan>, n: nat)
    requires n < |plans|
    ensures |Failing(digest, dir, plans[..n + 1])|
         == |Failing(digest, dir, plans[..n])| + if FailsAt(digest, dir, plans, n) then 1 else 0
  {
    var before, after := Failing(digest, dir, plans[..n]), Failing(digest, dir, plans[..n + 1]);
    forall k: nat | k < n ensures k in after <==> k in before {
      FailsInFront(digest, dir, plans, n, k);
      FailsInFront(digest, dir, plans, n + 1, k);
    }
    FailsInFront(digest, dir, plans, n + 1, n);
    assert after == if FailsAt(digest, dir, plans, n) then before + {n} else before;
  }

  /** The errors are the entries that do not succeed on what they find. */
  lemma {:induction false} ErrorsUpTo(digest: Digest, o: Outcome, plans: seq<Plan>, n: nat)
    requires n <= |plans|
    ensures ApplyPlans(digest, o, plans[..n]).errors == o.errors + |Failing(digest, o.dir, plans[..n])|
  {
    if n == 0 {
      assert Failing(digest, o.dir, plans[..0]) == {};
    } else {
      var m := n - 1;
      ErrorsUpTo(digest, o, plans, m);
      OneMoreFailing(digest, o.dir, plans, m);
      assert plans[..n][..m] == plans[..m];
      if !plans[m].Skip? {
        FoundIs(digest, o, plans, m);
        EntryLocal(digest, ApplyPlans(digest, o, plans[..m]), plans[m], plans[m].path);
      }
    }
  }

  lemma {:induction false} ErrorsCounted(digest: Digest, o: Outcome, plans: seq<Plan>)
    ensures ApplyPlans(digest, o, plans).errors == o.errors + |Failing(digest, o.dir, plans)|
  {
    ErrorsUpTo(digest, o, plans, |plans|);
    assert plans[..|plans|] == plans;
  }

  lemma {:induction false} NoErrorsIff(digest: Digest, o: Outcome, plans: seq<Plan>)
    ensures ApplyPlans(digest, o, plans).errors == o.errors <==>
            forall k: nat :: k < |plans| ==> !FailsAt(digest, o.dir, plans, k)
  {
    ErrorsCounted(digest, o, plans);
    var failing := Failing(digest, o.dir, plans);
    if k: nat :| k < |plans| && FailsAt(digest, o.dir, plans, k) {
      assert k in failing;
    }
    if forall k: nat :: k < |plans| ==> !FailsAt(digest, o.dir, plans, k) {
      assert failing == {};
    }
  }

  /** The application goes astray if and only if the delta of some entry does on what the entry finds at its path. */
  lemma {:induction false} AstrayIff(digest: Digest, o: Outcome, plans: seq<Plan>)
    ensures RunsAstray(digest, o, plans) <==>
            exists k: nat :: k < |plans| && plans[k].Stage? && Astray(plans[k].content, Found(digest, o.dir, plans, k))
  {
    forall k: nat | k < |plans| && plans[k].Stage?
      ensures EntryStrays(plans[k], ApplyPlans(digest, o, plans[..k]).dir) <==>
              Astray(plans[k].content, Found(digest, o.dir, plans, k))
    {
      FoundIs(digest, o, plans, k);
    }
  }

  // ---- Paths that few entries touch ----

  predicate Touches(plan: Plan, p: Path) {
    Owns(plan, p) || Stages(plan, p)
  }

  ghost predicate Quiet(plans: seq<Plan>, p: Path, i: nat, j: nat) {
    i <= j <= |plans| && forall m :: i <= m < j ==> !Touches(plans[m], p)
  }

  lemma {:induction false} QuietKeeps(digest: Digest, v: Option<seq<byte>>, plans: seq<Plan>, p: Path, i: nat, j: nat)
    requires Quiet(plans, p, i, j)
    ensures PathAfter(digest, v, plans[..j], p) == PathAfter(digest, v, plans[..i], p)
    decreases j
  {
    if i < j {
      QuietKeeps(digest, v, plans, p, i, j - 1);
      PathStep(digest, v, plans, p, j - 1);
    }
  }

  lemma {:induction false} PathStep(digest: Digest, v: Option<seq<byte>>, plans: seq<Plan>, p: Path, i: nat)
    requires i < |plans|
    ensures PathAfter(digest, v, plans[..i + 1], p) == Touched(digest, PathAfter(digest, v, plans[..i], p), plans[i], p)
  {
    assert plans[..i + 1][..i] == plans[..i];
  }

  lemma {:induction false} NoTouch(digest: Digest, v: Option<seq<byte>>, plans: seq<Plan>, p: Path)
    requires Quiet(plans, p, 0, |plans|)
    ensures PathAfter(digest, v, plans, p) == v
  {
    QuietKeeps(digest, v, plans, p, 0, |plans|);
    assert plans[..|plans|] == plans && plans[..0] == [];
  }

  lemma {:induction false} OneTouch(digest: Digest, v: Option<seq<byte>>, plans: seq<Plan>, p: Path, i: nat)
    requires i < |plans| && Quiet(plans, p, 0, i) && Quiet(plans, p, i + 1, |plans|)
    ensures PathAfter(digest, v, plans[..i], p) == v
    ensures PathAfter(digest, v, plans, p) == Touched(digest, v, plans[i], p)
  {
    QuietKeeps(digest, v, plans, p, 0, i);
    PathStep(digest, v, plans, p, i);
    QuietKeeps(digest, v, plans, p, i + 1, |plans|);
    assert plans[..|plans|] == plans && plans[..0] == [];
  }

  lemma {:induction false} TwoTouches(digest: Digest, v: Option<seq<byte>>, plans: seq<Plan>, p: Path, i: nat, j: nat)
    requires i < j < |plans| && Quiet(plans, p, 0, i) && Quiet(plans, p, i + 1, j) && Quiet(plans, p, j + 1, |plans|)
    ensures PathAfter(digest, v, plans[..i], p) == v
    ensures PathAfter(digest, v, plans[..j], p) == Touched(digest, v, plans[i], p)
    ensures PathAfter(digest, v, plans, p) == Touched(digest, Touched(digest, v, plans[i], p), plans[j], p)
  {
    QuietKeeps(digest, v, plans, p, 0, i);
    PathStep(digest, v, plans, p, i);
    QuietKeeps(digest, v, plans, p, i + 1, j);
    PathStep(digest, v, plans, p, j);
    QuietKeeps(digest, v, plans, p, j + 1, |plans|);
    assert plans[..|plans|] == plans && plans[..0] == [];
  }

  /** No two entries have the same path. */
  ghost predicate Apart(plans: seq<Plan>) {
    forall j, k :: 0 <= j < k < |plans| && !plans[j].Skip? && !plans[k].Skip? ==> plans[j].path != plans[k].path
  }

  ghost predicate OwnedAt(plans: seq<Plan>, p: Path, j: nat) {
    j < |plans| && Owns(plans[j], p)
  }

  ghost predicate StagedAt(plans: seq<Plan>, p: Path, k: nat) {
    k < |plans| && Stages(plans[k], p)
  }

  lemma SameStage(p: Path, q: Path)
    requires StagePath(p) == StagePath(q)
    ensures p == q
  {
    assert StagePath(p)[..|p|] == p && StagePath(q)[..|q|] == q;
    assert |StagePath(p)| == |p| + |STAGE_SUFFIX| && |StagePath(q)| == |q| + |STAGE_SUFFIX|;
  }

  lemma OneOwner(plans: seq<Plan>, p: Path, i: nat, j: nat)
    requires Apart(plans)
    ensures OwnedAt(plans, p, i) && OwnedAt(plans, p, j) ==> i == j
    ensures StagedAt(plans, p, i) && StagedAt(plans, p, j) ==> i == j
  {
    if StagedAt(plans, p, i) && StagedAt(plans, p, j) {
      SameStage(plans[i].path, plans[j].path);
    }
  }

  /** A path with no entry of its own that no entry uses as its stage file. */
  lemma {:induction false} Untouched(digest: Digest, v: Option<seq<byte>>, plans: seq<Plan>, p: Path)
    requires forall m: nat :: !OwnedAt(plans, p, m) && !StagedAt(plans, p, m)
    ensures PathAfter(digest, v, plans, p) == v
  {
    forall m: nat | m < |plans| ensures !Touches(plans[m], p) {
      assert !OwnedAt(plans, p, m) && !StagedAt(plans, p, m);
    }
    NoTouch(digest, v, plans, p);
  }

  /** A path with an entry of its own that no other entry uses. */
  lemma {:induction false} OwnedOnly(digest: Digest, v: Option<seq<byte>>, plans: seq<Plan>, p: Path, j: nat)
    requires Apart(plans) && OwnedAt(plans, p, j) && forall m: nat :: !StagedAt(plans, p, m)
    ensures PathAfter(digest, v, plans[..j], p) == v && PathAfter(digest, v, plans, p) == AfterPlan(digest, v, plans[j])
  {
    forall m: nat | m < |plans| && m != j ensures !Touches(plans[m], p) {
      OneOwner(plans, p, m, j);
      assert !StagedAt(plans, p, m);
    }
    OneTouch(digest, v, plans, p, j);
  }

  /** A path without an entry of its own that is the stage file of another is gone in the end. */
  lemma {:induction false} StagedOnly(digest: Digest, v: Option<seq<byte>>, plans: seq<Plan>, p: Path, k: nat)
    requires Apart(plans) && StagedAt(plans, p, k) && forall m: nat :: !OwnedAt(plans, p, m)
    ensures PathAfter(digest, v, plans, p) == None
  {
    forall m: nat | m < |plans| && m != k ensures !Touches(plans[m], p) {
      OneOwner(plans, p, m, k);
      assert !OwnedAt(plans, p, m);
    }
    assert !OwnedAt(plans, p, k);
    OneTouch(digest, v, plans, p, k);
  }

  /** A path with an entry of its own that another entry uses as its stage file: what counts is which comes first. */
  lemma {:induction false} OwnedAndStaged(digest: Digest, v: Option<seq<byte>>, plans: seq<Plan>, p: Path, j: nat,
                                          k: nat)
    requires Apart(plans) && OwnedAt(plans, p, j) && StagedAt(plans, p, k)
    ensures j != k
    ensures j < k ==> PathAfter(digest, v, plans[..j], p) == v && PathAfter(digest, v, plans, p) == None
    ensures k < j ==> PathAfter(digest, v, plans[..j], p) == None &&
                      PathAfter(digest, v, plans, p) == AfterPlan(digest, None, plans[j])
  {
    forall m: nat | m < |plans| && m != j && m != k ensures !Touches(plans[m], p) {
      OneOwner(plans, p, m, j);
      OneOwner(plans, p, m, k);
    }
    if j < k {
      TwoTouches(digest, v, plans, p, j, k);
      assert !OwnedAt(plans, p, k) by { OneOwner(plans, p, j, k); }
    } else {
      TwoTouches(digest, v, plans, p, k, j);
      assert !OwnedAt(plans, p, k) by { OneOwner(plans, p, j, k); }
    }
  }
}
