/** The entries of a created patch: how they read back, their sizes, and what each of them does
    (libpaf_core.c, libpaf_patch.c). */
module PatchEntries {
  import opened Bytes
  import opened Seqs
  import opened Hashing
  import opened ArchiveFormat
  import opened ArchiveReader
  import opened Directory
  import opened DeltaIndex
  import opened StagedApply
  import opened StagedEffects
  import opened AtomicApply
  import opened PatchBuild
  import DeltaApply
  import BinaryDelta
  import BlockDiff

  // ---- The plans of a created patch ----

  /** A path the applier accepts: safe, and it fits the target's path buffer. */
  predicate Allowed(dstLen: nat, p: Path) {
    SafePath(p) && !TooLong(dstLen, p)
  }

  /** What the applier makes of a member that was written whole. */
  function ItemPlan(dstLen: nat, it: Item): Plan {
    if !Allowed(dstLen, it.path) then Skip
    else if it.flags == PAF_ENTRY_DELETED then Delete(it.path)
    else if it.flags == PAF_ENTRY_BINARY_DELTA then Stage(it.path, FromDelta(it.stored), it.digest)
    else Stage(it.path, FromData(it.stored, true), it.digest)
  }

  function PlanOfItem(dstLen: nat): Item -> Plan {
    (it: Item) => ItemPlan(dstLen, it)
  }

  ghost predicate Readable(it: Item) {
    && |it.path| < PATH_BUFFER && 0 !in it.path && it.size == |it.stored|
    && it.flags in {0, PAF_ENTRY_DELETED, PAF_ENTRY_BINARY_DELTA}
  }

  lemma FlagTests(flags: nat)
    requires flags in {0, PAF_ENTRY_DELETED, PAF_ENTRY_BINARY_DELTA}
    ensures HasFlag(flags, PAF_ENTRY_DELETED) <==> flags == PAF_ENTRY_DELETED
    ensures HasFlag(flags, PAF_ENTRY_BINARY_DELTA) <==> flags == PAF_ENTRY_BINARY_DELTA
  {
  }

  lemma {:induction false} ItemPlanAt(f: seq<byte>, h: Header, items: seq<Item>, k: nat, dstLen: nat)
    requires IsArchive(f, h, items) && k < |items| && Readable(items[k]) && Allowed(dstLen, items[k].path)
    ensures PlanAt(f, Entries(items)[k], items[k].path) == ItemPlan(dstLen, items[k])
  {
    ArchiveMember(f, h, items, k);
    FlagTests(items[k].flags);
  }

  lemma {:induction false} ItemReadsBack(f: seq<byte>, h: Header, items: seq<Item>, k: nat, dstLen: nat)
    requires IsArchive(f, h, items) && k < |items| && Readable(items[k])
    ensures PlanOf(f, h, Entries(items)[k], dstLen) == ItemPlan(dstLen, items[k])
  {
    if items[k].path == [] {
      ArchiveMember(f, h, items, k);
    } else {
      MemberPathRead(f, h, items, k);
      if Allowed(dstLen, items[k].path) {
        ItemPlanAt(f, h, items, k, dstLen);
      }
    }
  }

  lemma {:induction false} PlansOfArchive(f: seq<byte>, h: Header, items: seq<Item>, dstLen: nat)
    requires IsArchive(f, h, items) && forall k :: 0 <= k < |items| ==> Readable(items[k])
    ensures Plans(f, h, Entries(items), dstLen) == Mapped(PlanOfItem(dstLen), items)
  {
    forall k | 0 <= k < |items| ensures PlanOf(f, h, Entries(items)[k], dstLen) == ItemPlan(dstLen, items[k]) {
      ItemReadsBack(f, h, items, k, dstLen);
    }
  }

  lemma PlansOfLayout(items: seq<Item>, dstLen: nat)
    requires Storable(items) && forall k :: 0 <= k < |items| ==> Readable(items[k])
    ensures PatchPlans(Layout(items, 0), dstLen) == Some(Mapped(PlanOfItem(dstLen), items))
  {
    LayoutIsArchive(items, 0);
    PlansOfArchive(Layout(items, 0), LayoutHeader(items, 0), items, dstLen);
  }

  // ---- The changes of a patch, in terms of the two directories ----

  ghost predicate ChangeOk(digest: Digest, was: Dir, now: Dir, c: Change) {
    match c
    case Deleted(p) => p in was && p !in now
    case Added(p, _, _, d) => p in now && p !in was && d == digest(now[p])
    case Updated(p, _, _, d) => p in now && p in was && d == digest(now[p]) && d != digest(was[p])
  }

  /** Every path whose presence or digest differs has one change, and every change is right about its path. */
  ghost predicate Explains(digest: Digest, was: Dir, now: Dir, changes: seq<Change>) {
    && DistinctChanges(changes)
    && (forall c :: c in changes ==> ChangeOk(digest, was, now, c))
    && (forall p :: p !in DeltaApply.ChangedPaths(changes) ==>
                      (p in was <==> p in now) && (p in now && p in was ==> digest(was[p]) == digest(now[p])))
  }

  lemma DeltaExplains(step: Compression, was: Dir, wasOrder: seq<Path>, now: Dir, changes: seq<Change>)
    requires IsDelta(step, was, wasOrder, now, changes)
    ensures Explains(DigestOf(step), was, now, changes)
  {
    var digest := DigestOf(step);
    var wasList, nowList :| DeltaApply.Describes(wasList, was, digest) && DeltaApply.Describes(nowList, now, digest) &&
      Follows(wasList, wasOrder) && ExactDelta(changes, wasList, nowList) && OldFirst(changes, wasList, nowList);
    ListsExplain(digest, was, now, wasList, nowList, changes);
  }

  lemma HashesListed(digest: Digest, dir: Dir, l: seq<Listed>, p: Path)
    requires DeltaApply.Describes(l, dir, digest)
    ensures p in dir <==> p in PathSet(l)
    ensures p in dir ==> EntryOf(l, p).hash == digest(dir[p])
  {
  }

  lemma UnlistedSame(digest: Digest, was: Dir, now: Dir, wasList: seq<Listed>, nowList: seq<Listed>,
                     changes: seq<Change>, p: Path)
    requires DeltaApply.Describes(wasList, was, digest) && DeltaApply.Describes(nowList, now, digest)
    requires ExactDelta(changes, wasList, nowList) && p !in DeltaApply.ChangedPaths(changes)
    ensures (p in was <==> p in now) && (p in now && p in was ==> digest(was[p]) == digest(now[p]))
  {
    HashesListed(digest, was, wasList, p);
    HashesListed(digest, now, nowList, p);
    ExpectedIsListed(changes, wasList, nowList, p);
  }

  lemma ListedOk(digest: Digest, was: Dir, now: Dir, wasList: seq<Listed>, nowList: seq<Listed>, changes: seq<Change>,
                 c: Change)
    requires DeltaApply.Describes(wasList, was, digest) && DeltaApply.Describes(nowList, now, digest)
    requires ExactDelta(changes, wasList, nowList) && c in changes
    ensures ChangeOk(digest, was, now, c)
  {
    HashesListed(digest, was, wasList, c.path);
    HashesListed(digest, now, nowList, c.path);
  }

  lemma ListsExplain(digest: Digest, was: Dir, now: Dir, wasList: seq<Listed>, nowList: seq<Listed>,
                     changes: seq<Change>)
    requires DeltaApply.Describes(wasList, was, digest) && DeltaApply.Describes(nowList, now, digest)
    requires ExactDelta(changes, wasList, nowList)
    ensures Explains(digest, was, now, changes)
  {
    forall c | c in changes ensures ChangeOk(digest, was, now, c) {
      ListedOk(digest, was, now, wasList, nowList, changes, c);
    }
    forall p | p !in DeltaApply.ChangedPaths(changes)
      ensures (p in was <==> p in now) && (p in now && p in was ==> digest(was[p]) == digest(now[p]))
    {
      UnlistedSame(digest, was, now, wasList, nowList, changes, p);
    }
  }

  // ---- The sizes of a patch ----

  ghost function KeptPaths(changes: seq<Change>): set<Path> {
    set c | c in changes && !c.Deleted? :: c.path
  }

  /** The most bytes one member stores. */
  const MEMBER_LIMIT: nat := 2 * U32_LIMIT + 29

  ghost predicate SmallFiles(dir: Dir) {
    forall p :: p in dir ==> |dir[p]| < U32_LIMIT
  }

  lemma MemberWithin(hash: BlockDiff.BlockHash, was: Dir, now: Dir, c: Change)
    requires SmallFiles(was) && SmallFiles(now)
    ensures |PatchItem(hash, was, now, c).stored| <= if c.Deleted? then 0 else MEMBER_LIMIT
  {
    if c.Updated? {
      BlockDiff.DeltaWithin(Contents(was, c.path), Contents(now, c.path), hash);
    }
  }

  lemma {:induction false} ChangesSize(changes: seq<Change>)
    requires DistinctChanges(changes)
    ensures |DeltaApply.ChangedPaths(changes)| == |changes|
  {
    if changes != [] {
      var n := |changes| - 1;
      ChangesSize(changes[..n]);
      assert changes == changes[..n] + [changes[n]];
      DeltaApply.OneMorePath(changes[..n], changes[n]);
    }
  }

  lemma KeptOneMore(changes: seq<Change>, c: Change)
    requires DistinctChanges(changes + [c])
    ensures |KeptPaths(changes + [c])| == |KeptPaths(changes)| + if c.Deleted? then 0 else 1
  {
    assert (changes + [c])[|changes|] == c;
    forall k | 0 <= k < |changes| ensures changes[k].path != c.path {
      assert (changes + [c])[k] == changes[k];
    }
    assert c.path !in KeptPaths(changes);
    assert KeptPaths(changes + [c]) == KeptPaths(changes) + (if c.Deleted? then {} else {c.path});
  }

  lemma PatchDataOneMore(hash: BlockDiff.BlockHash, was: Dir, now: Dir, changes: seq<Change>, c: Change)
    ensures |Data(PatchItems(hash, was, now, changes + [c]))|
         == |Data(PatchItems(hash, was, now, changes))| + |PatchItem(hash, was, now, c).stored|
  {
    MappedOneMore(PatchMember(hash, was, now), changes, c);
    Append(PatchItems(hash, was, now, changes), PatchItem(hash, was, now, c));
  }

  lemma OneMoreWithin(limit: nat, total: nat, count: nat, size: nat, one: nat)
    requires total <= limit * count && one <= 1 && size <= if one == 0 then 0 else limit
    ensures total + size <= limit * (count + one)
  {
  }

  lemma {:induction false} PatchDataWithin(hash: BlockDiff.BlockHash, was: Dir, now: Dir, changes: seq<Change>)
    requires SmallFiles(was) && SmallFiles(now) && DistinctChanges(changes)
    ensures |Data(PatchItems(hash, was, now, changes))| <= MEMBER_LIMIT * |KeptPaths(changes)|
  {
    if changes != [] {
      var n := |changes| - 1;
      var front, c := changes[..n], changes[n];
      assert changes == front + [c];
      PatchDataWithin(hash, was, now, front);
      MemberWithin(hash, was, now, c);
      PatchDataOneMore(hash, was, now, front, c);
      KeptOneMore(front, c);
      OneMoreWithin(MEMBER_LIMIT, |Data(PatchItems(hash, was, now, front))|, |KeptPaths(front)|,
                    |PatchItem(hash, was, now, c).stored|, if c.Deleted? then 0 else 1);
    }
  }

  lemma {:induction false} OrderSize(order: seq<Path>, paths: set<Path>)
    requires forall p :: p in paths ==> p in order
    ensures |paths| <= |order|
  {
    if order != [] {
      var n := |order| - 1;
      assert order == order[..n] + [order[n]];
      OrderSize(order[..n], paths - {order[n]});
    }
  }

  // ---- The patch of two directories ----

  lemma ChangedWithin(digest: Digest, was: Dir, now: Dir, wasOrder: seq<Path>, nowOrder: seq<Path>,
                      changes: seq<Change>)
    requires Walk(wasOrder, was) && Walk(nowOrder, now) && Explains(digest, was, now, changes)
    ensures |changes| <= |wasOrder| + |nowOrder| && |KeptPaths(changes)| <= |nowOrder|
  {
    ChangesSize(changes);
    forall p | p in DeltaApply.ChangedPaths(changes) ensures p in wasOrder + nowOrder {
      var c :| c in changes && c.path == p;
      assert ChangeOk(digest, was, now, c);
    }
    OrderSize(wasOrder + nowOrder, DeltaApply.ChangedPaths(changes));
    forall p | p in KeptPaths(changes) ensures p in nowOrder {
      var c :| c in changes && !c.Deleted? && c.path == p;
      assert ChangeOk(digest, was, now, c);
    }
    OrderSize(nowOrder, KeptPaths(changes));
  }

  /** A change's member fits the archive fields and reads back. */
  lemma MemberReadable(step: Compression, hash: BlockDiff.BlockHash, was: Dir, now: Dir, wasOrder: seq<Path>,
                       nowOrder: seq<Path>, c: Change)
    requires Walk(wasOrder, was) && Walk(nowOrder, now) && ChangeOk(DigestOf(step), was, now, c)
    ensures var it := PatchItem(hash, was, now, c);
            && it.path == c.path && Readable(it)
            && |it.path| < 1024 && it.flags < U32_LIMIT && it.size < U64_LIMIT && |it.digest| == 32
  {
    MemberWithin(hash, was, now, c);
  }

  lemma ScaledWithin(a: nat, limit: nat, b: nat, most: nat)
    requires a <= limit * b && b <= most
    ensures a <= limit * most
  {
    assert limit * most == limit * b + limit * (most - b);
  }

  lemma PatchStorable(step: Compression, hash: BlockDiff.BlockHash, was: Dir, now: Dir, wasOrder: seq<Path>,
                      nowOrder: seq<Path>, changes: seq<Change>)
    requires Walk(wasOrder, was) && Walk(nowOrder, now) && Explains(DigestOf(step), was, now, changes)
    ensures var items := PatchItems(hash, was, now, changes);
            Storable(items) && forall k :: 0 <= k < |items| ==> Readable(items[k])
  {
    var items := PatchItems(hash, was, now, changes);
    forall k | 0 <= k < |items|
      ensures Readable(items[k])
      ensures |items[k].path| < 1024 && items[k].flags < U32_LIMIT && items[k].size < U64_LIMIT
      ensures |items[k].digest| == 32
    {
      assert changes[k] in changes;
      MemberReadable(step, hash, was, now, wasOrder, nowOrder, changes[k]);
    }
    ChangedWithin(DigestOf(step), was, now, wasOrder, nowOrder, changes);
    PathsSize(items);
    PatchDataWithin(hash, was, now, changes);
    ScaledWithin(|Data(items)|, MEMBER_LIMIT, |KeptPaths(changes)|, 0x4000_0000);
  }

  function ChangePlan(dstLen: nat, hash: BlockDiff.BlockHash, was: Dir, now: Dir, c: Change): Plan {
    ItemPlan(dstLen, PatchItem(hash, was, now, c))
  }

  function PlanOfChange(dstLen: nat, hash: BlockDiff.BlockHash, was: Dir, now: Dir): Change -> Plan {
    (c: Change) => ChangePlan(dstLen, hash, was, now, c)
  }

  /** The plans a patch of two directories stands for; a change whose path is not accepted is skipped. */
  function PatchOf(dstLen: nat, hash: BlockDiff.BlockHash, was: Dir, now: Dir, changes: seq<Change>): (r: seq<Plan>)
    ensures |r| == |changes|
  {
    Mapped(PlanOfChange(dstLen, hash, was, now), changes)
  }

  lemma PatchReadsBack(step: Compression, hash: BlockDiff.BlockHash, was: Dir, now: Dir, dstLen: nat,
                       wasOrder: seq<Path>, nowOrder: seq<Path>, changes: seq<Change>)
    requires Walk(wasOrder, was) && Walk(nowOrder, now) && Explains(DigestOf(step), was, now, changes)
    ensures PatchPlans(Layout(PatchItems(hash, was, now, changes), 0), dstLen)
         == Some(PatchOf(dstLen, hash, was, now, changes))
  {
    PatchStorable(step, hash, was, now, wasOrder, nowOrder, changes);
    PlansOfLayout(PatchItems(hash, was, now, changes), dstLen);
    assert Mapped(PlanOfItem(dstLen), PatchItems(hash, was, now, changes)) == PatchOf(dstLen, hash, was, now, changes);
  }

  /** The change behind entry k of a patch. */
  lemma PlanAtChange(dstLen: nat, hash: BlockDiff.BlockHash, was: Dir, now: Dir, changes: seq<Change>, k: nat)
    requires k < |changes|
    ensures var plan, c := PatchOf(dstLen, hash, was, now, changes)[k], changes[k];
            && c in changes && plan == ChangePlan(dstLen, hash, was, now, c)
            && (plan.Skip? <==> !Allowed(dstLen, c.path))
            && (Allowed(dstLen, c.path) ==> plan.path == c.path && (plan.Delete? <==> c.Deleted?))
            && (Allowed(dstLen, c.path) && !c.Deleted? ==> plan.Stage? && plan.digest == c.hash)
  {
  }

  lemma PatchApart(dstLen: nat, hash: BlockDiff.BlockHash, was: Dir, now: Dir, changes: seq<Change>)
    requires DistinctChanges(changes)
    ensures Apart(PatchOf(dstLen, hash, was, now, changes))
  {
    forall k: nat | k < |changes|
      ensures var plan := PatchOf(dstLen, hash, was, now, changes)[k]; !plan.Skip? ==> plan.path == changes[k].path
    {
      PlanAtChange(dstLen, hash, was, now, changes, k);
    }
  }

  // ---- What each entry does, on the old directory and on a directory left by a crash ----

  /** The delta of an updated file turns the old contents into the new ones. */
  lemma DeltaProduces(hash: BlockDiff.BlockHash, was: seq<byte>, now: seq<byte>)
    requires |was| < U32_LIMIT && |now| < U32_LIMIT
    ensures Produced(FromDelta(BlockDiff.DeltaBytes(was, now, hash)), Some(was)) == BinaryDelta.Written(true, now)
    ensures BinaryDelta.NeverAstray(BlockDiff.DeltaBytes(was, now, hash))
  {
    BlockDiff.DeltaRoundTrip(was, now, hash, Some(was));
  }

  lemma DeltaStays(hash: BlockDiff.BlockHash, was: seq<byte>, now: seq<byte>)
    requires |was| < U32_LIMIT && |now| < U32_LIMIT
    ensures BinaryDelta.NeverAstray(BlockDiff.DeltaBytes(was, now, hash))
  {
    DeltaProduces(hash, was, now);
  }

  lemma EntryStays(dstLen: nat, hash: BlockDiff.BlockHash, was: Dir, now: Dir, c: Change)
    requires SmallFiles(was) && SmallFiles(now)
    ensures var plan := ChangePlan(dstLen, hash, was, now, c);
            plan.Stage? && plan.content.FromDelta? ==> BinaryDelta.NeverAstray(plan.content.delta)
  {
    if c.Updated? {
      DeltaStays(hash, Contents(was, c.path), Contents(now, c.path));
    }
  }

  /** An accepted entry succeeds on the old contents of its path and leaves the new ones. */
  lemma ChangeEffect(digest: Digest, dstLen: nat, hash: BlockDiff.BlockHash, was: Dir, now: Dir, c: Change)
    requires ChangeOk(digest, was, now, c) && SmallFiles(was) && SmallFiles(now) && Allowed(dstLen, c.path)
    ensures var plan := ChangePlan(dstLen, hash, was, now, c);
            && Succeeds(digest, Lookup(was, c.path), plan)
            && AfterPlan(digest, Lookup(was, c.path), plan) == Lookup(now, c.path)
  {
    if c.Updated? {
      DeltaProduces(hash, was[c.path], now[c.path]);
    }
  }

  /** The old contents are not needed to write the new ones: there are none to copy from, or the file is too large for
      a delta. */
  predicate Rewritten(was: Dir, p: Path) {
    Contents(was, p) == [] || |Contents(was, p)| > DELTA_LIMIT
  }

  /** What an accepted entry does to a path where nothing is left: an addition, and an update that does not need the
      old contents, write the new ones; any other entry fails. */
  lemma ChangeOnNothing(digest: Digest, dstLen: nat, hash: BlockDiff.BlockHash, was: Dir, now: Dir, c: Change)
    requires ChangeOk(digest, was, now, c) && SmallFiles(was) && SmallFiles(now) && Allowed(dstLen, c.path)
    ensures var plan := ChangePlan(dstLen, hash, was, now, c);
            var writes := c.Added? || (c.Updated? && Rewritten(was, c.path));
            && (Succeeds(digest, None, plan) <==> writes)
            && AfterPlan(digest, None, plan) == if writes then Lookup(now, c.path) else None
  {
    if c.Updated? && |was[c.path]| <= DELTA_LIMIT {
      if was[c.path] == [] {
        BlockDiff.DeltaRoundTrip(was[c.path], now[c.path], hash, None);
      } else {
        BlockDiff.DeltaNeedsOld(was[c.path], now[c.path], hash);
      }
    }
  }

  /** What a path may hold after interrupted applications: the old contents, contents with the new digest,
      or nothing if the path is to be deleted. */
  ghost predicate Underway(digest: Digest, was: Dir, now: Dir, p: Path, x: Option<seq<byte>>) {
    || x == Lookup(was, p)
    || (x.Some? && p in now && digest(x.value) == digest(now[p]))
    || (x.None? && p !in now)
  }

  /** What a path must hold in the end. */
  ghost predicate Arrived(digest: Digest, now: Dir, p: Path, x: Option<seq<byte>>) {
    if p in now then x.Some? && digest(x.value) == digest(now[p]) else x.None?
  }

  lemma ChangeRecovers(digest: Digest, dstLen: nat, hash: BlockDiff.BlockHash, was: Dir, now: Dir, c: Change,
                       x: Option<seq<byte>>)
    requires ChangeOk(digest, was, now, c) && SmallFiles(was) && SmallFiles(now) && Allowed(dstLen, c.path)
    requires Underway(digest, was, now, c.path, x)
    ensures Arrived(digest, now, c.path, AfterPlan(digest, x, ChangePlan(dstLen, hash, was, now, c)))
  {
    if x == Lookup(was, c.path) {
      ChangeEffect(digest, dstLen, hash, was, now, c);
    }
  }
}
