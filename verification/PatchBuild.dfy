/** Building a patch from two directories (paf_create_patch in libpaf_core.c). */
module PatchBuild {
  import opened Bytes
  import opened Seqs
  import opened Hashing
  import opened ArchiveFormat
  import opened ArchiveReader
  import opened Generator
  import opened Directory
  import opened DeltaIndex
  import DeltaApply
  import BlockDiff

  /** Old files above this size are not diffed. */
  const DELTA_LIMIT: nat := 128 * 1024 * 1024

  function Contents(dir: Dir, p: Path): seq<byte> {
    if p in dir then dir[p] else []
  }

  // ---- The snapshot of a directory ----

  /** order lists the files of dir in the order a walk meets them; sizes and paths are within the limits of the
      writer. */
  ghost predicate Walk(order: seq<Path>, dir: Dir) {
    && |order| < 0x4000_0000
    && (forall i, j :: 0 <= i < j < |order| ==> order[i] != order[j])
    && (forall p :: p in order <==> p in dir)
    && (forall p :: p in dir ==> |p| < 1024 && 0 !in p && |dir[p]| < U32_LIMIT)
  }

  function FileAt(dir: Dir): Path -> File {
    (p: Path) => File(p, Contents(dir, p))
  }

  function SnapshotItems(step: Compression, order: seq<Path>, dir: Dir): seq<Item> {
    Mapped(MemberOf(step, true), Mapped(FileAt(dir), order))
  }

  function Snapshot(step: Compression, order: seq<Path>, dir: Dir): seq<byte> {
    Layout(SnapshotItems(step, order, dir), ArchiveFlags(true))
  }

  lemma {:induction false} PathsSize(items: seq<Item>)
    requires forall k :: 0 <= k < |items| ==> |items[k].path| < 1024
    ensures |Paths(items)| <= 1024 * |items|
  {
    if items != [] {
      PathsSize(items[..|items| - 1]);
    }
  }

  lemma {:induction false} NoData(items: seq<Item>)
    requires forall k :: 0 <= k < |items| ==> items[k].stored == []
    ensures Data(items) == []
  {
    if items != [] {
      NoData(items[..|items| - 1]);
    }
  }

  lemma SnapshotItem(step: Compression, order: seq<Path>, dir: Dir, k: nat)
    requires Walk(order, dir) && k < |order|
    ensures SnapshotItems(step, order, dir)[k] == Item(order[k], 0, [], |dir[order[k]]|, DigestOf(step)(dir[order[k]]))
  {
    assert order[k] in order;
  }

  lemma SnapshotStorable(step: Compression, order: seq<Path>, dir: Dir)
    requires Walk(order, dir)
    ensures Storable(SnapshotItems(step, order, dir)) && PathsFit(SnapshotItems(step, order, dir))
  {
    var items := SnapshotItems(step, order, dir);
    forall k | 0 <= k < |items|
      ensures items[k].stored == [] && |items[k].path| < 1024 && 0 !in items[k].path
      ensures items[k].flags == 0 && items[k].size < U64_LIMIT && |items[k].digest| == 32
    {
      SnapshotItem(step, order, dir, k);
      assert order[k] in order;
    }
    PathsSize(items);
    NoData(items);
  }

  /** The listing names the paths in this order. */
  ghost predicate Follows(l: seq<Listed>, order: seq<Path>) {
    |l| == |order| && forall k :: 0 <= k < |l| ==> l[k].path == order[k]
  }

  /** Listing the index-only snapshot gives each path in walk order, with the digest of its contents. */
  lemma SnapshotLists(step: Compression, order: seq<Path>, dir: Dir)
    requires Walk(order, dir)
    ensures Listing(Snapshot(step, order, dir)).Some?
    ensures var l := Listing(Snapshot(step, order, dir)).value;
            |l| == |order| && forall k :: 0 <= k < |l| ==> l[k].path == order[k]
                                                           && l[k].hash == DigestOf(step)(Contents(dir, order[k]))
  {
    var items := SnapshotItems(step, order, dir);
    SnapshotStorable(step, order, dir);
    LayoutIsArchive(items, ArchiveFlags(true));
    ListingOfArchive(Snapshot(step, order, dir), LayoutHeader(items, ArchiveFlags(true)), items);
    forall k | 0 <= k < |order|
      ensures items[k].path == order[k] && items[k].digest == DigestOf(step)(Contents(dir, order[k]))
    {
      SnapshotItem(step, order, dir, k);
      assert order[k] in order;
    }
  }

  /** The listing of the snapshot describes the directory. */
  lemma SnapshotDescribes(step: Compression, order: seq<Path>, dir: Dir)
    requires Walk(order, dir)
    ensures Listing(Snapshot(step, order, dir)).Some?
    ensures Follows(Listing(Snapshot(step, order, dir)).value, order)
    ensures DeltaApply.Describes(Listing(Snapshot(step, order, dir)).value, dir, DigestOf(step))
  {
    SnapshotLists(step, order, dir);
    var l := Listing(Snapshot(step, order, dir)).value;
    forall k | 0 <= k < |l| ensures l[k].path in dir && l[k].hash == DigestOf(step)(dir[l[k].path]) {
      assert order[k] in order;
    }
    SamePaths(l, order, dir);
  }

  lemma SamePaths(l: seq<Listed>, order: seq<Path>, dir: Dir)
    requires Follows(l, order) && Walk(order, dir)
    ensures DistinctPaths(l) && PathSet(l) == dir.Keys
  {
    forall p | p in dir ensures p in PathSet(l) {
      var k :| 0 <= k < |order| && order[k] == p;
      assert l[k] in l;
    }
  }

  /** Writes the snapshot of a directory and lists it back. */
  method Survey(step: Compression, order: seq<Path>, dir: Dir) returns (entries: seq<Listed>)
    requires Walk(order, dir)
    ensures Follows(entries, order) && DeltaApply.Describes(entries, dir, DigestOf(step))
  {
    var files := Mapped(FileAt(dir), order);
    assert forall i :: 0 <= i < |files| ==> files[i].path in order;
    var archive := ArchiveFiles(step, true, files);
    SnapshotDescribes(step, order, dir);
    var status;
    status, entries := List(archive);
  }

  // ---- Patch members ----

  /** The patch member of a change: nothing for a deletion, the new file, or a binary delta of a small old file. */
  function PatchItem(hash: BlockDiff.BlockHash, was: Dir, now: Dir, c: Change): Item {
    match c
    case Deleted(p) => Item(p, PAF_ENTRY_DELETED, [], 0, Zeros(32))
    case Added(p, _, _, digest) => WholeFile(p, Contents(now, p), digest)
    case Updated(p, _, _, digest) =>
      if |Contents(was, p)| <= DELTA_LIMIT then
        var delta := BlockDiff.DeltaBytes(Contents(was, p), Contents(now, p), hash);
        Item(p, PAF_ENTRY_BINARY_DELTA, delta, |delta|, digest)
      else WholeFile(p, Contents(now, p), digest)
  }

  function WholeFile(p: Path, data: seq<byte>, digest: seq<byte>): Item {
    Item(p, 0, data, |data|, digest)
  }

  function PatchMember(hash: BlockDiff.BlockHash, was: Dir, now: Dir): Change -> Item {
    (c: Change) => PatchItem(hash, was, now, c)
  }

  function PatchItems(hash: BlockDiff.BlockHash, was: Dir, now: Dir, changes: seq<Change>): seq<Item> {
    Mapped(PatchMember(hash, was, now), changes)
  }

  /** Appends one member to the patch's temporary files. */
  method WriteChange(hash: BlockDiff.BlockHash, was: Dir, now: Dir, c: Change, spool: Spool)
    requires spool.Valid() && !spool.indexOnly
    modifies spool
    ensures spool.Valid() && spool.items == old(spool.items) + [PatchItem(hash, was, now, c)]
    ensures var it := spool.items[|spool.items| - 1];
            && it.flags == (if c.Deleted? then 4
                            else if c.Updated? && |Contents(was, c.path)| <= 134217728 then 8 else 0)
            && (it.flags == 4 ==> it.stored == []) && (it.flags == 0 ==> it.stored == Contents(now, c.path))
  {
    match c {
      case Deleted(p) => spool.Put(p, PAF_ENTRY_DELETED, [], 0, Zeros(32));
      case Added(p, _, _, digest) => spool.Put(p, 0, Contents(now, p), |Contents(now, p)|, digest);
      case Updated(p, _, _, digest) =>
        if |Contents(was, p)| <= DELTA_LIMIT {
          BlockDiff.FewBlocks(Contents(was, p), hash);
          var delta := BlockDiff.Create(Contents(was, p), Contents(now, p), hash);
          spool.Put(p, PAF_ENTRY_BINARY_DELTA, delta, |delta|, digest);
        } else {
          spool.Put(p, 0, Contents(now, p), |Contents(now, p)|, digest);
        }
    }
  }

  /** A patch stores all its members announce. */
  lemma PatchArrives(hash: BlockDiff.BlockHash, was: Dir, now: Dir, changes: seq<Change>)
    ensures AllStoredWithin(false, PatchItems(hash, was, now, changes))
    ensures AllArrived(PatchItems(hash, was, now, changes))
  {
  }

  method WritePatch(hash: BlockDiff.BlockHash, was: Dir, now: Dir, changes: seq<Change>) returns (patch: seq<byte>)
    ensures patch == Layout(PatchItems(hash, was, now, changes), 0)
  {
    var spool := new Spool(false);
    for i := 0 to |changes|
      invariant spool.Valid() && !spool.indexOnly && fresh(spool)
      invariant spool.items == PatchItems(hash, was, now, changes[..i])
    {
      TakeOneMore(changes, i);
      MappedOneMore(PatchMember(hash, was, now), changes[..i], changes[i]);
      WriteChange(hash, was, now, changes[i], spool);
    }
    assert changes[..|changes|] == changes;
    patch := spool.Assemble();
    PatchArrives(hash, was, now, changes);
    WrittenAsLaidOut(false, PatchItems(hash, was, now, changes));
  }

  /** The changes a patch from was to now may consist of: those of the old paths in walk order, then the new paths in
      the order the hash map gives them. */
  ghost predicate IsDelta(step: Compression, was: Dir, wasOrder: seq<Path>, now: Dir, changes: seq<Change>) {
    exists wasList, nowList ::
      DeltaApply.Describes(wasList, was, DigestOf(step)) && DeltaApply.Describes(nowList, now, DigestOf(step)) &&
      Follows(wasList, wasOrder) && ExactDelta(changes, wasList, nowList) && OldFirst(changes, wasList, nowList)
  }

  /** patch is the file made of the members of these changes. */
  predicate IsFileOf(hash: BlockDiff.BlockHash, was: Dir, now: Dir, changes: seq<Change>, patch: seq<byte>) {
    patch == Layout(PatchItems(hash, was, now, changes), 0)
  }

  ghost predicate IsPatch(step: Compression, hash: BlockDiff.BlockHash, was: Dir, wasOrder: seq<Path>, now: Dir,
                          patch: seq<byte>) {
    exists changes :: IsDelta(step, was, wasOrder, now, changes) && IsFileOf(hash, was, now, changes, patch)
  }

  /** paf_create_patch. The directories do not change while it runs, so every file it names can be opened. */
  method CreatePatch(step: Compression, stringHash: StringHash, hash: BlockDiff.BlockHash, was: Dir,
                     wasOrder: seq<Path>, now: Dir, nowOrder: seq<Path>)
      returns (patch: seq<byte>)
    requires Walk(wasOrder, was) && Walk(nowOrder, now)
    ensures IsPatch(step, hash, was, wasOrder, now, patch)
  {
    var wasList := Survey(step, wasOrder, was);
    var nowList := Survey(step, nowOrder, now);
    var delta := Calculate(wasList, nowList, stringHash);
    patch := WritePatch(hash, was, now, delta);
    assert IsDelta(step, was, wasOrder, now, delta);
  }
}
