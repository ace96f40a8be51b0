/** The two direct appliers of a delta: from a directory and from an archive (libpaf_patch.c). */
module DeltaApply {
  import opened Bytes
  import opened ArchiveFormat
  import opened ArchiveReader
  import opened DeltaIndex
  import opened Directory

  /** Where the contents of a path come from: a status, and what is left in the output file. */
  type Source = Path -> Extraction

  /** copy_file_raw from a directory: nothing is opened for writing unless the source exists. */
  function FromDir(src: Dir, srcLen: nat): Source {
    (p: Path) => if TooLong(srcLen, p) || p !in src then Extraction(-1, None) else Extraction(0, Some(src[p]))
  }

  function FromArchive(archive: seq<byte>): Source {
    (p: Path) => Extracting(archive, p)
  }

  function Store(dir: Dir, p: Path, output: Option<seq<byte>>): Dir {
    if output.Some? then dir[p := output.value] else dir
  }

  function ApplyOne(dstLen: nat, source: Source, o: Outcome, c: Change): Outcome {
    if TooLong(dstLen, c.path) then Outcome(o.dir, o.errors + 1)
    else if c.Deleted? then
      if c.path in o.dir then Outcome(o.dir - {c.path}, o.errors) else Outcome(o.dir, o.errors + 1)
    else
      var x := source(c.path);
      Outcome(Store(o.dir, c.path, x.output), if x.status != 0 then o.errors + 1 else o.errors)
  }

  function ApplyAll(dstLen: nat, source: Source, o: Outcome, changes: seq<Change>): Outcome {
    if changes == [] then o
    else ApplyOne(dstLen, source, ApplyAll(dstLen, source, o, changes[..|changes| - 1]), changes[|changes| - 1])
  }

  /** paf_patch_apply_from_dir. */
  method ApplyFromDir(src: Dir, srcLen: nat, changes: seq<Change>, dst: Folder, dstLen: nat) returns (status: int)
    modifies dst
    ensures status <= 0
    ensures Outcome(dst.files, -status) == ApplyAll(dstLen, FromDir(src, srcLen), Outcome(old(dst.files), 0), changes)
  {
    var errors := 0;
    ghost var source, start := FromDir(src, srcLen), Outcome(dst.files, 0);
    for i := 0 to |changes|
      invariant errors >= 0 && Outcome(dst.files, errors) == ApplyAll(dstLen, source, start, changes[..i])
    {
      assert changes[..i + 1][..i] == changes[..i];
      var c := changes[i];
      if TooLong(dstLen, c.path) {
        errors := errors + 1;
      } else if c.Deleted? {
        if c.path in dst.files {
          dst.files := dst.files - {c.path};
        } else {
          errors := errors + 1;
        }
      } else if TooLong(srcLen, c.path) || c.path !in src {
        errors := errors + 1;
      } else {
        dst.files := dst.files[c.path := src[c.path]];
      }
    }
    assert changes[..|changes|] == changes;
    return if errors > 0 then -errors else 0;
  }

  /** paf_patch_apply. */
  method ApplyFromArchive(archive: seq<byte>, changes: seq<Change>, dst: Folder, dstLen: nat) returns (status: int)
    modifies dst
    ensures status <= 0
    ensures Outcome(dst.files, -status) == ApplyAll(dstLen, FromArchive(archive), Outcome(old(dst.files), 0), changes)
  {
    var errors := 0;
    ghost var source, start := FromArchive(archive), Outcome(dst.files, 0);
    for i := 0 to |changes|
      invariant errors >= 0 && Outcome(dst.files, errors) == ApplyAll(dstLen, source, start, changes[..i])
    {
      assert changes[..i + 1][..i] == changes[..i];
      var c := changes[i];
      if TooLong(dstLen, c.path) {
        errors := errors + 1;
      } else if c.Deleted? {
        if c.path in dst.files {
          dst.files := dst.files - {c.path};
        } else {
          errors := errors + 1;
        }
      } else {
        var extracted, output := ExtractFile(archive, c.path);
        dst.files := Store(dst.files, c.path, output);
        if extracted != 0 {
          errors := errors + 1;
        }
      }
    }
    assert changes[..|changes|] == changes;
    return if errors > 0 then -errors else 0;
  }

  // ---- What a run leaves, path by path ----

  /** The contents of a change's own path after it is applied where the path held was. */
  ghost function After(dstLen: nat, source: Source, was: Option<seq<byte>>, c: Change): Option<seq<byte>> {
    if TooLong(dstLen, c.path) then was
    else if c.Deleted? then None
    else if source(c.path).output.Some? then source(c.path).output else was
  }

  ghost predicate Fails(dstLen: nat, source: Source, was: Option<seq<byte>>, c: Change) {
    TooLong(dstLen, c.path) || (if c.Deleted? then was.None? else source(c.path).status != 0)
  }

  ghost function Failing(dstLen: nat, source: Source, dir: Dir, changes: seq<Change>): set<Change> {
    set c | c in changes && Fails(dstLen, source, Lookup(dir, c.path), c)
  }

  ghost function ChangedPaths(changes: seq<Change>): set<Path> {
    set c | c in changes :: c.path
  }

  /** One change touches its own path only. */
  lemma ApplyOneLocal(dstLen: nat, source: Source, o: Outcome, c: Change)
    ensures var r := ApplyOne(dstLen, source, o, c);
            && Lookup(r.dir, c.path) == After(dstLen, source, Lookup(o.dir, c.path), c)
            && (forall p :: p != c.path ==> Lookup(r.dir, p) == Lookup(o.dir, p))
            && r.errors == o.errors + if Fails(dstLen, source, Lookup(o.dir, c.path), c) then 1 else 0
  {
  }

  /** Every changed path ends as its own change leaves it, every other path stays, and the errors are the failing
      changes. */
  ghost predicate Resulting(dstLen: nat, source: Source, o: Outcome, changes: seq<Change>, r: Outcome) {
    && (forall c :: c in changes ==> Lookup(r.dir, c.path) == After(dstLen, source, Lookup(o.dir, c.path), c))
    && (forall p :: p !in ChangedPaths(changes) ==> Lookup(r.dir, p) == Lookup(o.dir, p))
    && r.errors == o.errors + |Failing(dstLen, source, o.dir, changes)|
  }

  lemma OneMoreFailing(dstLen: nat, source: Source, dir: Dir, changes: seq<Change>, c: Change)
    requires c !in changes
    ensures |Failing(dstLen, source, dir, changes + [c])|
         == |Failing(dstLen, source, dir, changes)| + if Fails(dstLen, source, Lookup(dir, c.path), c) then 1 else 0
  {
    var extra := if Fails(dstLen, source, Lookup(dir, c.path), c) then {c} else {};
    assert Failing(dstLen, source, dir, changes + [c]) == Failing(dstLen, source, dir, changes) + extra;
  }

  lemma OneMorePath(changes: seq<Change>, c: Change)
    ensures ChangedPaths(changes + [c]) == ChangedPaths(changes) + {c.path}
    ensures forall x :: x in changes ==> x.path in ChangedPaths(changes)
  {
  }

  lemma OneMoreChange(dstLen: nat, source: Source, o: Outcome, changes: seq<Change>, r: Outcome, c: Change)
    requires Resulting(dstLen, source, o, changes, r) && c.path !in ChangedPaths(changes)
    ensures Resulting(dstLen, source, o, changes + [c], ApplyOne(dstLen, source, r, c))
  {
    ApplyOneLocal(dstLen, source, r, c);
    OneMorePath(changes, c);
    OneMoreFailing(dstLen, source, o.dir, changes, c);
    assert Lookup(r.dir, c.path) == Lookup(o.dir, c.path);
  }

  lemma {:induction false} ResultOfRun(dstLen: nat, source: Source, o: Outcome, changes: seq<Change>)
    requires DistinctChanges(changes)
    ensures Resulting(dstLen, source, o, changes, ApplyAll(dstLen, source, o, changes))
  {
    if changes != [] {
      var n := |changes| - 1;
      ResultOfRun(dstLen, source, o, changes[..n]);
      assert changes == changes[..n] + [changes[n]];
      OneMoreChange(dstLen, source, o, changes[..n], ApplyAll(dstLen, source, o, changes[..n]), changes[n]);
    }
  }

  /** Neither the directory nor the error count depends on the order of the entries, so in particular
      not on the sort of paf_delta_optimize_io. */
  lemma {:induction false} OrderIrrelevant(dstLen: nat, source: Source, o: Outcome, a: seq<Change>, b: seq<Change>)
    requires DistinctChanges(a) && multiset(a) == multiset(b)
    ensures ApplyAll(dstLen, source, o, a) == ApplyAll(dstLen, source, o, b)
  {
    PermutedDistinct(a, b);
    ResultOfRun(dstLen, source, o, a);
    ResultOfRun(dstLen, source, o, b);
    var ra, rb := ApplyAll(dstLen, source, o, a), ApplyAll(dstLen, source, o, b);
    assert Failing(dstLen, source, o.dir, a) == Failing(dstLen, source, o.dir, b);
    assert ChangedPaths(a) == ChangedPaths(b);
    forall p ensures Lookup(ra.dir, p) == Lookup(rb.dir, p) {
      if p in ChangedPaths(a) {
        var c :| c in a && c.path == p;
      }
    }
    SameDir(ra.dir, rb.dir);
  }

  lemma PermutedDistinct(a: seq<Change>, b: seq<Change>)
    requires DistinctChanges(a) && multiset(a) == multiset(b)
    ensures DistinctChanges(b) && forall c :: c in a <==> c in b
  {
    forall c ensures c in a <==> c in b {
      assert c in a <==> c in multiset(a);
      assert c in b <==> c in multiset(b);
    }
    forall i, j | 0 <= i < j < |b| ensures b[i].path != b[j].path {
      if b[i].path == b[j].path {
        SamePathSameChange(a, b[i], b[j]);
        TwiceInside(b, i, j);
        OnceInside(a, b[i]);
      }
    }
  }

  lemma SamePathSameChange(a: seq<Change>, c: Change, d: Change)
    requires DistinctChanges(a) && c in a && d in a && c.path == d.path
    ensures c == d
  {
  }

  lemma TwiceInside(b: seq<Change>, i: nat, j: nat)
    requires i < j < |b| && b[i] == b[j]
    ensures multiset(b)[b[i]] >= 2
  {
    assert b == b[..j] + b[j..];
    assert b[..j][i] == b[i] && b[j..][0] == b[j];
    assert b[i] in multiset(b[..j]) && b[j] in multiset(b[j..]);
  }

  lemma {:induction false} OnceInside(a: seq<Change>, c: Change)
    requires DistinctChanges(a)
    ensures multiset(a)[c] <= 1
  {
    if a != [] {
      var n := |a| - 1;
      OnceInside(a[..n], c);
      assert a == a[..n] + [a[n]];
      assert a[n] !in a[..n];
    }
  }

  // ---- The computed delta takes old to new ----

  /** A listing describes a directory: the same paths, each with the digest of its contents. */
  ghost predicate Describes(l: seq<Listed>, dir: Dir, digest: seq<byte> -> seq<byte>) {
    && DistinctPaths(l) && PathSet(l) == dir.Keys
    && forall i :: 0 <= i < |l| && l[i].path in dir ==> l[i].hash == digest(dir[l[i].path])
  }

  /** The digest tells the two contents of every common path apart. */
  ghost predicate ToldApart(was: Dir, now: Dir, digest: seq<byte> -> seq<byte>) {
    forall p :: p in was && p in now && digest(was[p]) == digest(now[p]) ==> was[p] == now[p]
  }

  ghost predicate Delivers(source: Source, now: Dir) {
    forall p :: p in now ==> source(p) == Extraction(0, Some(now[p]))
  }

  ghost predicate FitUnder(dstLen: nat, dir: Dir) {
    forall p :: p in dir ==> !TooLong(dstLen, p)
  }

  /** The expected entry of a path takes its old contents to its new contents without an error;
      a path without one is in both directories with the same digest, or in neither. */
  lemma ExpectedEffect(was: Dir, now: Dir, wasList: seq<Listed>, nowList: seq<Listed>, digest: seq<byte> -> seq<byte>,
                       source: Source, dstLen: nat, p: Path)
    requires Describes(wasList, was, digest) && Describes(nowList, now, digest)
    requires Delivers(source, now) && FitUnder(dstLen, was) && FitUnder(dstLen, now)
    ensures var x := Expected(ByPath(wasList), ByPath(nowList), p);
            if x.None? then (p in was <==> p in now) && (p in was ==> digest(was[p]) == digest(now[p]))
            else x.value.path == p && (p in was && p in now ==> digest(was[p]) != digest(now[p])) &&
                 After(dstLen, source, Lookup(was, p), x.value) == Lookup(now, p) &&
                 !Fails(dstLen, source, Lookup(was, p), x.value)
  {
    if p in was {
      assert EntryOf(wasList, p).hash == digest(was[p]);
    }
    if p in now {
      assert EntryOf(nowList, p).hash == digest(now[p]);
    }
  }

  /** What the delta makes of path p: its new contents if it has an entry, its old ones otherwise. */
  lemma {:induction false} PathApplied(was: Dir, now: Dir, wasList: seq<Listed>, nowList: seq<Listed>,
                                       digest: seq<byte> -> seq<byte>, source: Source, dstLen: nat,
                                       changes: seq<Change>, p: Path)
    requires Describes(wasList, was, digest) && Describes(nowList, now, digest)
    requires Delivers(source, now) && FitUnder(dstLen, was) && FitUnder(dstLen, now)
    requires ExactDelta(changes, wasList, nowList)
    ensures var r := ApplyAll(dstLen, source, Outcome(was, 0), changes);
            && (Expected(ByPath(wasList), ByPath(nowList), p).Some? ==> Lookup(r.dir, p) == Lookup(now, p))
            && (Expected(ByPath(wasList), ByPath(nowList), p).None? ==> Lookup(r.dir, p) == Lookup(was, p))
  {
    ResultOfRun(dstLen, source, Outcome(was, 0), changes);
    ExpectedEffect(was, now, wasList, nowList, digest, source, dstLen, p);
    ExpectedIsListed(changes, wasList, nowList, p);
    if Expected(ByPath(wasList), ByPath(nowList), p).None? {
      assert p !in ChangedPaths(changes);
    }
  }

  /** Applying the delta of two directories to the old one reports no error, and gives the new one if and only if
      the digest tells the contents of every common path apart. */
  lemma {:induction false} DeltaMeaning(was: Dir, now: Dir, wasList: seq<Listed>, nowList: seq<Listed>,
                                        digest: seq<byte> -> seq<byte>, source: Source, dstLen: nat,
                                        changes: seq<Change>)
    requires Describes(wasList, was, digest) && Describes(nowList, now, digest)
    requires Delivers(source, now) && FitUnder(dstLen, was) && FitUnder(dstLen, now)
    requires ExactDelta(changes, wasList, nowList)
    ensures var r := ApplyAll(dstLen, source, Outcome(was, 0), changes);
            r.errors == 0 && (r.dir == now <==> ToldApart(was, now, digest))
  {
    var r := ApplyAll(dstLen, source, Outcome(was, 0), changes);
    forall p
      ensures (p in was && p in now && digest(was[p]) == digest(now[p])) ==> Lookup(r.dir, p) == Lookup(was, p)
      ensures Lookup(r.dir, p) == Lookup(now, p) || (p in was && p in now && digest(was[p]) == digest(now[p]))
    {
      PathApplied(was, now, wasList, nowList, digest, source, dstLen, changes, p);
      ExpectedEffect(was, now, wasList, nowList, digest, source, dstLen, p);
    }
    if ToldApart(was, now, digest) {
      SameDir(r.dir, now);
    }
    NothingFails(was, now, wasList, nowList, digest, source, dstLen, changes);
  }

  lemma {:induction false} NothingFails(was: Dir, now: Dir, wasList: seq<Listed>, nowList: seq<Listed>,
                                        digest: seq<byte> -> seq<byte>, source: Source, dstLen: nat,
                                        changes: seq<Change>)
    requires Describes(wasList, was, digest) && Describes(nowList, now, digest)
    requires Delivers(source, now) && FitUnder(dstLen, was) && FitUnder(dstLen, now)
    requires ExactDelta(changes, wasList, nowList)
    ensures ApplyAll(dstLen, source, Outcome(was, 0), changes).errors == 0
  {
    ResultOfRun(dstLen, source, Outcome(was, 0), changes);
    forall c | c in changes ensures !Fails(dstLen, source, Lookup(was, c.path), c) {
      ExpectedEffect(was, now, wasList, nowList, digest, source, dstLen, c.path);
    }
    assert Failing(dstLen, source, was, changes) == {};
  }

  // ---- The two sources ----

  lemma DirDelivers(now: Dir, srcLen: nat)
    requires FitUnder(srcLen, now)
    ensures Delivers(FromDir(now, srcLen), now)
  {
  }

  /** Every file of the directory is a member, and no path occurs twice. */
  ghost predicate Stores(items: seq<Item>, dir: Dir) {
    && (forall j, k :: 0 <= j < k < |items| ==> items[j].path != items[k].path)
    && (forall k :: 0 <= k < |items| ==>
                      items[k].size == |items[k].stored| && Lookup(dir, items[k].path) == Some(items[k].stored))
    && (forall p :: p in dir ==> exists k :: 0 <= k < |items| && items[k].path == p)
  }

  lemma ArchiveDelivers(f: seq<byte>, h: Header, items: seq<Item>, now: Dir)
    requires IsArchive(f, h, items) && PathsFit(items) && Stores(items, now)
    ensures Delivers(FromArchive(f), now)
  {
    forall p | p in now ensures Extracting(f, p) == Extraction(0, Some(now[p])) {
      var k :| 0 <= k < |items| && items[k].path == p;
      ExtractionOfArchive(f, h, items, p);
    }
  }

  /** An added or updated entry names the position and the length of the new file's bytes in the archive the new listing
      was read from, counted from its 32nd byte. */
  lemma {:induction false} ChangeLocates(f: seq<byte>, h: Header, items: seq<Item>, now: Dir, wasList: seq<Listed>,
                                         changes: seq<Change>, c: Change)
    requires IsArchive(f, h, items) && PathsFit(items) && Stores(items, now) && |Data(items)| < U32_LIMIT
    requires DistinctPaths(wasList) && Listing(f).Some? && DistinctPaths(Listing(f).value)
    requires ExactDelta(changes, wasList, Listing(f).value) && c in changes && !c.Deleted?
    ensures c.path in now && BytesAt(f, 32 + c.offset, c.size, now[c.path])
  {
    ListingOfArchive(f, h, items);
    var k := ChangeListed(wasList, Listing(f).value, changes, c);
    ListedBytes(f, h, items, k);
    assert Lookup(now, items[k].path) == Some(items[k].stored);
  }

  lemma ChangeListed(wasList: seq<Listed>, nowList: seq<Listed>, changes: seq<Change>, c: Change) returns (k: nat)
    requires DistinctPaths(wasList) && DistinctPaths(nowList) && ExactDelta(changes, wasList, nowList)
    requires c in changes && !c.Deleted?
    ensures k < |nowList| && nowList[k].path == c.path && nowList[k].offset == c.offset && nowList[k].size == c.size
  {
    assert Expected(ByPath(wasList), ByPath(nowList), c.path) == Some(c);
    k :| 0 <= k < |nowList| && nowList[k].path == c.path;
  }

  /** The archive and the directory it was made from lead to the same result, in any order of the entries. */
  lemma {:induction false} SourcesAgree(f: seq<byte>, h: Header, items: seq<Item>, was: Dir, now: Dir,
                                        wasList: seq<Listed>, nowList: seq<Listed>, digest: seq<byte> -> seq<byte>,
                                        srcLen: nat, dstLen: nat, changes: seq<Change>, sorted: seq<Change>)
    requires IsArchive(f, h, items) && PathsFit(items) && Stores(items, now) && FitUnder(srcLen, now)
    requires Describes(wasList, was, digest) && Describes(nowList, now, digest) && ToldApart(was, now, digest)
    requires FitUnder(dstLen, was) && FitUnder(dstLen, now)
    requires ExactDelta(changes, wasList, nowList) && multiset(sorted) == multiset(changes)
    ensures ApplyAll(dstLen, FromDir(now, srcLen), Outcome(was, 0), sorted) == Outcome(now, 0)
    ensures ApplyAll(dstLen, FromArchive(f), Outcome(was, 0), sorted) == Outcome(now, 0)
  {
    DirDelivers(now, srcLen);
    ArchiveDelivers(f, h, items, now);
    DeltaMeaning(was, now, wasList, nowList, digest, FromDir(now, srcLen), dstLen, changes);
    DeltaMeaning(was, now, wasList, nowList, digest, FromArchive(f), dstLen, changes);
    OrderIrrelevant(dstLen, FromDir(now, srcLen), Outcome(was, 0), changes, sorted);
    OrderIrrelevant(dstLen, FromArchive(f), Outcome(was, 0), changes, sorted);
  }
}
