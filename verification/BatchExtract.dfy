/** Batch extraction: load a batch into one flat buffer, hash it, write the verified files
    (paf_extractor_gpu.c, paf_gpu.c). */
module BatchExtract {
  import opened Bytes
  import opened Seqs
  import opened Hashing
  import opened ArchiveFormat
  import opened Directory
  import opened Parallel
  import Glob
  import StagedApply

  const OUT_BUFFER: nat := 2048
  const WRITE_THREADS: nat := 32
  const RESERVED_VRAM: nat := 256 * 1024 * 1024

  // ---- The size of a batch ----

  function DataOf(files: nat, avgSize: nat): nat {
    files * avgSize
  }

  /** The memory left beside the reserve. */
  function SafeVram(vram: nat): nat {
    if vram > RESERVED_VRAM then vram - RESERVED_VRAM else 0
  }

  /** Cut to 32 bits, at most the file count, at least 1. */
  function ClampBatch(quotient: nat, totalFiles: nat): nat {
    var batch := Trunc32(quotient);
    var most := if batch > totalFiles then totalFiles else batch;
    if most == 0 then 1 else most
  }

  function Quotient(safe: nat, each: nat): nat
    requires each > 0
  {
    safe / each
  }

  /** The number of files in a batch: all of them if 64 + avgSize wraps to zero. */
  function BatchSize(vram: nat, totalFiles: nat, avgSize: nat): nat {
    var bytesPerFile := Wrap64(64 + avgSize);
    if bytesPerFile == 0 then totalFiles else ClampBatch(Quotient(SafeVram(vram), bytesPerFile), totalFiles)
  }

  lemma QuotientFits(safe: nat, each: nat, count: nat)
    requires each > 0
    ensures count <= Quotient(safe, each) <==> DataOf(count, each) <= safe
  {
    var q := Quotient(safe, each);
    assert each * q <= safe < each * (q + 1);
    if count <= q {
      TimesMonotone(count, q, each);
    } else {
      TimesMonotone(q + 1, count, each);
    }
  }

  /** The batch is the largest that fits beside the reserve, within the file count and 32 bits; a single file goes
      even if it does not fit. */
  lemma BatchIsLargest(vram: nat, totalFiles: nat, avgSize: nat, count: nat)
    requires Wrap64(64 + avgSize) != 0
    ensures var each, batch := Wrap64(64 + avgSize), BatchSize(vram, totalFiles, avgSize);
            && 1 <= batch <= (if totalFiles == 0 then 1 else totalFiles)
            && (batch > 1 ==> batch * each + 268435456 <= vram)
            && (U32_LIMIT * each + 268435456 > vram && count <= totalFiles && count * each + 268435456 <= vram ==>
                  count <= batch)
  {
    var safe, each := SafeVram(vram), Wrap64(64 + avgSize);
    QuotientFits(safe, each, BatchSize(vram, totalFiles, avgSize));
    QuotientFits(safe, each, count);
    QuotientFits(safe, each, U32_LIMIT);
  }

  /** paf_gpu_calculate_batch. */
  method CalculateBatch(vram: nat, totalFiles: nat, avgSize: nat) returns (filesPerBatch: nat, dataPerBatch: nat)
    ensures filesPerBatch == BatchSize(vram, totalFiles, avgSize)
    ensures dataPerBatch == if Wrap64(64 + avgSize) == 0 then 0 else Wrap64(DataOf(filesPerBatch, avgSize))
  {
    var safeVram := if vram > RESERVED_VRAM then vram - RESERVED_VRAM else 0;
    var bytesPerFile := Wrap64(64 + avgSize);
    if bytesPerFile == 0 {
      return totalFiles, 0;
    }
    var batch := Trunc32(Quotient(safeVram, bytesPerFile));
    if batch > totalFiles {
      batch := totalFiles;
    }
    if batch == 0 {
      batch := 1;
    }
    return batch, Wrap64(DataOf(batch, avgSize));
  }

  // ---- What extraction means for one entry ----

  /** A component ".." at this position: followed by a separator or the end. */
  predicate ClimbsAt(p: Path, i: nat) {
    i + 1 < |p| && p[i] == 46 && p[i + 1] == 46 && (i + 2 == |p| || p[i + 2] == 47 || p[i + 2] == 92)
  }

  /** is_safe_path of the extractor: not absolute, and no ".." that ends a component. */
  predicate SafeName(p: Path) {
    (p == [] || (p[0] != 47 && p[0] != 92)) && forall i :: 0 <= i < |p| ==> !ClimbsAt(p, i)
  }

  /** The output path of an entry, empty when the entry must not be written. */
  function OutPath(file: seq<byte>, h: Header, e: Entry): Path {
    var path := StagedApply.EntryPath(file, h, e);
    if path.None? || !SafeName(path.value) then [] else path.value
  }

  function Stored(file: seq<byte>, e: Entry): seq<byte> {
    ReadAt(file, HEADER_SIZE + e.dataOffset, e.dataSize)
  }

  /** The data was read whole and has the digest of the entry. */
  predicate Verified(step: Compression, file: seq<byte>, e: Entry) {
    |Stored(file, e)| == e.dataSize && DigestWith(step, Stored(file, e)) == e.digest
  }

  predicate Fits(outLen: nat, p: Path) {
    p != [] && outLen + 1 + |p| < OUT_BUFFER
  }

  /** a, a component's last two dots, and what follows them. */
  ghost predicate ClimbsBetween(p: Path, a: Path, b: Path) {
    p == a + [46, 46] + b && (b == [] || b[0] == 47 || b[0] == 92)
  }

  /** A relative path that fits beside the output path and in which no component ends in "..". */
  ghost predicate Writable(outLen: nat, p: Path) {
    && p != [] && p[0] != 47 && p[0] != 92 && outLen + 1 + |p| < 2048
    && !exists a, b :: ClimbsBetween(p, a, b)
  }

  /** The extractor writes exactly such paths. */
  lemma WritableIff(outLen: nat, p: Path)
    ensures SafeName(p) && Fits(outLen, p) <==> Writable(outLen, p)
  {
    if i :| 0 <= i < |p| && ClimbsAt(p, i) {
      var a, b := p[..i], p[i + 2..];
      assert p == a + [46, 46] + b;
      assert ClimbsBetween(p, a, b);
    }
    if a, b :| ClimbsBetween(p, a, b) {
      assert p[|a| + 2..] == b;
      assert ClimbsAt(p, |a|);
    }
  }

  /** What writing an entry does once it is known whether it passed: its data goes under its safe path. */
  function JobIf(file: seq<byte>, h: Header, outLen: nat, e: Entry, ok: bool): Job<Path, seq<byte>> {
    if ok && Fits(outLen, OutPath(file, h, e)) then Put(OutPath(file, h, e), Stored(file, e)) else Nothing
  }

  /** Whatever the file holds, an entry is written under such a path or not at all. */
  lemma JobWritable(file: seq<byte>, h: Header, outLen: nat, e: Entry, ok: bool)
    ensures var job := JobIf(file, h, outLen, e, ok); job.Put? ==> Writable(outLen, job.key)
  {
    WritableIff(outLen, OutPath(file, h, e));
  }

  /** What extracting an entry writes: its verified data under its safe path, or nothing. */
  function JobOf(step: Compression, file: seq<byte>, h: Header, outLen: nat): Entry -> Job<Path, seq<byte>> {
    (e: Entry) => JobIf(file, h, outLen, e, Verified(step, file, e))
  }

  function JobsOf(step: Compression, file: seq<byte>, h: Header, outLen: nat, es: seq<Entry>): seq<Job<Path,
                  seq<byte>>> {
    Mapped(JobOf(step, file, h, outLen), es)
  }

  function Falses(flags: seq<bool>): nat {
    if flags == [] then 0 else Falses(flags[..|flags| - 1]) + if flags[|flags| - 1] then 0 else 1
  }

  lemma FalsesOneMore(flags: seq<bool>, i: nat)
    requires i < |flags|
    ensures Falses(flags[..i + 1]) == Falses(flags[..i]) + if flags[i] then 0 else 1
  {
    assert flags[..i + 1][..i] == flags[..i];
  }

  function VerifiedIn(step: Compression, file: seq<byte>): Entry -> bool {
    (e: Entry) => Verified(step, file, e)
  }

  /** The number of entries that failed to read or to verify. */
  function ErrorCount(step: Compression, file: seq<byte>, es: seq<Entry>): nat {
    Falses(Mapped(VerifiedIn(step, file), es))
  }

  // ---- Searching the index ----

  function SearchPathIn(file: seq<byte>, h: Header): Entry -> Option<Path> {
    (e: Entry) => StagedApply.EntryPath(file, h, e)
  }

  /** paf_gpu_search_files: the first max entries, in index order, whose readable path matches the pattern. */
  method SearchFiles(file: seq<byte>, h: Header, es: seq<Entry>, pattern: seq<byte>, max: nat)
      returns (status: int, found: seq<nat>)
    ensures max == 0 ==> status == -1
    ensures max > 0 ==> status == |found| <= max
    ensures var paths := Mapped(SearchPathIn(file, h), es);
            && (forall k :: 0 <= k < |found| ==>
                              found[k] < |es| && paths[found[k]].Some? && Glob.Matches(pattern, paths[found[k]].value))
            && (forall k :: 0 <= k < |found| ==> Glob.Hits(paths, pattern, found[k]) == k)
            && (max > 0 && |found| < max ==> |found| == Glob.Hits(paths, pattern, |es|))
  {
    if max == 0 { return -1, []; }
    found := Glob.SearchFiles(Mapped(SearchPathIn(file, h), es), pattern, max);
    status := |found|;
  }

  // ---- The flat buffer ----

  function TotalSize(es: seq<Entry>): nat {
    if es == [] then 0 else TotalSize(es[..|es| - 1]) + es[|es| - 1].dataSize
  }

  lemma TotalOneMore(es: seq<Entry>, i: nat)
    requires i < |es|
    ensures TotalSize(es[..i + 1]) == TotalSize(es[..i]) + es[i].dataSize
  {
    assert es[..i + 1][..i] == es[..i];
  }

  lemma {:induction false} TotalMonotone(es: seq<Entry>, i: nat, j: nat)
    requires i <= j <= |es|
    ensures TotalSize(es[..i]) <= TotalSize(es[..j])
    decreases j - i
  {
    if i < j {
      TotalOneMore(es, j - 1);
      TotalMonotone(es, i, j - 1);
    }
  }

  /** The layout of a batch: offsets are prefix sums in 64-bit arithmetic. */
  ghost predicate LaidOut(es: seq<Entry>, offsets: seq<nat>, sizes: seq<nat>) {
    && |offsets| == |es| == |sizes|
    && forall i :: 0 <= i < |es| ==> offsets[i] == Wrap64(TotalSize(es[..i])) && sizes[i] == es[i].dataSize
  }

  /** While the total fits 64 bits, the slices lie inside the buffer one after the other: they never overlap. */
  lemma {:induction false} SlicesApart(es: seq<Entry>, offsets: seq<nat>, sizes: seq<nat>, i: nat, j: nat)
    requires LaidOut(es, offsets, sizes) && i < |es| && j < |es| && TotalSize(es) < U64_LIMIT
    ensures i < j ==> offsets[i] + sizes[i] <= offsets[j]
    ensures offsets[i] + sizes[i] <= TotalSize(es)
  {
    TotalOneMore(es, i);
    if i < j {
      TotalMonotone(es, i + 1, j);
      TotalMonotone(es, j, |es|);
    }
    TotalMonotone(es, i + 1, |es|);
    assert es[..|es|] == es;
    Unwrapped(TotalSize(es[..i]));
    Unwrapped(TotalSize(es[..j]));
  }

  lemma {:induction false} NextOffset(es: seq<Entry>, i: nat)
    requires i < |es|
    ensures Wrap64(Wrap64(TotalSize(es[..i])) + es[i].dataSize) == Wrap64(TotalSize(es[..i + 1]))
  {
    TotalOneMore(es, i);
    WrapAdd(TotalSize(es[..i]), es[i].dataSize);
  }

  /** The pre-pass: offsets are running sums in 64-bit arithmetic. */
  method LayOut(es: seq<Entry>) returns (offsets: array<nat>, sizes: array<nat>, total: nat)
    ensures fresh(offsets) && fresh(sizes) && offsets != sizes
    ensures LaidOut(es, offsets[..], sizes[..]) && total == Wrap64(TotalSize(es))
  {
    var n := |es|;
    offsets := new nat[n];
    sizes := new nat[n];
    total := 0;
    for i := 0 to n
      invariant total == Wrap64(TotalSize(es[..i]))
      invariant forall k :: 0 <= k < i ==> offsets[k] == Wrap64(TotalSize(es[..k]))
      invariant forall k :: 0 <= k < i ==> sizes[k] == es[k].dataSize
    {
      NextOffset(es, i);
      offsets[i] := total;
      sizes[i] := es[i].dataSize;
      total := Wrap64(total + sizes[i]);
    }
    assert es[..n] == es;
  }

  // ---- When a batch leaves its buffer ----

  /** Reading the data of entry e to that offset writes beyond a buffer of that size. */
  predicate ReadStrays(file: seq<byte>, e: Entry, offset: nat, total: nat) {
    Stored(file, e) != [] && offset + |Stored(file, e)| > total
  }

  /** Hashing a slice reads beyond a buffer of that size. */
  predicate HashStrays(size: nat, offset: nat, total: nat) {
    total > 0 && size > 0 && offset + size > total
  }

  /** Some read or hash of the batch leaves the flat buffer. */
  ghost predicate Strays(file: seq<byte>, es: seq<Entry>) {
    exists i :: 0 <= i < |es| &&
                (ReadStrays(file, es[i], Wrap64(TotalSize(es[..i])), Wrap64(TotalSize(es))) ||
                 HashStrays(es[i].dataSize, Wrap64(TotalSize(es[..i])), Wrap64(TotalSize(es))))
  }

  /** The first prefix sum that does not fit 64 bits. */
  lemma {:induction false} FirstWrap(es: seq<Entry>, n: nat) returns (i: nat)
    requires n <= |es| && U64_LIMIT <= TotalSize(es[..n])
    ensures i < n && TotalSize(es[..i]) < U64_LIMIT <= TotalSize(es[..i + 1])
  {
    i := n - 1;
    if U64_LIMIT <= TotalSize(es[..i]) {
      i := FirstWrap(es, i);
    }
  }

  /** A batch leaves its buffer if and only if its data sizes add up to 2^64 or more, unless the sum wraps to zero and
      the file holds not a byte of its entries. */
  lemma {:induction false} StraysIff(file: seq<byte>, es: seq<Entry>)
    ensures Strays(file, es) <==>
            && U64_LIMIT <= TotalSize(es)
            && (Wrap64(TotalSize(es)) > 0 || exists i :: 0 <= i < |es| && Stored(file, es[i]) != [])
  {
    var total := Wrap64(TotalSize(es));
    assert es[..|es|] == es;
    if TotalSize(es) < U64_LIMIT {
      forall i | 0 <= i < |es| ensures Wrap64(TotalSize(es[..i])) + es[i].dataSize <= total {
        TotalOneMore(es, i);
        TotalMonotone(es, i, i + 1);
        TotalMonotone(es, i + 1, |es|);
        Unwrapped(TotalSize(es[..i]));
      }
    } else if total > 0 {
      var i := FirstWrap(es, |es|);
      TotalOneMore(es, i);
      Unwrapped(TotalSize(es[..i]));
      assert HashStrays(es[i].dataSize, Wrap64(TotalSize(es[..i])), total);
    } else if i :| 0 <= i < |es| && Stored(file, es[i]) != [] {
      assert ReadStrays(file, es[i], Wrap64(TotalSize(es[..i])), total);
    }
  }

  // ---- Loading ----

  /** Entry i failed to read, or its slice holds its data. */
  ghost predicate Loaded(file: seq<byte>, e: Entry, flat: seq<byte>, offset: nat, failed: bool) {
    && (failed <==> |Stored(file, e)| != e.dataSize)
    && (!failed ==> offset + e.dataSize <= |flat| && flat[offset..offset + e.dataSize] == Stored(file, e))
  }

  /** Bytes written from at on leave what lies before them as it was. */
  lemma BeforeKept(file: seq<byte>, e: Entry, flat: seq<byte>, flat': seq<byte>, offset: nat, failed: bool, at: nat)
    requires Loaded(file, e, flat, offset, failed) && offset + e.dataSize <= at <= |flat| == |flat'|
    requires flat'[..at] == flat[..at]
    ensures Loaded(file, e, flat', offset, failed)
  {
    if !failed {
      assert flat[offset..offset + e.dataSize] == flat[..at][offset..offset + e.dataSize];
      assert flat'[offset..offset + e.dataSize] == flat'[..at][offset..offset + e.dataSize];
    }
  }

  ghost predicate AllLoaded(file: seq<byte>, es: seq<Entry>, flat: seq<byte>, offsets: seq<nat>, failed: seq<bool>,
                            n: nat) {
    && n <= |es| == |offsets| == |failed|
    && forall k :: 0 <= k < n ==> Loaded(file, es[k], flat, offsets[k], failed[k])
  }

  lemma {:induction false} AllLoadedMore(file: seq<byte>, es: seq<Entry>, offsets: seq<nat>, sizes: seq<nat>,
                                         flat: seq<byte>, flat': seq<byte>, failed: seq<bool>, i: nat, f: bool)
    requires LaidOut(es, offsets, sizes) && AllLoaded(file, es, flat, offsets, failed, i) && i < |es|
    requires TotalSize(es) < U64_LIMIT
    requires |flat| == |flat'| && offsets[i] <= |flat| && flat'[..offsets[i]] == flat[..offsets[i]]
    requires Loaded(file, es[i], flat', offsets[i], f)
    ensures AllLoaded(file, es, flat', offsets, failed[i := f], i + 1)
  {
    forall k | 0 <= k < i ensures Loaded(file, es[k], flat', offsets[k], failed[k]) {
      SlicesApart(es, offsets, sizes, k, i);
      BeforeKept(file, es[k], flat, flat', offsets[k], failed[k], offsets[i]);
    }
  }

  /** The flags say which entries could not be read whole. */
  ghost predicate AllRead(file: seq<byte>, es: seq<Entry>, failed: seq<bool>, n: nat) {
    n <= |es| == |failed| && forall k :: 0 <= k < n ==> (failed[k] <==> |Stored(file, es[k])| != es[k].dataSize)
  }

  ghost predicate SomeReadStrays(file: seq<byte>, es: seq<Entry>, offsets: seq<nat>, total: nat, n: nat)
    requires n <= |es| == |offsets|
  {
    exists k :: 0 <= k < n && ReadStrays(file, es[k], offsets[k], total)
  }

  /** One seek and read into the entry's slice; an empty entry is skipped. A read that would leave the buffer is
      reported instead. */
  method LoadEntry(file: seq<byte>, e: Entry, flat: array<byte>, at: nat) returns (failed: bool, strayed: bool)
    modifies flat
    ensures strayed <==> ReadStrays(file, e, at, flat.Length)
    ensures failed <==> |Stored(file, e)| != e.dataSize
    ensures !strayed && at + e.dataSize <= flat.Length ==>
              flat[..at] == old(flat[..at]) && Loaded(file, e, flat[..], at, failed)
  {
    if e.dataSize == 0 { return false, false; }
    var data := Stored(file, e);
    if data != [] && at + |data| > flat.Length { return |data| != e.dataSize, true; }
    if data != [] {
      forall k | 0 <= k < |data| { flat[at + k] := data[k]; }
      assert flat[at..at + |data|] == data;
    }
    return |data| != e.dataSize, false;
  }

  /** phase1_io, up to a read that leaves the buffer. */
  method LoadBatch(file: seq<byte>, es: seq<Entry>, offsets: array<nat>, sizes: array<nat>, flat: array<byte>)
      returns (failed: array<bool>, strayed: bool)
    requires LaidOut(es, offsets[..], sizes[..]) && flat.Length == Wrap64(TotalSize(es))
    modifies flat
    ensures fresh(failed) && failed.Length == |es|
    ensures strayed <==> SomeReadStrays(file, es, offsets[..], flat.Length, |es|)
    ensures !strayed ==> AllRead(file, es, failed[..], |es|)
    ensures !strayed && TotalSize(es) < U64_LIMIT ==> AllLoaded(file, es, flat[..], offsets[..], failed[..], |es|)
  {
    var n := |es|;
    ghost var offs, szs := offsets[..], sizes[..];
    failed := new bool[n](_ => false);
    for i := 0 to n
      modifies flat, failed
      invariant !SomeReadStrays(file, es, offs, flat.Length, i) && AllRead(file, es, failed[..], i)
      invariant TotalSize(es) < U64_LIMIT ==> AllLoaded(file, es, flat[..], offs, failed[..], i)
    {
      ghost var before, flags := flat[..], failed[..];
      var f;
      f, strayed := LoadEntry(file, es[i], flat, offsets[i]);
      if strayed { return; }
      if TotalSize(es) < U64_LIMIT {
        SlicesApart(es, offs, szs, i, i);
        Unwrapped(TotalSize(es));
        AllLoadedMore(file, es, offs, szs, before, flat[..], flags, i, f);
      }
      failed[i] := f;
      assert failed[..] == flags[i := f];
    }
    strayed := false;
  }

  // ---- Which entries of a batch pass ----

  /** What the hash array of a batch may hold before anything is written to it: any 32 bytes for each entry. */
  ghost predicate Unset(stale: seq<seq<byte>>, es: seq<Entry>) {
    |stale| == |es| && forall i :: 0 <= i < |stale| ==> |stale[i]| == 32
  }

  /** The flags of a batch. When the sum of the sizes is zero no hash is computed, and the entries that were read whole
      are compared with what the array happens to hold. */
  function FlagsOf(step: Compression, file: seq<byte>, es: seq<Entry>, stale: seq<seq<byte>>): (ok: seq<bool>)
    requires |stale| == |es|
    ensures |ok| == |es|
    ensures Wrap64(TotalSize(es)) > 0 ==> ok == Mapped(VerifiedIn(step, file), es)
    ensures Wrap64(TotalSize(es)) == 0 ==>
              forall i :: 0 <= i < |es| ==>
                            ok[i] == (|Stored(file, es[i])| == es[i].dataSize && stale[i] == es[i].digest)
  {
    if Wrap64(TotalSize(es)) > 0 then Mapped(VerifiedIn(step, file), es)
    else seq(|es|, i requires 0 <= i < |es| =>
                     |Stored(file, es[i])| == es[i].dataSize && stale[i] == es[i].digest)
  }

  /** The writes of a batch. */
  function BatchJobs(step: Compression, file: seq<byte>, h: Header, outLen: nat, es: seq<Entry>, stale: seq<seq<byte>>)
      : (jobs: seq<Job<Path, seq<byte>>>)
    requires |stale| == |es|
    ensures |jobs| == |es|
    ensures forall i :: 0 <= i < |es| ==> jobs[i] == JobIf(file, h, outLen, es[i], FlagsOf(step, file, es, stale)[i])
  {
    var ok := FlagsOf(step, file, es, stale);
    seq(|es|, i requires 0 <= i < |es| => JobIf(file, h, outLen, es[i], ok[i]))
  }

  /** Files and errors after one more batch. */
  function AfterBatch(step: Compression, file: seq<byte>, h: Header, outLen: nat, es: seq<Entry>, stale: seq<seq<byte>>,
                      o: Outcome): Outcome
    requires |stale| == |es|
  {
    Outcome(InOrder(o.dir, BatchJobs(step, file, h, outLen, es, stale)),
            o.errors + Falses(FlagsOf(step, file, es, stale)))
  }

  /** Hashes are computed, or there is nothing to compare them with. */
  ghost predicate Hashed(file: seq<byte>, es: seq<Entry>) {
    Wrap64(TotalSize(es)) > 0 || forall i :: 0 <= i < |es| ==> |Stored(file, es[i])| != es[i].dataSize
  }

  lemma HashedFlags(step: Compression, file: seq<byte>, es: seq<Entry>, stale: seq<seq<byte>>)
    requires |stale| == |es| && Hashed(file, es)
    ensures FlagsOf(step, file, es, stale) == Mapped(VerifiedIn(step, file), es)
  {
    if Wrap64(TotalSize(es)) == 0 {
      forall i | 0 <= i < |es| ensures !FlagsOf(step, file, es, stale)[i] && !Verified(step, file, es[i]) {
      }
    }
  }

  lemma {:induction false} DataJobs(step: Compression, file: seq<byte>, h: Header, outLen: nat, es: seq<Entry>,
                                    stale: seq<seq<byte>>)
    requires |stale| == |es| && Hashed(file, es)
    ensures BatchJobs(step, file, h, outLen, es, stale) == JobsOf(step, file, h, outLen, es)
  {
    HashedFlags(step, file, es, stale);
  }

  /** hash_ok of a batch: read whole, and the computed hash is the entry's. */
  function Passed(es: seq<Entry>, failed: seq<bool>, hashes: seq<seq<byte>>): (ok: seq<bool>)
    requires |failed| == |hashes| == |es|
    ensures |ok| == |es| && forall i :: 0 <= i < |es| ==> ok[i] == (!failed[i] && hashes[i] == es[i].digest)
  {
    seq(|es|, i requires 0 <= i < |es| => !failed[i] && hashes[i] == es[i].digest)
  }

  /** The verified flags, and how many entries of the batch are not. */
  method CheckHashes(es: seq<Entry>, failed: array<bool>, hashes: array<seq<byte>>)
      returns (ok: array<bool>, errors: nat)
    requires failed.Length == hashes.Length == |es|
    ensures fresh(ok) && ok[..] == Passed(es, failed[..], hashes[..]) && errors == Falses(ok[..])
  {
    var n := |es|;
    ghost var good := Passed(es, failed[..], hashes[..]);
    ok := new bool[n](_ => false);
    errors := 0;
    for i := 0 to n
      invariant errors == Falses(good[..i])
      invariant forall k :: 0 <= k < i ==> ok[k] == good[k]
      invariant forall k :: i <= k < n ==> !ok[k]
    {
      FalsesOneMore(good, i);
      if failed[i] {
        errors := errors + 1;
      } else if hashes[i] != es[i].digest {
        errors := errors + 1;
      } else {
        ok[i] := true;
      }
    }
    assert good[..n] == good && ok[..] == good;
  }

  /** The bytes write_chunk writes: none for an empty entry. */
  function Chunk(flat: seq<byte>, offset: nat, size: nat): seq<byte>
    requires size == 0 || offset + size <= |flat|
  {
    if size == 0 then [] else flat[offset..offset + size]
  }

  /** Every entry that passed lies in the buffer with its data, or is empty. */
  ghost predicate Backed(file: seq<byte>, es: seq<Entry>, ok: seq<bool>, flat: seq<byte>, offsets: seq<nat>,
                         sizes: seq<nat>) {
    && |ok| == |offsets| == |sizes| == |es|
    && forall i :: 0 <= i < |es| && ok[i] ==>
                     (sizes[i] == 0 || offsets[i] + sizes[i] <= |flat|)
                     && Chunk(flat, offsets[i], sizes[i]) == Stored(file, es[i])
  }

  lemma LoadedSlice(file: seq<byte>, e: Entry, flat: seq<byte>, offsets: seq<nat>, sizes: seq<nat>, failed: bool,
                    i: nat)
    requires Slices(flat, offsets, sizes) && i < |sizes| && sizes[i] == e.dataSize
    requires Loaded(file, e, flat, offsets[i], failed)
    ensures |Stored(file, e)| == e.dataSize ==> Slice(flat, offsets, sizes, i) == Stored(file, e)
  {
  }

  lemma {:induction false} LaidOutSlices(es: seq<Entry>, flat: seq<byte>, offsets: seq<nat>, sizes: seq<nat>)
    requires LaidOut(es, offsets, sizes) && |flat| == TotalSize(es) < U64_LIMIT
    ensures Slices(flat, offsets, sizes)
  {
    forall i | 0 <= i < |es| ensures offsets[i] + sizes[i] <= |flat| {
      SlicesApart(es, offsets, sizes, i, i);
    }
  }

  /** On a loaded and hashed batch the flags say which entries verify. */
  lemma PassedIsVerified(step: Compression, file: seq<byte>, es: seq<Entry>, flat: seq<byte>, offsets: seq<nat>,
                         sizes: seq<nat>, failed: seq<bool>)
    requires LaidOut(es, offsets, sizes) && AllLoaded(file, es, flat, offsets, failed, |es|)
    requires Slices(flat, offsets, sizes)
    ensures Passed(es, failed, Digests(step, flat, offsets, sizes)) == Mapped(VerifiedIn(step, file), es)
  {
    var hashes := Digests(step, flat, offsets, sizes);
    forall i | 0 <= i < |es| ensures Passed(es, failed, hashes)[i] == Verified(step, file, es[i]) {
      LoadedSlice(file, es[i], flat, offsets, sizes, failed[i], i);
    }
  }

  lemma VerifiedBacked(step: Compression, file: seq<byte>, es: seq<Entry>, flat: seq<byte>, offsets: seq<nat>,
                       sizes: seq<nat>, failed: seq<bool>)
    requires LaidOut(es, offsets, sizes) && AllLoaded(file, es, flat, offsets, failed, |es|)
    requires Slices(flat, offsets, sizes)
    ensures Backed(file, es, Mapped(VerifiedIn(step, file), es), flat, offsets, sizes)
  {
    forall i | 0 <= i < |es| && Verified(step, file, es[i])
      ensures Chunk(flat, offsets[i], sizes[i]) == Stored(file, es[i])
    {
      LoadedSlice(file, es[i], flat, offsets, sizes, failed[i], i);
    }
  }

  /** When the sum is zero and nothing strays, only empty entries are read whole. */
  lemma {:induction false} NothingRead(file: seq<byte>, es: seq<Entry>, offsets: seq<nat>, sizes: seq<nat>, i: nat)
    requires LaidOut(es, offsets, sizes) && Wrap64(TotalSize(es)) == 0 && i < |es|
    requires !SomeReadStrays(file, es, offsets, 0, |es|)
    ensures Stored(file, es[i]) == []
  {
    assert !ReadStrays(file, es[i], offsets[i], 0);
  }

  /** On a batch whose sum is zero the flags say which digests the array happens to hold. */
  lemma {:induction false} PassedUnset(step: Compression, file: seq<byte>, es: seq<Entry>, flat: seq<byte>,
                                       offsets: seq<nat>, sizes: seq<nat>, failed: seq<bool>, stale: seq<seq<byte>>)
    requires LaidOut(es, offsets, sizes) && AllRead(file, es, failed, |es|) && |stale| == |es|
    requires Wrap64(TotalSize(es)) == 0 && !SomeReadStrays(file, es, offsets, 0, |es|)
    ensures Passed(es, failed, stale) == FlagsOf(step, file, es, stale)
    ensures Backed(file, es, FlagsOf(step, file, es, stale), flat, offsets, sizes)
  {
    forall i | 0 <= i < |es| ensures Stored(file, es[i]) == [] {
      NothingRead(file, es, offsets, sizes, i);
    }
  }

  // ---- Writing the verified files ----

  function PathsOf(file: seq<byte>, h: Header): Entry -> Path {
    (e: Entry) => OutPath(file, h, e)
  }

  /** Every entry that passed lies in the buffer. */
  ghost predicate OkWithin(ok: seq<bool>, flat: seq<byte>, offsets: seq<nat>, sizes: seq<nat>) {
    && |ok| == |offsets| == |sizes|
    && forall i :: 0 <= i < |ok| && ok[i] ==> sizes[i] == 0 || offsets[i] + sizes[i] <= |flat|
  }

  /** What write_chunk does for entry i. */
  function WriteJob(paths: seq<Path>, ok: seq<bool>, flat: seq<byte>, offsets: seq<nat>, sizes: seq<nat>, outLen: nat,
                    i: nat)
      : Job<Path, seq<byte>>
    requires OkWithin(ok, flat, offsets, sizes) && |paths| == |ok| && i < |ok|
  {
    if ok[i] && Fits(outLen, paths[i]) then Put(paths[i], Chunk(flat, offsets[i], sizes[i])) else Nothing
  }

  ghost predicate AreWriteJobs(jobs: seq<Job<Path, seq<byte>>>, paths: seq<Path>, ok: seq<bool>, flat: seq<byte>,
                               offsets: seq<nat>, sizes: seq<nat>, outLen: nat)
    requires OkWithin(ok, flat, offsets, sizes) && |paths| == |ok|
  {
    |jobs| == |ok| && forall i :: 0 <= i < |ok| ==> jobs[i] == WriteJob(paths, ok, flat, offsets, sizes, outLen, i)
  }

  /** How many threads write n files. */
  function Writers(cpus: int, n: nat): (nt: nat)
    ensures n > 0 ==> nt > 0
  {
    Threads(2 * cpus, WRITE_THREADS, n)
  }

  /** The pthread phase3_write_parallel, its threads interleaved in any way: the files are those some run of the write
      jobs leaves. */
  method WriteParallel(paths: seq<Path>, ok: seq<bool>, flat: seq<byte>, offsets: seq<nat>, sizes: seq<nat>,
                       outLen: nat, dst: Folder, cpus: int, ghost jobs: seq<Job<Path, seq<byte>>>)
    requires OkWithin(ok, flat, offsets, sizes) && |paths| == |ok|
    requires AreWriteJobs(jobs, paths, ok, flat, offsets, sizes, outLen)
    modifies dst
    ensures Leaves(old(dst.files), jobs, Writers(cpus, |jobs|), dst.files)
  {
    var n := |ok|;
    if n == 0 { return; }
    var nt := Writers(cpus, n);
    var next: seq<nat> := Starts(n, nt);
    var ends := seq(nt, t requires 0 <= t < nt => RangeEnd(n, nt, t));
    ghost var m0, s := dst.files, Launch(dst.files, n, nt);
    ghost var run := [s];
    while exists w :: 0 <= w < nt && next[w] < ends[w]
      invariant |next| == nt && next == s.next && dst.files == s.out && Through(m0, jobs, nt, run, s)
      decreases n + 1 - |run|
    {
      var w :| 0 <= w < nt && next[w] < ends[w];
      var i := next[w];
      s := ThroughStep(m0, jobs, nt, run, s, w);
      run := run + [s];
      assert jobs[i] == WriteJob(paths, ok, flat, offsets, sizes, outLen, i);
      if ok[i] && paths[i] != [] && outLen + 1 + |paths[i]| < OUT_BUFFER {
        dst.files := dst.files[paths[i] := Chunk(flat, offsets[i], sizes[i])];
      }
      next := next[w := i + 1];
    }
    ThroughAll(m0, jobs, nt, run, s);
  }

  /** The writes of a loaded and checked batch are those its entries ask for. */
  lemma WritesOfBatch(step: Compression, file: seq<byte>, h: Header, outLen: nat, es: seq<Entry>, stale: seq<seq<byte>>,
                      flat: seq<byte>, offsets: seq<nat>, sizes: seq<nat>)
    requires |stale| == |es| && Backed(file, es, FlagsOf(step, file, es, stale), flat, offsets, sizes)
    ensures OkWithin(FlagsOf(step, file, es, stale), flat, offsets, sizes)
    ensures AreWriteJobs(BatchJobs(step, file, h, outLen, es, stale), Mapped(PathsOf(file, h), es),
                         FlagsOf(step, file, es, stale), flat, offsets, sizes, outLen)
  {
    var paths, ok := Mapped(PathsOf(file, h), es), FlagsOf(step, file, es, stale);
    forall i | 0 <= i < |es|
      ensures JobIf(file, h, outLen, es[i], ok[i]) == WriteJob(paths, ok, flat, offsets, sizes, outLen, i)
    {
    }
  }

  /** Some hash of the batch would read beyond the buffer. */
  predicate SomeHashStrays(offsets: seq<nat>, sizes: seq<nat>, total: nat)
    requires |offsets| == |sizes|
  {
    exists i :: 0 <= i < |sizes| && HashStrays(sizes[i], offsets[i], total)
  }

  lemma {:induction false} StraysParts(file: seq<byte>, es: seq<Entry>, offsets: seq<nat>, sizes: seq<nat>)
    requires LaidOut(es, offsets, sizes)
    ensures Strays(file, es) <==> SomeReadStrays(file, es, offsets, Wrap64(TotalSize(es)), |es|)
                                  || SomeHashStrays(offsets, sizes, Wrap64(TotalSize(es)))
  {
    var total := Wrap64(TotalSize(es));
    if Strays(file, es) {
      var i :| 0 <= i < |es| &&
               (ReadStrays(file, es[i], Wrap64(TotalSize(es[..i])), total) ||
                HashStrays(es[i].dataSize, Wrap64(TotalSize(es[..i])), total));
      assert ReadStrays(file, es[i], offsets[i], total) || HashStrays(sizes[i], offsets[i], total);
    }
    if k :| 0 <= k < |es| && ReadStrays(file, es[k], offsets[k], total) {
      assert ReadStrays(file, es[k], Wrap64(TotalSize(es[..k])), total);
    }
    if k :| 0 <= k < |es| && HashStrays(sizes[k], offsets[k], total) {
      assert HashStrays(es[k].dataSize, Wrap64(TotalSize(es[..k])), total);
    }
  }

  /** The hashes a batch is checked against. */
  method HashBatch(step: Compression, flat: seq<byte>, offsets: seq<nat>, sizes: seq<nat>, total: nat,
                   stale: seq<seq<byte>>, cpus: int) returns (hashes: array<seq<byte>>)
    requires |stale| == |sizes| && (total > 0 ==> Slices(flat, offsets, sizes))
    ensures fresh(hashes) && hashes[..] == if total > 0 then Digests(step, flat, offsets, sizes) else stale
  {
    if total > 0 {
      hashes := ParallelHash(step, flat, offsets, sizes, cpus);
    } else {
      hashes := new seq<byte>[|stale|](i requires 0 <= i < |stale| => stale[i]);
      assert hashes[..] == stale;
    }
  }

  /** A batch that stays in its buffer and has data is loaded slice by slice. */
  lemma {:induction false} StaysIn(file: seq<byte>, es: seq<Entry>, flat: seq<byte>, offsets: seq<nat>, sizes: seq<nat>)
    requires LaidOut(es, offsets, sizes) && !Strays(file, es) && Wrap64(TotalSize(es)) > 0
    requires |flat| == Wrap64(TotalSize(es))
    ensures TotalSize(es) < U64_LIMIT && Slices(flat, offsets, sizes)
  {
    StraysIff(file, es);
    Unwrapped(TotalSize(es));
    LaidOutSlices(es, flat, offsets, sizes);
  }

  /** Phase 2: hash a loaded batch and compare. */
  method CheckBatch(step: Compression, file: seq<byte>, es: seq<Entry>, flat: seq<byte>, offsets: seq<nat>,
                    sizes: seq<nat>, failed: array<bool>, stale: seq<seq<byte>>, cpus: int)
      returns (ok: seq<bool>, errors: nat)
    requires LaidOut(es, offsets, sizes) && !Strays(file, es) && |stale| == |es|
    requires |flat| == Wrap64(TotalSize(es)) && AllRead(file, es, failed[..], |es|)
    requires TotalSize(es) < U64_LIMIT ==> AllLoaded(file, es, flat, offsets, failed[..], |es|)
    ensures ok == FlagsOf(step, file, es, stale) && errors == Falses(ok)
    ensures Backed(file, es, ok, flat, offsets, sizes)
  {
    var total := |flat|;
    if total > 0 {
      StaysIn(file, es, flat, offsets, sizes);
    }
    var hashes := HashBatch(step, flat, offsets, sizes, total, stale, cpus);
    var checked;
    checked, errors := CheckHashes(es, failed, hashes);
    ok := checked[..];
    if total > 0 {
      PassedIsVerified(step, file, es, flat, offsets, sizes, failed[..]);
      VerifiedBacked(step, file, es, flat, offsets, sizes, failed[..]);
    } else {
      StraysParts(file, es, offsets, sizes);
      PassedUnset(step, file, es, flat, offsets, sizes, failed[..], stale);
    }
  }

  /** Phases 1 and 2, unless they leave the buffer: the flags of the entries that pass, and their data in the buffer. */
  method LoadAndHash(step: Compression, file: seq<byte>, es: seq<Entry>, stale: seq<seq<byte>>, cpus: int)
      returns (strayed: bool, flat: seq<byte>, offsets: seq<nat>, sizes: seq<nat>, ok: seq<bool>, errors: nat)
    requires |stale| == |es|
    ensures strayed <==> Strays(file, es)
    ensures !strayed ==> ok == FlagsOf(step, file, es, stale) && errors == Falses(ok)
                         && Backed(file, es, ok, flat, offsets, sizes)
  {
    var offs, szs, total := LayOut(es);
    var buffer := new byte[total](_ => 0);
    var unread;
    unread, strayed := LoadBatch(file, es, offs, szs, buffer);
    flat, offsets, sizes, ok, errors := buffer[..], offs[..], szs[..], [], 0;
    StraysParts(file, es, offsets, sizes);
    strayed := strayed || SomeHashStrays(offsets, sizes, total);
    if !strayed {
      ok, errors := CheckBatch(step, file, es, flat, offsets, sizes, unread, stale, cpus);
    }
  }

  lemma {:induction false} InOrderAt(m: Dir, jobs: seq<Job<Path, seq<byte>>>, p: Path)
    ensures Get(InOrder(m, jobs), p)
         == if LastIn(jobs, 0, |jobs|, p).Some? then LastIn(jobs, 0, |jobs|, p) else Get(m, p)
    ensures LastIn(jobs, 0, |jobs|, p).None? <==> forall i :: 0 <= i < |jobs| ==> !Writes(jobs, i, p)
  {
    InOrderIs(m, jobs);
    if LastIn(jobs, 0, |jobs|, p).Some? {
      var i := LastFound(jobs, 0, |jobs|, p);
    } else if i :| 0 <= i < |jobs| && Writes(jobs, i, p) {
      LastSplit(jobs, 0, i, |jobs|, p);
      LastSplit(jobs, i, i + 1, |jobs|, p);
    }
  }

  /** A path no job writes is left alone by every run. */
  lemma LeftAlone(m: Dir, jobs: seq<Job<Path, seq<byte>>>, nt: nat, m': Dir, p: Path)
    requires Leaves(m, jobs, nt, m') && forall i :: 0 <= i < |jobs| ==> !Writes(jobs, i, p)
    ensures Get(m', p) == Get(m, p)
  {
    forall w: nat | w < nt ensures LastOf(jobs, nt, w, p).None? {
      RangesFollow(|jobs|, nt, w);
      LastNone(jobs, RangeStart(|jobs|, nt, w), RangeEnd(|jobs|, nt, w), p);
    }
    LeftWhereAgreed(m, jobs, nt, m', p);
    InOrderAt(m, jobs, p);
  }

  /** Only writable paths differ. */
  ghost predicate WritableOnly(outLen: nat, m: Dir, m': Dir) {
    forall p :: Lookup(m', p) != Lookup(m, p) ==> Writable(outLen, p)
  }

  lemma BatchWritable(step: Compression, file: seq<byte>, h: Header, outLen: nat, es: seq<Entry>, stale: seq<seq<byte>>,
                      cpus: int, m: Dir, m': Dir)
    requires |stale| == |es|
    requires Leaves(m, BatchJobs(step, file, h, outLen, es, stale), Writers(cpus, |es|), m')
    ensures WritableOnly(outLen, m, m')
  {
    var jobs := BatchJobs(step, file, h, outLen, es, stale);
    forall p | !Writable(outLen, p) ensures Lookup(m', p) == Lookup(m, p) {
      forall i | 0 <= i < |jobs| ensures !Writes(jobs, i, p) {
        JobWritable(file, h, outLen, es[i], FlagsOf(step, file, es, stale)[i]);
      }
      LeftAlone(m, jobs, Writers(cpus, |es|), m', p);
      assert Get(m', p) == Lookup(m', p) && Get(m, p) == Lookup(m, p);
    }
  }

  /** One round of the batch loop, for any batch and whatever the hash array held before, until it leaves its
      buffer. */
  method ExtractBatch(step: Compression, file: seq<byte>, h: Header, es: seq<Entry>, stale: seq<seq<byte>>, outLen: nat,
                      dst: Folder, cpus: int, before: nat)
      returns (errors: nat, strayed: bool)
    requires |stale| == |es|
    modifies dst
    ensures strayed <==> Strays(file, es)
    ensures !strayed ==> errors == before + Falses(FlagsOf(step, file, es, stale))
    ensures !strayed ==>
              Leaves(old(dst.files), BatchJobs(step, file, h, outLen, es, stale), Writers(cpus, |es|), dst.files)
    ensures WritableOnly(outLen, old(dst.files), dst.files)
  {
    var paths := Mapped(PathsOf(file, h), es);
    var flat, offsets, sizes, ok, bad;
    strayed, flat, offsets, sizes, ok, bad := LoadAndHash(step, file, es, stale, cpus);
    if strayed { return before, true; }
    WritesOfBatch(step, file, h, outLen, es, stale, flat, offsets, sizes);
    ghost var from := dst.files;
    WriteParallel(paths, ok, flat, offsets, sizes, outLen, dst, cpus, BatchJobs(step, file, h, outLen, es, stale));
    BatchWritable(step, file, h, outLen, es, stale, cpus, from, dst.files);
    return before + bad, false;
  }

  // ---- The batch loop ----

  function NextBatch(left: nat, filesPerBatch: nat): (n: nat)
    requires left > 0 && filesPerBatch > 0
    ensures 0 < n <= left
  {
    if left > filesPerBatch then filesPerBatch else left
  }

  /** Files and errors after the batches of es, taken in order and each written by one thread. */
  ghost function Batched(step: Compression, file: seq<byte>, h: Header, outLen: nat, es: seq<Entry>,
                         stale: seq<seq<byte>>, n: nat, o: Outcome): Outcome
    requires n > 0 && |stale| == |es|
    decreases |es|
  {
    if es == [] then o
    else
      var k := NextBatch(|es|, n);
      Batched(step, file, h, outLen, es[k..], stale[k..], n, AfterBatch(step, file, h, outLen, es[..k], stale[..k], o))
  }

  /** The entries of the batches that do not pass. */
  ghost function ErrorsIn(step: Compression, file: seq<byte>, es: seq<Entry>, stale: seq<seq<byte>>, n: nat): nat
    requires n > 0 && |stale| == |es|
    decreases |es|
  {
    if es == [] then 0
    else
      var k := NextBatch(|es|, n);
      Falses(FlagsOf(step, file, es[..k], stale[..k])) + ErrorsIn(step, file, es[k..], stale[k..], n)
  }

  lemma {:induction false} BatchedErrors(step: Compression, file: seq<byte>, h: Header, outLen: nat, es: seq<Entry>,
                                         stale: seq<seq<byte>>, n: nat, o: Outcome)
    requires n > 0 && |stale| == |es|
    ensures Batched(step, file, h, outLen, es, stale, n, o).errors == o.errors + ErrorsIn(step, file, es, stale, n)
    decreases |es|
  {
    if es != [] {
      var k := NextBatch(|es|, n);
      BatchedErrors(step, file, h, outLen, es[k..], stale[k..], n,
                    AfterBatch(step, file, h, outLen, es[..k], stale[..k], o));
    }
  }

  /** Some batch leaves its buffer. */
  ghost predicate SomeStrays(file: seq<byte>, es: seq<Entry>, n: nat)
    requires n > 0
    decreases |es|
  {
    es != [] &&
    var k := NextBatch(|es|, n);
    Strays(file, es[..k]) || SomeStrays(file, es[k..], n)
  }

  /** What the batches may leave, each written by its threads in some interleaving. */
  ghost predicate BatchesLeave(step: Compression, file: seq<byte>, h: Header, outLen: nat, es: seq<Entry>,
                               stale: seq<seq<byte>>, n: nat, cpus: int, m: Dir, m': Dir)
    requires n > 0 && |stale| == |es|
    decreases |es|
  {
    if es == [] then m' == m
    else
      var k := NextBatch(|es|, n);
      exists mid ::
        Leaves(m, BatchJobs(step, file, h, outLen, es[..k], stale[..k]), Writers(cpus, k), mid) &&
        BatchesLeave(step, file, h, outLen, es[k..], stale[k..], n, cpus, mid, m')
  }

  /** Some batch writes p. */
  ghost predicate WritesIn(step: Compression, file: seq<byte>, h: Header, outLen: nat, es: seq<Entry>,
                           stale: seq<seq<byte>>, n: nat, p: Path)
    requires n > 0 && |stale| == |es|
    decreases |es|
  {
    es != [] &&
    var k := NextBatch(|es|, n);
    || WritesNow(step, file, h, outLen, es[..k], stale[..k], p)
    || WritesIn(step, file, h, outLen, es[k..], stale[k..], n, p)
  }

  ghost predicate WritesNow(step: Compression, file: seq<byte>, h: Header, outLen: nat, es: seq<Entry>,
                            stale: seq<seq<byte>>, p: Path)
    requires |stale| == |es|
  {
    exists i :: 0 <= i < |es| && Writes(BatchJobs(step, file, h, outLen, es, stale), i, p)
  }

  /** In the last batch that writes p, the threads agree on what they write to it last. */
  ghost predicate Settled(step: Compression, file: seq<byte>, h: Header, outLen: nat, es: seq<Entry>,
                          stale: seq<seq<byte>>, n: nat, cpus: int, p: Path)
    requires n > 0 && |stale| == |es|
    decreases |es|
  {
    es == [] ||
    var k := NextBatch(|es|, n);
    if WritesIn(step, file, h, outLen, es[k..], stale[k..], n, p) then
      Settled(step, file, h, outLen, es[k..], stale[k..], n, cpus, p)
    else Agree(BatchJobs(step, file, h, outLen, es[..k], stale[..k]), Writers(cpus, k), p)
  }

  lemma {:induction false} NotWritten(step: Compression, file: seq<byte>, h: Header, outLen: nat, es: seq<Entry>,
                                      stale: seq<seq<byte>>, n: nat, cpus: int, m: Dir, m': Dir, p: Path)
    requires n > 0 && |stale| == |es| && BatchesLeave(step, file, h, outLen, es, stale, n, cpus, m, m')
    requires !WritesIn(step, file, h, outLen, es, stale, n, p)
    ensures Get(m', p) == Get(m, p)
    decreases |es|
  {
    if es != [] {
      var k := NextBatch(|es|, n);
      var jobs := BatchJobs(step, file, h, outLen, es[..k], stale[..k]);
      var mid :| Leaves(m, jobs, Writers(cpus, k), mid) &&
                 BatchesLeave(step, file, h, outLen, es[k..], stale[k..], n, cpus, mid, m');
      LeftAlone(m, jobs, Writers(cpus, k), mid, p);
      NotWritten(step, file, h, outLen, es[k..], stale[k..], n, cpus, mid, m', p);
    }
  }

  /** One thread after the other in every batch is one of the runs. */
  lemma {:induction false} BatchedLeft(step: Compression, file: seq<byte>, h: Header, outLen: nat, es: seq<Entry>,
                                       stale: seq<seq<byte>>, n: nat, cpus: int, o: Outcome)
    requires n > 0 && |stale| == |es|
    ensures BatchesLeave(step, file, h, outLen, es, stale, n, cpus, o.dir,
                         Batched(step, file, h, outLen, es, stale, n, o).dir)
    decreases |es|
  {
    if es != [] {
      var k := NextBatch(|es|, n);
      InOrderLeft(o.dir, BatchJobs(step, file, h, outLen, es[..k], stale[..k]), Writers(cpus, k));
      BatchedLeft(step, file, h, outLen, es[k..], stale[k..], n, cpus,
                  AfterBatch(step, file, h, outLen, es[..k], stale[..k], o));
    }
  }

  /** Runs from two directories end with the same contents of a settled path that some batch writes or on which the
      directories agree. */
  lemma {:induction false} SettledValue(step: Compression, file: seq<byte>, h: Header, outLen: nat, es: seq<Entry>,
                                        stale: seq<seq<byte>>, n: nat, cpus: int, a: Dir, a': Dir, b: Dir, b': Dir,
                                        p: Path)
    requires n > 0 && |stale| == |es| && Settled(step, file, h, outLen, es, stale, n, cpus, p)
    requires BatchesLeave(step, file, h, outLen, es, stale, n, cpus, a, a')
    requires BatchesLeave(step, file, h, outLen, es, stale, n, cpus, b, b')
    requires WritesIn(step, file, h, outLen, es, stale, n, p) || Get(a, p) == Get(b, p)
    ensures Get(a', p) == Get(b', p)
    decreases |es|
  {
    if es != [] {
      var k := NextBatch(|es|, n);
      var jobs, nt := BatchJobs(step, file, h, outLen, es[..k], stale[..k]), Writers(cpus, k);
      var c :| Leaves(a, jobs, nt, c) && BatchesLeave(step, file, h, outLen, es[k..], stale[k..], n, cpus, c, a');
      var d :| Leaves(b, jobs, nt, d) && BatchesLeave(step, file, h, outLen, es[k..], stale[k..], n, cpus, d, b');
      if WritesIn(step, file, h, outLen, es[k..], stale[k..], n, p) {
        SettledValue(step, file, h, outLen, es[k..], stale[k..], n, cpus, c, a', d, b', p);
      } else {
        NotWritten(step, file, h, outLen, es[k..], stale[k..], n, cpus, c, a', p);
        NotWritten(step, file, h, outLen, es[k..], stale[k..], n, cpus, d, b', p);
        AgreedRuns(a, b, jobs, nt, c, d, p);
      }
    }
  }

  lemma AgreedRuns(a: Dir, b: Dir, jobs: seq<Job<Path, seq<byte>>>, nt: nat, c: Dir, d: Dir, p: Path)
    requires Leaves(a, jobs, nt, c) && Leaves(b, jobs, nt, d) && Agree(jobs, nt, p)
    requires Get(a, p) == Get(b, p) || exists i :: 0 <= i < |jobs| && Writes(jobs, i, p)
    ensures Get(c, p) == Get(d, p)
  {
    LeftWhereAgreed(a, jobs, nt, c, p);
    LeftWhereAgreed(b, jobs, nt, d, p);
    InOrderAt(a, jobs, p);
    InOrderAt(b, jobs, p);
  }

  /** Two runs differ on a path that is not settled. */
  lemma {:induction false} UnsettledRuns(step: Compression, file: seq<byte>, h: Header, outLen: nat, es: seq<Entry>,
                                         stale: seq<seq<byte>>, n: nat, cpus: int, m: Dir, p: Path)
      returns (a: Dir, b: Dir)
    requires n > 0 && |stale| == |es| && !Settled(step, file, h, outLen, es, stale, n, cpus, p)
    ensures BatchesLeave(step, file, h, outLen, es, stale, n, cpus, m, a)
    ensures BatchesLeave(step, file, h, outLen, es, stale, n, cpus, m, b)
    ensures Get(a, p) != Get(b, p)
    decreases |es|
  {
    var k := NextBatch(|es|, n);
    var jobs, nt := BatchJobs(step, file, h, outLen, es[..k], stale[..k]), Writers(cpus, k);
    if WritesIn(step, file, h, outLen, es[k..], stale[k..], n, p) {
      InOrderLeft(m, jobs, nt);
      a, b := UnsettledRuns(step, file, h, outLen, es[k..], stale[k..], n, cpus, InOrder(m, jobs), p);
    } else {
      var c, d := Disagreement(m, jobs, nt, p);
      a := Batched(step, file, h, outLen, es[k..], stale[k..], n, Outcome(c, 0)).dir;
      b := Batched(step, file, h, outLen, es[k..], stale[k..], n, Outcome(d, 0)).dir;
      BatchedLeft(step, file, h, outLen, es[k..], stale[k..], n, cpus, Outcome(c, 0));
      BatchedLeft(step, file, h, outLen, es[k..], stale[k..], n, cpus, Outcome(d, 0));
      NotWritten(step, file, h, outLen, es[k..], stale[k..], n, cpus, c, a, p);
      NotWritten(step, file, h, outLen, es[k..], stale[k..], n, cpus, d, b, p);
    }
  }

  /** The interleaving of the threads does not matter for a path if and only if it is settled, and then its contents are
      those of the batches written by one thread. */
  lemma {:induction false} InterleavingIrrelevant(step: Compression, file: seq<byte>, h: Header, outLen: nat,
                                                  es: seq<Entry>, stale: seq<seq<byte>>, n: nat, cpus: int, o: Outcome,
                                                  p: Path)
    requires n > 0 && |stale| == |es|
    ensures (forall m' :: BatchesLeave(step, file, h, outLen, es, stale, n, cpus, o.dir, m') ==>
                            Get(m', p) == Get(Batched(step, file, h, outLen, es, stale, n, o).dir, p))
            <==> Settled(step, file, h, outLen, es, stale, n, cpus, p)
  {
    if Settled(step, file, h, outLen, es, stale, n, cpus, p) {
      forall m' | BatchesLeave(step, file, h, outLen, es, stale, n, cpus, o.dir, m')
        ensures Get(m', p) == Get(Batched(step, file, h, outLen, es, stale, n, o).dir, p)
      {
        BatchedLeft(step, file, h, outLen, es, stale, n, cpus, o);
        SettledValue(step, file, h, outLen, es, stale, n, cpus, o.dir, m', o.dir,
                     Batched(step, file, h, outLen, es, stale, n, o).dir, p);
      }
    } else {
      var a, b := UnsettledRuns(step, file, h, outLen, es, stale, n, cpus, o.dir, p);
    }
  }

  /** Every path is settled. */
  ghost predicate AllSettled(step: Compression, file: seq<byte>, h: Header, outLen: nat, es: seq<Entry>,
                             stale: seq<seq<byte>>, n: nat, cpus: int)
    requires n > 0 && |stale| == |es|
  {
    forall p :: Settled(step, file, h, outLen, es, stale, n, cpus, p)
  }

  lemma {:induction false} AllSettledFiles(step: Compression, file: seq<byte>, h: Header, outLen: nat, es: seq<Entry>,
                                           stale: seq<seq<byte>>, n: nat, cpus: int, o: Outcome, m': Dir)
    requires n > 0 && |stale| == |es| && AllSettled(step, file, h, outLen, es, stale, n, cpus)
    requires BatchesLeave(step, file, h, outLen, es, stale, n, cpus, o.dir, m')
    ensures m' == Batched(step, file, h, outLen, es, stale, n, o).dir
  {
    forall p ensures Get(m', p) == Get(Batched(step, file, h, outLen, es, stale, n, o).dir, p) {
      InterleavingIrrelevant(step, file, h, outLen, es, stale, n, cpus, o, p);
    }
    SameMaps(m', Batched(step, file, h, outLen, es, stale, n, o).dir);
  }

  /** Every batch of n consecutive entries, and the last one, has its hashes computed if it has any entry to check. */
  ghost predicate HaveData(file: seq<byte>, es: seq<Entry>, n: nat)
    requires n > 0
    decreases |es|
  {
    es == [] ||
    var k := NextBatch(|es|, n);
    Hashed(file, es[..k]) && HaveData(file, es[k..], n)
  }

  /** The batch loop of paf_extractor_gpu_run, for any batch size; left and unset are what is not processed yet. */
  method ExtractAll(step: Compression, file: seq<byte>, h: Header, es: seq<Entry>, stale: seq<seq<byte>>,
                    filesPerBatch: nat, outLen: nat, dst: Folder, cpus: int) returns (errors: nat, strayed: bool)
    requires filesPerBatch > 0 && |stale| == |es|
    modifies dst
    ensures strayed <==> SomeStrays(file, es, filesPerBatch)
    ensures !strayed ==> errors == ErrorsIn(step, file, es, stale, filesPerBatch)
    ensures !strayed ==>
              BatchesLeave(step, file, h, outLen, es, stale, filesPerBatch, cpus, old(dst.files), dst.files)
    ensures WritableOnly(outLen, old(dst.files), dst.files)
  {
    errors := 0;
    var left, unset := es, stale;
    while left != []
      invariant |unset| == |left| && WritableOnly(outLen, old(dst.files), dst.files)
      invariant SomeStrays(file, left, filesPerBatch) <==> SomeStrays(file, es, filesPerBatch)
      invariant errors + ErrorsIn(step, file, left, unset, filesPerBatch)
             == ErrorsIn(step, file, es, stale, filesPerBatch)
      invariant forall m' :: BatchesLeave(step, file, h, outLen, left, unset, filesPerBatch, cpus, dst.files, m') ==>
                               BatchesLeave(step, file, h, outLen, es, stale, filesPerBatch, cpus, old(dst.files), m')
      decreases |left|
    {
      var n := NextBatch(|left|, filesPerBatch);
      errors, strayed := ExtractBatch(step, file, h, left[..n], unset[..n], outLen, dst, cpus, errors);
      if strayed { return; }
      left, unset := left[n..], unset[n..];
    }
    return errors, false;
  }

  lemma {:induction false} FalsesAppend(a: seq<bool>, b: seq<bool>)
    ensures Falses(a + b) == Falses(a) + Falses(b)
    decreases |b|
  {
    if b == [] {
      assert a + b == a;
    } else {
      var n := |b| - 1;
      FalsesAppend(a, b[..n]);
      assert (a + b)[..|a + b| - 1] == a + b[..n];
    }
  }

  lemma MappedAppend<A, B>(f: A -> B, a: seq<A>, b: seq<A>)
    ensures Mapped(f, a + b) == Mapped(f, a) + Mapped(f, b)
  {
  }

  /** A part of the entries, then the rest: files and errors add up. */
  lemma {:induction false} OneMoreBatch(step: Compression, file: seq<byte>, h: Header, outLen: nat, es: seq<Entry>,
                                        m: Dir, k: nat)
    requires k <= |es|
    ensures InOrder(InOrder(m, JobsOf(step, file, h, outLen, es[..k])), JobsOf(step, file, h, outLen, es[k..]))
         == InOrder(m, JobsOf(step, file, h, outLen, es))
    ensures ErrorCount(step, file, es[..k]) + ErrorCount(step, file, es[k..]) == ErrorCount(step, file, es)
  {
    assert es == es[..k] + es[k..];
    MappedAppend(JobOf(step, file, h, outLen), es[..k], es[k..]);
    InOrderAppend(m, JobsOf(step, file, h, outLen, es[..k]), JobsOf(step, file, h, outLen, es[k..]));
    MappedAppend(VerifiedIn(step, file), es[..k], es[k..]);
    FalsesAppend(Mapped(VerifiedIn(step, file), es[..k]), Mapped(VerifiedIn(step, file), es[k..]));
  }

  /** Batching is invisible when no batch is compared with unset hashes: files and errors are those of one sequential
      pass. */
  lemma {:induction false} BatchesAgree(step: Compression, file: seq<byte>, h: Header, outLen: nat, es: seq<Entry>,
                                        stale: seq<seq<byte>>, n: nat, o: Outcome)
    requires n > 0 && |stale| == |es| && HaveData(file, es, n)
    ensures Batched(step, file, h, outLen, es, stale, n, o)
         == Outcome(InOrder(o.dir, JobsOf(step, file, h, outLen, es)), o.errors + ErrorCount(step, file, es))
    decreases |es|
  {
    if es != [] {
      var k := NextBatch(|es|, n);
      DataJobs(step, file, h, outLen, es[..k], stale[..k]);
      HashedFlags(step, file, es[..k], stale[..k]);
      OneMoreBatch(step, file, h, outLen, es, o.dir, k);
      BatchesAgree(step, file, h, outLen, es[k..], stale[k..], n,
                   AfterBatch(step, file, h, outLen, es[..k], stale[..k], o));
    }
  }

  lemma DistinctParts<K, V>(a: seq<Job<K, V>>, b: seq<Job<K, V>>)
    requires DistinctKeys(a + b)
    ensures DistinctKeys(a) && DistinctKeys(b)
  {
    forall i, j | 0 <= i < j < |a| && a[i].Put? && a[j].Put? ensures a[i].key != a[j].key {
      assert (a + b)[i] == a[i] && (a + b)[j] == a[j];
    }
    forall i, j | 0 <= i < j < |b| && b[i].Put? && b[j].Put? ensures b[i].key != b[j].key {
      assert (a + b)[|a| + i] == b[i] && (a + b)[|a| + j] == b[j];
    }
  }

  lemma OneBatchSettled(step: Compression, file: seq<byte>, h: Header, outLen: nat, es: seq<Entry>,
                        stale: seq<seq<byte>>, cpus: int, p: Path)
    requires |stale| == |es| && DistinctKeys(BatchJobs(step, file, h, outLen, es, stale))
    ensures Agree(BatchJobs(step, file, h, outLen, es, stale), Writers(cpus, |es|), p)
  {
    DistinctAgree(BatchJobs(step, file, h, outLen, es, stale), Writers(cpus, |es|), p);
  }

  /** When the verified entries have different paths, every path is settled. */
  lemma {:induction false} DistinctSettled(step: Compression, file: seq<byte>, h: Header, outLen: nat, es: seq<Entry>,
                                           stale: seq<seq<byte>>, n: nat, cpus: int, p: Path)
    requires n > 0 && |stale| == |es| && HaveData(file, es, n) && DistinctKeys(JobsOf(step, file, h, outLen, es))
    ensures Settled(step, file, h, outLen, es, stale, n, cpus, p)
    decreases |es|
  {
    if es != [] {
      var k := NextBatch(|es|, n);
      assert es == es[..k] + es[k..];
      MappedAppend(JobOf(step, file, h, outLen), es[..k], es[k..]);
      DistinctParts(JobsOf(step, file, h, outLen, es[..k]), JobsOf(step, file, h, outLen, es[k..]));
      DataJobs(step, file, h, outLen, es[..k], stale[..k]);
      OneBatchSettled(step, file, h, outLen, es[..k], stale[..k], cpus, p);
      DistinctSettled(step, file, h, outLen, es[k..], stale[k..], n, cpus, p);
    }
  }

  // ---- Batches without data ----

  function DigestField(): Entry -> seq<byte> {
    (e: Entry) => e.digest
  }

  /** Thirty-two bytes that are not the digest of the entry. */
  function OtherDigest(): Entry -> seq<byte> {
    (e: Entry) => if e.digest == seq(32, _ => 0) then seq(32, _ => 1) else seq(32, _ => 0)
  }

  lemma OthersDiffer(e: Entry)
    ensures |OtherDigest()(e)| == 32 && OtherDigest()(e) != e.digest
  {
    assert seq<byte>(32, _ => 0)[0] != seq<byte>(32, _ => 1)[0];
  }

  lemma {:induction false} AllTrue(flags: seq<bool>)
    requires forall i :: 0 <= i < |flags| ==> flags[i]
    ensures Falses(flags) == 0
  {
    if flags != [] {
      AllTrue(flags[..|flags| - 1]);
    }
  }

  lemma {:induction false} FalsesBelow(a: seq<bool>, b: seq<bool>)
    requires |a| == |b| && forall i :: 0 <= i < |b| && b[i] ==> a[i]
    ensures Falses(a) <= Falses(b)
    ensures (exists i :: 0 <= i < |a| && a[i] && !b[i]) ==> Falses(a) < Falses(b)
  {
    if a != [] {
      FalsesBelow(a[..|a| - 1], b[..|b| - 1]);
    }
  }

  /** A batch whose hashes are not computed counts more or fewer errors, by what the hash array holds. */
  lemma {:induction false} BatchErrors(step: Compression, file: seq<byte>, es: seq<Entry>)
    ensures var least, most := Falses(FlagsOf(step, file, es, Mapped(DigestField(), es))),
                               Falses(FlagsOf(step, file, es, Mapped(OtherDigest(), es)));
            if Hashed(file, es) then least == most else least < most
  {
    var least := FlagsOf(step, file, es, Mapped(DigestField(), es));
    var most := FlagsOf(step, file, es, Mapped(OtherDigest(), es));
    if Hashed(file, es) {
      HashedFlags(step, file, es, Mapped(DigestField(), es));
      HashedFlags(step, file, es, Mapped(OtherDigest(), es));
    } else {
      forall e ensures OtherDigest()(e) != e.digest {
        OthersDiffer(e);
      }
      var i :| 0 <= i < |es| && |Stored(file, es[i])| == es[i].dataSize;
      assert least[i] && !most[i];
      FalsesBelow(least, most);
    }
  }

  lemma MappedDrop<A, B>(f: A -> B, s: seq<A>, k: nat)
    requires k <= |s|
    ensures Mapped(f, s[k..]) == Mapped(f, s)[k..] && Mapped(f, s[..k]) == Mapped(f, s)[..k]
  {
  }

  lemma {:induction false} ErrorsApart(step: Compression, file: seq<byte>, h: Header, outLen: nat, es: seq<Entry>,
                                       n: nat, a: Outcome, b: Outcome)
    requires n > 0 && a.errors <= b.errors
    ensures var none := Batched(step, file, h, outLen, es, Mapped(DigestField(), es), n, a).errors;
            var all := Batched(step, file, h, outLen, es, Mapped(OtherDigest(), es), n, b).errors;
            none <= all && (a.errors < b.errors || !HaveData(file, es, n) ==> none < all)
    decreases |es|
  {
    if es != [] {
      var k := NextBatch(|es|, n);
      MappedDrop(DigestField(), es, k);
      MappedDrop(OtherDigest(), es, k);
      BatchErrors(step, file, es[..k]);
      var a' := AfterBatch(step, file, h, outLen, es[..k], Mapped(DigestField(), es[..k]), a);
      var b' := AfterBatch(step, file, h, outLen, es[..k], Mapped(OtherDigest(), es[..k]), b);
      ErrorsApart(step, file, h, outLen, es[k..], n, a', b');
    }
  }

  lemma OtherUnset(es: seq<Entry>)
    ensures Unset(Mapped(OtherDigest(), es), es)
  {
    forall i | 0 <= i < |es| ensures |OtherDigest()(es[i])| == 32 {
      OthersDiffer(es[i]);
    }
  }

  /** The result does not depend on what the hash arrays held before if and only if no batch is compared with them. */
  lemma {:induction false} StaleIrrelevant(step: Compression, file: seq<byte>, h: Header, outLen: nat, es: seq<Entry>,
                                           n: nat, o: Outcome)
    requires n > 0 && forall i :: 0 <= i < |es| ==> |es[i].digest| == 32
    ensures (forall x, y :: Unset(x, es) && Unset(y, es) ==>
                              Batched(step, file, h, outLen, es, x, n, o)
                              == Batched(step, file, h, outLen, es, y, n, o))
            <==> HaveData(file, es, n)
  {
    if HaveData(file, es, n) {
      forall x, y | Unset(x, es) && Unset(y, es)
        ensures Batched(step, file, h, outLen, es, x, n, o) == Batched(step, file, h, outLen, es, y, n, o)
      {
        BatchesAgree(step, file, h, outLen, es, x, n, o);
        BatchesAgree(step, file, h, outLen, es, y, n, o);
      }
    } else {
      ErrorsApart(step, file, h, outLen, es, n, o, o);
      OtherUnset(es);
      assert Unset(Mapped(DigestField(), es), es);
    }
  }

  /** The running 64-bit sum of the data sizes. */
  method SumSizes(es: seq<Entry>) returns (total: nat)
    ensures total == Wrap64(TotalSize(es))
  {
    total := 0;
    for i := 0 to |es|
      invariant total == Wrap64(TotalSize(es[..i]))
    {
      NextOffset(es, i);
      total := Wrap64(total + es[i].dataSize);
    }
    assert es[..|es|] == es;
  }

  /** The average file size as the 64-bit sum gives it, 1 MiB for an empty archive and at least 1. */
  function AverageOf(es: seq<Entry>): nat {
    var average := if es == [] then 1024 * 1024 else Wrap64(TotalSize(es)) / |es|;
    if average < 1 then 1 else average
  }

  method AverageSize(es: seq<Entry>) returns (average: nat)
    ensures average == AverageOf(es)
  {
    var total := SumSizes(es);
    average := 1024 * 1024;
    if |es| > 0 {
      average := total / |es|;
    }
    if average < 1 { average := 1; }
  }

  /** The batch size of a run. */
  function BatchFor(vram: nat, es: seq<Entry>): (n: nat)
    ensures n > 0
  {
    BatchSize(vram, |es|, AverageOf(es))
  }

  /** What a run leaves, as far as the threads agree and no batch is compared with unset hashes. */
  lemma {:induction false} ResultOfRun(step: Compression, file: seq<byte>, h: Header, outLen: nat, es: seq<Entry>,
                                       stale: seq<seq<byte>>, n: nat, cpus: int, m: Dir, m': Dir)
    requires n > 0 && |stale| == |es| && BatchesLeave(step, file, h, outLen, es, stale, n, cpus, m, m')
    ensures AllSettled(step, file, h, outLen, es, stale, n, cpus) ==>
              Outcome(m', ErrorsIn(step, file, es, stale, n))
              == Batched(step, file, h, outLen, es, stale, n, Outcome(m, 0))
    ensures HaveData(file, es, n) ==>
              ErrorsIn(step, file, es, stale, n) == ErrorCount(step, file, es)
              && (AllSettled(step, file, h, outLen, es, stale, n, cpus) ==>
                    m' == InOrder(m, JobsOf(step, file, h, outLen, es)))
  {
    var o := Outcome(m, 0);
    BatchedErrors(step, file, h, outLen, es, stale, n, o);
    if AllSettled(step, file, h, outLen, es, stale, n, cpus) {
      AllSettledFiles(step, file, h, outLen, es, stale, n, cpus, o, m');
    }
    if HaveData(file, es, n) {
      BatchesAgree(step, file, h, outLen, es, stale, n, o);
    }
  }

  // ---- Extracting a well-formed archive ----

  /** A member stored whole under its own digest, with a path the extractor writes. */
  ghost predicate Extractable(step: Compression, outLen: nat, it: Item) {
    && |it.path| < 1024 && 0 !in it.path && Writable(outLen, it.path)
    && it.size == |it.stored| && it.digest == DigestWith(step, it.stored)
  }

  lemma {:induction false} MemberStored(f: seq<byte>, h: Header, items: seq<Item>, k: nat)
    requires IsArchive(f, h, items) && k < |items| && items[k].size == |items[k].stored|
    ensures var e := Entries(items)[k];
            Stored(f, e) == items[k].stored && e.dataSize == |items[k].stored| && e.digest == items[k].digest
  {
    ArchiveMember(f, h, items, k);
  }

  lemma {:induction false} MemberPath(f: seq<byte>, h: Header, items: seq<Item>, k: nat)
    requires IsArchive(f, h, items) && k < |items|
    requires 0 < |items[k].path| < PATH_BUFFER && 0 !in items[k].path && SafeName(items[k].path)
    ensures OutPath(f, h, Entries(items)[k]) == items[k].path
  {
    StagedApply.MemberPathRead(f, h, items, k);
  }

  lemma {:induction false} MemberJob(step: Compression, f: seq<byte>, h: Header, items: seq<Item>, outLen: nat, k: nat)
    requires IsArchive(f, h, items) && k < |items| && Extractable(step, outLen, items[k])
    ensures Verified(step, f, Entries(items)[k])
    ensures JobOf(step, f, h, outLen)(Entries(items)[k]) == Put(items[k].path, items[k].stored)
  {
    WritableIff(outLen, items[k].path);
    MemberStored(f, h, items, k);
    MemberPath(f, h, items, k);
  }

  /** The jobs of an archive put every member's bytes under its path, and none fails. */
  lemma {:induction false} ArchiveJobs(step: Compression, f: seq<byte>, h: Header, items: seq<Item>, outLen: nat)
    requires IsArchive(f, h, items) && forall k :: 0 <= k < |items| ==> Extractable(step, outLen, items[k])
    ensures var jobs := JobsOf(step, f, h, outLen, Entries(items));
            |jobs| == |items| && forall k :: 0 <= k < |items| ==> jobs[k] == Put(items[k].path, items[k].stored)
    ensures ErrorCount(step, f, Entries(items)) == 0
  {
    forall k | 0 <= k < |items|
      ensures Verified(step, f, Entries(items)[k])
      ensures JobOf(step, f, h, outLen)(Entries(items)[k]) == Put(items[k].path, items[k].stored)
    {
      MemberJob(step, f, h, items, outLen, k);
    }
    AllTrue(Mapped(VerifiedIn(step, f), Entries(items)));
  }

  /** The sequential loop over jobs with distinct keys, key by key. */
  lemma {:induction false} FilesAfter(m: Dir, jobs: seq<Job<Path, seq<byte>>>, p: Path)
    requires DistinctKeys(jobs)
    ensures forall k :: 0 <= k < |jobs| && Writes(jobs, k, p) ==> Lookup(InOrder(m, jobs), p) == Some(jobs[k].value)
    ensures (forall k :: 0 <= k < |jobs| ==> !Writes(jobs, k, p)) ==> Lookup(InOrder(m, jobs), p) == Lookup(m, p)
  {
    InOrderAt(m, jobs, p);
    forall k | 0 <= k < |jobs| && Writes(jobs, k, p) ensures LastIn(jobs, 0, |jobs|, p) == Some(jobs[k].value) {
      LastOnly(jobs, 0, |jobs|, k, p);
    }
    assert Get(InOrder(m, jobs), p) == Lookup(InOrder(m, jobs), p) && Get(m, p) == Lookup(m, p);
  }

  /** Extraction puts every member's bytes under its path, reports no error and touches no other file. */
  lemma {:induction false} ArchiveExtracts(step: Compression, f: seq<byte>, h: Header, items: seq<Item>, outLen: nat,
                                           m: Dir, p: Path)
    requires IsArchive(f, h, items) && forall k :: 0 <= k < |items| ==> Extractable(step, outLen, items[k])
    requires forall j, k :: 0 <= j < k < |items| ==> items[j].path != items[k].path
    ensures var jobs := JobsOf(step, f, h, outLen, Entries(items));
            && DistinctKeys(jobs) && ErrorCount(step, f, Entries(items)) == 0
            && (forall k :: 0 <= k < |items| && items[k].path == p ==>
                  Lookup(InOrder(m, jobs), p) == Some(items[k].stored))
            && ((forall k :: 0 <= k < |items| ==> items[k].path != p) ==> Lookup(InOrder(m, jobs), p) == Lookup(m, p))
  {
    ArchiveJobs(step, f, h, items, outLen);
    FilesAfter(m, JobsOf(step, f, h, outLen, Entries(items)), p);
  }

  /** The file is an archive of these members, all of them extractable, under different paths and within 64 bits. */
  ghost predicate ArchiveOf(step: Compression, f: seq<byte>, h: Header, es: seq<Entry>, outLen: nat, items: seq<Item>) {
    && IsArchive(f, h, items) && es == Entries(items) && TotalSize(es) < U64_LIMIT
    && (forall k :: 0 <= k < |items| ==> Extractable(step, outLen, items[k]))
    && (forall j, k :: 0 <= j < k < |items| ==> items[j].path != items[k].path)
  }

  /** Every member's bytes are under its path, and no other path has changed. */
  ghost predicate Landed(items: seq<Item>, m: Dir, m': Dir) {
    forall p ::
      && (forall k :: 0 <= k < |items| && items[k].path == p ==> Lookup(m', p) == Some(items[k].stored))
      && ((forall k :: 0 <= k < |items| ==> items[k].path != p) ==> Lookup(m', p) == Lookup(m, p))
  }

  lemma {:induction false} TotalAppend(a: seq<Entry>, b: seq<Entry>)
    ensures TotalSize(a + b) == TotalSize(a) + TotalSize(b)
    decreases |b|
  {
    if b == [] {
      assert a + b == a;
    } else {
      TotalAppend(a, b[..|b| - 1]);
      assert (a + b)[..|a + b| - 1] == a + b[..|b| - 1];
    }
  }

  /** While all sizes together fit 64 bits no batch leaves its buffer. */
  lemma {:induction false} NoneStray(file: seq<byte>, es: seq<Entry>, n: nat)
    requires n > 0 && TotalSize(es) < U64_LIMIT
    ensures !SomeStrays(file, es, n)
    decreases |es|
  {
    if es != [] {
      var k := NextBatch(|es|, n);
      assert es == es[..k] + es[k..];
      TotalAppend(es[..k], es[k..]);
      StraysIff(file, es[..k]);
      NoneStray(file, es[k..], n);
    }
  }

  predicate NoneEmpty(es: seq<Entry>) {
    forall i :: 0 <= i < |es| ==> es[i].dataSize > 0
  }

  /** Entries that all have data leave no batch without hashes. */
  lemma {:induction false} DataEverywhere(file: seq<byte>, es: seq<Entry>, n: nat)
    requires n > 0 && TotalSize(es) < U64_LIMIT && NoneEmpty(es)
    ensures HaveData(file, es, n)
    decreases |es|
  {
    if es != [] {
      var k := NextBatch(|es|, n);
      assert es == es[..k] + es[k..];
      TotalAppend(es[..k], es[k..]);
      Unwrapped(TotalSize(es[..k]));
      DataEverywhere(file, es[k..], n);
    }
  }

  /** However the archive is cut into batches and the threads interleave, all members land. */
  lemma {:induction false} ArchiveLands(step: Compression, file: seq<byte>, h: Header, es: seq<Entry>,
                                        stale: seq<seq<byte>>, n: nat, outLen: nat, cpus: int, items: seq<Item>, m: Dir,
                                        m': Dir)
    requires n > 0 && |stale| == |es| && ArchiveOf(step, file, h, es, outLen, items)
    requires HaveData(file, es, n) || NoneEmpty(es)
    requires BatchesLeave(step, file, h, outLen, es, stale, n, cpus, m, m')
    ensures ErrorsIn(step, file, es, stale, n) == 0 && Landed(items, m, m')
  {
    if NoneEmpty(es) {
      DataEverywhere(file, es, n);
    }
    ArchiveJobs(step, file, h, items, outLen);
    forall p ensures Settled(step, file, h, outLen, es, stale, n, cpus, p) {
      DistinctSettled(step, file, h, outLen, es, stale, n, cpus, p);
    }
    ResultOfRun(step, file, h, outLen, es, stale, n, cpus, m, m');
    forall p
      ensures forall k :: 0 <= k < |items| && items[k].path == p ==> Lookup(m', p) == Some(items[k].stored)
      ensures (forall k :: 0 <= k < |items| ==> items[k].path != p) ==> Lookup(m', p) == Lookup(m, p)
    {
      ArchiveExtracts(step, file, h, items, outLen, m, p);
    }
  }

  /** paf_extractor_gpu_run, until a batch leaves its buffer. When the threads agree on every path the files are those
      of the batches written by one thread; when moreover no batch is compared with unset hashes, they depend neither
      on the amount of video memory, hence not on the batches, nor on what the hash arrays held before. */
  method Run(step: Compression, file: seq<byte>, h: Header, es: seq<Entry>, stale: seq<seq<byte>>, vram: nat,
             outLen: nat, dst: Folder, cpus: int) returns (status: int, strayed: bool)
    requires |stale| == |es|
    modifies dst
    ensures WritableOnly(outLen, old(dst.files), dst.files)
    ensures forall items :: ArchiveOf(step, file, h, es, outLen, items) &&
                            (HaveData(file, es, BatchFor(vram, es)) || NoneEmpty(es)) ==>
                              !strayed && status == 0 && Landed(items, old(dst.files), dst.files)
    ensures strayed <==> SomeStrays(file, es, BatchFor(vram, es))
    ensures !strayed ==> status <= 0 && -status == ErrorsIn(step, file, es, stale, BatchFor(vram, es))
    ensures !strayed ==>
              BatchesLeave(step, file, h, outLen, es, stale, BatchFor(vram, es), cpus, old(dst.files), dst.files)
    ensures !strayed && AllSettled(step, file, h, outLen, es, stale, BatchFor(vram, es), cpus) ==>
              Outcome(dst.files, -status)
              == Batched(step, file, h, outLen, es, stale, BatchFor(vram, es), Outcome(old(dst.files), 0))
    ensures !strayed && HaveData(file, es, BatchFor(vram, es)) ==>
              -status == ErrorCount(step, file, es)
              && (AllSettled(step, file, h, outLen, es, stale, BatchFor(vram, es), cpus) ==>
                    dst.files == InOrder(old(dst.files), JobsOf(step, file, h, outLen, es)))
  {
    var average := AverageSize(es);
    var filesPerBatch, data := CalculateBatch(vram, |es|, average);
    ghost var before := dst.files;
    var errors: int;
    errors, strayed := ExtractAll(step, file, h, es, stale, filesPerBatch, outLen, dst, cpus);
    if !strayed {
      ResultOfRun(step, file, h, outLen, es, stale, filesPerBatch, cpus, before, dst.files);
    }
    status := 0 - errors;
    forall items | ArchiveOf(step, file, h, es, outLen, items) &&
                   (HaveData(file, es, BatchFor(vram, es)) || NoneEmpty(es))
      ensures !strayed && status == 0 && Landed(items, before, dst.files)
    {
      NoneStray(file, es, filesPerBatch);
      ArchiveLands(step, file, h, es, stale, filesPerBatch, outLen, cpus, items, before, dst.files);
    }
  }
}
