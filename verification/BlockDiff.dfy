/** The greedy 4 KB block diff that produces a PAFD delta (paf_binary_delta.c). */
module BlockDiff {
  import opened Bytes
  import opened Seqs
  import opened Codec
  import opened GrowBuffer
  import opened BinaryDelta
  import BlockTable

  /** The block hash: FNV-1a in C, any function here, since a memcmp follows every hit. */
  type BlockHash = seq<byte> -> nat

  function Window(s: seq<byte>, pos: nat): seq<byte>
    requires pos + BLOCK_SIZE <= |s|
  {
    s[pos..pos + BLOCK_SIZE]
  }

  /** The table after indexing the first n aligned blocks of the old bytes, later blocks winning. */
  function IndexBlocks(old_: seq<byte>, n: nat, hash: BlockHash): (index: map<nat, nat>)
    requires n * BLOCK_SIZE <= |old_|
  {
    if n == 0 then map[]
    else IndexBlocks(old_, n - 1, hash)[hash(Window(old_, (n - 1) * BLOCK_SIZE)) := (n - 1) * BLOCK_SIZE]
  }

  function Index(old_: seq<byte>, hash: BlockHash): map<nat, nat> {
    IndexBlocks(old_, |old_| / BLOCK_SIZE, hash)
  }

  ghost function BlockHashes(old_: seq<byte>, hash: BlockHash): set<nat> {
    set k | 0 <= k < |old_| / BLOCK_SIZE :: hash(Window(old_, k * BLOCK_SIZE))
  }

  /** The index maps a hash to the last aligned block that has it, and knows no other hash. */
  lemma {:induction false} IndexIsLastBlock(old_: seq<byte>, n: nat, hash: BlockHash, h: nat)
    requires n * BLOCK_SIZE <= |old_|
    ensures h in IndexBlocks(old_, n, hash) <==> exists k :: 0 <= k < n && hash(Window(old_, k * BLOCK_SIZE)) == h
    ensures h in IndexBlocks(old_, n, hash) ==>
              var off := IndexBlocks(old_, n, hash)[h];
              off % BLOCK_SIZE == 0 && off / BLOCK_SIZE < n && hash(Window(old_, off)) == h &&
              forall k :: off / BLOCK_SIZE < k < n ==> hash(Window(old_, k * BLOCK_SIZE)) != h
  {
    if n > 0 {
      IndexIsLastBlock(old_, n - 1, hash, h);
      assert (n - 1) * BLOCK_SIZE / BLOCK_SIZE == n - 1;
    }
  }

  /** Every indexed offset is the start of a whole block of the old bytes. */
  ghost predicate Inside(index: map<nat, nat>, old_: seq<byte>) {
    forall h :: h in index ==> index[h] + BLOCK_SIZE <= |old_|
  }

  lemma {:induction false} IndexInside(old_: seq<byte>, n: nat, hash: BlockHash)
    requires n * BLOCK_SIZE <= |old_|
    ensures Inside(IndexBlocks(old_, n, hash), old_)
  {
    forall h | h in IndexBlocks(old_, n, hash)
      ensures IndexBlocks(old_, n, hash)[h] + BLOCK_SIZE <= |old_|
    {
      IndexIsLastBlock(old_, n, hash, h);
    }
  }

  lemma {:induction false} IndexFits(old_: seq<byte>, n: nat, hash: BlockHash)
    requires n <= |old_| / BLOCK_SIZE
    ensures |IndexBlocks(old_, n, hash)| <= |BlockHashes(old_, hash)|
  {
    var index := IndexBlocks(old_, n, hash);
    forall h | h in index ensures h in BlockHashes(old_, hash) {
      IndexIsLastBlock(old_, n, hash, h);
    }
    Subset(index.Keys, BlockHashes(old_, hash));
  }

  lemma {:induction false} Subset<T>(a: set<T>, b: set<T>)
    requires a <= b
    ensures |a| <= |b|
  {
    assert b == a + (b - a);
  }

  lemma {:induction false} HashesOfBlocks(old_: seq<byte>, hash: BlockHash, n: nat)
    requires n <= |old_| / BLOCK_SIZE
    ensures |set k | 0 <= k < n :: hash(Window(old_, k * BLOCK_SIZE))| <= n
  {
    if n > 0 {
      HashesOfBlocks(old_, hash, n - 1);
      assert (set k | 0 <= k < n :: hash(Window(old_, k * BLOCK_SIZE)))
          == (set k | 0 <= k < n - 1 :: hash(Window(old_, k * BLOCK_SIZE)))
             + {hash(Window(old_, (n - 1) * BLOCK_SIZE))};
    }
  }

  /** No more hashes than whole blocks: an old file of 128 MiB leaves most of the table free. */
  lemma FewBlocks(old_: seq<byte>, hash: BlockHash)
    ensures |BlockHashes(old_, hash)| <= |old_| / BLOCK_SIZE
  {
    HashesOfBlocks(old_, hash, |old_| / BLOCK_SIZE);
  }

  /** Whether the block of new bytes at pos occurs in the old bytes where the index says. */
  predicate Matches(old_: seq<byte>, new_: seq<byte>, index: map<nat, nat>, hash: BlockHash, pos: nat)
    requires Inside(index, old_) && pos <= |new_|
  {
    pos + BLOCK_SIZE <= |new_| &&
    var h := hash(Window(new_, pos));
    h in index && Window(old_, index[h]) == Window(new_, pos)
  }

  /** A literal run as the chunks emit_literal writes. */
  function Chunks(d: seq<byte>): seq<Instr>
    decreases |d|
  {
    if d == [] then []
    else
      var n := if |d| > MAX_LIT_CHUNK then MAX_LIT_CHUNK else |d|;
      [Literal(1, 0, d[..n])] + Chunks(d[n..])
  }

  /** The instructions the greedy scan emits from pos on, with a literal pending since lit. */
  function Scan(old_: seq<byte>, new_: seq<byte>, index: map<nat, nat>, hash: BlockHash, pos: nat, lit: nat): seq<Instr>
    requires Inside(index, old_) && lit <= pos <= |new_|
    decreases |new_| - pos
  {
    if pos == |new_| then Chunks(new_[lit..])
    else if Matches(old_, new_, index, hash, pos) then
      Chunks(new_[lit..pos]) + [Copy(index[hash(Window(new_, pos))], BLOCK_SIZE)] +
      Scan(old_, new_, index, hash, pos + BLOCK_SIZE, pos + BLOCK_SIZE)
    else Scan(old_, new_, index, hash, pos + 1, lit)
  }

  function Diff(old_: seq<byte>, new_: seq<byte>, hash: BlockHash): seq<Instr> {
    IndexInside(old_, |old_| / BLOCK_SIZE, hash);
    Scan(old_, new_, Index(old_, hash), hash, 0, 0)
  }

  function DeltaBytes(old_: seq<byte>, new_: seq<byte>, hash: BlockHash): seq<byte> {
    var ins := Diff(old_, new_, hash);
    Header(|ins|, |old_|) + PrintMany(Print, ins)
  }

  // ---- Meaning of the emitted instructions ----

  /** Well-formed instructions that write exactly out. */
  ghost predicate Writes(ins: seq<Instr>, old_: seq<byte>, out: seq<byte>) {
    AllPrintable(ins) && AllFit(ins, old_) && Executed(ins, old_) == out
  }

  lemma WritesAppend(a: seq<Instr>, b: seq<Instr>, old_: seq<byte>, outA: seq<byte>, outB: seq<byte>)
    requires Writes(a, old_, outA) && Writes(b, old_, outB)
    ensures Writes(a + b, old_, outA + outB)
  {
    ExecutedAppend(a, b, old_);
  }

  lemma WritesOne(i: Instr, old_: seq<byte>)
    requires Printable(i) && Fits(i, old_)
    ensures Writes([i], old_, Effect(i, old_))
  {
    assert Executed([i][1..], old_) == [];
    assert Executed([i], old_) == Effect(i, old_) + [];
  }

  lemma {:induction false} ChunksWrite(d: seq<byte>, old_: seq<byte>)
    ensures Writes(Chunks(d), old_, d)
    decreases |d|
  {
    if d != [] {
      var n := if |d| > MAX_LIT_CHUNK then MAX_LIT_CHUNK else |d|;
      var first := Literal(1, 0, d[..n]);
      ChunksWrite(d[n..], old_);
      WritesOne(first, old_);
      WritesAppend([first], Chunks(d[n..]), old_, d[..n], d[n..]);
      assert d == d[..n] + d[n..];
    }
  }

  lemma MatchWrites(old_: seq<byte>, new_: seq<byte>, offset: nat, pos: nat, lit: nat, rest: seq<Instr>)
    requires lit <= pos && pos + BLOCK_SIZE <= |new_| && offset + BLOCK_SIZE <= |old_| < U64_LIMIT
    requires Window(old_, offset) == Window(new_, pos) && Writes(rest, old_, new_[pos + BLOCK_SIZE..])
    ensures Writes(Chunks(new_[lit..pos]) + [Copy(offset, BLOCK_SIZE)] + rest, old_, new_[lit..])
  {
    var a, b, c := new_[lit..pos], Window(new_, pos), new_[pos + BLOCK_SIZE..];
    var copy := Copy(offset, BLOCK_SIZE);
    assert new_[lit..] == a + b + c by {
      SplitAt(new_, lit, pos, |new_|);
      SplitAt(new_, pos, pos + BLOCK_SIZE, |new_|);
      Assoc(a, b, c);
    }
    ChunksWrite(a, old_);
    assert Writes([copy], old_, b) by {
      WritesOne(copy, old_);
    }
    WritesAppend(Chunks(a), [copy], old_, a, b);
    WritesAppend(Chunks(a) + [copy], rest, old_, a + b, c);
  }

  lemma {:induction false} ScanWrites(old_: seq<byte>, new_: seq<byte>, index: map<nat, nat>, hash: BlockHash, pos: nat,
                                      lit: nat)
    requires Inside(index, old_) && lit <= pos <= |new_| && |old_| < U64_LIMIT
    ensures Writes(Scan(old_, new_, index, hash, pos, lit), old_, new_[lit..])
    decreases |new_| - pos
  {
    if pos == |new_| {
      ChunksWrite(new_[lit..], old_);
    } else if Matches(old_, new_, index, hash, pos) {
      var next := pos + BLOCK_SIZE;
      ScanWrites(old_, new_, index, hash, next, next);
      MatchWrites(old_, new_, index[hash(Window(new_, pos))], pos, lit, Scan(old_, new_, index, hash, next, next));
    } else {
      ScanWrites(old_, new_, index, hash, pos + 1, lit);
    }
  }

  // ---- Size of the delta ----

  function LiteralBytes(ins: seq<Instr>): nat {
    if ins == [] then 0 else (if ins[0].Literal? then |ins[0].data| else 0) + LiteralBytes(ins[1..])
  }

  lemma {:induction false} PrintedSize(ins: seq<Instr>)
    ensures |PrintMany(Print, ins)| == 13 * |ins| + LiteralBytes(ins)
  {
    if ins != [] {
      PrintedSize(ins[1..]);
    }
  }

  /** The ceiling division paf_bdelta_create counts with is the number of chunks emit_literal writes. */
  lemma {:induction false} ChunkCount(d: seq<byte>)
    ensures |Chunks(d)| == (|d| + 65534) / 65535
    decreases |d|
  {
    if |d| > MAX_LIT_CHUNK {
      ChunkCount(d[MAX_LIT_CHUNK..]);
    } else if d != [] {
      assert d[|d|..] == [];
    }
  }

  /** The bound survives one more literal run, of length run, and one more copied block. */
  lemma CountBound(left: nat, run: nat, rest: nat)
    requires left >= BLOCK_SIZE
    requires rest <= 2 * ((left - BLOCK_SIZE) / BLOCK_SIZE) + 1 + (left - BLOCK_SIZE) / MAX_LIT_CHUNK
    ensures (run + MAX_LIT_CHUNK - 1) / MAX_LIT_CHUNK + 1 + rest
            <= 2 * (left / BLOCK_SIZE) + 1 + (left + run) / MAX_LIT_CHUNK
  {
    assert (left - BLOCK_SIZE) / BLOCK_SIZE == left / BLOCK_SIZE - 1;
    assert (run + MAX_LIT_CHUNK - 1) / MAX_LIT_CHUNK <= 1 + run / MAX_LIT_CHUNK;
    assert run / MAX_LIT_CHUNK + (left - BLOCK_SIZE) / MAX_LIT_CHUNK <= (left + run) / MAX_LIT_CHUNK;
  }

  lemma {:induction false} ScanCount(old_: seq<byte>, new_: seq<byte>, index: map<nat, nat>, hash: BlockHash, pos: nat,
                                     lit: nat)
    requires Inside(index, old_) && lit <= pos <= |new_|
    ensures |Scan(old_, new_, index, hash, pos, lit)|
            <= 2 * ((|new_| - pos) / BLOCK_SIZE) + 1 + (|new_| - lit) / MAX_LIT_CHUNK
    decreases |new_| - pos
  {
    if pos == |new_| {
      ChunkCount(new_[lit..]);
    } else if Matches(old_, new_, index, hash, pos) {
      var next := pos + BLOCK_SIZE;
      ChunkCount(new_[lit..pos]);
      ScanCount(old_, new_, index, hash, next, next);
      CountBound(|new_| - pos, pos - lit, |Scan(old_, new_, index, hash, next, next)|);
    } else {
      ScanCount(old_, new_, index, hash, pos + 1, lit);
    }
  }

  /** The delta is 16 bytes, 13 per instruction and the literal bytes, with a bound on the instructions. */
  lemma DeltaSize(old_: seq<byte>, new_: seq<byte>, hash: BlockHash)
    ensures var ins := Diff(old_, new_, hash);
            && |DeltaBytes(old_, new_, hash)| == 16 + 13 * |ins| + LiteralBytes(ins)
            && |ins| <= 2 * (|new_| / 4096) + 1 + |new_| / 65535
  {
    IndexInside(old_, |old_| / BLOCK_SIZE, hash);
    ScanCount(old_, new_, Index(old_, hash), hash, 0, 0);
    PrintedSize(Diff(old_, new_, hash));
  }

  lemma {:induction false} LiteralsWithin(ins: seq<Instr>, old_: seq<byte>)
    requires AllFit(ins, old_)
    ensures LiteralBytes(ins) <= |Executed(ins, old_)|
  {
    if ins != [] {
      assert Fits(ins[0], old_);
      LiteralsWithin(ins[1..], old_);
    }
  }

  /** A delta is never much longer than twice the new file. */
  lemma DeltaWithin(old_: seq<byte>, new_: seq<byte>, hash: BlockHash)
    requires |old_| < U64_LIMIT
    ensures |DeltaBytes(old_, new_, hash)| <= 2 * |new_| + 29
  {
    DeltaSize(old_, new_, hash);
    IndexInside(old_, |old_| / BLOCK_SIZE, hash);
    ScanWrites(old_, new_, Index(old_, hash), hash, 0, 0);
    assert new_[0..] == new_;
    LiteralsWithin(Diff(old_, new_, hash), old_);
  }

  // ---- Greediness: nothing that could be copied is sent as literal bytes ----

  /** Each literal of ins, written from output position at on, starts no matching block at any of its bytes;
      each copy is a whole block taken where the index points. */
  ghost predicate Greedy(ins: seq<Instr>, at: nat, old_: seq<byte>, new_: seq<byte>, index: map<nat, nat>,
                         hash: BlockHash)
    requires Inside(index, old_)
    decreases |ins|
  {
    ins == [] ||
    match ins[0]
    case Literal(_, _, data) =>
      && 0 < |data| <= MAX_LIT_CHUNK && at + |data| <= |new_|
      && (forall p :: at <= p < at + |data| ==> !Matches(old_, new_, index, hash, p))
      && Greedy(ins[1..], at + |data|, old_, new_, index, hash)
    case Copy(offset, size) =>
      && at <= |new_| && Matches(old_, new_, index, hash, at)
      && offset == index[hash(Window(new_, at))] && size == BLOCK_SIZE
      && Greedy(ins[1..], at + BLOCK_SIZE, old_, new_, index, hash)
  }

  lemma {:induction false} GreedyLiteral(data: seq<byte>, rest: seq<Instr>, at: nat, old_: seq<byte>, new_: seq<byte>,
                                         index: map<nat, nat>, hash: BlockHash)
    requires Inside(index, old_) && 0 < |data| <= MAX_LIT_CHUNK && at + |data| <= |new_|
    requires forall p :: at <= p < at + |data| ==> !Matches(old_, new_, index, hash, p)
    requires Greedy(rest, at + |data|, old_, new_, index, hash)
    ensures Greedy([Literal(1, 0, data)] + rest, at, old_, new_, index, hash)
  {
    assert ([Literal(1, 0, data)] + rest)[1..] == rest;
  }

  lemma {:induction false} ChunksGreedy(d: seq<byte>, rest: seq<Instr>, at: nat, old_: seq<byte>, new_: seq<byte>,
                                        index: map<nat, nat>, hash: BlockHash)
    requires Inside(index, old_) && at + |d| <= |new_|
    requires forall p :: at <= p < at + |d| ==> !Matches(old_, new_, index, hash, p)
    requires Greedy(rest, at + |d|, old_, new_, index, hash)
    ensures Greedy(Chunks(d) + rest, at, old_, new_, index, hash)
    decreases |d|
  {
    if d == [] {
      assert Chunks(d) + rest == rest;
    } else {
      var n := if |d| > MAX_LIT_CHUNK then MAX_LIT_CHUNK else |d|;
      ChunksGreedy(d[n..], rest, at + n, old_, new_, index, hash);
      GreedyLiteral(d[..n], Chunks(d[n..]) + rest, at, old_, new_, index, hash);
      Assoc([Literal(1, 0, d[..n])], Chunks(d[n..]), rest);
    }
  }

  lemma {:induction false} ScanGreedy(old_: seq<byte>, new_: seq<byte>, index: map<nat, nat>, hash: BlockHash, pos: nat,
                                      lit: nat)
    requires Inside(index, old_) && lit <= pos <= |new_|
    requires forall p :: lit <= p < pos ==> !Matches(old_, new_, index, hash, p)
    ensures Greedy(Scan(old_, new_, index, hash, pos, lit), lit, old_, new_, index, hash)
    decreases |new_| - pos
  {
    if pos == |new_| {
      ChunksGreedy(new_[lit..], [], lit, old_, new_, index, hash);
      assert Chunks(new_[lit..]) + [] == Chunks(new_[lit..]);
    } else if Matches(old_, new_, index, hash, pos) {
      var copy, next := Copy(index[hash(Window(new_, pos))], BLOCK_SIZE), pos + BLOCK_SIZE;
      var rest := Scan(old_, new_, index, hash, next, next);
      ScanGreedy(old_, new_, index, hash, next, next);
      assert ([copy] + rest)[1..] == rest;
      ChunksGreedy(new_[lit..pos], [copy] + rest, lit, old_, new_, index, hash);
      Assoc(Chunks(new_[lit..pos]), [copy], rest);
    } else {
      ScanGreedy(old_, new_, index, hash, pos + 1, lit);
    }
  }

  /** Block k of the old bytes is the window of the new ones at p. */
  predicate SameBlock(old_: seq<byte>, k: nat, new_: seq<byte>, p: nat) {
    && 4096 * k + 4096 <= |old_| && p + 4096 <= |new_|
    && old_[4096 * k..4096 * k + 4096] == new_[p..p + 4096]
  }

  /** The instructions, written from output position at on, send no byte at which a block of the old bytes starts, and
      copy whole blocks that are equal. */
  ghost predicate NoneMissed(ins: seq<Instr>, at: nat, old_: seq<byte>, new_: seq<byte>)
    decreases |ins|
  {
    ins == [] ||
    match ins[0]
    case Literal(_, _, data) =>
      && (forall p: nat, k: nat :: at <= p < at + |data| ==> !SameBlock(old_, k, new_, p))
      && NoneMissed(ins[1..], at + |data|, old_, new_)
    case Copy(offset, size) =>
      && size == 4096 && offset % 4096 == 0 && SameBlock(old_, offset / 4096, new_, at)
      && NoneMissed(ins[1..], at + 4096, old_, new_)
  }

  /** Different blocks of the old bytes have different hashes. */
  ghost predicate BlocksApart(old_: seq<byte>, hash: BlockHash) {
    forall j: nat, k: nat :: (j + 1) * BLOCK_SIZE <= |old_| && (k + 1) * BLOCK_SIZE <= |old_| &&
                             hash(Window(old_, j * BLOCK_SIZE)) == hash(Window(old_, k * BLOCK_SIZE)) ==>
                               Window(old_, j * BLOCK_SIZE) == Window(old_, k * BLOCK_SIZE)
  }

  /** A window that is a block of the old bytes is found by its hash. */
  lemma {:induction false} BlockFound(old_: seq<byte>, new_: seq<byte>, hash: BlockHash, k: nat, p: nat)
    requires BlocksApart(old_, hash) && SameBlock(old_, k, new_, p) && Inside(Index(old_, hash), old_)
    ensures Matches(old_, new_, Index(old_, hash), hash, p)
  {
    var n, h := |old_| / BLOCK_SIZE, hash(Window(new_, p));
    assert Window(old_, k * BLOCK_SIZE) == Window(new_, p);
    IndexIsLastBlock(old_, n, hash, h);
    var j := Index(old_, hash)[h] / BLOCK_SIZE;
    assert j * BLOCK_SIZE == Index(old_, hash)[h];
  }

  lemma {:induction false} GreedyMissesNone(ins: seq<Instr>, at: nat, old_: seq<byte>, new_: seq<byte>, hash: BlockHash)
    requires BlocksApart(old_, hash) && Inside(Index(old_, hash), old_)
    requires Greedy(ins, at, old_, new_, Index(old_, hash), hash)
    ensures NoneMissed(ins, at, old_, new_)
    decreases |ins|
  {
    if ins != [] {
      match ins[0]
      case Literal(_, _, data) =>
        forall p: nat, k: nat | at <= p < at + |data| ensures !SameBlock(old_, k, new_, p) {
          if SameBlock(old_, k, new_, p) {
            BlockFound(old_, new_, hash, k, p);
          }
        }
        GreedyMissesNone(ins[1..], at + |data|, old_, new_, hash);
      case Copy(offset, size) =>
        IndexIsLastBlock(old_, |old_| / BLOCK_SIZE, hash, hash(Window(new_, at)));
        assert Window(old_, offset) == old_[4096 * (offset / 4096)..4096 * (offset / 4096) + 4096];
        GreedyMissesNone(ins[1..], at + BLOCK_SIZE, old_, new_, hash);
    }
  }

  /** Unless blocks of the old file share a hash, the delta finds every block of it, at any position of the new file
      that no copy covers. */
  lemma {:induction false} NothingMissed(old_: seq<byte>, new_: seq<byte>, hash: BlockHash)
    requires BlocksApart(old_, hash)
    ensures NoneMissed(Diff(old_, new_, hash), 0, old_, new_)
  {
    IndexInside(old_, |old_| / BLOCK_SIZE, hash);
    ScanGreedy(old_, new_, Index(old_, hash), hash, 0, 0);
    GreedyMissesNone(Diff(old_, new_, hash), 0, old_, new_, hash);
  }

  // ---- The round trip ----

  /** The sizes for which the instruction count fits its 32-bit field. */
  predicate CountFits(new_: seq<byte>) {
    |new_| <= 0x400_0000_0000
  }

  /** Replaying the delta over any file that starts with the old bytes writes the new bytes. */
  lemma DeltaRoundTrip(old_: seq<byte>, new_: seq<byte>, hash: BlockHash, oldFile: Option<seq<byte>>)
    requires |old_| < U64_LIMIT && CountFits(new_) && Provides(oldFile, old_)
    ensures Applying(DeltaBytes(old_, new_, hash), oldFile) == Written(true, new_)
    ensures NeverAstray(DeltaBytes(old_, new_, hash))
  {
    var ins := Diff(old_, new_, hash);
    IndexInside(old_, |old_| / BLOCK_SIZE, hash);
    ScanWrites(old_, new_, Index(old_, hash), hash, 0, 0);
    DeltaSize(old_, new_, hash);
    assert new_[0..] == new_;
    ScriptAccepted(DeltaBytes(old_, new_, hash), oldFile, old_, ins);
    ScriptIff(DeltaBytes(old_, new_, hash), |old_|, ins);
    assert NoneWraps(ins);
    NoWrapNoStray(DeltaBytes(old_, new_, hash));
  }

  /** Without a file the delta of a non-empty one is refused before anything is written. */
  lemma DeltaNeedsOld(old_: seq<byte>, new_: seq<byte>, hash: BlockHash)
    requires 0 < |old_| < U64_LIMIT && CountFits(new_)
    ensures Applying(DeltaBytes(old_, new_, hash), None) == Refused
  {
    var ins := Diff(old_, new_, hash);
    IndexInside(old_, |old_| / BLOCK_SIZE, hash);
    ScanWrites(old_, new_, Index(old_, hash), hash, 0, 0);
    DeltaSize(old_, new_, hash);
    ScriptIff(DeltaBytes(old_, new_, hash), |old_|, ins);
  }

  // ---- The C code ----

  /** Three pushes: tag, offset, size. */
  method PushFields(out: Buffer, tag: byte, offset: nat, size: nat)
    requires out.Valid()
    modifies out, out.data
    ensures out.Valid() && out.Contents() == old(out.Contents()) + Fields(tag, offset, size)
    ensures out.data == old(out.data) || fresh(out.data)
  {
    out.Push([tag]);
    out.Push(LE(offset, 8));
    out.Push(LE(size, 4));
  }

  method EmitCopy(out: Buffer, oldOffset: nat, size: nat)
    requires out.Valid()
    modifies out, out.data
    ensures out.Valid() && out.Contents() == old(out.Contents()) + Print(Copy(oldOffset, size))
    ensures out.data == old(out.data) || fresh(out.data)
  {
    PushFields(out, 0, oldOffset, size);
  }

  lemma {:induction false} PrintedOneMore(before: seq<byte>, done: seq<Instr>, i: Instr)
    ensures before + PrintMany(Print, done + [i]) == (before + PrintMany(Print, done)) + Print(i)
  {
    PrintManyAppend(Print, done, [i]);
    assert PrintMany(Print, [i]) == Print(i) + PrintMany(Print, [i][1..]);
    assert PrintMany(Print, [i]) == Print(i);
    Assoc(before, PrintMany(Print, done), Print(i));
  }

  method EmitChunk(out: Buffer, chunk: seq<byte>)
    requires out.Valid()
    modifies out, out.data
    ensures out.Valid() && out.Contents() == old(out.Contents()) + Print(Literal(1, 0, chunk))
    ensures out.data == old(out.data) || fresh(out.data)
  {
    PushFields(out, 1, 0, |chunk|);
    out.Push(chunk);
    Assoc(old(out.Contents()), Fields(1, 0, |chunk|), chunk);
  }

  method EmitLiteral(out: Buffer, data: seq<byte>)
    requires out.Valid()
    modifies out, out.data
    ensures out.Valid() && out.Contents() == old(out.Contents()) + PrintMany(Print, Chunks(data))
    ensures out.data == old(out.data) || fresh(out.data)
  {
    var rest := data;
    ghost var done: seq<Instr> := [];
    ghost var before := out.Contents();
    assert done + Chunks(data) == Chunks(data) && before + PrintMany(Print, done) == before;
    while |rest| > 0
      invariant out.Valid() && (out.data == old(out.data) || fresh(out.data))
      invariant Chunks(data) == done + Chunks(rest)
      invariant out.Contents() == before + PrintMany(Print, done)
    {
      var n := if |rest| > MAX_LIT_CHUNK then MAX_LIT_CHUNK else |rest|;
      ghost var i := Literal(1, 0, rest[..n]);
      EmitChunk(out, rest[..n]);
      PrintedOneMore(before, done, i);
      Assoc(done, [i], Chunks(rest[n..]));
      done := done + [i];
      rest := rest[n..];
    }
    assert done + [] == done;
  }

  /** Emits the pending literal, if any, and returns how many chunks that takes. */
  method FlushLiteral(out: Buffer, data: seq<byte>) returns (chunks: nat)
    requires out.Valid()
    modifies out, out.data
    ensures out.Valid() && out.Contents() == old(out.Contents()) + PrintMany(Print, Chunks(data))
    ensures out.data == old(out.data) || fresh(out.data)
    ensures chunks == |Chunks(data)|
  {
    ChunkCount(data);
    if |data| > 0 {
      EmitLiteral(out, data);
      return (|data| + MAX_LIT_CHUNK - 1) / MAX_LIT_CHUNK;
    }
    assert out.Contents() + [] == out.Contents();
    return 0;
  }

  /** Flushes the pending literal, then copies one block. */
  method EmitMatch(out: Buffer, data: seq<byte>, oldOffset: nat) returns (emitted: nat)
    requires out.Valid()
    modifies out, out.data
    ensures out.Valid()
    ensures out.Contents() == (old(out.Contents()) + PrintMany(Print, Chunks(data)))
            + Print(Copy(oldOffset, BLOCK_SIZE))
    ensures out.data == old(out.data) || fresh(out.data)
    ensures emitted == |Chunks(data)| + 1
  {
    var chunks := FlushLiteral(out, data);
    EmitCopy(out, oldOffset, BLOCK_SIZE);
    return chunks + 1;
  }

  /** Indexes block n. */
  method IndexBlock(table: BlockTable.Table, old_: seq<byte>, ghost n: nat, off: nat, hash: BlockHash)
    requires |BlockHashes(old_, hash)| < BlockTable.HT_CAP && off == n * BLOCK_SIZE && off + BLOCK_SIZE <= |old_|
    requires table.Valid() && table.contents == IndexBlocks(old_, n, hash)
    modifies table, table.slots
    ensures table.Valid() && table.contents == IndexBlocks(old_, n + 1, hash)
  {
    IndexFits(old_, n, hash);
    table.Insert(hash(Window(old_, off)), off);
  }

  /** Indexes the whole aligned blocks of the old bytes. */
  method BuildTable(old_: seq<byte>, hash: BlockHash) returns (table: BlockTable.Table)
    requires |BlockHashes(old_, hash)| < BlockTable.HT_CAP
    ensures fresh(table) && fresh(table.slots) && table.Valid() && table.contents == Index(old_, hash)
  {
    table := new BlockTable.Table();
    var off := 0;
    ghost var n := 0;
    while off + BLOCK_SIZE <= |old_|
      invariant off == n * BLOCK_SIZE <= |old_|
      invariant table.Valid() && table.contents == IndexBlocks(old_, n, hash)
    {
      IndexBlock(table, old_, n, off, hash);
      off, n := off + BLOCK_SIZE, n + 1;
    }
    assert n == |old_| / BLOCK_SIZE;
  }

  /** What the scan loop keeps: printed holds the first count of all instructions, and rest is still owed. */
  ghost predicate Owes(all: seq<Instr>, rest: seq<Instr>, printed: seq<byte>, count: nat) {
    exists done :: all == done + rest && printed == PrintMany(Print, done) && count == |done|
  }

  lemma OwesAll(all: seq<Instr>)
    ensures Owes(all, all, [], 0)
  {
    assert all == [] + all;
  }

  lemma {:induction false} OwesLess(all: seq<Instr>, more: seq<Instr>, rest: seq<Instr>, printed: seq<byte>, count: nat)
    requires Owes(all, more + rest, printed, count)
    ensures Owes(all, rest, printed + PrintMany(Print, more), count + |more|)
  {
    var done :| all == done + (more + rest) && printed == PrintMany(Print, done) && count == |done|;
    Assoc(done, more, rest);
    PrintManyAppend(Print, done, more);
  }

  lemma {:induction false} OwesAfterMatch(all: seq<Instr>, lits: seq<Instr>, copy: Instr, rest: seq<Instr>,
                                          printed: seq<byte>, count: nat)
    requires Owes(all, lits + [copy] + rest, printed, count)
    ensures Owes(all, rest, (printed + PrintMany(Print, lits)) + Print(copy), count + |lits| + 1)
  {
    Assoc(lits, [copy], rest);
    OwesLess(all, lits, [copy] + rest, printed, count);
    OwesLess(all, [copy], rest, printed + PrintMany(Print, lits), count + |lits|);
    assert PrintMany(Print, [copy]) == Print(copy) + PrintMany(Print, [copy][1..]);
    assert PrintMany(Print, [copy]) == Print(copy);
  }

  lemma {:induction false} OwesNothing(all: seq<Instr>, rest: seq<Instr>, printed: seq<byte>, count: nat)
    requires Owes(all, rest, printed, count)
    ensures printed + PrintMany(Print, rest) == PrintMany(Print, all) && count + |rest| == |all|
  {
    var done :| all == done + rest && printed == PrintMany(Print, done) && count == |done|;
    PrintManyAppend(Print, done, rest);
  }

  /** The table lookup and the memcmp that follows a hit. */
  method FindMatch(old_: seq<byte>, new_: seq<byte>, hash: BlockHash, table: BlockTable.Table, pos: nat)
      returns (found: bool, oldOffset: nat)
    requires table.Valid() && Inside(table.contents, old_) && |table.contents| < BlockTable.HT_CAP && pos < |new_|
    ensures found <==> Matches(old_, new_, table.contents, hash, pos)
    ensures found ==> oldOffset == table.contents[hash(Window(new_, pos))]
  {
    if |new_| - pos < BLOCK_SIZE { return false, 0; }
    found, oldOffset := table.Find(hash(Window(new_, pos)));
    if found && Window(new_, pos) != Window(old_, oldOffset) { found := false; }
  }

  /** One round of the scan: a matching block flushes the literal and is copied, anything else moves on by a byte. */
  ghost predicate Stepped(old_: seq<byte>, new_: seq<byte>, index: map<nat, nat>, hash: BlockHash, pos: nat, lit: nat,
                          printed: seq<byte>, pos': nat, lit': nat, printed': seq<byte>, emitted: nat)
    requires Inside(index, old_) && lit <= pos < |new_|
  {
    if Matches(old_, new_, index, hash, pos) then
      var lits, copy := Chunks(new_[lit..pos]), Copy(index[hash(Window(new_, pos))], BLOCK_SIZE);
      && pos' == lit' == pos + BLOCK_SIZE && emitted == |lits| + 1
      && printed' == (printed + PrintMany(Print, lits)) + Print(copy)
    else pos' == pos + 1 && lit' == lit && emitted == 0 && printed' == printed
  }

  lemma {:induction false} OwesAfterStep(old_: seq<byte>, new_: seq<byte>, index: map<nat, nat>, hash: BlockHash,
                                         pos: nat, lit: nat, printed: seq<byte>, pos': nat, lit': nat,
                                         printed': seq<byte>, emitted: nat, all: seq<Instr>, count: nat)
    requires Inside(index, old_) && lit <= pos < |new_|
    requires Owes(all, Scan(old_, new_, index, hash, pos, lit), printed, count)
    requires Stepped(old_, new_, index, hash, pos, lit, printed, pos', lit', printed', emitted)
    ensures lit' <= pos' <= |new_| && pos < pos'
    ensures Owes(all, Scan(old_, new_, index, hash, pos', lit'), printed', count + emitted)
  {
    if Matches(old_, new_, index, hash, pos) {
      var copy := Copy(index[hash(Window(new_, pos))], BLOCK_SIZE);
      OwesAfterMatch(all, Chunks(new_[lit..pos]), copy, Scan(old_, new_, index, hash, pos', lit'), printed, count);
    }
  }

  method ScanRound(old_: seq<byte>, new_: seq<byte>, hash: BlockHash, table: BlockTable.Table, instr: Buffer, pos: nat,
                   lit: nat)
      returns (pos': nat, lit': nat, emitted: nat)
    requires table.Valid() && Inside(table.contents, old_) && |table.contents| < BlockTable.HT_CAP
    requires lit <= pos < |new_|
    requires instr.Valid()
    modifies instr, instr.data
    ensures instr.Valid() && (instr.data == old(instr.data) || fresh(instr.data))
    ensures Stepped(old_, new_, table.contents, hash, pos, lit, old(instr.Contents()), pos', lit',
                    instr.Contents(), emitted)
  {
    var found, oldOffset := FindMatch(old_, new_, hash, table, pos);
    if found {
      emitted := EmitMatch(instr, new_[lit..pos], oldOffset);
      return pos + BLOCK_SIZE, pos + BLOCK_SIZE, emitted;
    }
    return pos + 1, lit, 0;
  }

  /** The greedy scan of the new bytes. */
  method EmitScan(old_: seq<byte>, new_: seq<byte>, hash: BlockHash, table: BlockTable.Table, instr: Buffer)
      returns (count: nat)
    requires table.Valid() && Inside(table.contents, old_) && |table.contents| < BlockTable.HT_CAP
    requires instr.Valid() && instr.Contents() == [] && instr.data as object != table.slots
    modifies instr, instr.data
    ensures instr.Valid()
    ensures var all := Scan(old_, new_, table.contents, hash, 0, 0);
            instr.Contents() == PrintMany(Print, all) && count == |all|
  {
    ghost var index := table.contents;
    count := 0;
    var pos: nat, litStart: nat := 0, 0;
    ghost var all := Scan(old_, new_, index, hash, 0, 0);
    OwesAll(all);
    while pos < |new_|
      invariant litStart <= pos <= |new_| && table.contents == index
      invariant instr.Valid() && (instr.data == old(instr.data) || fresh(instr.data))
      invariant Owes(all, Scan(old_, new_, index, hash, pos, litStart), instr.Contents(), count)
      decreases |new_| - pos
    {
      ghost var before := instr.Contents();
      var pos', lit', emitted := ScanRound(old_, new_, hash, table, instr, pos, litStart);
      OwesAfterStep(old_, new_, index, hash, pos, litStart, before, pos', lit', instr.Contents(), emitted, all, count);
      count, pos, litStart := count + emitted, pos', lit';
    }
    assert new_[litStart..pos] == new_[litStart..];
    OwesNothing(all, Chunks(new_[litStart..pos]), instr.Contents(), count);
    var chunks := FlushLiteral(instr, new_[litStart..pos]);
    count := count + chunks;
  }

  /** The final buffer: header, then the instructions. */
  method Assemble(count: nat, oldSize: nat, instr: seq<byte>) returns (delta: seq<byte>)
    ensures delta == Header(count, oldSize) + instr
  {
    var out := new Buffer();
    out.Push(LE(MAGIC, 4));
    out.Push(LE(count, 4));
    out.Push(LE(oldSize, 8));
    assert out.Contents() == Header(count, oldSize);
    out.Push(instr);
    delta := out.data[..out.len];
  }

  /** paf_bdelta_create, the two files already read. */
  method Create(old_: seq<byte>, new_: seq<byte>, hash: BlockHash) returns (delta: seq<byte>)
    requires |BlockHashes(old_, hash)| < BlockTable.HT_CAP
    ensures delta == DeltaBytes(old_, new_, hash)
  {
    var table := BuildTable(old_, hash);
    IndexInside(old_, |old_| / BLOCK_SIZE, hash);
    IndexFits(old_, |old_| / BLOCK_SIZE, hash);
    var instr := new Buffer();
    var count := EmitScan(old_, new_, hash, table, instr);
    delta := Assemble(count, |old_|, instr.data[..instr.len]);
  }
}
