/** The other three SHA-256 paddings of libpaf: the single padded buffer (paf_sha256_hw.c), the CUDA kernel's
    byte tail (paf_cuda_kernels.cu) and the Vulkan shader's word-packed tail (paf_sha256.comp). */
module Sha256Kernels {
  import opened Bytes
  import opened Seqs
  import opened Hashing
  import opened Sha256Compression
  import Sha256Stream

  /** Writes the bit count into the last eight bytes: buf[end - 1 - i] = bits >> 8 * i. */
  method StoreField(buf: array<byte>, byteAt: nat -> byte, ghost field: seq<byte>)
    requires buf.Length >= 8 && |field| == 8 && forall k: nat :: k < 8 ==> field[k] == byteAt(7 - k)
    modifies buf
    ensures buf[..] == old(buf[..])[..buf.Length - 8] + field
  {
    var end := buf.Length;
    for i := 0 to 8
      invariant forall k :: 0 <= k < end - i ==> buf[k] == old(buf[k])
      invariant forall k :: end - i <= k < end ==> buf[k] == field[k - (end - 8)]
    {
      buf[end - 1 - i] := byteAt(i);
    }
    assert buf[end - 8..] == field && buf[..end - 8] == old(buf[..])[..end - 8];
    assert buf[..] == buf[..end - 8] + buf[end - 8..];
  }

  method StoreBits(buf: array<byte>, bits: nat)
    requires buf.Length >= 8
    modifies buf
    ensures buf[..] == old(buf[..])[..buf.Length - 8] + BE(bits, 8)
  {
    Sha256Stream.BytesOfLength(bits);
    StoreField(buf, (i: nat) => Sha256Stream.ShiftByte(bits, i), BE(bits, 8));
  }

  // ---- sha256_pad ----

  lemma AllZeros(s: seq<byte>)
    requires forall i :: 0 <= i < |s| ==> s[i] == 0
    ensures s == Zeros(|s|)
  {
  }

  lemma PaddedLength(n: nat)
    ensures (n + 9 + 63) / 64 * 64 == n + 1 + ZeroCount(n) + 8
  {
  }

  /** A zeroed buffer that starts with the data and the 1 bit. */
  method MarkedBuffer(data: seq<byte>, p: nat) returns (buf: array<byte>)
    requires |data| < p
    ensures fresh(buf) && buf[..] == data + [0x80] + Zeros(p - |data| - 1)
  {
    var n := |data|;
    buf := new byte[p](_ => 0);
    forall i | 0 <= i < n { buf[i] := data[i]; }
    buf[n] := 0x80;
    assert buf[..n] == data && buf[n..n + 1] == [0x80];
    AllZeros(buf[n + 1..p]);
    assert buf[..] == buf[..n] + buf[n..n + 1] + buf[n + 1..p];
  }

  lemma MarkedPrefix(data: seq<byte>, zeros: nat)
    ensures (data + [0x80] + Zeros(zeros + 8))[..|data| + 1 + zeros] == data + [0x80] + Zeros(zeros)
  {
  }

  /** One zeroed buffer, the message, the 1 bit, and the bit count in the last eight bytes. */
  method PadBuffer(data: seq<byte>) returns (buf: array<byte>)
    ensures buf[..] == Pad(data)
  {
    var n := |data|;
    PaddedLength(n);
    buf := MarkedBuffer(data, (n + 9 + 63) / 64 * 64);
    MarkedPrefix(data, ZeroCount(n));
    BEModulo(8 * n);
    StoreBits(buf, Wrap64(8 * n));
  }

  // ---- paf_sha256_kernel (CUDA) ----

  /** The kernel's tail: rem bytes left in a zeroed buffer, one block or two. */
  method CudaTail(step: Compression, start: State, r: seq<byte>, size: nat) returns (state: State)
    requires |r| < 64
    ensures state == if |r| < 56 then step(start, ShortTail(r, 8 * size))
                     else step(step(start, LongTail(r)), LengthBlock(8 * size))
  {
    var rem := |r|;
    state := start;
    var buf := new byte[64](_ => 0);
    forall i | 0 <= i < rem { buf[i] := r[i]; }
    buf[rem] := 0x80;
    assert buf[..rem + 1] == r + [0x80];
    if rem >= 56 {
      assert buf[..] == r + [0x80] + Zeros(63 - rem);
      state := step(state, buf[..]);
      forall i | 0 <= i < 64 { buf[i] := 0; }
      assert buf[..56] == Zeros(56);
    } else {
      assert buf[..56] == r + [0x80] + Zeros(55 - rem);
    }
    BEModulo(8 * size);
    StoreBits(buf, Wrap64(8 * size));
    state := step(state, buf[..]);
  }

  /** The kernel for one file: whole blocks through buf, then the tail. */
  method CudaKernel(step: Compression, data: seq<byte>, offset: nat, size: nat) returns (hash: seq<byte>)
    requires offset + size <= |data|
    ensures hash == DigestWith(step, data[offset..offset + size])
  {
    ghost var msg := data[offset..offset + size];
    var state: State, ptr, rem := H0, offset, size;
    ghost var n := 0;
    while rem >= 64
      invariant ptr == offset + 64 * n && rem == size - 64 * n && 64 * n <= size
      invariant state == Fold(step, msg, n)
    {
      SliceOfSlice(data, offset, offset + size, 64 * n, 64 * n + 64);
      state := step(state, data[ptr..ptr + 64]);
      ptr, rem, n := ptr + 64, rem - 64, n + 1;
    }
    FinishFold(step, msg, n);
    SliceOfSlice(data, offset, offset + size, 64 * n, size);
    state := CudaTail(step, state, data[ptr..ptr + rem], size);
    hash := DigestBytes(state);
  }

  // ---- main of the Vulkan shader ----

  type WordBlock = m: seq<bv32> | |m| == 16 witness BlockWords(Zeros(64))

  /** Byte i of a buffer of little-endian words. */
  function ReadByte(words: seq<bv32>, i: nat): bv32
    requires i / 4 < |words|
  {
    var w := words[i / 4];
    (if i % 4 == 0 then w else if i % 4 == 1 then w >> 8 else if i % 4 == 2 then w >> 16 else w >> 24) & 0xFF
  }

  /** The word buffer holds these bytes. */
  ghost predicate Packs(words: seq<bv32>, flat: seq<byte>) {
    |flat| <= 4 * |words| && forall i :: 0 <= i < |flat| ==> ReadByte(words, i) == ByteWord(flat[i])
  }

  function ReadBEWord(words: seq<bv32>, i: nat): bv32
    requires i + 4 <= 4 * |words|
  {
    (ReadByte(words, i) << 24) | (ReadByte(words, i + 1) << 16) | (ReadByte(words, i + 2) << 8) | ReadByte(words, i + 3)
  }

  function Or(x: bv32, y: bv32): bv32 { x | y }

  /** A byte shifted to place k of a big-endian word: v << (3 - k) * 8. */
  function AtPlace(v: bv32, k: nat): bv32 {
    if k == 0 then v << 24 else if k == 1 then v << 16 else if k == 2 then v << 8 else v
  }

  lemma {:induction false} OrByte0(b: byte, c: byte, d: byte, v: byte)
    ensures Or(BEWord(0, b, c, d), AtPlace(ByteWord(v), 0)) == BEWord(v, b, c, d)
  {
  }

  lemma {:induction false} OrByte1(a: byte, c: byte, d: byte, v: byte)
    ensures Or(BEWord(a, 0, c, d), AtPlace(ByteWord(v), 1)) == BEWord(a, v, c, d)
  {
  }

  lemma {:induction false} OrByte2(a: byte, b: byte, d: byte, v: byte)
    ensures Or(BEWord(a, b, 0, d), AtPlace(ByteWord(v), 2)) == BEWord(a, b, v, d)
  {
  }

  lemma {:induction false} OrByte3(a: byte, b: byte, c: byte, v: byte)
    ensures Or(BEWord(a, b, c, 0), AtPlace(ByteWord(v), 3)) == BEWord(a, b, c, v)
  {
  }

  function WordAt(block: Block, j: nat): bv32
    requires j < 16
  {
    BEWord(block[4 * j], block[4 * j + 1], block[4 * j + 2], block[4 * j + 3])
  }

  /** Or-ing a byte into an empty place of a packed block is storing it in the byte block. */
  lemma {:induction false} OrIsStore(block: Block, b: nat, v: byte, j: nat)
    requires b < 64 && block[b] == 0 && j < 16
    ensures var stored: Block := block[b := v];
            WordAt(stored, j) == if j == b / 4 then Or(WordAt(block, j), AtPlace(ByteWord(v), b % 4))
                             else WordAt(block, j)
  {
    var i, k := b / 4, b % 4;
    assert b == 4 * i + k;
    var b0, b1, b2, b3 := block[4 * i], block[4 * i + 1], block[4 * i + 2], block[4 * i + 3];
    if k == 0 {
      OrByte0(b1, b2, b3, v);
    } else if k == 1 {
      OrByte1(b0, b2, b3, v);
    } else if k == 2 {
      OrByte2(b0, b1, b3, v);
    } else {
      OrByte3(b0, b1, b2, v);
    }
  }

  /** A 32-bit number as a machine word: the word whose big-endian bytes are its base-256 digits. */
  function Word32(n: nat): bv32 {
    var b := BE(n, 4);
    BEWord(b[0], b[1], b[2], b[3])
  }

  lemma {:induction false} BESplit(n: nat, k: nat, j: nat)
    ensures BE(n, k + j) == BE(Sha256Stream.Shift(n, j), k) + BE(n, j)
  {
    if j > 0 {
      BESplit(n / 256, k, j - 1);
      Assoc(BE(Sha256Stream.Shift(n / 256, j - 1), k), BE(n / 256, j - 1), [(n % 256) as byte]);
    } else {
      assert BE(n, k) + [] == BE(n, k);
    }
  }

  /** The packed words hold this block of bytes. */
  ghost predicate HoldsBlock(m: seq<bv32>, block: Block) {
    |m| == 16 && forall j :: 0 <= j < 16 ==> m[j] == WordAt(block, j)
  }

  lemma HoldsIsWords(m: seq<bv32>, block: Block)
    requires HoldsBlock(m, block)
    ensures m == BlockWords(block)
  {
  }

  lemma {:induction false} OrKeepsBlock(m: seq<bv32>, block: Block, b: nat, v: byte)
    requires HoldsBlock(m, block) && b < 64 && block[b] == 0
    ensures var stored: Block := block[b := v];
            HoldsBlock(m[b / 4 := Or(m[b / 4], AtPlace(ByteWord(v), b % 4))], stored)
  {
    forall j: nat | j < 16 { OrIsStore(block, b, v, j); }
  }

  lemma EmptyBlockWords()
    ensures HoldsBlock(seq(16, _ => 0), Zeros(64))
  {
    assert ByteWord(0) == 0 && Pack4(0, 0, 0, 0) == 0;
  }

  lemma {:induction false} ShiftFour(n: nat)
    ensures Sha256Stream.Shift(n, 4) == n / U32_LIMIT
  {
    var a := n / 256;
    var b := a / 256;
    var c := b / 256;
    assert Sha256Stream.Shift(b, 2) == Sha256Stream.Shift(c, 1) == c / 256;
    assert Sha256Stream.Shift(n, 4) == Sha256Stream.Shift(a, 3) == Sha256Stream.Shift(b, 2);
    assert b == n / 0x1_0000 && c / 256 == b / 0x1_0000;
  }

  lemma {:induction false} LengthHalves(bits: nat)
    requires bits < U64_LIMIT
    ensures BE(bits, 8) == BE(bits / U32_LIMIT, 4) + BE(bits % U32_LIMIT, 4)
  {
    BESplit(bits, 4, 4);
    Pow256Widths();
    BEIgnoresHigh(bits % U32_LIMIT, bits / U32_LIMIT, 4);
    ShiftFour(bits);
  }

  /** Storing the two length words completes a block. */
  lemma {:induction false} LengthWords(m: seq<bv32>, block: Block, hi: nat, lo: nat)
    requires HoldsBlock(m, block)
    ensures var full: Block := block[..56] + (BE(hi, 4) + BE(lo, 4));
            HoldsBlock(m[14 := Word32(hi)][15 := Word32(lo)], full)
  {
    var full: Block := block[..56] + (BE(hi, 4) + BE(lo, 4));
    assert full[56..60] == BE(hi, 4) && full[60..64] == BE(lo, 4);
    assert forall i :: 0 <= i < 4 ==> full[56 + i] == BE(hi, 4)[i] && full[60 + i] == BE(lo, 4)[i];
  }

  /** The first sixteen words of w[64]. */
  method CopyWords(m: WordBlock) returns (w: array<bv32>)
    ensures fresh(w) && w.Length == 64 && w[..16] == m
  {
    w := new bv32[64];
    for i := 0 to 16
      invariant forall k :: 0 <= k < i ==> w[k] == m[k]
    {
      w[i] := m[i];
    }
  }

  /** compress of the shader: the schedule into w, then the rounds and the additions on s. */
  method ShaderCompress(s: array<bv32>, m: WordBlock)
    requires s.Length == 8
    modifies s
    ensures s[..] == CompressWords(old(s[..]), m)
  {
    var w := CopyWords(m);
    ExtendSchedule(NextWord, w, FullSchedule(NextWord, m));
    CompressState(s, w, m);
  }

  /** The compression function of the standard, named so that the proofs about blocks need not open it. */
  ghost predicate IsCompress(step: Compression) {
    forall h: State, b: Block {:trigger Compress(h, b)} :: step(h, b) == Compress(h, b)
  }

  /** On the words of a block it is a step of the byte-level function. */
  method ShaderStep(s: array<bv32>, m: WordBlock, ghost step: Compression, ghost block: Block)
    requires s.Length == 8 && IsCompress(step) && HoldsBlock(m, block)
    modifies s
    ensures s[..] == step(old(s[..]), block)
  {
    HoldsIsWords(m, block);
    ghost var expected := Compress(s[..], block);
    ShaderCompress(s, m);
    assert s[..] == expected;
  }

  lemma WordRead(words: seq<bv32>, flat: seq<byte>, pos: nat, j: nat)
    requires Packs(words, flat) && pos + 64 <= |flat| && j < 16
    ensures ReadBEWord(words, pos + 4 * j) == WordAt(flat[pos..pos + 64], j)
  {
    var i := pos + 4 * j;
    var block := flat[pos..pos + 64];
    assert block[4 * j] == flat[i] && block[4 * j + 1] == flat[i + 1];
    assert block[4 * j + 2] == flat[i + 2] && block[4 * j + 3] == flat[i + 3];
  }

  /** Sixteen big-endian words read from the buffer are the block at that offset. */
  method LoadBlock(words: seq<bv32>, pos: nat, ghost flat: seq<byte>) returns (m: array<bv32>)
    requires Packs(words, flat) && pos + 64 <= |flat|
    ensures fresh(m) && HoldsBlock(m[..], flat[pos..pos + 64])
  {
    ghost var block: Block := flat[pos..pos + 64];
    m := new bv32[16];
    for j := 0 to 16
      invariant forall k :: 0 <= k < j ==> m[k] == WordAt(block, k)
    {
      WordRead(words, flat, pos, j);
      m[j] := ReadBEWord(words, pos + 4 * j);
    }
  }

  lemma NextByte(r: seq<byte>, b: nat)
    requires b < |r| < 64
    ensures (r[..b] + Zeros(64 - b))[b := r[b]] == r[..b + 1] + Zeros(63 - b)
  {
  }

  lemma LastByte(r: seq<byte>)
    requires |r| < 64
    ensures (r + Zeros(64 - |r|))[|r| := 0x80] == r + [0x80] + Zeros(63 - |r|)
  {
  }

  /** One remaining byte or-ed into its word. */
  method OrRemaining(m: WordBlock, words: seq<bv32>, pos: nat, b: nat, ghost block: Block, ghost flat: seq<byte>)
      returns (m': WordBlock)
    requires Packs(words, flat) && b < 64 && pos + b < |flat|
    requires HoldsBlock(m, block) && block[b] == 0
    ensures HoldsBlock(m', block[b := flat[pos + b]])
  {
    OrKeepsBlock(m, block, b, flat[pos + b]);
    m' := m[b / 4 := Or(m[b / 4], AtPlace(ReadByte(words, pos + b), b % 4))];
  }

  /** The 1 bit or-ed into its word. */
  method OrMarker(m: WordBlock, b: nat, ghost block: Block) returns (m': WordBlock)
    requires b < 64 && HoldsBlock(m, block) && block[b] == 0
    ensures HoldsBlock(m', block[b := 0x80])
  {
    OrKeepsBlock(m, block, b, 0x80);
    assert ByteWord(0x80) == 0x80;
    m' := m[b / 4 := Or(m[b / 4], AtPlace(0x80, b % 4))];
  }

  /** The remaining bytes or-ed one by one into zeroed words, then the 1 bit. */
  method PackRemaining(words: seq<bv32>, pos: nat, remaining: nat, ghost flat: seq<byte>) returns (m: WordBlock)
    requires Packs(words, flat) && remaining < 64 && pos + remaining <= |flat|
    ensures HoldsBlock(m, flat[pos..pos + remaining] + [0x80] + Zeros(63 - remaining))
  {
    ghost var r := flat[pos..pos + remaining];
    m := seq(16, _ => 0);
    ghost var block: Block := Zeros(64);
    EmptyBlockWords();
    for b := 0 to remaining
      invariant HoldsBlock(m, block) && block == r[..b] + Zeros(64 - b)
    {
      NextByte(r, b);
      m := OrRemaining(m, words, pos, b, block, flat);
      block := block[b := r[b]];
    }
    assert r[..remaining] == r;
    LastByte(r);
    m := OrMarker(m, remaining, block);
  }

  /** The last block of the tail: the packed words with the two length words in place. */
  lemma {:induction false} LastWords(m: WordBlock, block: Block, size: nat)
    requires HoldsBlock(m, block)
    ensures var bits := Wrap64(8 * size);
            HoldsBlock(m[14 := Word32(bits / U32_LIMIT)][15 := Word32(bits % U32_LIMIT)], block[..56] + BE(8 * size, 8))
  {
    BEModulo(8 * size);
    var bits := Wrap64(8 * size);
    LengthHalves(bits);
    LengthWords(m, block, bits / U32_LIMIT, bits % U32_LIMIT);
  }

  /** The shader's tail: the packed remainder and the length words, in one block or two. */
  method VulkanTail(s: array<bv32>, ghost step: Compression, words: seq<bv32>, pos: nat, remaining: nat, size: nat,
                    ghost flat: seq<byte>)
    requires s.Length == 8 && IsCompress(step) && Packs(words, flat) && remaining < 64 && pos + remaining <= |flat|
    modifies s
    ensures var r := flat[pos..pos + remaining];
            s[..] == if remaining < 56 then step(old(s[..]), ShortTail(r, 8 * size))
                     else step(step(old(s[..]), LongTail(r)), LengthBlock(8 * size))
  {
    ghost var r := flat[pos..pos + remaining];
    var m := PackRemaining(words, pos, remaining, flat);
    ghost var block: Block := r + [0x80] + Zeros(63 - remaining);
    if remaining >= 56 {
      ShaderStep(s, m, step, block);
      m := seq(16, _ => 0);
      block := Zeros(64);
      EmptyBlockWords();
    }
    var bits := Wrap64(8 * size);
    LastWords(m, block, size);
    m := m[14 := Word32(bits / U32_LIMIT)][15 := Word32(bits % U32_LIMIT)];
    assert block[..56] == if remaining < 56 then r + [0x80] + Zeros(55 - remaining) else Zeros(56);
    ShaderStep(s, m, step, block[..56] + BE(8 * size, 8));
  }

  /** The word the shader stores, byte-swapped for a little-endian buffer. */
  function Swapped(w: bv32): bv32 {
    ((w & 0xFF) << 24) | (((w >> 8) & 0xFF) << 16) | (((w >> 16) & 0xFF) << 8) | ((w >> 24) & 0xFF)
  }

  /** A word as it lies in little-endian memory. */
  function LEBytes(w: bv32): seq<byte> {
    [LowByte(w), LowByte(w >> 8), LowByte(w >> 16), LowByte(w >> 24)]
  }

  function StoredBytes(hashes: seq<bv32>): seq<byte> {
    if hashes == [] then [] else LEBytes(hashes[0]) + StoredBytes(hashes[1..])
  }

  function SwapAll(s: seq<bv32>): (t: seq<bv32>)
    ensures |t| == |s|
  {
    seq(|s|, i requires 0 <= i < |s| => Swapped(s[i]))
  }

  lemma SwapTop(w: bv32)
    ensures Low8(Swapped(w)) == Low8(w >> 24) && Low8(Swapped(w) >> 8) == Low8(w >> 16)
  {
  }

  lemma SwapBottom(w: bv32)
    ensures Low8(Swapped(w) >> 16) == Low8(w >> 8) && Low8(Swapped(w) >> 24) == Low8(w)
  {
  }

  lemma SwappedBytes(w: bv32)
    ensures LEBytes(Swapped(w)) == WordBytes(w)
  {
    SwapTop(w);
    SwapBottom(w);
  }

  lemma {:induction false} SwappedDigest(s: seq<bv32>)
    ensures StoredBytes(SwapAll(s)) == DigestBytes(s)
  {
    if s != [] {
      SwappedBytes(s[0]);
      SwappedDigest(s[1..]);
      assert SwapAll(s)[1..] == SwapAll(s[1..]);
    }
  }

  /** The block of flat that starts at a position. */
  ghost function BlockAt(flat: seq<byte>, at: nat): Block
    requires at + 64 <= |flat|
  {
    flat[at..at + 64]
  }

  lemma BlockOfSlice(flat: seq<byte>, offset: nat, size: nat, n: nat)
    requires offset + size <= |flat| && 64 * n + 64 <= size
    ensures BlockOf(flat[offset..offset + size], n) == BlockAt(flat, offset + 64 * n)
  {
    SliceOfSlice(flat, offset, offset + size, 64 * n, 64 * n + 64);
  }

  /** One round of the block loop. */
  method VulkanBlock(s: array<bv32>, ghost step: Compression, words: seq<bv32>, at: nat, ghost flat: seq<byte>)
    requires s.Length == 8 && IsCompress(step) && Packs(words, flat) && at + 64 <= |flat|
    modifies s
    ensures s[..] == step(old(s[..]), BlockAt(flat, at))
  {
    var m := LoadBlock(words, at, flat);
    ShaderStep(s, m[..], step, BlockAt(flat, at));
  }

  /** The shader's loop over whole 512-bit blocks. */
  method VulkanBlocks(s: array<bv32>, ghost step: Compression, words: seq<bv32>, offset: nat, size: nat,
                      ghost flat: seq<byte>) returns (pos: nat, ghost n: nat)
    requires s.Length == 8 && s[..] == H0 && IsCompress(step) && Packs(words, flat) && offset + size <= |flat|
    modifies s
    ensures pos == 64 * n <= size < 64 * n + 64 && s[..] == Fold(step, flat[offset..offset + size], n)
  {
    ghost var msg := flat[offset..offset + size];
    pos, n := 0, 0;
    while pos + 64 <= size
      invariant pos == 64 * n <= size && s[..] == Fold(step, msg, n)
    {
      BlockOfSlice(flat, offset, size, n);
      VulkanBlock(s, step, words, offset + pos, flat);
      pos, n := pos + 64, n + 1;
    }
  }

  method InitialState() returns (s: array<bv32>)
    ensures fresh(s) && s.Length == 8 && s[..] == H0
  {
    s := new bv32[8](i requires 0 <= i < 8 => H0[i]);
    assert s[..] == H0;
  }

  /** The state of one invocation after all blocks of its slice. */
  method VulkanState(ghost step: Compression, words: seq<bv32>, offset: nat, size: nat, ghost flat: seq<byte>)
      returns (s: array<bv32>)
    requires IsCompress(step) && Packs(words, flat) && offset + size <= |flat|
    ensures fresh(s) && s.Length == 8
    ensures var msg := flat[offset..offset + size]; s[..] == Fold(step, Pad(msg), |Pad(msg)| / 64)
  {
    ghost var msg := flat[offset..offset + size];
    s := InitialState();
    var pos;
    ghost var n;
    pos, n := VulkanBlocks(s, step, words, offset, size, flat);
    FinishFold(step, msg, n);
    SliceOfSlice(flat, offset, offset + size, pos, size);
    assert msg[64 * n..] == flat[offset + pos..offset + size];
    VulkanTail(s, step, words, offset + pos, size - pos, size, flat);
  }

  /** main of the shader: in little-endian memory the eight words it stores are SHA-256 of the slice. */
  method VulkanKernel(words: seq<bv32>, offset: nat, size: nat, ghost flat: seq<byte>) returns (hashes: seq<bv32>)
    requires Packs(words, flat) && offset + size <= |flat|
    ensures StoredBytes(hashes) == Sha256(flat[offset..offset + size])
  {
    var s := VulkanState(Compress, words, offset, size, flat);
    SwappedDigest(s[..]);
    hashes := SwapAll(s[..]);
  }
}
