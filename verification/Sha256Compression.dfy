/** The SHA-256 compression function of FIPS 180-4 (sections 4.1.2, 4.2.2, 6.2.2) and sha256_transform (sha256.c). */
module Sha256Compression {
  import opened Bytes
  import opened Hashing

  const K: seq<bv32> :=
    (([0x428a2f98, 0x71374491, 0xb5c0fbcf, 0xe9b5dba5, 0x3956c25b, 0x59f111f1, 0x923f82a4, 0xab1c5ed5] +
      [0xd807aa98, 0x12835b01, 0x243185be, 0x550c7dc3, 0x72be5d74, 0x80deb1fe, 0x9bdc06a7, 0xc19bf174]) +
     ([0xe49b69c1, 0xefbe4786, 0x0fc19dc6, 0x240ca1cc, 0x2de92c6f, 0x4a7484aa, 0x5cb0a9dc, 0x76f988da] +
      [0x983e5152, 0xa831c66d, 0xb00327c8, 0xbf597fc7, 0xc6e00bf3, 0xd5a79147, 0x06ca6351, 0x14292967])) +
    (([0x27b70a85, 0x2e1b2138, 0x4d2c6dfc, 0x53380d13, 0x650a7354, 0x766a0abb, 0x81c2c92e, 0x92722c85] +
      [0xa2bfe8a1, 0xa81a664b, 0xc24b8b70, 0xc76c51a3, 0xd192e819, 0xd6990624, 0xf40e3585, 0x106aa070]) +
     ([0x19a4c116, 0x1e376c08, 0x2748774c, 0x34b0bcb5, 0x391c0cb3, 0x4ed8aa4a, 0x5b9cca4f, 0x682e6ff3] +
      [0x748f82ee, 0x78a5636f, 0x84c87814, 0x8cc70208, 0x90befffa, 0xa4506ceb, 0xbef9a3f7, 0xc67178f2]))

  /** Addition modulo 2^32. Named, so that proofs compare sums by their parts and not bit by bit. */
  function Plus(x: bv32, y: bv32): bv32 { x + y }

  function Rotr(x: bv32, n: bv6): bv32
    requires n <= 32
  {
    (x >> n) | (x << (32 - n))
  }

  function Ch(x: bv32, y: bv32, z: bv32): bv32 { (x & y) ^ ((!x) & z) }
  function Maj(x: bv32, y: bv32, z: bv32): bv32 { (x & y) ^ (x & z) ^ (y & z) }
  function BigSigma0(x: bv32): bv32 { Rotr(x, 2) ^ Rotr(x, 13) ^ Rotr(x, 22) }
  function BigSigma1(x: bv32): bv32 { Rotr(x, 6) ^ Rotr(x, 11) ^ Rotr(x, 25) }
  function SmallSigma0(x: bv32): bv32 { Rotr(x, 7) ^ Rotr(x, 18) ^ (x >> 3) }
  function SmallSigma1(x: bv32): bv32 { Rotr(x, 17) ^ Rotr(x, 19) ^ (x >> 10) }

  /** The 32-bit word with the value of a byte, bit by bit, so that proofs need no number conversion. */
  function ByteWord(b: byte): bv32 {
    if b == 0 then 0 else (ByteWord(b / 2) << 1) | (if b % 2 == 1 then 1 else 0)
  }

  function Pack4(a: bv32, b: bv32, c: bv32, d: bv32): bv32 {
    (a << 24) | (b << 16) | (c << 8) | d
  }

  /** Four bytes as a big-endian word. */
  function BEWord(b0: byte, b1: byte, b2: byte, b3: byte): bv32 {
    Pack4(ByteWord(b0), ByteWord(b1), ByteWord(b2), ByteWord(b3))
  }

  /** A 64-byte block as sixteen words. */
  function BlockWords(block: seq<byte>): (m: seq<bv32>)
    requires |block| == 64
    ensures |m| == 16
    ensures forall j :: 0 <= j < 16 ==>
                          m[j] == BEWord(block[4 * j], block[4 * j + 1], block[4 * j + 2], block[4 * j + 3])
  {
    seq(16, j requires 0 <= j < 16 => BEWord(block[4 * j], block[4 * j + 1], block[4 * j + 2], block[4 * j + 3]))
  }

  /** The recurrence of the message schedule, over W_(t-2), W_(t-7), W_(t-15) and W_(t-16). */
  function NextWord(w2: bv32, w7: bv32, w15: bv32, w16: bv32): bv32 {
    Plus(Plus(Plus(SmallSigma1(w2), w7), SmallSigma0(w15)), w16)
  }

  type Recurrence = (bv32, bv32, bv32, bv32) -> bv32

  /** The message schedule word W_t, for any recurrence. */
  function ScheduleWith(next: Recurrence, m: seq<bv32>, t: nat): bv32
    requires |m| == 16
  {
    if t < 16 then m[t]
    else next(ScheduleWith(next, m, t - 2), ScheduleWith(next, m, t - 7),
              ScheduleWith(next, m, t - 15), ScheduleWith(next, m, t - 16))
  }

  function Schedule(m: seq<bv32>, t: nat): bv32
    requires |m| == 16
  {
    ScheduleWith(NextWord, m, t)
  }

  datatype Regs = Regs(a: bv32, b: bv32, c: bv32, d: bv32, e: bv32, f: bv32, g: bv32, h: bv32)

  function Round(r: Regs, k: bv32, w: bv32): Regs {
    var t1 := Plus(Plus(Plus(Plus(r.h, BigSigma1(r.e)), Ch(r.e, r.f, r.g)), k), w);
    var t2 := Plus(BigSigma0(r.a), Maj(r.a, r.b, r.c));
    Regs(Plus(t1, t2), r.a, r.b, r.c, Plus(r.d, t1), r.e, r.f, r.g)
  }

  /** The working variables after t rounds. */
  function Rounds(m: seq<bv32>, r: Regs, t: nat): Regs
    requires |m| == 16 && t <= 64
  {
    if t == 0 then r else Round(Rounds(m, r, t - 1), K[t - 1], Schedule(m, t - 1))
  }

  function RegsOf(h: State): Regs {
    Regs(h[0], h[1], h[2], h[3], h[4], h[5], h[6], h[7])
  }

  function ZipWith<T>(f: (T, T) -> T, a: seq<T>, b: seq<T>): (z: seq<T>)
    requires |a| == |b|
    ensures |z| == |a| && forall i :: 0 <= i < |a| ==> z[i] == f(a[i], b[i])
  {
    seq(|a|, i requires 0 <= i < |a| => f(a[i], b[i]))
  }

  function Listed(r: Regs): seq<bv32> {
    [r.a, r.b, r.c, r.d, r.e, r.f, r.g, r.h]
  }

  function AddRegs(h: State, r: Regs): State {
    ZipWith(Plus, h, Listed(r))
  }

  function CompressWords(h: State, m: seq<bv32>): State
    requires |m| == 16
  {
    AddRegs(h, Rounds(m, RegsOf(h), 64))
  }

  function Compress(h: State, block: Block): State {
    CompressWords(h, BlockWords(block))
  }

  /** The message digest of FIPS 180-4. */
  function Sha256(msg: seq<byte>): (d: seq<byte>)
    ensures |d| == 32
  {
    DigestWith(Compress, msg)
  }

  /** Entry t of a schedule follows from the four entries the recurrence names. */
  ghost predicate Follows(next: Recurrence, full: seq<bv32>, t: nat) {
    16 <= t < |full| && full[t] == next(full[t - 2], full[t - 7], full[t - 15], full[t - 16])
  }

  /** All 64 words at once. */
  ghost function FullSchedule(next: Recurrence, m: seq<bv32>): (full: seq<bv32>)
    requires |m| == 16
    ensures |full| == 64 && full[..16] == m
    ensures forall t :: 16 <= t < 64 ==> Follows(next, full, t)
    ensures forall t :: 0 <= t < 64 ==> full[t] == ScheduleWith(next, m, t)
  {
    seq(64, t requires 0 <= t => ScheduleWith(next, m, t))
  }

  /** The recurrence loop, over an array whose first sixteen words are loaded. */
  method ExtendSchedule(next: Recurrence, m: array<bv32>, ghost full: seq<bv32>)
    requires m.Length == 64 == |full| && m[..16] == full[..16]
    requires forall t :: 16 <= t < 64 ==> Follows(next, full, t)
    modifies m
    ensures m[..] == full
  {
    var i := 16;
    while i < 64
      invariant 16 <= i <= 64 && m[..i] == full[..i]
    {
      assert Follows(next, full, i);
      ghost var known := m[..i];
      assert known[i - 2] == m[i - 2] && known[i - 7] == m[i - 7];
      assert known[i - 15] == m[i - 15] && known[i - 16] == m[i - 16];
      m[i] := next(m[i - 2], m[i - 7], m[i - 15], m[i - 16]);
      assert m[..i + 1] == known + [m[i]] && full[..i + 1] == full[..i] + [full[i]];
      i := i + 1;
    }
  }

  /** First part of sha256_transform: sixteen words from the block, the rest by recurrence. */
  method ExpandSchedule(next: Recurrence, data: array<byte>) returns (m: array<bv32>)
    requires data.Length == 64
    ensures fresh(m) && m[..] == FullSchedule(next, BlockWords(data[..]))
  {
    m := new bv32[64];
    var i, j := 0, 0;
    while i < 16
      invariant i <= 16 && j == 4 * i
      invariant forall k :: 0 <= k < i ==>
                        m[k] == BEWord(data[4 * k], data[4 * k + 1], data[4 * k + 2], data[4 * k + 3])
    {
      m[i] := BEWord(data[j], data[j + 1], data[j + 2], data[j + 3]);
      i, j := i + 1, j + 4;
    }
    assert m[..16] == BlockWords(data[..]);
    ExtendSchedule(next, m, FullSchedule(next, BlockWords(data[..])));
  }

  /** The body of the round loop: two temporaries, then the eight variables shift. */
  method OneRound(r: Regs, k: bv32, w: bv32) returns (r': Regs)
    ensures r' == Round(r, k, w)
  {
    var Regs(a, b, c, d, e, f, g, h) := r;
    var t1 := Plus(Plus(Plus(Plus(h, BigSigma1(e)), Ch(e, f, g)), k), w);
    var t2 := Plus(BigSigma0(a), Maj(a, b, c));
    h, g, f, e, d, c, b, a := g, f, e, Plus(d, t1), c, b, a, Plus(t1, t2);
    return Regs(a, b, c, d, e, f, g, h);
  }

  /** Second part: 64 rounds over the eight working variables. */
  method RunRounds(m: array<bv32>, start: Regs, ghost words: seq<bv32>) returns (r: Regs)
    requires |words| == 16 && m[..] == FullSchedule(NextWord, words)
    ensures r == Rounds(words, start, 64)
  {
    r := start;
    for i := 0 to 64
      invariant r == Rounds(words, start, i)
    {
      assert m[i] == m[..][i] == Schedule(words, i);
      r := OneRound(r, K[i], m[i]);
    }
  }

  /** state[i] += addends[i], for every i. */
  method AddEach<T>(plus: (T, T) -> T, state: array<T>, addends: seq<T>)
    requires state.Length == |addends|
    modifies state
    ensures state[..] == ZipWith(plus, old(state[..]), addends)
  {
    ghost var sum := ZipWith(plus, state[..], addends);
    for i := 0 to |addends|
      invariant forall k :: 0 <= k < i ==> state[k] == sum[k]
      invariant forall k :: i <= k < state.Length ==> state[k] == old(state[k])
    {
      state[i] := plus(state[i], addends[i]);
    }
    assert state[..] == sum;
  }

  /** The eight additions at the end. */
  method AddToState(state: array<bv32>, r: Regs)
    requires state.Length == 8
    modifies state
    ensures state[..] == AddRegs(old(state[..]), r)
  {
    AddEach(Plus, state, Listed(r));
  }

  /** The rounds and the additions, over a filled schedule. */
  method CompressState(state: array<bv32>, w: array<bv32>, ghost words: seq<bv32>)
    requires state.Length == 8 && state != w && |words| == 16 && w[..] == FullSchedule(NextWord, words)
    modifies state
    ensures state[..] == CompressWords(old(state[..]), words)
  {
    var start := Regs(state[0], state[1], state[2], state[3], state[4], state[5], state[6], state[7]);
    assert start == RegsOf(state[..]);
    var r := RunRounds(w, start, words);
    AddToState(state, r);
  }

  /** sha256_transform: the state after one more block. */
  method Transform(state: array<bv32>, data: array<byte>)
    requires state.Length == 8 && data.Length == 64
    modifies state
    ensures state[..] == Compress(old(state[..]), data[..])
  {
    var m := ExpandSchedule(NextWord, data);
    CompressState(state, m, BlockWords(data[..]));
  }
}
