/** Preprocessing and folding of FIPS 180-4 (sections 5.1.1, 5.2.1 and 6.2.2), for any compression function.
    Keeping the compression function a parameter keeps 32-bit arithmetic out of the proofs about blocks. */
module Hashing {
  import opened Bytes
  import opened Seqs

  type State = s: seq<bv32> | |s| == 8 witness [0, 0, 0, 0, 0, 0, 0, 0]
  type Block = b: seq<byte> | |b| == 64 witness Zeros(64)
  type Compression = (State, Block) -> State

  const H0: State := [
    0x6a09e667, 0xbb67ae85, 0x3c6ef372, 0xa54ff53a, 0x510e527f, 0x9b05688c, 0x1f83d9ab, 0x5be0cd19
  ]

  function BlockOf(s: seq<byte>, i: nat): Block
    requires 64 * (i + 1) <= |s|
  {
    s[64 * i..64 * (i + 1)]
  }

  lemma LastBlock(s: seq<byte>, n: nat)
    requires |s| == 64 * (n + 1)
    ensures BlockOf(s, n) == s[64 * n..]
  {
  }

  /** The intermediate hash value after the first n blocks of s. */
  function Fold(step: Compression, s: seq<byte>, n: nat): State
    requires 64 * n <= |s|
  {
    if n == 0 then H0 else step(Fold(step, s, n - 1), BlockOf(s, n - 1))
  }

  function Zeros(n: nat): (z: seq<byte>)
    ensures |z| == n && forall i :: 0 <= i < n ==> z[i] == 0
  {
    seq(n, _ => 0)
  }

  /** The number of zero bytes in the padding. */
  function ZeroCount(len: nat): nat {
    (55 - len) % 64
  }

  /** It is the least k with len + 1 + k congruent to 56 modulo 64, as 5.1.1 asks (there in bits). */
  lemma ZeroCountIsLeast(len: nat, j: nat)
    ensures (len + 1 + ZeroCount(len)) % 64 == 56
    ensures (len + 1 + j) % 64 == 56 ==> ZeroCount(len) <= j
  {
  }

  /** 5.1.1: the message, a 1 bit, zeros, and the length in bits as a 64-bit number. */
  function Pad(msg: seq<byte>): seq<byte> {
    msg + [0x80] + Zeros(ZeroCount(|msg|)) + BE(8 * |msg|, 8)
  }

  function WordBytes(w: bv32): (s: seq<byte>)
    ensures |s| == 4
  {
    [LowByte(w >> 24), LowByte(w >> 16), LowByte(w >> 8), LowByte(w)]
  }

  function Low8(w: bv32): bv32 { w & 0xFF }

  function LowByte(w: bv32): byte {
    (Low8(w) as int) as byte
  }

  function DigestBytes(h: seq<bv32>): (s: seq<byte>)
    ensures |s| == 4 * |h|
  {
    if h == [] then [] else WordBytes(h[0]) + DigestBytes(h[1..])
  }

  function DigestWith(step: Compression, msg: seq<byte>): (d: seq<byte>)
    ensures |d| == 32
  {
    DigestBytes(Fold(step, Pad(msg), |Pad(msg)| / 64))
  }

  function DigestOf(step: Compression): seq<byte> -> seq<byte> {
    (msg: seq<byte>) => DigestWith(step, msg)
  }

  // ---- Facts about folding and padding ----

  /** Folding the first blocks looks at nothing after them. */
  lemma {:induction false} FoldPrefix(step: Compression, s: seq<byte>, t: seq<byte>, n: nat)
    requires 64 * n <= |s| && 64 * n <= |t| && s[..64 * n] == t[..64 * n]
    ensures Fold(step, s, n) == Fold(step, t, n)
  {
    if n > 0 {
      var m := n - 1;
      assert s[..64 * m] == s[..64 * n][..64 * m] && t[..64 * m] == t[..64 * n][..64 * m];
      assert BlockOf(s, m) == s[..64 * n][64 * m..] && BlockOf(t, m) == t[..64 * n][64 * m..];
      FoldPrefix(step, s, t, m);
    }
  }

  lemma {:induction false} BEIgnoresHigh(n: nat, q: nat, k: nat)
    ensures BE(n + q * Pow256(k), k) == BE(n, k)
  {
    if k > 0 {
      var x := q * Pow256(k - 1);
      assert q * Pow256(k) == 256 * x;
      BEIgnoresHigh(n / 256, q, k - 1);
    }
  }

  /** The length field only sees the length modulo its width. */
  lemma {:induction false} BEModulo(n: nat)
    ensures BE(n % U64_LIMIT, 8) == BE(n, 8)
  {
    Pow256Widths();
    BEIgnoresHigh(n % U64_LIMIT, n / U64_LIMIT, 8);
  }

  /** The block that carries the length when the r bytes left over leave room for it. */
  function ShortTail(r: seq<byte>, bits: nat): (b: seq<byte>)
    requires |r| < 56
    ensures |b| == 64
  {
    r + [0x80] + Zeros(55 - |r|) + BE(bits, 8)
  }

  /** Otherwise a first block without the length, then one with only the length. */
  function LongTail(r: seq<byte>): (b: seq<byte>)
    requires 56 <= |r| < 64
    ensures |b| == 64
  {
    r + [0x80] + Zeros(63 - |r|)
  }

  function LengthBlock(bits: nat): (b: seq<byte>)
    ensures |b| == 64
  {
    Zeros(56) + BE(bits, 8)
  }

  lemma ZerosNeeded(len: nat, n: nat)
    requires 64 * n <= len < 64 * n + 64
    ensures ZeroCount(len) == if len < 64 * n + 56 then 55 - (len - 64 * n) else 119 - (len - 64 * n)
  {
  }

  lemma PadShort(msg: seq<byte>, n: nat)
    requires 64 * n <= |msg| < 64 * n + 56
    ensures |Pad(msg)| == 64 * n + 64
    ensures Pad(msg)[..64 * n] == msg[..64 * n]
    ensures Pad(msg)[64 * n..] == ShortTail(msg[64 * n..], 8 * |msg|)
  {
    var whole, r := msg[..64 * n], msg[64 * n..];
    ZerosNeeded(|msg|, n);
    assert msg == whole + r && |r| == |msg| - 64 * n;
    AssocFour(whole, r, [0x80], Zeros(55 - |r|), BE(8 * |msg|, 8));
  }

  /** The zeros of a long padding fill the first tail block and start the second. */
  lemma LongParts(whole: seq<byte>, r: seq<byte>, len: seq<byte>)
    requires 56 <= |r| < 64
    ensures whole + r + [0x80] + Zeros(119 - |r|) + len == whole + LongTail(r) + (Zeros(56) + len)
  {
    assert Zeros(119 - |r|) == Zeros(63 - |r|) + Zeros(56);
    AssocFour(whole, r, [0x80], Zeros(63 - |r|), Zeros(56));
    Assoc(whole + r + [0x80], Zeros(63 - |r|), Zeros(56));
    Assoc(whole, LongTail(r), Zeros(56));
    Assoc(whole + LongTail(r), Zeros(56), len);
  }

  lemma PadLong(msg: seq<byte>, n: nat)
    requires 64 * n + 56 <= |msg| < 64 * n + 64
    ensures |Pad(msg)| == 64 * n + 128
    ensures Pad(msg)[..64 * n] == msg[..64 * n]
    ensures Pad(msg)[64 * n..64 * n + 64] == LongTail(msg[64 * n..])
    ensures Pad(msg)[64 * n + 64..] == LengthBlock(8 * |msg|)
  {
    var whole, r, len := msg[..64 * n], msg[64 * n..], BE(8 * |msg|, 8);
    ZerosNeeded(|msg|, n);
    assert msg == whole + r && |r| == |msg| - 64 * n;
    LongParts(whole, r, len);
    assert Pad(msg) == whole + LongTail(r) + LengthBlock(8 * |msg|);
    ThreeParts(Pad(msg), whole, LongTail(r), LengthBlock(8 * |msg|));
  }

  /** What remains to be folded once the n whole blocks of a message are: one or two tail blocks. */
  lemma {:induction false} FinishFold(step: Compression, msg: seq<byte>, n: nat)
    requires 64 * n <= |msg| < 64 * n + 64
    ensures var r, bits, h := msg[64 * n..], 8 * |msg|, Fold(step, msg, n);
            Fold(step, Pad(msg), |Pad(msg)| / 64) ==
            if |r| < 56 then step(h, ShortTail(r, bits)) else step(step(h, LongTail(r)), LengthBlock(bits))
  {
    var p := Pad(msg);
    if |msg| < 64 * n + 56 {
      PadShort(msg, n);
      FoldPrefix(step, p, msg, n);
      assert BlockOf(p, n) == p[64 * n..] && |p| / 64 == n + 1;
    } else {
      PadLong(msg, n);
      FoldPrefix(step, p, msg, n);
      assert BlockOf(p, n) == p[64 * n..64 * n + 64] && BlockOf(p, n + 1) == p[64 * n + 64..] && |p| / 64 == n + 2;
      assert Fold(step, p, n + 1) == step(Fold(step, p, n), BlockOf(p, n));
    }
  }
}
