/** Bytes, fixed-width integers and reads at a file position: the vocabulary shared by every on-disk format. */
module Bytes {

  newtype byte = x: int | 0 <= x < 256

  datatype Option<+T> = None | Some(value: T)

  /** 256 to the power k: one more than the largest k-byte integer. */
  function Pow256(k: nat): (p: nat)
    ensures p > 0
  {
    if k == 0 then 1 else 256 * Pow256(k - 1)
  }

  const U32_LIMIT: nat := 0x1_0000_0000
  const U64_LIMIT: nat := 0x1_0000_0000_0000_0000

  lemma Pow256Widths()
    ensures Pow256(4) == U32_LIMIT && Pow256(8) == U64_LIMIT
  {
    assert Pow256(2) == 0x1_0000;
    assert Pow256(4) == 256 * (256 * Pow256(2));
    assert Pow256(6) == 256 * (256 * Pow256(4));
    assert Pow256(8) == 256 * (256 * Pow256(6));
  }

  /** The k low bytes of n, least significant first: a memcpy of a little-endian integer. */
  function LE(n: nat, k: nat): (s: seq<byte>)
    ensures |s| == k
  {
    if k == 0 then [] else [(n % 256) as byte] + LE(n / 256, k - 1)
  }

  function FromLE(s: seq<byte>): nat {
    if s == [] then 0 else s[0] as nat + 256 * FromLE(s[1..])
  }

  /** Reading back what was written gives the value modulo the width. */
  lemma {:induction false} FromLEOfLE(n: nat, k: nat)
    ensures n < Pow256(k) ==> FromLE(LE(n, k)) == n
  {
    if k > 0 {
      FromLEOfLE(n / 256, k - 1);
      assert LE(n, k)[1..] == LE(n / 256, k - 1);
    }
  }

  lemma {:induction false} LEOfFromLE(s: seq<byte>)
    ensures FromLE(s) < Pow256(|s|) && LE(FromLE(s), |s|) == s
  {
    if s != [] {
      LEOfFromLE(s[1..]);
      var n := FromLE(s);
      assert n / 256 == FromLE(s[1..]) && n % 256 == s[0] as nat;
    }
  }

  /** Field bytes and field value determine each other. */
  lemma {:induction false} LEDecodes(s: seq<byte>, n: nat, k: nat)
    requires |s| == k && n < Pow256(k)
    ensures s == LE(n, k) <==> FromLE(s) == n
  {
    FromLEOfLE(n, k);
    LEOfFromLE(s);
  }

  /** The k low bytes of n, most significant first. */
  function BE(n: nat, k: nat): (s: seq<byte>)
    ensures |s| == k
  {
    if k == 0 then [] else BE(n / 256, k - 1) + [(n % 256) as byte]
  }

  lemma TimesMonotone(x: nat, y: nat, d: nat)
    ensures x <= y ==> d * x <= d * y
  {
    if x <= y {
      assert d * y == d * x + d * (y - x);
    }
  }

  lemma QuotientIs(a: nat, d: nat, q: nat)
    requires d > 0 && d * q <= a < d * (q + 1)
    ensures a / d == q
  {
    var r := a / d;
    assert d * r <= a < d * (r + 1);
    TimesMonotone(r + 1, q, d);
    TimesMonotone(q + 1, r, d);
  }

  lemma DivideTwice(n: nat, b: nat)
    requires b > 0
    ensures n / 256 / b == n / (256 * b)
  {
    var m := n / 256;
    var q := m / b;
    var x := b * q;
    assert x <= m < b * (q + 1) == x + b;
    assert (256 * b) * q == 256 * x && (256 * b) * (q + 1) == 256 * x + 256 * b;
    QuotientIs(n, 256 * b, q);
  }

  /** Byte i of a little-endian integer has the weight 256 to the power i. */
  lemma {:induction false} ByteOfLE(n: nat, k: nat, i: nat)
    requires i < k
    ensures LE(n, k)[i] as nat == n / Pow256(i) % 256
  {
    if i > 0 {
      ByteOfLE(n / 256, k - 1, i - 1);
      DivideTwice(n, Pow256(i - 1));
    }
  }

  /** Byte i of a big-endian one, counted from the end, has it too. */
  lemma {:induction false} ByteOfBE(n: nat, k: nat, i: nat)
    requires i < k
    ensures BE(n, k)[k - 1 - i] as nat == n / Pow256(i) % 256
  {
    if i > 0 {
      ByteOfBE(n / 256, k - 1, i - 1);
      DivideTwice(n, Pow256(i - 1));
    }
  }

  /** The k bytes at pos are n, least significant first. */
  ghost predicate Little(file: seq<byte>, pos: nat, k: nat, n: nat) {
    && pos + k <= |file| && n < Pow256(k)
    && forall i: nat :: i < k ==> file[pos + i] as nat == n / Pow256(i) % 256
  }

  /** Reading a field finds the one integer its bytes stand for. */
  lemma {:induction false} LittleIff(file: seq<byte>, pos: nat, k: nat, n: nat)
    requires pos + k <= |file|
    ensures Little(file, pos, k, n) <==> FromLE(file[pos..pos + k]) == n
  {
    var s := file[pos..pos + k];
    LEOfFromLE(s);
    if FromLE(s) == n || Little(file, pos, k, n) {
      forall i: nat | i < k ensures LE(n, k)[i] as nat == n / Pow256(i) % 256 && s[i] == file[pos + i] {
        ByteOfLE(n, k, i);
      }
    }
    if Little(file, pos, k, n) {
      assert s == LE(n, k);
      FromLEOfLE(n, k);
    }
  }

  /** What fread delivers after an fseek: the bytes present, at most n of them. */
  function ReadAt(file: seq<byte>, pos: nat, n: nat): (r: seq<byte>)
    ensures |r| <= n
    ensures pos + n <= |file| ==> r == file[pos..pos + n]
    ensures |r| == n ==> n == 0 || pos + n <= |file|
    ensures r == [] || (pos + |r| <= |file| && r == file[pos..pos + |r|])
    ensures |r| == n || pos + |r| >= |file|
  {
    if |file| <= pos then [] else if pos + n <= |file| then file[pos..pos + n] else file[pos..]
  }

  /** A C string: the bytes before the first NUL. */
  function CString(s: seq<byte>): (r: seq<byte>)
    ensures 0 !in r && r <= s
    ensures 0 !in s ==> r == s
  {
    if s == [] || s[0] == 0 then [] else [s[0]] + CString(s[1..])
  }

  /** Unsigned 64-bit arithmetic. */
  function Wrap64(n: nat): nat { n % U64_LIMIT }

  lemma Unwrapped(n: nat)
    ensures Wrap64(n) == n <==> n < U64_LIMIT
  {
  }

  /** A conversion to uint32_t. */
  function Trunc32(n: nat): (r: nat)
    ensures r < U32_LIMIT && r <= n
  {
    n % U32_LIMIT
  }

  lemma Untruncated(n: nat)
    ensures Trunc32(n) == n <==> n < U32_LIMIT
  {
  }

  lemma WrapAdd(n: nat, d: nat)
    ensures Wrap64(Wrap64(n) + d) == Wrap64(n + d)
  {
  }
}
