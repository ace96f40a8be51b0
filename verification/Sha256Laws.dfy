/** The word functions of FIPS 180-4 (sections 3.2 and 4.1.2) bit by bit, and words byte by byte. */
module Sha256Laws {
  import opened Bytes
  import opened Hashing
  import opened Sha256Compression

  lemma SmallTurn(x: bv32, n: bv6)
    requires 0 < n <= 16
    ensures Rotr(x, n) & (0xffff_ffff >> n) == x >> n
  {
    if n == 1 {
    } else if n == 2 {
    } else if n == 3 {
    } else if n == 4 {
    } else if n == 5 {
    } else if n == 6 {
    } else if n == 7 {
    } else if n == 8 {
    } else if n == 9 {
    } else if n == 10 {
    } else if n == 11 {
    } else if n == 12 {
    } else if n == 13 {
    } else if n == 14 {
    } else if n == 15 {
    } else if n == 16 {
    }
  }

  lemma LargeTurn(x: bv32, n: bv6)
    requires 16 < n < 32
    ensures Rotr(x, n) & (0xffff_ffff >> n) == x >> n
  {
    if n == 17 {
    } else if n == 18 {
    } else if n == 19 {
    } else if n == 20 {
    } else if n == 21 {
    } else if n == 22 {
    } else if n == 23 {
    } else if n == 24 {
    } else if n == 25 {
    } else if n == 26 {
    } else if n == 27 {
    } else if n == 28 {
    } else if n == 29 {
    } else if n == 30 {
    } else if n == 31 {
    }
  }

  /** Rotation to the right by n moves the upper 32 - n bits down. */
  lemma RotrLower(x: bv32, n: bv6)
    requires 0 < n < 32
    ensures Rotr(x, n) & (0xffff_ffff >> n) == x >> n
  {
    if n <= 16 {
      SmallTurn(x, n);
    } else {
      LargeTurn(x, n);
    }
  }

  /** It moves the lower n bits to the top. */
  lemma RotrUpper(x: bv32, n: bv6)
    requires 0 < n < 32
    ensures Rotr(x, n) >> (32 - n) == x & (0xffff_ffff >> (32 - n))
  {
    if n == 1 {
    } else if n == 2 {
    } else if n == 3 {
    } else if n == 4 {
    } else if n == 5 {
    } else if n == 6 {
    } else if n == 7 {
    } else if n == 8 {
    } else if n == 9 {
    } else if n == 10 {
    } else if n == 11 {
    } else if n == 12 {
    } else if n == 13 {
    } else if n == 14 {
    } else if n == 15 {
    } else if n == 16 {
    } else if n == 17 {
    } else if n == 18 {
    } else if n == 19 {
    } else if n == 20 {
    } else if n == 21 {
    } else if n == 22 {
    } else if n == 23 {
    } else if n == 24 {
    } else if n == 25 {
    } else if n == 26 {
    } else if n == 27 {
    } else if n == 28 {
    } else if n == 29 {
    } else if n == 30 {
    } else if n == 31 {
    }
  }

  /** Ch has the bits of y where x has ones, and those of z where x has zeros. */
  lemma ChBits(x: bv32, y: bv32, z: bv32)
    ensures Ch(x, y, z) & x == y & x && Ch(x, y, z) & !x == z & !x
  {
  }

  /** Maj has the bits of x where x and y are equal, and those of z where they differ: the majority of the three. */
  lemma MajBits(x: bv32, y: bv32, z: bv32)
    ensures Maj(x, y, z) & !(x ^ y) == x & !(x ^ y) && Maj(x, y, z) & (x ^ y) == z & (x ^ y)
  {
  }

  lemma DoubleValue(x: bv32, c: bv32)
    requires x < 128 && c < 2
    ensures ((x << 1) | c) as nat == 2 * (x as nat) + c as nat && ((x << 1) | c) < 256
  {
  }

  lemma HalfByte(x: bv32, b: byte)
    requires x as nat == (b / 2) as nat
    ensures x < 128
  {
  }

  /** A byte as a word keeps its value. */
  lemma {:induction false} ByteWordValue(b: byte)
    ensures ByteWord(b) as nat == b as nat
  {
    if b != 0 {
      ByteWordValue(b / 2);
      HalfByte(ByteWord(b / 2), b);
      DoubleValue(ByteWord(b / 2), if b % 2 == 1 then 1 else 0);
    }
  }

  lemma {:induction false} ByteWordSmall(b: byte)
    ensures ByteWord(b) < 256
  {
    ByteWordValue(b);
    SmallWord(ByteWord(b));
  }

  lemma SmallWord(x: bv32)
    requires x as nat < 256
    ensures x < 256
  {
  }

  lemma PackedParts(a: bv32, b: bv32, c: bv32, d: bv32)
    requires a < 256 && b < 256 && c < 256 && d < 256
    ensures var w := Pack4(a, b, c, d);
            Low8(w >> 24) == a && Low8(w >> 16) == b && Low8(w >> 8) == c && Low8(w) == d
  {
  }

  /** Printing a word undoes reading four bytes as a big-endian word: the first byte is the most significant. */
  lemma WordOfBytes(b0: byte, b1: byte, b2: byte, b3: byte)
    ensures WordBytes(BEWord(b0, b1, b2, b3)) == [b0, b1, b2, b3]
  {
    ByteWordSmall(b0);
    ByteWordSmall(b1);
    ByteWordSmall(b2);
    ByteWordSmall(b3);
    ByteWordValue(b0);
    ByteWordValue(b1);
    ByteWordValue(b2);
    ByteWordValue(b3);
    PackedParts(ByteWord(b0), ByteWord(b1), ByteWord(b2), ByteWord(b3));
  }
}
