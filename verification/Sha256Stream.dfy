/** The streaming SHA-256 context with its in-place 64-byte buffer (sha256.c). The context is verified for any
    compression function; Sha256Compression.Transform is the one sha256.c applies. */
module Sha256Stream {
  import opened Bytes
  import opened Seqs
  import opened Hashing
  import Sha256Compression
  import Sha256Example

  class Context {
    const step: Compression
    const data: array<byte>
    var datalen: nat
    var bitlen: nat
    var state: State

    /** Everything absorbed so far, and how many whole blocks of it have been compressed. */
    ghost var msg: seq<byte>
    ghost var blocks: nat

    ghost predicate Valid()
      reads this, data
    {
      && data.Length == 64
      && datalen < 64 && |msg| == 64 * blocks + datalen
      && data[..datalen] == msg[64 * blocks..]
      && state == Fold(step, msg, blocks)
      && bitlen == Wrap64(512 * blocks)
    }

    /** sha256_init. */
    constructor (step: Compression)
      ensures Valid() && msg == [] && fresh(data) && this.step == step
    {
      this.step := step;
      data := new byte[64];
      datalen, bitlen, state := 0, 0, H0;
      msg, blocks := [], 0;
    }

    /** The full buffer is compressed and counted. */
    method CompressBuffer(ghost grown: seq<byte>)
      requires data.Length == 64 && |grown| == 64 * (blocks + 1) && data[..] == BlockOf(grown, blocks)
      requires state == Fold(step, grown, blocks) && bitlen == Wrap64(512 * blocks)
      modifies this`state, this`bitlen, this`datalen, this`blocks
      ensures blocks == old(blocks) + 1 && datalen == 0
      ensures state == Fold(step, grown, blocks) && bitlen == Wrap64(512 * blocks)
    {
      state := step(state, data[..]);
      WrapAdd(512 * blocks, 512);
      bitlen := Wrap64(bitlen + 512);
      datalen := 0;
      blocks := blocks + 1;
    }

    /** The next byte of the buffer. */
    method PutByte(b: byte, ghost tail: seq<byte>)
      requires datalen < data.Length && data[..datalen] == tail
      modifies this`datalen, data
      ensures datalen == old(datalen) + 1 && data[..datalen] == tail + [b]
    {
      data[datalen] := b;
      datalen := datalen + 1;
      assert data[..datalen] == data[..datalen - 1] + [b];
    }

    method Absorb(b: byte)
      requires Valid()
      modifies this, data
      ensures Valid() && msg == old(msg) + [b]
    {
      ghost var grown := msg + [b];
      FoldPrefix(step, msg, grown, blocks);
      DropAppend(msg, [b], 64 * blocks);
      PutByte(b, msg[64 * blocks..]);
      if datalen == 64 {
        LastBlock(grown, blocks);
        assert data[..] == data[..datalen];
        CompressBuffer(grown);
      }
      msg := grown;
    }

    method Update(d: seq<byte>)
      requires Valid()
      modifies this, data
      ensures Valid() && msg == old(msg) + d
    {
      assert msg + d[..0] == msg;
      for i := 0 to |d|
        invariant Valid() && msg == old(msg) + d[..i]
      {
        Absorb(d[i]);
        assert d[..i + 1] == d[..i] + [d[i]];
      }
      assert d[..|d|] == d;
    }

    /** Writes a value over data[from..to], as the while loops and the memset of sha256_final do. */
    method Fill(from: nat, to: nat)
      requires from <= to <= data.Length
      modifies data
      ensures data[..] == old(data[..])[..from] + Zeros(to - from) + old(data[..])[to..]
    {
      for i := from to to
        invariant forall k :: 0 <= k < data.Length ==> data[k] == if from <= k < i then 0 else old(data[k])
      {
        data[i] := 0;
      }
    }

    /** The eight stores of the bit count, most significant byte first. */
    method StoreLength()
      requires data.Length == 64
      modifies data
      ensures data[..] == old(data[..])[..56] + BE(bitlen, 8)
    {
      BytesOfLength(bitlen);
      data[63], data[62], data[61], data[60] :=
        ShiftByte(bitlen, 0), ShiftByte(bitlen, 1), ShiftByte(bitlen, 2), ShiftByte(bitlen, 3);
      data[59], data[58], data[57], data[56] :=
        ShiftByte(bitlen, 4), ShiftByte(bitlen, 5), ShiftByte(bitlen, 6), ShiftByte(bitlen, 7);
      assert data[56..] == BE(bitlen, 8);
      assert data[..] == data[..56] + data[56..];
    }

    /** Pads in place when the length still fits: the 1 bit, then zeros up to byte 56. */
    method PadShortInPlace(ghost r: seq<byte>)
      requires data.Length == 64 && datalen == |r| < 56 && data[..datalen] == r
      modifies data
      ensures data[..56] == r + [0x80] + Zeros(55 - |r|)
    {
      data[datalen] := 0x80;
      assert data[..datalen + 1] == r + [0x80];
      Fill(datalen + 1, 56);
    }

    /** Pads in place when it does not: the 1 bit, then zeros up to the end of the block. */
    method PadLongInPlace(ghost r: seq<byte>)
      requires data.Length == 64 && 56 <= datalen == |r| < 64 && data[..datalen] == r
      modifies data
      ensures data[..] == LongTail(r)
    {
      data[datalen] := 0x80;
      assert data[..datalen + 1] == r + [0x80];
      Fill(datalen + 1, 64);
    }

    /** sha256_final. */
    method Final() returns (hash: seq<byte>)
      requires Valid()
      modifies this, data
      ensures hash == DigestWith(step, old(msg))
    {
      ghost var m, r := msg, msg[64 * blocks..];
      FinishFold(step, m, blocks);
      if datalen < 56 {
        PadShortInPlace(r);
      } else {
        PadLongInPlace(r);
        state := step(state, data[..]);
        Fill(0, 56);
        assert data[..56] == Zeros(56);
      }
      ghost var front := data[..56];
      WrapAdd(512 * blocks, 8 * datalen);
      bitlen := Wrap64(bitlen + 8 * datalen);
      assert bitlen == Wrap64(8 * |m|);
      BEModulo(8 * |m|);
      StoreLength();
      assert data[..] == front + BE(8 * |m|, 8);
      state := step(state, data[..]);
      hash := DigestBytes(state);
    }
  }

  /** n >> 8 * i. */
  function Shift(n: nat, i: nat): nat {
    if i == 0 then n else Shift(n / 256, i - 1)
  }

  function ShiftByte(n: nat, i: nat): byte {
    (Shift(n, i) % 256) as byte
  }

  lemma {:induction false} BytesOfLength(n: nat)
    ensures forall k :: 0 <= k < 8 ==> BE(n, 8)[k] == ShiftByte(n, 7 - k)
  {
    forall k | 0 <= k < 8 ensures BE(n, 8)[k] == ShiftByte(n, 7 - k) { ShiftOfBE(n, 8, 7 - k); }
  }

  lemma {:induction false} ShiftOfBE(n: nat, k: nat, i: nat)
    requires i < k
    ensures BE(n, k)[k - 1 - i] == ShiftByte(n, i)
  {
    if i > 0 {
      ShiftOfBE(n / 256, k - 1, i - 1);
    }
  }

  function Flatten(chunks: seq<seq<byte>>): seq<byte> {
    if chunks == [] then [] else Flatten(chunks[..|chunks| - 1]) + chunks[|chunks| - 1]
  }

  /** How a message is split over updates does not matter. */
  method HashChunks(step: Compression, chunks: seq<seq<byte>>) returns (hash: seq<byte>)
    ensures hash == DigestWith(step, Flatten(chunks))
  {
    var ctx := new Context(step);
    for i := 0 to |chunks|
      invariant ctx.Valid() && fresh(ctx) && fresh(ctx.data) && ctx.msg == Flatten(chunks[..i])
    {
      ctx.Update(chunks[i]);
      assert chunks[..i + 1][..i] == chunks[..i];
    }
    assert chunks[..|chunks|] == chunks;
    hash := ctx.Final();
  }

  /** hash_file: the stream is read in chunks of at most 65536 bytes, each handed to Update. */
  method HashFileWith(step: Compression, file: seq<byte>) returns (hash: seq<byte>)
    ensures hash == DigestWith(step, file)
  {
    var ctx := new Context(step);
    var pos := 0;
    while pos < |file|
      invariant pos <= |file| && ctx.Valid() && fresh(ctx) && fresh(ctx.data) && ctx.msg == file[..pos]
    {
      var n := if |file| - pos < 65536 then |file| - pos else 65536;
      SplitAt(file, 0, pos, pos + n);
      ctx.Update(file[pos..pos + n]);
      pos := pos + n;
    }
    assert file[..pos] == file;
    hash := ctx.Final();
  }

  /** With sha256_transform this is SHA-256; for the file "abc" it is the digest published as an example. */
  method HashFile(file: seq<byte>) returns (hash: seq<byte>)
    ensures hash == Sha256Compression.Sha256(file)
    ensures file == [0x61, 0x62, 0x63] ==>
              hash == [0xba, 0x78, 0x16, 0xbf] + [0x8f, 0x01, 0xcf, 0xea] + [0x41, 0x41, 0x40, 0xde]
                      + [0x5d, 0xae, 0x22, 0x23] + [0xb0, 0x03, 0x61, 0xa3] + [0x96, 0x17, 0x7a, 0x9c]
                      + [0xb4, 0x10, 0xff, 0x61] + [0xf2, 0x00, 0x15, 0xad]
  {
    Sha256Example.AbcDigest();
    hash := HashFileWith(Sha256Compression.Compress, file);
  }
}
