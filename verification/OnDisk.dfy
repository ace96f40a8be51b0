/** The bytes of the formats: where each field stands and in which order its bytes are (paf.h, paf_binary_delta.c). */
module OnDisk {
  import opened Bytes
  import opened Seqs
  import opened Codec
  import opened Hashing
  import opened ArchiveFormat
  import ArchiveReader
  import BinaryDelta
  import BlockDiff
  import Generator
  import StagedApply

  // ---- Archives ----

  /** A file has this header exactly if these bytes stand at these positions. */
  lemma HeaderRead(f: seq<byte>, h: Header)
    ensures ParseHeader(f) == Some(h) <==>
            && |f| >= 32 && f[0] == 0x50 && f[1] == 0x41 && f[2] == 0x46 && f[3] == 0x31
            && Little(f, 4, 4, h.version) && Little(f, 8, 4, h.flags) && Little(f, 12, 4, h.count)
            && Little(f, 16, 8, h.indexOffset) && Little(f, 24, 8, h.pathOffset)
  {
    if |f| >= 32 {
      assert f[..4] == [f[0], f[1], f[2], f[3]];
      LittleIff(f, 4, 4, h.version);
      LittleIff(f, 8, 4, h.flags);
      LittleIff(f, 12, 4, h.count);
      LittleIff(f, 16, 8, h.indexOffset);
      LittleIff(f, 24, 8, h.pathOffset);
    }
  }

  /** A record is this entry exactly if these bytes stand at these positions. */
  lemma EntryRead(s: seq<byte>, e: Entry)
    requires |s| == 128
    ensures DecodeEntry(s) == e <==>
            && Little(s, 0, 8, e.pathOffset) && Little(s, 8, 4, e.pathLength) && Little(s, 12, 4, e.flags)
            && Little(s, 16, 8, e.dataOffset) && Little(s, 24, 8, e.dataSize)
            && e.digest == s[32..64] && e.spare == s[64..128]
  {
    LittleIff(s, 0, 8, e.pathOffset);
    LittleIff(s, 8, 4, e.pathLength);
    LittleIff(s, 12, 4, e.flags);
    LittleIff(s, 16, 8, e.dataOffset);
    LittleIff(s, 24, 8, e.dataSize);
    EntryFields(s);
  }

  /** p stands at that position and ends at a NUL, after n bytes or with the file. */
  ghost predicate TextAt(f: seq<byte>, at: nat, n: nat, p: Path) {
    && |p| <= n && 0 !in p && (p == [] || (at + |p| <= |f| && f[at..at + |p|] == p))
    && (|p| == n || at + |p| >= |f| || f[at + |p|] == 0)
  }

  /** r is s up to its first NUL. */
  ghost predicate StopsIn(r: seq<byte>, s: seq<byte>) {
    0 !in r && r <= s && (r == s || s[|r|] == 0)
  }

  lemma StopsLater(r: seq<byte>, s: seq<byte>)
    requires r != [] && s != []
    ensures StopsIn(r, s) <==> r[0] == s[0] && r[0] != 0 && StopsIn(r[1..], s[1..])
  {
    assert r == [r[0]] + r[1..] && s == [s[0]] + s[1..];
  }

  lemma {:induction false} CStringIff(s: seq<byte>, r: seq<byte>)
    ensures CString(s) == r <==> StopsIn(r, s)
  {
    if s != [] && s[0] != 0 && r != [] {
      CStringIff(s[1..], r[1..]);
      StopsLater(r, s);
      assert CString(s)[1..] == CString(s[1..]);
      assert r == [r[0]] + r[1..];
    }
  }

  lemma FrontOfSlice(f: seq<byte>, at: nat, s: seq<byte>, p: seq<byte>)
    requires p != [] && at + |s| <= |f| && s == f[at..at + |s|]
    ensures p <= s <==> |p| <= |s| && f[at..at + |p|] == p
    ensures |p| < |s| ==> s[|p|] == f[at + |p|]
  {
    if |p| <= |s| {
      SliceOfSlice(f, at, at + |s|, 0, |p|);
      assert p <= s <==> s[0..|p|] == p;
    }
  }

  lemma TextIff(f: seq<byte>, at: nat, n: nat, p: Path)
    ensures CString(ReadAt(f, at, n)) == p <==> TextAt(f, at, n, p)
  {
    var s := ReadAt(f, at, n);
    CStringIff(s, p);
    if s != [] && p != [] {
      FrontOfSlice(f, at, s, p);
    }
  }

  /** What a listing says of an entry: at most 1023 bytes of its path, and size and offset modulo 2^32. */
  lemma EntryListed(f: seq<byte>, h: Header, e: Entry, l: ArchiveReader.Listed)
    ensures ArchiveReader.ListEntry(f, h, e) == l <==>
            && TextAt(f, h.pathOffset + e.pathOffset, if e.pathLength < 1024 then e.pathLength else 1023, l.path)
            && l.size == Trunc32(e.dataSize) && l.offset == Trunc32(e.dataOffset) && l.hash == e.digest
  {
    var at, n := h.pathOffset + e.pathOffset, if e.pathLength < 1024 then e.pathLength else 1023;
    TextIff(f, at, n, l.path);
    assert ArchiveReader.PathRead(f, h, e).0 == ReadAt(f, at, n);
  }

  /** The path of a patch entry: 1 to 1023 bytes that are all there. */
  lemma PatchPathIff(f: seq<byte>, h: Header, e: Entry, p: Path)
    ensures StagedApply.EntryPath(f, h, e) == Some(p) <==>
            && 0 < e.pathLength < 1024 && h.pathOffset + e.pathOffset + e.pathLength <= |f|
            && TextAt(f, h.pathOffset + e.pathOffset, e.pathLength, p)
  {
    TextIff(f, h.pathOffset + e.pathOffset, e.pathLength, p);
  }

  /** What the index record of a patch asks for stands in its byte 12: bit 2 for a deletion, bit 3 for the replay of a
      delta. */
  lemma RecordKind(f: seq<byte>, s: seq<byte>, path: Path)
    requires |s| == 128
    ensures var plan := StagedApply.PlanAt(f, DecodeEntry(s), path);
            && (plan.Delete? <==> s[12] / 4 % 2 == 1)
            && (plan.Stage? && plan.content.FromDelta? ==> s[12] / 8 % 2 == 1)
            && (plan.Stage? && plan.content.FromData? ==> s[12] / 8 % 2 == 0)
            && (plan.Skip? ==> s[12] / 8 % 2 == 1)
            && (plan.Stage? ==> plan.path == path && plan.digest == s[32..64])
  {
    EntryFields(s);
    var tail := s[12..16];
    assert tail[0] == s[12] && FromLE(tail) == s[12] as nat + 256 * FromLE(tail[1..]);
    LowBits(s[12] as nat, FromLE(tail[1..]));
  }

  /** The bytes an entry stages follow the 32 bytes of the header, from its data offset on. */
  lemma StagedBytes(f: seq<byte>, e: Entry, path: Path)
    requires StagedApply.PlanAt(f, e, path).Stage? && e.dataSize > 0
    ensures match StagedApply.PlanAt(f, e, path).content
            case FromDelta(delta) => ArchiveReader.BytesAt(f, 32 + e.dataOffset, e.dataSize, delta)
            case FromData(data, complete) =>
              && (data == [] || ArchiveReader.BytesAt(f, 32 + e.dataOffset, |data|, data))
              && (|data| == e.dataSize || 32 + e.dataOffset + |data| >= |f|)
              && (complete <==> 32 + e.dataOffset + e.dataSize <= |f|)
  {
  }

  lemma LowBits(b: nat, m: nat)
    ensures (b + 256 * m) / 4 % 2 == b / 4 % 2 && (b + 256 * m) / 8 % 2 == b / 8 % 2
  {
    QuotientIs(b + 256 * m, 4, b / 4 + 64 * m);
    EvenPart(b / 4, 32 * m);
    QuotientIs(b + 256 * m, 8, b / 8 + 32 * m);
    EvenPart(b / 8, 16 * m);
  }

  lemma EvenPart(q: nat, h: nat)
    ensures (q + 2 * h) % 2 == q % 2
  {
  }

  lemma EntryFields(s: seq<byte>)
    requires |s| == 128
    ensures DecodeEntry(s)
         == Entry(FromLE(s[0..8]), FromLE(s[8..12]), FromLE(s[12..16]), FromLE(s[16..24]), FromLE(s[24..32]),
                  s[32..64], s[64..128])
  {
    var a, b := s[..16], s[16..64];
    assert a[..8] == s[0..8] && a[8..12] == s[8..12] && a[12..] == s[12..16];
    assert b[..8] == s[16..24] && b[8..16] == s[24..32] && b[16..] == s[32..64] && s[64..] == s[64..128];
  }

  ghost predicate RecordAt(f: seq<byte>, pos: nat, es: seq<Entry>, k: nat) {
    && k < |es| && pos + 128 * k + 128 <= |f|
    && DecodeEntry(f[pos + 128 * k..pos + 128 * k + 128]) == es[k]
  }

  ghost predicate AllRecords(f: seq<byte>, pos: nat, es: seq<Entry>) {
    forall k: nat :: k < |es| ==> RecordAt(f, pos, es, k)
  }

  /** The index holds one record of 128 bytes after the other. */
  lemma {:induction false} IndexRead(f: seq<byte>, pos: nat, es: seq<Entry>)
    ensures ParseMany(EntryParser(f), pos, |es|) == es <==> AllRecords(f, pos, es)
    decreases |es|
  {
    if es != [] {
      IndexRead(f, pos + 128, es[1..]);
      LaterRecords(f, pos, es);
      assert es == [es[0]] + es[1..];
      if ParseMany(EntryParser(f), pos, |es|) == es {
        FirstRecord(f, pos, es);
      }
    }
  }

  /** The index is read exactly if all its records are there. */
  lemma IndexFound(f: seq<byte>, h: Header, es: seq<Entry>)
    ensures ReadIndex(f, h) == Some(es) <==> |es| == h.count && AllRecords(f, h.indexOffset, es)
  {
    IndexRead(f, h.indexOffset, es);
  }

  lemma LaterRecords(f: seq<byte>, pos: nat, es: seq<Entry>)
    requires es != []
    ensures AllRecords(f, pos, es) <==> RecordAt(f, pos, es, 0) && AllRecords(f, pos + 128, es[1..])
  {
    var next, rest := pos + 128, es[1..];
    forall k: nat | 0 < k < |es| ensures RecordAt(f, pos, es, k) <==> RecordAt(f, next, rest, k - 1) {
    }
    if AllRecords(f, pos, es) {
      forall k: nat | k < |rest| ensures RecordAt(f, next, rest, k) {
        assert RecordAt(f, pos, es, k + 1);
      }
    }
  }

  lemma {:induction false} FirstRecord(f: seq<byte>, pos: nat, es: seq<Entry>)
    requires es != [] && ParseMany(EntryParser(f), pos, |es|) == es
    ensures pos + 128 <= |f| && DecodeEntry(f[pos..pos + 128]) == es[0]
    ensures ParseMany(EntryParser(f), pos + 128, |es| - 1) == es[1..]
  {
    var tail := ParseMany(EntryParser(f), pos + 128, |es| - 1);
    assert es == [es[0]] + tail;
    assert es[1..] == tail;
  }

  /** The first twelve bytes of an archive: magic, version 2, and the flag of an index-only one. */
  lemma ArchiveStarts(indexOnly: bool, items: seq<Item>)
    ensures Generator.Written(indexOnly, items)[..12]
         == [0x50, 0x41, 0x46, 0x31] + [2, 0, 0, 0] + [if indexOnly then 2 else 0, 0, 0, 0]
  {
    var h := Generator.WrittenHeader(indexOnly, items);
    HeaderStarts(h);
    FirstPart(PrintHeader(h), Data(items) + PrintMany(PrintEntry, Generator.WrittenEntries(indexOnly, items))
              + Paths(items), 12);
    assert Generator.Written(indexOnly, items) == PrintHeader(h)
           + (Data(items) + PrintMany(PrintEntry, Generator.WrittenEntries(indexOnly, items)) + Paths(items));
  }

  lemma HeaderStarts(h: Header)
    requires h.version == 2 && h.flags < 256
    ensures PrintHeader(h)[..12] == [0x50, 0x41, 0x46, 0x31] + [2, 0, 0, 0] + [h.flags as byte, 0, 0, 0]
  {
    OneByte(2, 3);
    OneByte(h.flags, 3);
    assert PrintHeader(h)[..12] == HeaderTop(h.version, h.flags);
  }

  lemma FirstPart(a: seq<byte>, b: seq<byte>, n: nat)
    requires n <= |a|
    ensures (a + b)[..n] == a[..n]
  {
  }

  /** The archive of one file "a" that holds one byte, as the writer leaves it: header, data, index record, path. */
  lemma OneFileArchive(b: byte, digest: seq<byte>)
    requires |digest| == 32
    ensures Generator.Written(false, [Item([0x61], 0, [b], 1, digest)])
         == [0x50, 0x41, 0x46, 0x31] + [2, 0, 0, 0] + [0, 0, 0, 0] + [1, 0, 0, 0]
            + [33, 0, 0, 0, 0, 0, 0, 0] + [161, 0, 0, 0, 0, 0, 0, 0]
            + [b]
            + ([0, 0, 0, 0, 0, 0, 0, 0] + [1, 0, 0, 0] + [0, 0, 0, 0]
               + [0, 0, 0, 0, 0, 0, 0, 0] + [1, 0, 0, 0, 0, 0, 0, 0] + digest + Zeros(64))
            + [0x61]
  {
    var it := Item([0x61], 0, [b], 1, digest);
    OneMember(it);
    SmallIntegers();
    assert seq<byte>(64, _ => 0) == Zeros(64);
  }

  lemma OneMember(it: Item)
    ensures Data([it]) == it.stored && Paths([it]) == it.path && Generator.Announced(false, [it]) == it.size
    ensures PrintMany(PrintEntry, Generator.WrittenEntries(false, [it]))
         == PrintEntry(Entry(0, |it.path|, it.flags, 0, it.size, it.digest, seq(64, _ => 0)))
  {
    Generator.AppendMember(false, [], it);
    assert [] + [it] == [it];
  }

  lemma SmallIntegers()
    ensures LE(0, 4) == [0, 0, 0, 0] && LE(1, 4) == [1, 0, 0, 0] && LE(2, 4) == [2, 0, 0, 0]
    ensures LE(0, 8) == [0, 0, 0, 0, 0, 0, 0, 0] && LE(1, 8) == [1, 0, 0, 0, 0, 0, 0, 0]
    ensures LE(33, 8) == [33, 0, 0, 0, 0, 0, 0, 0] && LE(161, 8) == [161, 0, 0, 0, 0, 0, 0, 0]
  {
    OneByte(0, 3);
    OneByte(1, 3);
    OneByte(2, 3);
    OneByte(0, 7);
    OneByte(1, 7);
    OneByte(33, 7);
    OneByte(161, 7);
  }

  lemma OneByte(n: nat, k: nat)
    requires n < 256
    ensures LE(n, k + 1) == [n as byte] + Zeros(k)
  {
    NoBytes(k);
  }

  lemma {:induction false} NoBytes(k: nat)
    ensures LE(0, k) == Zeros(k)
  {
    if k > 0 {
      NoBytes(k - 1);
    }
  }

  // ---- Binary deltas ----

  /** A delta has this header exactly if these bytes stand at these positions. */
  lemma DeltaHeaderRead(delta: seq<byte>, count: nat, oldSize: nat)
    ensures BinaryDelta.ParseHeader(delta) == Some((count, oldSize)) <==>
            && |delta| >= 16 && delta[0] == 0x50 && delta[1] == 0x41 && delta[2] == 0x46 && delta[3] == 0x44
            && Little(delta, 4, 4, count) && Little(delta, 8, 8, oldSize)
  {
    if |delta| >= 16 {
      BinaryDelta.MagicBytes(delta);
      assert delta[..4] == [delta[0], delta[1], delta[2], delta[3]];
      LittleIff(delta, 4, 4, count);
      LittleIff(delta, 8, 8, oldSize);
    }
  }

  /** A COPY stands at pos exactly if these bytes do. */
  lemma CopyRead(delta: seq<byte>, pos: nat, offset: nat, size: nat, next: nat)
    ensures BinaryDelta.ParseAt(delta, pos) == Parsed(BinaryDelta.Copy(offset, size), next) <==>
            && pos + 13 <= |delta| && next == pos + 13 && delta[pos] == 0
            && Little(delta, pos + 1, 8, offset) && Little(delta, pos + 9, 4, size)
  {
    if pos + 13 <= |delta| {
      FieldsRead(delta, pos);
      LittleIff(delta, pos + 1, 8, offset);
      LittleIff(delta, pos + 9, 4, size);
    }
  }

  /** A literal stands at pos exactly if these bytes do: the data follows the fields. */
  lemma LiteralRead(delta: seq<byte>, pos: nat, tag: byte, unused: nat, data: seq<byte>, next: nat)
    ensures BinaryDelta.ParseAt(delta, pos) == Parsed(BinaryDelta.Literal(tag, unused, data), next) <==>
            && pos + 13 + |data| <= |delta| && next == pos + 13 + |data| && delta[pos] == tag && tag != 0
            && Little(delta, pos + 1, 8, unused) && Little(delta, pos + 9, 4, |data|)
            && delta[pos + 13..pos + 13 + |data|] == data
  {
    if pos + 13 <= |delta| {
      FieldsRead(delta, pos);
      LittleIff(delta, pos + 1, 8, unused);
      LittleIff(delta, pos + 9, 4, |data|);
    }
  }

  lemma FieldsRead(delta: seq<byte>, pos: nat)
    requires pos + 13 <= |delta|
    ensures var f := delta[pos..pos + 13];
            f[0] == delta[pos] && f[1..9] == delta[pos + 1..pos + 1 + 8] && f[9..13] == delta[pos + 9..pos + 9 + 4]
  {
    SliceOfSlice(delta, pos, pos + 13, 1, 9);
    SliceOfSlice(delta, pos, pos + 13, 9, 13);
  }

  /** Every delta the writer makes starts with the bytes of "PAFD", the number of its instructions and the size of the
      old file. */
  lemma DeltaStarts(old_: seq<byte>, new_: seq<byte>, hash: BlockDiff.BlockHash)
    requires |old_| < U32_LIMIT && |new_| < U32_LIMIT
    ensures var delta := BlockDiff.DeltaBytes(old_, new_, hash);
            && |delta| >= 16 && delta[0] == 0x50 && delta[1] == 0x41 && delta[2] == 0x46 && delta[3] == 0x44
            && Little(delta, 4, 4, |BlockDiff.Diff(old_, new_, hash)|) && Little(delta, 8, 8, |old_|)
  {
    var delta, ins := BlockDiff.DeltaBytes(old_, new_, hash), BlockDiff.Diff(old_, new_, hash);
    BlockDiff.DeltaSize(old_, new_, hash);
    assert delta[..16] == BinaryDelta.Header(|ins|, |old_|);
    BinaryDelta.HeaderFields(delta, |ins|, |old_|);
    DeltaHeaderRead(delta, |ins|, |old_|);
  }
}
