/** The PAF container: header and index records (paf.h) and the layout both writers produce. */
module ArchiveFormat {
  import opened Bytes
  import opened Seqs
  import opened Codec

  const PAF_MAGIC: seq<byte> := [0x50, 0x41, 0x46, 0x31]
  const PAF_VERSION: nat := 2
  const PAF_FLAG_INDEX_ONLY: nat := 0x02
  const PAF_ENTRY_DELETED: nat := 0x04
  const PAF_ENTRY_BINARY_DELTA: nat := 0x08
  const HEADER_SIZE: nat := 32
  const ENTRY_SIZE: nat := 128

  type Path = seq<byte>

  datatype Header = Header(version: nat, flags: nat, count: nat, indexOffset: nat, pathOffset: nat)

  /** An index entry: digest is hash[0..32]; spare is hash[32..64] and the reserved bytes. */
  datatype Entry = Entry(pathOffset: nat, pathLength: nat, flags: nat, dataOffset: nat, dataSize: nat,
                         digest: seq<byte>, spare: seq<byte>)

  predicate HeaderFits(h: Header) {
    h.version < U32_LIMIT && h.flags < U32_LIMIT && h.count < U32_LIMIT
    && h.indexOffset < U64_LIMIT && h.pathOffset < U64_LIMIT
  }

  predicate EntryFits(e: Entry) {
    && e.pathOffset < U64_LIMIT && e.pathLength < U32_LIMIT && e.flags < U32_LIMIT
    && e.dataOffset < U64_LIMIT && e.dataSize < U64_LIMIT && |e.digest| == 32 && |e.spare| == 64
  }

  function HeaderTop(version: nat, flags: nat): (s: seq<byte>)
    ensures |s| == 12
  {
    PAF_MAGIC + LE(version, 4) + LE(flags, 4)
  }

  function HeaderBottom(count: nat, indexOffset: nat, pathOffset: nat): (s: seq<byte>)
    ensures |s| == 20
  {
    LE(count, 4) + LE(indexOffset, 8) + LE(pathOffset, 8)
  }

  function PrintHeader(h: Header): (s: seq<byte>)
    ensures |s| == HEADER_SIZE
  {
    HeaderTop(h.version, h.flags) + HeaderBottom(h.count, h.indexOffset, h.pathOffset)
  }

  /** What the readers accept as a header: 32 bytes that start with the magic. The version is not looked at. */
  function ParseHeader(file: seq<byte>): Option<Header> {
    if |file| < HEADER_SIZE || file[..4] != PAF_MAGIC then None
    else Some(Header(FromLE(file[4..8]), FromLE(file[8..12]), FromLE(file[12..16]),
                     FromLE(file[16..24]), FromLE(file[24..32])))
  }

  lemma HeaderTopDecodes(s: seq<byte>, version: nat, flags: nat)
    requires |s| == 12 && version < U32_LIMIT && flags < U32_LIMIT
    ensures s == HeaderTop(version, flags) <==>
            s[..4] == PAF_MAGIC && FromLE(s[4..8]) == version && FromLE(s[8..12]) == flags
  {
    Pow256Widths();
    ThreeParts(s, PAF_MAGIC, LE(version, 4), LE(flags, 4));
    LEDecodes(s[4..8], version, 4);
    LEDecodes(s[8..12], flags, 4);
  }

  lemma HeaderBottomDecodes(s: seq<byte>, count: nat, indexOffset: nat, pathOffset: nat)
    requires |s| == 20 && count < U32_LIMIT && indexOffset < U64_LIMIT && pathOffset < U64_LIMIT
    ensures s == HeaderBottom(count, indexOffset, pathOffset) <==>
            FromLE(s[..4]) == count && FromLE(s[4..12]) == indexOffset && FromLE(s[12..20]) == pathOffset
  {
    Pow256Widths();
    ThreeParts(s, LE(count, 4), LE(indexOffset, 8), LE(pathOffset, 8));
    LEDecodes(s[..4], count, 4);
    LEDecodes(s[4..12], indexOffset, 8);
    LEDecodes(s[12..20], pathOffset, 8);
  }

  lemma HeaderRoundTrip(h: Header, rest: seq<byte>)
    requires HeaderFits(h)
    ensures ParseHeader(PrintHeader(h) + rest) == Some(h)
  {
    var file := PrintHeader(h) + rest;
    var top, bottom := HeaderTop(h.version, h.flags), HeaderBottom(h.count, h.indexOffset, h.pathOffset);
    assert file[..12] == top && file[12..32] == bottom;
    HeaderTopDecodes(top, h.version, h.flags);
    HeaderBottomDecodes(bottom, h.count, h.indexOffset, h.pathOffset);
    SliceOfSlice(file, 0, 12, 0, 4);
    SliceOfSlice(file, 0, 12, 4, 8);
    SliceOfSlice(file, 0, 12, 8, 12);
    SliceOfSlice(file, 12, 32, 0, 4);
    SliceOfSlice(file, 12, 32, 4, 12);
    SliceOfSlice(file, 12, 32, 12, 20);
  }

  // ---- Index entries ----

  function EntryNames(pathOffset: nat, pathLength: nat, flags: nat): (s: seq<byte>)
    ensures |s| == 16
  {
    LE(pathOffset, 8) + LE(pathLength, 4) + LE(flags, 4)
  }

  function EntryData(dataOffset: nat, dataSize: nat, digest: seq<byte>): (s: seq<byte>)
    ensures |s| == 16 + |digest|
  {
    LE(dataOffset, 8) + LE(dataSize, 8) + digest
  }

  function PrintEntry(e: Entry): (s: seq<byte>)
    ensures |s| == 32 + |e.digest| + |e.spare|
  {
    EntryNames(e.pathOffset, e.pathLength, e.flags) + EntryData(e.dataOffset, e.dataSize, e.digest) + e.spare
  }

  function DecodeEntry(s: seq<byte>): Entry
    requires |s| == ENTRY_SIZE
  {
    var a, b := s[..16], s[16..64];
    Entry(FromLE(a[..8]), FromLE(a[8..12]), FromLE(a[12..]), FromLE(b[..8]), FromLE(b[8..16]), b[16..], s[64..])
  }

  lemma NamesDecode(s: seq<byte>, pathOffset: nat, pathLength: nat, flags: nat)
    requires |s| == 16 && pathOffset < U64_LIMIT && pathLength < U32_LIMIT && flags < U32_LIMIT
    ensures s == EntryNames(pathOffset, pathLength, flags) <==>
            FromLE(s[..8]) == pathOffset && FromLE(s[8..12]) == pathLength && FromLE(s[12..]) == flags
  {
    Pow256Widths();
    ThreeParts(s, LE(pathOffset, 8), LE(pathLength, 4), LE(flags, 4));
    LEDecodes(s[..8], pathOffset, 8);
    LEDecodes(s[8..12], pathLength, 4);
    LEDecodes(s[12..], flags, 4);
  }

  lemma DataDecode(s: seq<byte>, dataOffset: nat, dataSize: nat, digest: seq<byte>)
    requires |s| == 48 && dataOffset < U64_LIMIT && dataSize < U64_LIMIT && |digest| == 32
    ensures s == EntryData(dataOffset, dataSize, digest) <==>
            FromLE(s[..8]) == dataOffset && FromLE(s[8..16]) == dataSize && s[16..] == digest
  {
    Pow256Widths();
    ThreeParts(s, LE(dataOffset, 8), LE(dataSize, 8), digest);
    LEDecodes(s[..8], dataOffset, 8);
    LEDecodes(s[8..16], dataSize, 8);
  }

  /** A 128-byte record and the entry it encodes determine each other. */
  lemma EntryDecodes(s: seq<byte>, e: Entry)
    requires |s| == ENTRY_SIZE && EntryFits(e)
    ensures s == PrintEntry(e) <==> DecodeEntry(s) == e
  {
    ThreeParts(s, EntryNames(e.pathOffset, e.pathLength, e.flags),
               EntryData(e.dataOffset, e.dataSize, e.digest), e.spare);
    NamesDecode(s[..16], e.pathOffset, e.pathLength, e.flags);
    DataDecode(s[16..64], e.dataOffset, e.dataSize, e.digest);
  }

  function ParseEntryAt(file: seq<byte>, pos: nat): Parsed<Entry> {
    if pos + ENTRY_SIZE > |file| then Malformed
    else Parsed(DecodeEntry(file[pos..pos + ENTRY_SIZE]), pos + ENTRY_SIZE)
  }

  function EntryParser(file: seq<byte>): nat -> Parsed<Entry> {
    (pos: nat) => ParseEntryAt(file, pos)
  }

  lemma EntryParserInverts(file: seq<byte>)
    ensures Complete(file, EntryFits, PrintEntry, EntryParser(file))
  {
    forall p: nat, e | EntryFits(e) && PrintedHere(file, PrintEntry, p, e)
      ensures ParseEntryAt(file, p) == Parsed(e, p + |PrintEntry(e)|)
    {
      EntryDecodes(file[p..p + ENTRY_SIZE], e);
    }
  }

  /** The whole index, or None when the file ends before it does. */
  function ReadIndex(file: seq<byte>, h: Header): (r: Option<seq<Entry>>)
    ensures r.Some? ==> |r.value| == h.count
  {
    var entries := ParseMany(EntryParser(file), h.indexOffset, h.count);
    if |entries| == h.count then Some(entries) else None
  }

  // ---- The layout: header, data block, index block, path buffer ----

  /** One archive member: what is stored in the data block, and the size and digest its entry announces. */
  datatype Item = Item(path: Path, flags: nat, stored: seq<byte>, size: nat, digest: seq<byte>)

  function Data(items: seq<Item>): seq<byte> {
    if items == [] then [] else Data(items[..|items| - 1]) + items[|items| - 1].stored
  }

  function Paths(items: seq<Item>): seq<byte> {
    if items == [] then [] else Paths(items[..|items| - 1]) + items[|items| - 1].path
  }

  /** The entry of an item written after the items before it; data offsets count from the data block. */
  function EntryAfter(before: seq<Item>, it: Item): Entry {
    Entry(|Paths(before)|, |it.path|, it.flags, |Data(before)|, it.size, it.digest, seq(64, _ => 0))
  }

  function Entries(items: seq<Item>): (es: seq<Entry>)
    ensures |es| == |items|
  {
    if items == [] then []
    else Entries(items[..|items| - 1]) + [EntryAfter(items[..|items| - 1], items[|items| - 1])]
  }

  function LayoutHeader(items: seq<Item>, flags: nat): Header {
    var index := HEADER_SIZE + |Data(items)|;
    Header(PAF_VERSION, flags, |items|, index, index + ENTRY_SIZE * |items|)
  }

  function Layout(items: seq<Item>, flags: nat): seq<byte> {
    PrintHeader(LayoutHeader(items, flags)) + Data(items) + PrintMany(PrintEntry, Entries(items)) + Paths(items)
  }

  lemma {:induction false} Append(items: seq<Item>, it: Item)
    ensures Data(items + [it]) == Data(items) + it.stored
    ensures Paths(items + [it]) == Paths(items) + it.path
    ensures Entries(items + [it]) == Entries(items) + [EntryAfter(items, it)]
  {
    assert (items + [it])[..|items|] == items;
  }

  /** Entry k belongs to item k, written after the first k items. */
  lemma {:induction false} EntryAt(items: seq<Item>, k: nat)
    requires k < |items|
    ensures Entries(items)[k] == EntryAfter(items[..k], items[k])
  {
    var n := |items| - 1;
    if k < n {
      EntryAt(items[..n], k);
      assert items[..n][..k] == items[..k];
    }
  }

  lemma {:induction false} DataPrefix(items: seq<Item>, k: nat)
    requires k <= |items|
    ensures Data(items[..k]) <= Data(items) && Paths(items[..k]) <= Paths(items)
  {
    var n := |items| - 1;
    if k < |items| {
      DataPrefix(items[..n], k);
      assert items[..n][..k] == items[..k];
    } else {
      assert items[..k] == items;
    }
  }

  lemma PlacedAfter(items: seq<Item>, k: nat)
    requires k < |items|
    ensures Data(items[..k + 1]) == Data(items[..k]) + items[k].stored
    ensures Paths(items[..k + 1]) == Paths(items[..k]) + items[k].path
  {
    TakeOneMore(items, k);
    Append(items[..k], items[k]);
  }

  lemma {:induction false} PlacedWithin(items: seq<Item>, k: nat)
    requires k < |items|
    ensures Data(items[..k]) + items[k].stored <= Data(items)
    ensures Paths(items[..k]) + items[k].path <= Paths(items)
  {
    PlacedAfter(items, k);
    DataPrefix(items, k + 1);
  }

  /** The stored bytes of item k lie at its data offset, its path at its path offset. */
  lemma {:induction false} Placed(items: seq<Item>, k: nat)
    requires k < |items|
    ensures var e, d := Entries(items)[k], Data(items);
            e.dataOffset + |items[k].stored| <= |d| &&
            d[e.dataOffset..e.dataOffset + |items[k].stored|] == items[k].stored
    ensures var e, p := Entries(items)[k], Paths(items);
            e.pathOffset + |items[k].path| <= |p| && p[e.pathOffset..e.pathOffset + |items[k].path|] == items[k].path
  {
    EntryAt(items, k);
    PlacedWithin(items, k);
    SliceFromPrefix(Data(items[..k]), items[k].stored, Data(items));
    SliceFromPrefix(Paths(items[..k]), items[k].path, Paths(items));
  }

  /** The ranges of the entries follow one another from the start of each block to its end: no gap, no overlap. */
  lemma {:induction false} Tiles(items: seq<Item>, k: nat)
    requires k < |items|
    ensures var e := Entries(items)[k];
            && (k == 0 ==> e.dataOffset == 0 && e.pathOffset == 0)
            && e.dataOffset + |items[k].stored| ==
               (if k + 1 < |items| then Entries(items)[k + 1].dataOffset else |Data(items)|)
            && e.pathOffset + e.pathLength ==
               (if k + 1 < |items| then Entries(items)[k + 1].pathOffset else |Paths(items)|)
  {
    EntryAt(items, k);
    PlacedAfter(items, k);
    if k + 1 < |items| {
      EntryAt(items, k + 1);
    } else {
      assert items[..k + 1] == items;
    }
  }

  lemma SliceFromPrefix(a: seq<byte>, b: seq<byte>, s: seq<byte>)
    requires a + b <= s
    ensures |a| + |b| <= |s| && s[|a|..|a| + |b|] == b
  {
    PrefixParts(a, b, s);
    DropTake(s, |a|, |b|);
  }

  /** Sizes within the fields that record them. */
  ghost predicate Storable(items: seq<Item>) {
    && |items| < U32_LIMIT
    && HEADER_SIZE + |Data(items)| + ENTRY_SIZE * |items| + |Paths(items)| < U64_LIMIT
    && forall k :: 0 <= k < |items| ==>
                     |items[k].path| < U32_LIMIT && items[k].flags < U32_LIMIT &&
                     items[k].size < U64_LIMIT && |items[k].digest| == 32
  }

  lemma {:induction false} EntriesFit(items: seq<Item>)
    requires Storable(items)
    ensures forall k :: 0 <= k < |items| ==> EntryFits(Entries(items)[k])
  {
    forall k | 0 <= k < |items| ensures EntryFits(Entries(items)[k]) {
      EntryAt(items, k);
      Placed(items, k);
    }
  }

  lemma {:induction false} PrintedEntriesSize(es: seq<Entry>)
    requires forall k :: 0 <= k < |es| ==> EntryFits(es[k])
    ensures |PrintMany(PrintEntry, es)| == ENTRY_SIZE * |es|
  {
    if es != [] {
      PrintedEntriesSize(es[1..]);
    }
  }

  /** Where the blocks of a layout lie. */
  lemma {:induction false} LayoutBlocks(items: seq<Item>, flags: nat)
    requires Storable(items)
    ensures var f, h := Layout(items, flags), LayoutHeader(items, flags);
            && h.indexOffset <= h.pathOffset <= |f|
            && f[HEADER_SIZE..h.indexOffset] == Data(items)
            && f[h.indexOffset..h.pathOffset] == PrintMany(PrintEntry, Entries(items))
            && f[h.pathOffset..|f|] == Paths(items)
  {
    EntriesFit(items);
    PrintedEntriesSize(Entries(items));
    var a, d := PrintHeader(LayoutHeader(items, flags)), Data(items);
    var i, p := PrintMany(PrintEntry, Entries(items)), Paths(items);
    FourBlocks(a, d, i, p);
  }

  lemma FourBlocks<T>(a: seq<T>, b: seq<T>, c: seq<T>, d: seq<T>)
    ensures var s := a + b + c + d;
            && s[|a|..|a| + |b|] == b && s[|a| + |b|..|a| + |b| + |c|] == c && s[|a| + |b| + |c|..|s|] == d
  {
  }

  /** Reading a layout's header and index gives back what was laid out. */
  lemma {:induction false} LayoutReads(items: seq<Item>, flags: nat)
    requires Storable(items) && flags < U32_LIMIT
    ensures ParseHeader(Layout(items, flags)) == Some(LayoutHeader(items, flags))
    ensures ReadIndex(Layout(items, flags), LayoutHeader(items, flags)) == Some(Entries(items))
  {
    var f, h := Layout(items, flags), LayoutHeader(items, flags);
    EntriesFit(items);
    LayoutBlocks(items, flags);
    Assoc(PrintHeader(h), Data(items), PrintMany(PrintEntry, Entries(items)));
    Assoc(PrintHeader(h), Data(items) + PrintMany(PrintEntry, Entries(items)), Paths(items));
    HeaderRoundTrip(h, Data(items) + PrintMany(PrintEntry, Entries(items)) + Paths(items));
    SplitAt(f, h.indexOffset, h.pathOffset, |f|);
    assert PrintMany(PrintEntry, Entries(items)) <= f[h.indexOffset..];
    EntryParserInverts(f);
    ParseOfPrint(f, EntryFits, PrintEntry, EntryParser(f), h.indexOffset, Entries(items));
  }

  lemma ReadInBlock(f: seq<byte>, from: nat, to: nat, block: seq<byte>, off: nat, x: seq<byte>)
    requires from <= to <= |f| && f[from..to] == block
    requires off + |x| <= |block| && block[off..off + |x|] == x
    ensures ReadAt(f, from + off, |x|) == x
  {
    SliceOfSlice(f, from, to, off, off + |x|);
  }

  lemma {:induction false} PathInBlock(f: seq<byte>, from: nat, to: nat, items: seq<Item>, k: nat)
    requires from <= to <= |f| && f[from..to] == Paths(items) && k < |items|
    ensures ReadAt(f, from + Entries(items)[k].pathOffset, |items[k].path|) == items[k].path
  {
    Placed(items, k);
    ReadInBlock(f, from, to, Paths(items), Entries(items)[k].pathOffset, items[k].path);
  }

  lemma {:induction false} DataInBlock(f: seq<byte>, from: nat, to: nat, items: seq<Item>, k: nat)
    requires from <= to <= |f| && f[from..to] == Data(items) && k < |items|
    ensures ReadAt(f, from + Entries(items)[k].dataOffset, |items[k].stored|) == items[k].stored
  {
    Placed(items, k);
    ReadInBlock(f, from, to, Data(items), Entries(items)[k].dataOffset, items[k].stored);
  }

  /** What the readers find in f: this header, the entries of these items, and their paths and stored bytes. */
  ghost predicate IsArchive(f: seq<byte>, h: Header, items: seq<Item>) {
    && ParseHeader(f) == Some(h) && ReadIndex(f, h) == Some(Entries(items))
    && h.pathOffset <= |f| && f[h.pathOffset..|f|] == Paths(items)
    && HEADER_SIZE + |Data(items)| <= |f| && f[HEADER_SIZE..HEADER_SIZE + |Data(items)|] == Data(items)
  }

  lemma LayoutIsArchive(items: seq<Item>, flags: nat)
    requires Storable(items) && flags < U32_LIMIT
    ensures IsArchive(Layout(items, flags), LayoutHeader(items, flags), items)
  {
    LayoutReads(items, flags);
    LayoutBlocks(items, flags);
  }

  /** An item's path and stored bytes, read at the positions its entry gives; data counts from the data block. */
  lemma {:induction false} ArchiveMember(f: seq<byte>, h: Header, items: seq<Item>, k: nat)
    requires IsArchive(f, h, items) && k < |items|
    ensures var e := Entries(items)[k];
            && e == EntryAfter(items[..k], items[k])
            && ReadAt(f, h.pathOffset + e.pathOffset, |items[k].path|) == items[k].path
            && ReadAt(f, HEADER_SIZE + e.dataOffset, |items[k].stored|) == items[k].stored
  {
    EntryAt(items, k);
    PathInBlock(f, h.pathOffset, |f|, items, k);
    DataInBlock(f, HEADER_SIZE, HEADER_SIZE + |Data(items)|, items, k);
  }
}
