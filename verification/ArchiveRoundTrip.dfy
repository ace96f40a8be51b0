/** Reading an archive gives back what was added to it (paf_generator.c, libpaf_list.c, libpaf_extract.c). */
module ArchiveRoundTrip {
  import opened Bytes
  import opened Seqs
  import opened Codec
  import opened Hashing
  import opened ArchiveFormat
  import opened ArchiveReader
  import opened Generator

  /** The finalized archive of these files. */
  function Archive(step: Compression, indexOnly: bool, files: seq<File>): seq<byte> {
    Layout(Members(step, indexOnly, files), ArchiveFlags(indexOnly))
  }

  function Members(step: Compression, indexOnly: bool, files: seq<File>): seq<Item> {
    Mapped(MemberOf(step, indexOnly), files)
  }

  /** Paths a C string and the path buffer can hold, sizes within their 32-bit field, everything within 64-bit
      offsets. */
  ghost predicate Archivable(step: Compression, indexOnly: bool, files: seq<File>) {
    && Storable(Members(step, indexOnly, files))
    && forall k :: 0 <= k < |files| ==> |files[k].path| < 1024 && 0 !in files[k].path && |files[k].data| < U32_LIMIT
  }

  lemma IsWritten(step: Compression, indexOnly: bool, files: seq<File>)
    requires Archivable(step, indexOnly, files)
    ensures var items := Members(step, indexOnly, files);
            IsArchive(Archive(step, indexOnly, files), LayoutHeader(items, ArchiveFlags(indexOnly)), items)
            && PathsFit(items)
  {
    LayoutIsArchive(Members(step, indexOnly, files), ArchiveFlags(indexOnly));
  }

  lemma SmallSize(n: nat)
    requires n < U32_LIMIT
    ensures Trunc32(n) == n
  {
  }

  lemma MemberFields(step: Compression, indexOnly: bool, files: seq<File>, k: nat)
    requires k < |files| && |files[k].data| < U32_LIMIT
    ensures var it := Members(step, indexOnly, files)[k];
            it.path == files[k].path && Trunc32(it.size) == |files[k].data|
            && it.digest == DigestOf(step)(files[k].data)
  {
    SmallSize(|files[k].data|);
    assert Members(step, indexOnly, files)[k] == MemberOf(step, indexOnly)(files[k]);
  }

  ghost predicate Lists(l: seq<Listed>, items: seq<Item>) {
    |l| == |items| && forall k :: 0 <= k < |items| ==>
                                    l[k].path == items[k].path && l[k].size == Trunc32(items[k].size)
                                    && l[k].hash == items[k].digest
  }

  lemma ListsMembers(f: seq<byte>, h: Header, items: seq<Item>)
    requires IsArchive(f, h, items) && PathsFit(items)
    ensures Listing(f).Some? && Lists(Listing(f).value, items)
  {
    ListingOfArchive(f, h, items);
  }

  /** The listing has every file in call order, with its size and digest, index-only or not. */
  lemma ListingUndoesWriting(step: Compression, indexOnly: bool, files: seq<File>)
    requires Archivable(step, indexOnly, files)
    ensures var l := Listing(Archive(step, indexOnly, files));
            && l.Some? && |l.value| == |files|
            && forall k :: 0 <= k < |files| ==>
                             l.value[k].path == files[k].path && l.value[k].size == |files[k].data| &&
                             l.value[k].hash == DigestOf(step)(files[k].data)
  {
    var items := Members(step, indexOnly, files);
    IsWritten(step, indexOnly, files);
    ListsMembers(Archive(step, indexOnly, files), LayoutHeader(items, ArchiveFlags(indexOnly)), items);
    forall k | 0 <= k < |files|
      ensures items[k].path == files[k].path && Trunc32(items[k].size) == |files[k].data|
      ensures items[k].digest == DigestOf(step)(files[k].data)
    {
      MemberFields(step, indexOnly, files, k);
    }
  }

  /** Extracting a path gives the bytes that were added under it, and an unknown path is refused. */
  lemma ExtractionUndoesWriting(step: Compression, files: seq<File>, name: Path)
    requires Archivable(step, false, files)
    requires forall j, k :: 0 <= j < k < |files| ==> files[j].path != files[k].path
    ensures forall k :: 0 <= k < |files| && files[k].path == name ==>
                          Extracting(Archive(step, false, files), name) == Extraction(0, Some(files[k].data))
    ensures (forall k :: 0 <= k < |files| ==> files[k].path != name) ==>
              Extracting(Archive(step, false, files), name) == Extraction(-4, None)
  {
    var items := Members(step, false, files);
    IsWritten(step, false, files);
    ExtractionOfArchive(Archive(step, false, files), LayoutHeader(items, 0), items, name);
  }

  // ---- What a reader makes of an archive when a stream ended early ----

  /** The index can be read exactly when it lies within the file. */
  lemma {:induction false} IndexWithin(file: seq<byte>, pos: nat, n: nat)
    requires n > 0
    ensures |ParseMany(EntryParser(file), pos, n)| == n <==> pos + ENTRY_SIZE * n <= |file|
    decreases n
  {
    if n > 1 {
      IndexWithin(file, pos + ENTRY_SIZE, n - 1);
    }
  }

  lemma {:induction false} LastParsed(file: seq<byte>, pos: nat, n: nat)
    requires n > 0 && pos + ENTRY_SIZE * n <= |file|
    ensures |ParseMany(EntryParser(file), pos, n)| == n
    ensures var end := pos + ENTRY_SIZE * n;
            ParseMany(EntryParser(file), pos, n)[n - 1] == DecodeEntry(file[end - ENTRY_SIZE..end])
    decreases n
  {
    if n > 1 {
      LastParsed(file, pos + ENTRY_SIZE, n - 1);
    }
  }

  lemma {:induction false} PrintedWrittenSize(indexOnly: bool, items: seq<Item>)
    requires forall k :: 0 <= k < |items| ==> |items[k].digest| == 32
    ensures |PrintMany(PrintEntry, WrittenEntries(indexOnly, items))| == ENTRY_SIZE * |items|
  {
    if items != [] {
      var n := |items| - 1;
      PrintedWrittenSize(indexOnly, items[..n]);
      FrontLast(items);
      AppendMember(indexOnly, items[..n], items[n]);
    }
  }

  lemma {:induction false} WrittenParts(indexOnly: bool, items: seq<Item>)
    requires forall k :: 0 <= k < |items| ==> |items[k].digest| == 32
    ensures var f, before := Written(indexOnly, items), HEADER_SIZE + |Data(items)| + ENTRY_SIZE * |items|;
            |f| == before + |Paths(items)| && f[before..] == Paths(items)
  {
    PrintedWrittenSize(indexOnly, items);
  }

  lemma {:induction false} NoZeroInPaths(items: seq<Item>)
    requires PathsFit(items)
    ensures 0 !in Paths(items)
  {
    if items != [] {
      NoZeroInPaths(items[..|items| - 1]);
    }
  }

  /** The unused bytes of a written entry. */
  predicate Blank(e: Entry) {
    e.spare == seq(64, _ => 0)
  }

  /** The last byte of every written entry is zero. */
  lemma LastByte(file: seq<byte>, end: nat)
    requires ENTRY_SIZE <= end <= |file|
    ensures Blank(DecodeEntry(file[end - ENTRY_SIZE..end])) ==> file[end - 1] == 0
  {
    var s := file[end - ENTRY_SIZE..end];
    assert s[64..][63] == file[end - 1];
  }

  lemma ByteInTail(file: seq<byte>, from: nat, tail: seq<byte>, at: nat)
    requires from <= at < |file| && file[from..] == tail
    ensures file[at] in tail
  {
    assert file[at] == tail[at - from];
  }

  /** A record that ends in a byte of a path is not a written entry. */
  lemma {:induction false} NotAnEntry(items: seq<Item>, file: seq<byte>, from: nat, end: nat)
    requires PathsFit(items) && from <= |file| && file[from..] == Paths(items)
    requires ENTRY_SIZE <= end <= |file| && from < end
    ensures !Blank(DecodeEntry(file[end - ENTRY_SIZE..end]))
  {
    NoZeroInPaths(items);
    LastByte(file, end);
    ByteInTail(file, from, Paths(items), end - 1);
  }

  lemma {:induction false} LastDiffers(file: seq<byte>, h: Header, es: seq<Entry>, end: nat)
    requires es != [] && h.count == |es| && Blank(es[|es| - 1]) && end == h.indexOffset + ENTRY_SIZE * |es|
    requires end <= |file| && !Blank(DecodeEntry(file[end - ENTRY_SIZE..end]))
    ensures ReadIndex(file, h) != Some(es)
  {
    LastParsed(file, h.indexOffset, |es|);
  }

  /** Bytes are missing, yet the index lies within the file: the last record read is not the last one written. */
  lemma {:induction false} LastRecordWrong(items: seq<Item>, f: seq<byte>, end: nat)
    requires Writable(false, items) && PathsFit(items) && items != [] && f == Written(false, items)
    requires |Data(items)| < Announced(false, items) <= |Data(items)| + |Paths(items)|
    requires end == HEADER_SIZE + Announced(false, items) + ENTRY_SIZE * |items|
    ensures ENTRY_SIZE <= end <= |f| && !Blank(DecodeEntry(f[end - ENTRY_SIZE..end]))
  {
    WrittenParts(false, items);
    NotAnEntry(items, f, HEADER_SIZE + |Data(items)| + ENTRY_SIZE * |items|, end);
  }

  lemma {:induction false} LastIsBlank(items: seq<Item>)
    requires items != []
    ensures Blank(WrittenEntries(false, items)[|items| - 1])
  {
  }

  lemma {:induction false} WrongLastEntry(items: seq<Item>)
    requires Writable(false, items) && PathsFit(items) && items != []
    requires |Data(items)| < Announced(false, items) <= |Data(items)| + |Paths(items)|
    ensures ReadIndex(Written(false, items), WrittenHeader(false, items)) != Some(WrittenEntries(false, items))
  {
    var end := HEADER_SIZE + Announced(false, items) + ENTRY_SIZE * |items|;
    LastIsBlank(items);
    LastRecordWrong(items, Written(false, items), end);
    LastDiffers(Written(false, items), WrittenHeader(false, items), WrittenEntries(false, items), end);
  }

  /** Reading the header and the index of what a generator wrote: an index is found exactly when no more bytes are
      missing than the paths take, and it holds the written entries exactly when none are missing. */
  lemma {:induction false} WrittenReads(indexOnly: bool, items: seq<Item>)
    requires AllStoredWithin(indexOnly, items) && Writable(indexOnly, items) && PathsFit(items)
    ensures var f, h := Written(indexOnly, items), WrittenHeader(indexOnly, items);
            && ParseHeader(f) == Some(h)
            && (Listing(f).Some? <==> Announced(indexOnly, items) <= |Data(items)| + |Paths(items)|)
            && (ReadIndex(f, h) == Some(WrittenEntries(indexOnly, items)) <==> indexOnly || AllArrived(items))
  {
    WrittenHeaderReads(indexOnly, items);
    WrittenParts(indexOnly, items);
    AnnouncedIff(indexOnly, items);
    var f, h := Written(indexOnly, items), WrittenHeader(indexOnly, items);
    if items != [] {
      IndexWithin(f, h.indexOffset, |items|);
    }
    if indexOnly || AllArrived(items) {
      EntriesAsLaidOut(indexOnly, items);
      WrittenAsLaidOut(indexOnly, items);
      LayoutReads(items, ArchiveFlags(indexOnly));
    } else if Announced(false, items) <= |Data(items)| + |Paths(items)| {
      WrongLastEntry(items);
    }
  }

  /** When more bytes are missing than the paths take, nothing can be listed or extracted any more. */
  lemma {:induction false} ShortStreamUnlisted(items: seq<Item>, name: Path)
    requires AllStoredWithin(false, items) && Writable(false, items) && PathsFit(items)
    requires |Data(items)| + |Paths(items)| < Announced(false, items)
    ensures Listing(Written(false, items)) == None && Extracting(Written(false, items), name) == Extraction(-4, None)
  {
    WrittenReads(false, items);
  }

  /** Writes an archive and reads one file back from it. */
  method WriteThenExtract(step: Compression, files: seq<File>, k: nat) returns (status: int, output: Option<seq<byte>>)
    requires Archivable(step, false, files) && k < |files|
    requires forall i, j :: 0 <= i < j < |files| ==> files[i].path != files[j].path
    ensures status == 0 && output == Some(files[k].data)
  {
    var archive := ArchiveFiles(step, false, files);
    ExtractionUndoesWriting(step, files, files[k].path);
    status, output := ExtractFile(archive, files[k].path);
  }
}
