/** The archive writer: batched, oversize and streamed additions (paf_generator.c). */
module Generator {
  import opened Bytes
  import opened Seqs
  import opened Codec
  import opened Hashing
  import opened ArchiveFormat
  import Sha256Stream

  const BATCH_BYTES: nat := 128 * 1024 * 1024
  const BATCH_FILES: nat := 4096
  const STREAM_CHUNK: nat := 65536

  datatype File = File(path: Path, data: seq<byte>)

  /** The archive member of a file; an index-only archive stores no data but keeps the real size. */
  function ItemOf(step: Compression, indexOnly: bool, f: File): Item {
    Item(f.path, 0, if indexOnly then [] else f.data, |f.data|, DigestWith(step, f.data))
  }

  function MemberOf(step: Compression, indexOnly: bool): File -> Item {
    (f: File) => ItemOf(step, indexOnly, f)
  }

  function ArchiveFlags(indexOnly: bool): nat {
    if indexOnly then PAF_FLAG_INDEX_ONLY else 0
  }

  // ---- What the writer lays out: offsets follow the announced sizes ----

  /** By how much a member advances the data counter; an index-only archive never advances it. */
  function Advance(indexOnly: bool, it: Item): nat {
    if indexOnly then 0 else it.size
  }

  /** The data counter after these members. */
  function Announced(indexOnly: bool, items: seq<Item>): nat {
    if items == [] then 0
    else Announced(indexOnly, items[..|items| - 1]) + Advance(indexOnly, items[|items| - 1])
  }

  function WrittenEntry(indexOnly: bool, before: seq<Item>, it: Item): Entry {
    Entry(|Paths(before)|, |it.path|, it.flags, Announced(indexOnly, before), it.size, it.digest, seq(64, _ => 0))
  }

  function WrittenEntries(indexOnly: bool, items: seq<Item>): (es: seq<Entry>)
    ensures |es| == |items|
  {
    if items == [] then []
    else WrittenEntries(indexOnly, items[..|items| - 1])
         + [WrittenEntry(indexOnly, items[..|items| - 1], items[|items| - 1])]
  }

  function WrittenHeader(indexOnly: bool, items: seq<Item>): Header {
    var index := HEADER_SIZE + Announced(indexOnly, items);
    Header(PAF_VERSION, ArchiveFlags(indexOnly), |items|, index, index + |items| * ENTRY_SIZE)
  }

  /** The archive file: header, data block, index block, path buffer. */
  function Written(indexOnly: bool, items: seq<Item>): seq<byte> {
    PrintHeader(WrittenHeader(indexOnly, items)) + Data(items)
    + PrintMany(PrintEntry, WrittenEntries(indexOnly, items)) + Paths(items)
  }

  /** At most the announced bytes are stored, and none in an index-only archive. */
  predicate Stored(indexOnly: bool, it: Item) {
    if indexOnly then it.stored == [] else |it.stored| <= it.size
  }

  predicate AllStoredWithin(indexOnly: bool, items: seq<Item>) {
    forall k :: 0 <= k < |items| ==> Stored(indexOnly, items[k])
  }

  /** Every announced byte is stored. */
  predicate AllArrived(items: seq<Item>) {
    forall k :: 0 <= k < |items| ==> |items[k].stored| == items[k].size
  }

  lemma {:induction false} AppendMember(indexOnly: bool, items: seq<Item>, it: Item)
    ensures Data(items + [it]) == Data(items) + it.stored
    ensures Paths(items + [it]) == Paths(items) + it.path
    ensures Announced(indexOnly, items + [it]) == Announced(indexOnly, items) + Advance(indexOnly, it)
    ensures PrintMany(PrintEntry, WrittenEntries(indexOnly, items + [it]))
         == PrintMany(PrintEntry, WrittenEntries(indexOnly, items)) + PrintEntry(WrittenEntry(indexOnly, items, it))
  {
    Append(items, it);
    assert (items + [it])[..|items|] == items;
    var e := WrittenEntry(indexOnly, items, it);
    PrintManyAppend(PrintEntry, WrittenEntries(indexOnly, items), [e]);
    assert PrintMany(PrintEntry, [e]) == PrintEntry(e) + PrintMany(PrintEntry, [e][1..]);
    assert PrintMany(PrintEntry, [e]) == PrintEntry(e);
  }

  lemma StoredMore(indexOnly: bool, items: seq<Item>, it: Item)
    requires AllStoredWithin(indexOnly, items) && Stored(indexOnly, it)
    ensures AllStoredWithin(indexOnly, items + [it])
  {
  }

  /** The data counter is never behind the data block, and it is right if and only if everything announced arrived. */
  lemma {:induction false} AnnouncedIff(indexOnly: bool, items: seq<Item>)
    requires AllStoredWithin(indexOnly, items)
    ensures |Data(items)| <= Announced(indexOnly, items)
    ensures Announced(indexOnly, items) == |Data(items)| <==> indexOnly || AllArrived(items)
  {
    if items != [] {
      var n := |items| - 1;
      AnnouncedIff(indexOnly, items[..n]);
      FrontLast(items);
      assert Stored(indexOnly, items[n]);
      assert AllArrived(items) <==> AllArrived(items[..n]) && |items[n].stored| == items[n].size;
    }
  }

  lemma {:induction false} NothingStored(items: seq<Item>)
    requires AllStoredWithin(true, items)
    ensures Announced(true, items) == 0 && Data(items) == []
  {
    if items != [] {
      var n := |items| - 1;
      NothingStored(items[..n]);
      assert Stored(true, items[n]);
    }
  }

  lemma {:induction false} EntriesAsLaidOut(indexOnly: bool, items: seq<Item>)
    requires AllStoredWithin(indexOnly, items) && (indexOnly || AllArrived(items))
    ensures WrittenEntries(indexOnly, items) == Entries(items)
  {
    if items != [] {
      var before, it := items[..|items| - 1], items[|items| - 1];
      EntriesAsLaidOut(indexOnly, before);
      AnnouncedIff(indexOnly, before);
      assert WrittenEntry(indexOnly, before, it) == EntryAfter(before, it);
    }
  }

  lemma WrittenAsLaidOut(indexOnly: bool, items: seq<Item>)
    requires AllStoredWithin(indexOnly, items) && (indexOnly || AllArrived(items))
    ensures Written(indexOnly, items) == Layout(items, ArchiveFlags(indexOnly))
  {
    EntriesAsLaidOut(indexOnly, items);
    AnnouncedIff(indexOnly, items);
    assert WrittenHeader(indexOnly, items) == LayoutHeader(items, ArchiveFlags(indexOnly));
  }

  /** Everything announced fits 64-bit offsets. */
  ghost predicate Writable(indexOnly: bool, items: seq<Item>) {
    Storable(items) && HEADER_SIZE + Announced(indexOnly, items) + ENTRY_SIZE * |items| + |Paths(items)| < U64_LIMIT
  }

  lemma WrittenHeaderReads(indexOnly: bool, items: seq<Item>)
    requires Writable(indexOnly, items)
    ensures ParseHeader(Written(indexOnly, items)) == Some(WrittenHeader(indexOnly, items))
  {
    var h, d := PrintHeader(WrittenHeader(indexOnly, items)), Data(items);
    var entries := PrintMany(PrintEntry, WrittenEntries(indexOnly, items));
    Assoc(h, d, entries);
    Assoc(h, d + entries, Paths(items));
    HeaderRoundTrip(WrittenHeader(indexOnly, items), d + entries + Paths(items));
  }

  /** What is written is the layout of its members if and only if everything announced arrived, or no data is stored. */
  lemma {:induction false} WrittenIff(indexOnly: bool, items: seq<Item>)
    requires AllStoredWithin(indexOnly, items) && Writable(indexOnly, items)
    ensures Written(indexOnly, items) == Layout(items, ArchiveFlags(indexOnly)) <==> indexOnly || AllArrived(items)
  {
    AnnouncedIff(indexOnly, items);
    if indexOnly || AllArrived(items) {
      WrittenAsLaidOut(indexOnly, items);
    } else {
      WrittenHeaderReads(indexOnly, items);
      LayoutReads(items, ArchiveFlags(indexOnly));
    }
  }

  lemma OneMoreQueued<T>(a: seq<T>, queue: seq<T>, i: nat)
    requires i < |queue|
    ensures a + queue[..i + 1] == a + queue[..i] + [queue[i]]
  {
  }

  /** The data block, the index block and the path buffer of these members. */
  ghost predicate Blocks(indexOnly: bool, items: seq<Item>, data: seq<byte>, index: seq<byte>, paths: seq<byte>) {
    && data == Data(items) && paths == Paths(items)
    && index == PrintMany(PrintEntry, WrittenEntries(indexOnly, items)) && AllStoredWithin(indexOnly, items)
  }

  lemma {:induction false} BlocksMore(indexOnly: bool, items: seq<Item>, data: seq<byte>, index: seq<byte>,
                                      paths: seq<byte>, it: Item)
    requires Blocks(indexOnly, items, data, index, paths) && Stored(indexOnly, it)
    ensures Blocks(indexOnly, items + [it], data + it.stored, index + PrintEntry(WrittenEntry(indexOnly, items, it)),
                   paths + it.path)
    ensures |Paths(items + [it])| == |Paths(items)| + |it.path|
    ensures Announced(indexOnly, items + [it]) == Announced(indexOnly, items) + Advance(indexOnly, it)
  {
    AppendMember(indexOnly, items, it);
    StoredMore(indexOnly, items, it);
  }

  /** The three temporary files of a generator and the running offsets. */
  class Spool {
    const indexOnly: bool
    var dataTmp: seq<byte>
    var indexTmp: seq<byte>
    var pathTmp: seq<byte>
    var fileCount: nat
    var dataOffset: nat
    var pathOffset: nat

    /** The members written so far. */
    ghost var items: seq<Item>

    ghost predicate Valid()
      reads this
    {
      && Blocks(indexOnly, items, dataTmp, indexTmp, pathTmp)
      && fileCount == |items| && pathOffset == |Paths(items)| && dataOffset == Announced(indexOnly, items)
    }

    constructor (indexOnly: bool)
      ensures Valid() && items == [] && this.indexOnly == indexOnly
    {
      this.indexOnly := indexOnly;
      dataTmp, indexTmp, pathTmp := [], [], [];
      fileCount, dataOffset, pathOffset := 0, 0, 0;
      items := [];
    }

    /** Appends a member to the three files and advances the offsets: the data counter by the announced size, unless
        the archive is index-only. */
    method Put(path: Path, flags: nat, stored: seq<byte>, size: nat, digest: seq<byte>)
      requires Valid() && Stored(indexOnly, Item(path, flags, stored, size, digest))
      modifies this
      ensures Valid() && items == old(items) + [Item(path, flags, stored, size, digest)]
    {
      ghost var it := Item(path, flags, stored, size, digest);
      var entry := Entry(pathOffset, |path|, flags, dataOffset, size, digest, seq(64, _ => 0));
      assert entry == WrittenEntry(indexOnly, items, it);
      BlocksMore(indexOnly, items, dataTmp, indexTmp, pathTmp, it);
      pathTmp := pathTmp + path;
      dataTmp := dataTmp + stored;
      indexTmp := indexTmp + PrintEntry(entry);
      dataOffset := dataOffset + if indexOnly then 0 else size;
      pathOffset := pathOffset + |path|;
      fileCount := fileCount + 1;
      items := items + [it];
    }

    /** A member with these bytes, which are stored unless the archive is index-only. */
    method WriteMember(path: Path, data: seq<byte>, size: nat, digest: seq<byte>)
      requires Valid() && |data| <= size
      modifies this
      ensures Valid() && items == old(items) + [Item(path, 0, if indexOnly then [] else data, size, digest)]
    {
      if indexOnly {
        Put(path, 0, [], size, digest);
      } else {
        Put(path, 0, data, size, digest);
      }
    }

    /** Hashes files and writes their members in order. */
    method WriteMembers(step: Compression, files: seq<File>)
      requires Valid()
      modifies this
      ensures Valid() && items == old(items) + Mapped(MemberOf(step, indexOnly), files)
    {
      ghost var before, queued := items, Mapped(MemberOf(step, indexOnly), files);
      assert before + queued[..0] == before;
      for i := 0 to |files|
        invariant Valid() && items == before + queued[..i]
      {
        OneMoreQueued(before, queued, i);
        var f := files[i];
        assert queued[i] == ItemOf(step, indexOnly, f);
        WriteMember(f.path, f.data, |f.data|, DigestWith(step, f.data));
      }
      assert queued[..|files|] == queued;
    }

    /** paf_generator_finalize: the header, then the three temporary files. */
    method Assemble() returns (archive: seq<byte>)
      requires Valid()
      ensures archive == Written(indexOnly, items)
    {
      var header;
      if indexOnly {
        header := Header(PAF_VERSION, PAF_FLAG_INDEX_ONLY, fileCount, HEADER_SIZE,
                         HEADER_SIZE + fileCount * ENTRY_SIZE);
        NothingStored(items);
        assert header == WrittenHeader(indexOnly, items);
        archive := PrintHeader(header);
        assert archive + [] == archive;
      } else {
        var index := HEADER_SIZE + dataOffset;
        header := Header(PAF_VERSION, 0, fileCount, index, index + fileCount * ENTRY_SIZE);
        assert header == WrittenHeader(indexOnly, items);
        archive := PrintHeader(header) + dataTmp;
      }
      assert archive == PrintHeader(header) + Data(items);
      archive := archive + indexTmp + pathTmp;
    }
  }

  lemma SameBefore<T>(s: seq<T>, t: seq<T>, at: nat, i: nat, j: nat)
    requires i <= j <= at <= |s| == |t| && s[..at] == t[..at]
    ensures s[i..j] == t[i..j]
  {
    assert s[i..j] == s[..at][i..j] && t[i..j] == t[..at][i..j];
  }

  /** Each slot holds its file, inside the first pos bytes of the buffer. */
  ghost predicate AllStored(data: seq<byte>, sizes: seq<nat>, offsets: seq<nat>, paths: seq<Path>, pos: nat,
                            files: seq<File>) {
    && |files| <= |sizes| == |offsets| == |paths| && pos <= |data|
    && forall i :: 0 <= i < |files| ==>
                     && paths[i] == files[i].path && sizes[i] == |files[i].data|
                     && offsets[i] + sizes[i] <= pos && data[offsets[i]..offsets[i] + sizes[i]] == files[i].data
  }

  lemma AllStoredMore(data: seq<byte>, data': seq<byte>, sizes: seq<nat>, offsets: seq<nat>, paths: seq<Path>, pos: nat,
                      files: seq<File>, f: File)
    requires AllStored(data, sizes, offsets, paths, pos, files) && |files| < |sizes| && |data'| == |data|
    requires pos + |f.data| <= |data| && data'[..pos] == data[..pos] && data'[pos..pos + |f.data|] == f.data
    ensures var n := |files|;
            AllStored(data', sizes[n := |f.data|], offsets[n := pos], paths[n := f.path], pos + |f.data|, files + [f])
  {
    forall i | 0 <= i < |files| ensures data'[offsets[i]..offsets[i] + sizes[i]] == files[i].data {
      SameBefore(data, data', pos, offsets[i], offsets[i] + sizes[i]);
    }
  }

  /** The preallocated batch buffer: file contents back to back, with sizes, offsets and paths by slot. */
  class Batch {
    const data: array<byte>
    const sizes: array<nat>
    const offsets: array<nat>
    const paths: array<Path>
    var count: nat
    var pos: nat

    /** The buffered files. */
    ghost var pending: seq<File>

    ghost predicate Valid()
      reads this, data, sizes, offsets, paths
    {
      && data.Length == BATCH_BYTES && sizes != offsets
      && sizes.Length == BATCH_FILES && offsets.Length == BATCH_FILES && paths.Length == BATCH_FILES
      && |pending| == count <= BATCH_FILES && pos <= BATCH_BYTES && (count == 0 ==> pos == 0)
      && AllStored(data[..], sizes[..], offsets[..], paths[..], pos, pending)
    }

    constructor ()
      ensures Valid() && pending == []
      ensures fresh(data) && fresh(sizes) && fresh(offsets) && fresh(paths)
    {
      data := new byte[BATCH_BYTES];
      sizes := new nat[BATCH_FILES];
      offsets := new nat[BATCH_FILES];
      paths := new Path[BATCH_FILES](_ => []);
      count, pos := 0, 0;
      pending := [];
    }

    /** memcpy to a position of the buffer. */
    method CopyIn(at: nat, bytes: seq<byte>)
      requires at + |bytes| <= data.Length
      modifies data
      ensures data[..at] == old(data[..at]) && data[at..at + |bytes|] == bytes
    {
      forall i | 0 <= i < |bytes| { data[at + i] := bytes[i]; }
    }

    /** Copies a file into the next slot. */
    method Push(f: File)
      requires Valid() && count < BATCH_FILES && pos + |f.data| <= BATCH_BYTES
      modifies this, data, sizes, offsets, paths
      ensures Valid() && pending == old(pending) + [f]
    {
      var at, n := pos, count;
      CopyIn(at, f.data);
      AllStoredMore(old(data[..]), data[..], sizes[..], offsets[..], paths[..], at, pending, f);
      offsets[n] := at;
      sizes[n] := |f.data|;
      paths[n] := f.path;
      pos := at + |f.data|;
      pending := pending + [f];
      count := n + 1;
    }

    method Clear()
      requires Valid()
      modifies this
      ensures Valid() && pending == [] && count == 0 && pos == 0
    {
      count, pos := 0, 0;
      pending := [];
    }

    /** The files of the slots, as a flush reads them back. */
    method Files() returns (files: seq<File>)
      requires Valid()
      ensures files == pending
    {
      files := [];
      for i := 0 to count
        invariant files == pending[..i]
      {
        files := files + [File(paths[i], data[offsets[i]..offsets[i] + sizes[i]])];
      }
    }
  }

  /** What a stream yields when size bytes are announced. */
  function Delivered(content: seq<byte>, size: nat): seq<byte> {
    if |content| <= size then content else content[..size]
  }

  /** The member of a streamed file. */
  function StreamItem(step: Compression, indexOnly: bool, path: Path, content: seq<byte>, size: nat): Item {
    var d := Delivered(content, size);
    Item(path, 0, if indexOnly then [] else d, size, DigestWith(step, d))
  }

  lemma StreamMember(step: Compression, indexOnly: bool, path: Path, content: seq<byte>, size: nat)
    ensures var d := Delivered(content, size);
            |d| <= size && StreamItem(step, indexOnly, path, content, size)
                        == Item(path, 0, if indexOnly then [] else d, size, DigestWith(step, d))
  {
  }

  lemma ReadOn(content: seq<byte>, read: nat, n: nat)
    requires read <= |content|
    ensures var chunk := ReadAt(content, read, n);
            && read + |chunk| <= |content| && content[..read] + chunk == content[..read + |chunk|]
            && (chunk == [] ==> n == 0 || read == |content|)
  {
  }

  class Writer {
    const step: Compression
    const spool: Spool
    const batch: Batch

    ghost predicate Valid()
      reads this, spool, batch, batch.data, batch.sizes, batch.offsets, batch.paths
    {
      spool.Valid() && batch.Valid()
    }

    /** Everything added so far, in call order: what is written, then what is still buffered. */
    ghost function Added(): seq<Item>
      reads this, spool, batch
    {
      spool.items + Mapped(MemberOf(step, spool.indexOnly), batch.pending)
    }

    constructor (step: Compression, indexOnly: bool)
      ensures Valid() && Added() == [] && this.step == step && spool.indexOnly == indexOnly
      ensures fresh(spool) && fresh(batch)
      ensures fresh(batch.data) && fresh(batch.sizes) && fresh(batch.offsets) && fresh(batch.paths)
    {
      this.step := step;
      spool := new Spool(indexOnly);
      batch := new Batch();
    }

    /** The slots in order, then an empty batch. */
    method FlushSlots()
      requires Valid()
      modifies this, spool, batch
      ensures Valid() && batch.pending == [] && spool.items == old(Added())
    {
      var files := batch.Files();
      spool.WriteMembers(step, files);
      batch.Clear();
    }

    lemma NothingQueued()
      requires batch.pending == []
      ensures Added() == spool.items
    {
      assert spool.items + [] == spool.items;
    }

    /** paf_generator_flush_batch. */
    method Flush()
      requires Valid()
      modifies this, spool, batch
      ensures Valid() && batch.count == 0 && batch.pos == 0 && batch.pending == []
      ensures spool.items == old(Added()) == Added()
    {
      if batch.count == 0 {
        NothingQueued();
        return;
      }
      FlushSlots();
      NothingQueued();
    }

    /** Writes one member straight to the temporary files, after everything buffered. */
    method WriteThrough(f: File, digest: seq<byte>)
      requires Valid() && batch.pending == [] && digest == DigestWith(step, f.data)
      modifies spool
      ensures Valid() && Added() == old(Added()) + [ItemOf(step, spool.indexOnly, f)]
    {
      spool.WriteMember(f.path, f.data, |f.data|, digest);
      assert forall a: seq<Item> :: a + [] == a;
    }

    method Enqueue(f: File)
      requires Valid() && batch.count < BATCH_FILES && batch.pos + |f.data| <= BATCH_BYTES
      modifies batch, batch.data, batch.sizes, batch.offsets, batch.paths
      ensures Valid() && Added() == old(Added()) + [ItemOf(step, spool.indexOnly, f)]
    {
      ghost var files, member := batch.pending, MemberOf(step, spool.indexOnly);
      MappedOneMore(member, files, f);
      Assoc(spool.items, Mapped(member, files), [member(f)]);
      batch.Push(f);
    }

    /** paf_generator_add_file: buffered, or written at once when it exceeds the whole buffer. */
    method AddFile(f: File) returns (status: int)
      requires Valid()
      modifies this, spool, batch, batch.data, batch.sizes, batch.offsets, batch.paths
      ensures Valid()
      ensures status == if |f.path| >= 1024 then -1 else 0
      ensures Added() == if status == 0 then old(Added()) + [ItemOf(step, spool.indexOnly, f)] else old(Added())
    {
      if |f.path| >= 1024 { return -1; }
      if batch.pos + |f.data| > BATCH_BYTES || batch.count >= BATCH_FILES {
        Flush();
        if |f.data| > BATCH_BYTES {
          WriteThrough(f, DigestWith(step, f.data));
          return 0;
        }
      }
      Enqueue(f);
      return 0;
    }

    /** Hashes up to size bytes of a stream, chunk by chunk, while collecting what is written to the data file. */
    method HashStream(content: seq<byte>, size: nat) returns (digest: seq<byte>, written: seq<byte>)
      ensures written == Delivered(content, size) && digest == DigestWith(step, written)
    {
      var ctx := new Sha256Stream.Context(step);
      var remaining: nat, read: nat := size, 0;
      written := [];
      while remaining > 0
        invariant read + remaining == size && read <= |content| && written == content[..read]
        invariant ctx.Valid() && fresh(ctx) && fresh(ctx.data) && ctx.msg == written && ctx.step == step
      {
        var chunk := ReadAt(content, read, if remaining > STREAM_CHUNK then STREAM_CHUNK else remaining);
        if chunk == [] { break; }
        ReadOn(content, read, if remaining > STREAM_CHUNK then STREAM_CHUNK else remaining);
        ctx.Update(chunk);
        written := written + chunk;
        remaining, read := remaining - |chunk|, read + |chunk|;
      }
      assert written == Delivered(content, size);
      digest := ctx.Final();
    }

    /** Writes the member of a stream. */
    method WriteStream(path: Path, content: seq<byte>, size: nat)
      requires spool.Valid()
      modifies spool
      ensures spool.Valid()
      ensures spool.items == old(spool.items) + [StreamItem(step, spool.indexOnly, path, content, size)]
    {
      var digest, written := HashStream(content, size);
      StreamMember(step, spool.indexOnly, path, content, size);
      spool.WriteMember(path, written, size, digest);
    }

    /** paf_generator_add_file_stream: one member with the bytes that arrived, under the announced size. */
    method AddFileStream(path: Path, content: seq<byte>, size: nat) returns (status: int)
      requires Valid()
      modifies this, spool, batch
      ensures Valid()
      ensures status == if |path| >= 1024 then -1 else 0
      ensures Added() == if status == 0 then old(Added()) + [StreamItem(step, spool.indexOnly, path, content, size)]
                          else old(Added())
    {
      if |path| >= 1024 { return -1; }
      Flush();
      WriteStream(path, content, size);
      NothingQueued();
      return 0;
    }

    /** paf_generator_finalize: the archive depends only on what was added, not on how it was batched. */
    method Finalize() returns (archive: seq<byte>)
      requires Valid()
      modifies this, spool, batch
      ensures Valid() && Added() == old(Added()) && AllStoredWithin(spool.indexOnly, Added())
      ensures archive == Written(spool.indexOnly, Added())
    {
      Flush();
      archive := spool.Assemble();
    }
  }

  /** One call on a generator: a file in memory, or a stream and the size it is announced with. */
  datatype Call =
    | FileCall(path: Path, data: seq<byte>)
    | StreamCall(path: Path, content: seq<byte>, size: nat)

  function CallItem(step: Compression, indexOnly: bool, c: Call): Item {
    match c
    case FileCall(path, data) => ItemOf(step, indexOnly, File(path, data))
    case StreamCall(path, content, size) => StreamItem(step, indexOnly, path, content, size)
  }

  /** A stream that ends before its announced size. */
  predicate EndsEarly(c: Call) {
    c.StreamCall? && |c.content| < c.size
  }

  /** The members a sequence of calls adds; paths of 1024 bytes and more are refused. */
  function Accepted(step: Compression, indexOnly: bool, calls: seq<Call>): seq<Item> {
    if calls == [] then []
    else
      var before, c := Accepted(step, indexOnly, calls[..|calls| - 1]), calls[|calls| - 1];
      if |c.path| >= 1024 then before else before + [CallItem(step, indexOnly, c)]
  }

  predicate NoneEndsEarly(calls: seq<Call>) {
    forall i :: 0 <= i < |calls| && |calls[i].path| < 1024 ==> !EndsEarly(calls[i])
  }

  lemma {:induction false} AcceptedArrived(step: Compression, calls: seq<Call>)
    ensures AllArrived(Accepted(step, false, calls)) <==> NoneEndsEarly(calls)
  {
    if calls != [] {
      var n := |calls| - 1;
      var before, c := Accepted(step, false, calls[..n]), calls[n];
      AcceptedArrived(step, calls[..n]);
      FrontLast(calls);
      assert NoneEndsEarly(calls) <==> NoneEndsEarly(calls[..n]) && (|c.path| < 1024 ==> !EndsEarly(c));
      if |c.path| < 1024 {
        ArrivedMore(before, CallItem(step, false, c));
      }
    }
  }

  lemma ArrivedMore(items: seq<Item>, it: Item)
    ensures AllArrived(items + [it]) <==> AllArrived(items) && |it.stored| == it.size
  {
    assert (items + [it])[|items|] == it;
    assert forall k :: 0 <= k < |items| ==> (items + [it])[k] == items[k];
  }

  lemma {:induction false} AcceptedLaidOut(step: Compression, indexOnly: bool, calls: seq<Call>)
    requires AllStoredWithin(indexOnly, Accepted(step, indexOnly, calls))
    ensures var items := Accepted(step, indexOnly, calls);
            && (indexOnly || NoneEndsEarly(calls) ==>
                  Written(indexOnly, items) == Layout(items, ArchiveFlags(indexOnly)))
            && (Writable(indexOnly, items) ==>
                  (Written(indexOnly, items) == Layout(items, ArchiveFlags(indexOnly)) <==>
                   indexOnly || NoneEndsEarly(calls)))
  {
    var items := Accepted(step, indexOnly, calls);
    if !indexOnly {
      AcceptedArrived(step, calls);
    }
    if indexOnly || NoneEndsEarly(calls) {
      WrittenAsLaidOut(indexOnly, items);
    }
    if Writable(indexOnly, items) {
      WrittenIff(indexOnly, items);
    }
  }

  method AddCall(w: Writer, c: Call) returns (status: int)
    requires w.Valid()
    modifies w, w.spool, w.batch, w.batch.data, w.batch.sizes, w.batch.offsets, w.batch.paths
    ensures w.Valid() && status == if |c.path| >= 1024 then -1 else 0
    ensures w.Added() == if status == 0 then old(w.Added()) + [CallItem(w.step, w.spool.indexOnly, c)]
                         else old(w.Added())
  {
    match c {
      case FileCall(path, data) => status := w.AddFile(File(path, data));
      case StreamCall(path, content, size) => status := w.AddFileStream(path, content, size);
    }
  }

  method RunCalls(step: Compression, indexOnly: bool, calls: seq<Call>) returns (archive: seq<byte>)
    ensures AllStoredWithin(indexOnly, Accepted(step, indexOnly, calls))
    ensures archive == Written(indexOnly, Accepted(step, indexOnly, calls))
  {
    var w := new Writer(step, indexOnly);
    for i := 0 to |calls|
      invariant w.Valid() && fresh(w) && fresh(w.spool) && fresh(w.batch)
      invariant fresh(w.batch.data) && fresh(w.batch.sizes) && fresh(w.batch.offsets) && fresh(w.batch.paths)
      invariant w.step == step && w.spool.indexOnly == indexOnly && w.Added() == Accepted(step, indexOnly, calls[..i])
    {
      assert calls[..i + 1][..i] == calls[..i];
      var status := AddCall(w, calls[i]);
    }
    assert calls[..|calls|] == calls;
    archive := w.Finalize();
  }

  /** Batching is invisible: whatever mix of routes and flush points a run of calls takes, the archive depends only on
      the accepted members in call order, and it is their layout if and only if no stream ends early, or the archive
      stores no data. */
  method BuildArchive(step: Compression, indexOnly: bool, calls: seq<Call>) returns (archive: seq<byte>)
    ensures archive == Written(indexOnly, Accepted(step, indexOnly, calls))
    ensures indexOnly || NoneEndsEarly(calls) ==>
              archive == Layout(Accepted(step, indexOnly, calls), ArchiveFlags(indexOnly))
    ensures Writable(indexOnly, Accepted(step, indexOnly, calls)) ==>
              (archive == Layout(Accepted(step, indexOnly, calls), ArchiveFlags(indexOnly)) <==>
               indexOnly || NoneEndsEarly(calls))
  {
    archive := RunCalls(step, indexOnly, calls);
    AcceptedLaidOut(step, indexOnly, calls);
  }

  /** A file a directory walk collected: the size it had then, and what it holds when it is opened, if it can be. */
  datatype Collected = Collected(path: Path, size: nat, content: Option<seq<byte>>)

  /** How paf_create_binary and paf_create_index_only add a file: in memory when all of it can be read, by stream when
      it is empty or shorter than it was, not at all when it cannot be opened. */
  function CallsFor(f: Collected): seq<Call> {
    if f.content.None? then []
    else if f.size > 0 && |f.content.value| >= f.size then [FileCall(f.path, f.content.value[..f.size])]
    else [StreamCall(f.path, f.content.value, f.size)]
  }

  function AllCalls(files: seq<Collected>): seq<Call> {
    if files == [] then [] else AllCalls(files[..|files| - 1]) + CallsFor(files[|files| - 1])
  }

  /** The members of the files that can be opened: what is there of the size seen by the walk. */
  function CollectedItems(step: Compression, indexOnly: bool, files: seq<Collected>): seq<Item> {
    if files == [] then []
    else
      var before, f := CollectedItems(step, indexOnly, files[..|files| - 1]), files[|files| - 1];
      if f.content.None? || |f.path| >= 1024 then before
      else before + [StreamItem(step, indexOnly, f.path, f.content.value, f.size)]
  }

  /** The file is shorter when it is opened than when the walk met it. */
  predicate Shrank(f: Collected) {
    f.content.Some? && |f.path| < 1024 && |f.content.value| < f.size
  }

  predicate NoneShrank(files: seq<Collected>) {
    forall i :: 0 <= i < |files| ==> !Shrank(files[i])
  }

  lemma {:induction false} AcceptedMore(step: Compression, indexOnly: bool, calls: seq<Call>, c: Call)
    ensures Accepted(step, indexOnly, calls + [c])
         == if |c.path| >= 1024 then Accepted(step, indexOnly, calls)
            else Accepted(step, indexOnly, calls) + [CallItem(step, indexOnly, c)]
    ensures NoneEndsEarly(calls + [c]) <==> NoneEndsEarly(calls) && (|c.path| < 1024 ==> !EndsEarly(c))
  {
    assert (calls + [c])[..|calls|] == calls && (calls + [c])[|calls|] == c;
    assert forall i :: 0 <= i < |calls| ==> (calls + [c])[i] == calls[i];
  }

  /** Which way a file goes does not matter for its member. */
  lemma RouteIrrelevant(step: Compression, indexOnly: bool, f: Collected)
    requires f.content.Some?
    ensures CallsFor(f) != [] && CallsFor(f)[0].path == f.path
    ensures CallItem(step, indexOnly, CallsFor(f)[0]) == StreamItem(step, indexOnly, f.path, f.content.value, f.size)
    ensures EndsEarly(CallsFor(f)[0]) <==> |f.content.value| < f.size
  {
    assert |f.content.value| == f.size ==> f.content.value[..f.size] == f.content.value;
  }

  lemma {:induction false} CollectedCalls(step: Compression, indexOnly: bool, files: seq<Collected>)
    ensures Accepted(step, indexOnly, AllCalls(files)) == CollectedItems(step, indexOnly, files)
    ensures NoneEndsEarly(AllCalls(files)) <==> NoneShrank(files)
  {
    if files != [] {
      var n := |files| - 1;
      var f, calls := files[n], AllCalls(files[..n]);
      CollectedCalls(step, indexOnly, files[..n]);
      FrontLast(files);
      assert NoneShrank(files) <==> NoneShrank(files[..n]) && !Shrank(f);
      if f.content.None? {
        assert calls + [] == calls;
      } else {
        RouteIrrelevant(step, indexOnly, f);
        assert AllCalls(files) == calls + [CallsFor(f)[0]];
        AcceptedMore(step, indexOnly, calls, CallsFor(f)[0]);
      }
    }
  }

  /** paf_create_binary, or paf_create_index_only, on the files a directory walk collected: one member per file that can
      be opened, in walk order, and the layout of these exactly if no file shrank or no data is stored. */
  method CreateArchive(step: Compression, indexOnly: bool, files: seq<Collected>) returns (archive: seq<byte>)
    ensures archive == Written(indexOnly, CollectedItems(step, indexOnly, files))
    ensures indexOnly || NoneShrank(files) ==>
              archive == Layout(CollectedItems(step, indexOnly, files), ArchiveFlags(indexOnly))
    ensures Writable(indexOnly, CollectedItems(step, indexOnly, files)) ==>
              (archive == Layout(CollectedItems(step, indexOnly, files), ArchiveFlags(indexOnly)) <==>
               indexOnly || NoneShrank(files))
  {
    var calls := [];
    for i := 0 to |files|
      invariant calls == AllCalls(files[..i])
    {
      assert files[..i + 1][..i] == files[..i];
      calls := calls + CallsFor(files[i]);
    }
    assert files[..|files|] == files;
    CollectedCalls(step, indexOnly, files);
    archive := BuildArchive(step, indexOnly, calls);
  }

  /** A file that does not change between the walk and its opening. */
  function Unchanged(f: File): Collected {
    Collected(f.path, |f.data|, Some(f.data))
  }

  lemma {:induction false} UnchangedItems(step: Compression, indexOnly: bool, files: seq<File>)
    requires forall i :: 0 <= i < |files| ==> |files[i].path| < 1024
    ensures CollectedItems(step, indexOnly, Mapped(Unchanged, files)) == Mapped(MemberOf(step, indexOnly), files)
    ensures NoneShrank(Mapped(Unchanged, files))
  {
    if files != [] {
      var n := |files| - 1;
      UnchangedItems(step, indexOnly, files[..n]);
      FrontLast(files);
      MappedOneMore(Unchanged, files[..n], files[n]);
      MappedOneMore(MemberOf(step, indexOnly), files[..n], files[n]);
      assert Mapped(Unchanged, files)[..n] == Mapped(Unchanged, files[..n]);
    }
  }

  /** The archive of files that stay as they are while it is made. */
  method ArchiveFiles(step: Compression, indexOnly: bool, files: seq<File>) returns (archive: seq<byte>)
    requires forall i :: 0 <= i < |files| ==> |files[i].path| < 1024
    ensures archive == Layout(Mapped(MemberOf(step, indexOnly), files), ArchiveFlags(indexOnly))
  {
    UnchangedItems(step, indexOnly, files);
    archive := CreateArchive(step, indexOnly, Mapped(Unchanged, files));
  }
}
