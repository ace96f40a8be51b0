/** Listing an archive and extracting one file from it (libpaf_list.c, libpaf_exists.c, libpaf_extract.c). */
module ArchiveReader {
  import opened Bytes
  import opened Seqs
  import opened ArchiveFormat

  /** PafEntry: size and offset are 32-bit fields, so the 64-bit values are truncated into them. */
  datatype Listed = Listed(path: Path, size: nat, offset: nat, hash: seq<byte>)

  /** The bytes of an entry's path that fit a 1024-byte buffer, and how many were asked for. */
  function PathRead(file: seq<byte>, h: Header, e: Entry): (r: (seq<byte>, nat))
    ensures |r.0| <= r.1 < 1024
  {
    var n := if e.pathLength >= 1024 then 1023 else e.pathLength;
    (ReadAt(file, h.pathOffset + e.pathOffset, n), n)
  }

  function ListEntry(file: seq<byte>, h: Header, e: Entry): Listed {
    Listed(CString(PathRead(file, h, e).0), Trunc32(e.dataSize), Trunc32(e.dataOffset), e.digest)
  }

  function ListEntries(file: seq<byte>, h: Header, es: seq<Entry>): (l: seq<Listed>)
    ensures |l| == |es| && forall i :: 0 <= i < |es| ==> l[i] == ListEntry(file, h, es[i])
  {
    seq(|es|, i requires 0 <= i < |es| => ListEntry(file, h, es[i]))
  }

  function Listing(file: seq<byte>): Option<seq<Listed>> {
    var h := ParseHeader(file);
    if h.None? then None
    else
      var es := ReadIndex(file, h.value);
      if es.None? then None else Some(ListEntries(file, h.value, es.value))
  }

  lemma HeaderCount(file: seq<byte>)
    ensures ParseHeader(file).None? <==> |file| < 32 || file[..4] != [0x50, 0x41, 0x46, 0x31]
    ensures ParseHeader(file).Some? ==> Little(file, 12, 4, ParseHeader(file).value.count)
  {
    if |file| >= 32 {
      LittleIff(file, 12, 4, FromLE(file[12..16]));
    }
  }

  /** paf_list_binary. Without the magic there is no archive; the number of entries is the little-endian integer at
      byte 12. */
  method List(file: seq<byte>) returns (status: int, entries: seq<Listed>)
    ensures status == 0 <==> Listing(file).Some?
    ensures status == 0 ==> entries == Listing(file).value && Little(file, 12, 4, |entries|)
    ensures status == -2 <==> |file| < 32 || file[..4] != [0x50, 0x41, 0x46, 0x31]
    ensures status == -1 <==> ParseHeader(file).Some? && Listing(file).None?
  {
    HeaderCount(file);
    entries := [];
    var header := ParseHeader(file);
    if header.None? { return -2, []; }
    var index := ReadIndex(file, header.value);
    if index.None? { return -1, []; }
    for i := 0 to header.value.count
      invariant |entries| == i
      invariant forall k :: 0 <= k < i ==> entries[k] == ListEntry(file, header.value, index.value[k])
    {
      entries := entries + [ListEntry(file, header.value, index.value[i])];
    }
    return 0, entries;
  }

  predicate Names(entries: seq<Listed>, name: Path) {
    exists i :: 0 <= i < |entries| && entries[i].path == name
  }

  predicate Lists(file: seq<byte>, name: Path) {
    var l := Listing(file);
    l.Some? && Names(l.value, name)
  }

  /** What an extraction leaves: a return code, and the output file's contents if it was opened. */
  datatype Extraction = Extraction(status: int, output: Option<seq<byte>>)

  /** The scan of paf_extract_file from entry i on: the first entry whose whole path was read and equals name. */
  function ExtractFrom(file: seq<byte>, h: Header, es: seq<Entry>, name: Path, i: nat): Extraction
    requires i <= |es|
    decreases |es| - i
  {
    if i == |es| then Extraction(-6, None)
    else
      var (read, n) := PathRead(file, h, es[i]);
      if |read| != n || CString(read) != name then ExtractFrom(file, h, es, name, i + 1)
      else
        var content := ReadAt(file, HEADER_SIZE + es[i].dataOffset, es[i].dataSize);
        if |content| != es[i].dataSize then Extraction(-7, Some([])) else Extraction(0, Some(content))
  }

  function Extracting(file: seq<byte>, name: Path): Extraction {
    if !Lists(file, name) then Extraction(-4, None)
    else
      var h := ParseHeader(file).value;
      ExtractFrom(file, h, ReadIndex(file, h).value, name, 0)
  }

  method FindName(entries: seq<Listed>, name: Path) returns (found: bool)
    ensures found == Names(entries, name)
  {
    for i := 0 to |entries|
      invariant forall k :: 0 <= k < i ==> entries[k].path != name
    {
      if entries[i].path == name { return true; }
    }
    return false;
  }

  /** file_exists_in_archive. */
  method FileExists(file: seq<byte>, name: Path) returns (found: bool)
    ensures found == Lists(file, name)
  {
    var status, entries := List(file);
    if status != 0 { return false; }
    found := FindName(entries, name);
  }

  method ScanIndex(file: seq<byte>, header: Header, index: seq<Entry>, name: Path)
      returns (status: int, output: Option<seq<byte>>)
    ensures Extraction(status, output) == ExtractFrom(file, header, index, name, 0)
  {
    var i := 0;
    while i < |index|
      invariant i <= |index|
      invariant ExtractFrom(file, header, index, name, 0) == ExtractFrom(file, header, index, name, i)
    {
      var (path, n) := PathRead(file, header, index[i]);
      if |path| == n && CString(path) == name {
        var content := ReadAt(file, HEADER_SIZE + index[i].dataOffset, index[i].dataSize);
        if |content| != index[i].dataSize { return -7, Some([]); }
        return 0, Some(content);
      }
      i := i + 1;
    }
    return -6, None;
  }

  /** paf_extract_file. */
  method ExtractFile(file: seq<byte>, name: Path) returns (status: int, output: Option<seq<byte>>)
    ensures Extraction(status, output) == Extracting(file, name)
  {
    var found := FileExists(file, name);
    if !found { return -4, None; }
    var header := ParseHeader(file).value;
    var index := ReadIndex(file, header).value;
    status, output := ScanIndex(file, header, index, name);
  }

  // ---- Reading undoes writing ----

  /** Paths a C string and a 1024-byte buffer can hold. */
  ghost predicate PathsFit(items: seq<Item>) {
    forall k :: 0 <= k < |items| ==> |items[k].path| < 1024 && 0 !in items[k].path
  }

  /** An archive lists its members in order, with their paths, sizes, data offsets and digests. */
  lemma ListingOfArchive(f: seq<byte>, h: Header, items: seq<Item>)
    requires IsArchive(f, h, items) && PathsFit(items)
    ensures Listing(f).Some? && |Listing(f).value| == |items|
    ensures forall k :: 0 <= k < |items| ==>
                          Listing(f).value[k]
                          == Listed(items[k].path, Trunc32(items[k].size), Trunc32(|Data(items[..k])|), items[k].digest)
  {
    forall k | 0 <= k < |items|
      ensures ListEntry(f, h, Entries(items)[k])
           == Listed(items[k].path, Trunc32(items[k].size), Trunc32(|Data(items[..k])|), items[k].digest)
    {
      ArchiveMember(f, h, items, k);
    }
  }

  /** The n bytes at pos are d. */
  predicate BytesAt(f: seq<byte>, pos: nat, n: nat, d: seq<byte>) {
    pos + n <= |f| && f[pos..pos + n] == d
  }

  lemma {:induction false} MemberBytes(f: seq<byte>, h: Header, items: seq<Item>, k: nat)
    requires IsArchive(f, h, items) && k < |items|
    ensures |Data(items[..k])| + |items[k].stored| <= |Data(items)|
    ensures BytesAt(f, 32 + |Data(items[..k])|, |items[k].stored|, items[k].stored)
  {
    EntryAt(items, k);
    Placed(items, k);
    var at := |Data(items[..k])|;
    SliceOfSlice(f, 32, 32 + |Data(items)|, at, at + |items[k].stored|);
  }

  /** The listing says where the bytes of each member are, as long as the positions fit its 32-bit fields. */
  lemma {:induction false} ListedBytes(f: seq<byte>, h: Header, items: seq<Item>, k: nat)
    requires IsArchive(f, h, items) && PathsFit(items) && k < |items| && items[k].size == |items[k].stored|
    requires |Data(items)| < U32_LIMIT
    ensures Listing(f).Some? && k < |Listing(f).value| && Listing(f).value[k].path == items[k].path
    ensures BytesAt(f, 32 + Listing(f).value[k].offset, Listing(f).value[k].size, items[k].stored)
  {
    ListingOfArchive(f, h, items);
    MemberBytes(f, h, items, k);
    NotCut(Listing(f).value[k], f, |Data(items[..k])|, items[k].stored);
  }

  lemma NotCut(e: Listed, f: seq<byte>, at: nat, d: seq<byte>)
    requires e.offset == Trunc32(at) && e.size == Trunc32(|d|) && at + |d| < U32_LIMIT && BytesAt(f, 32 + at, |d|, d)
    ensures BytesAt(f, 32 + e.offset, e.size, d)
  {
    Untruncated(at);
    Untruncated(|d|);
  }

  /** What the readers get for entry k: the whole path of member k, and its bytes. */
  lemma {:induction false} MemberReads(f: seq<byte>, h: Header, items: seq<Item>, k: nat)
    requires IsArchive(f, h, items) && PathsFit(items) && k < |items|
    ensures var e := Entries(items)[k];
            && PathRead(f, h, e) == (items[k].path, |items[k].path|) && CString(items[k].path) == items[k].path
            && e.dataSize == items[k].size && e.flags == items[k].flags && e.digest == items[k].digest
            && ReadAt(f, HEADER_SIZE + e.dataOffset, |items[k].stored|) == items[k].stored
  {
    ArchiveMember(f, h, items, k);
  }

  lemma {:induction false} ExtractFindsItem(f: seq<byte>, h: Header, items: seq<Item>, k: nat, i: nat)
    requires IsArchive(f, h, items) && PathsFit(items) && i <= k < |items|
    requires forall j :: 0 <= j < k ==> items[j].path != items[k].path
    requires items[k].size == |items[k].stored|
    ensures ExtractFrom(f, h, Entries(items), items[k].path, i) == Extraction(0, Some(items[k].stored))
    decreases k - i
  {
    MemberReads(f, h, items, i);
    if i < k {
      ExtractFindsItem(f, h, items, k, i + 1);
    }
  }

  /** Extracting a member by its path gives its bytes; a path no member has is refused. */
  lemma ExtractionOfArchive(f: seq<byte>, h: Header, items: seq<Item>, name: Path)
    requires IsArchive(f, h, items) && PathsFit(items)
    requires forall k :: 0 <= k < |items| ==> items[k].size == |items[k].stored|
    requires forall j, k :: 0 <= j < k < |items| ==> items[j].path != items[k].path
    ensures forall k :: 0 <= k < |items| && items[k].path == name ==>
                          Extracting(f, name) == Extraction(0, Some(items[k].stored))
    ensures (forall k :: 0 <= k < |items| ==> items[k].path != name) ==> Extracting(f, name) == Extraction(-4, None)
  {
    ListingOfArchive(f, h, items);
    forall k | 0 <= k < |items| && items[k].path == name
      ensures Extracting(f, name) == Extraction(0, Some(items[k].stored))
    {
      assert Listing(f).value[k].path == name;
      ExtractFindsItem(f, h, items, k, 0);
    }
  }
}
