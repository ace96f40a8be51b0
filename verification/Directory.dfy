/** A directory tree as a flat map from relative path to contents. */
module Directory {
  import opened Bytes
  import opened ArchiveFormat

  type Dir = map<Path, seq<byte>>

  /** A target directory and the number of entries that failed. */
  datatype Outcome = Outcome(dir: Dir, errors: nat)

  function Lookup(d: Dir, p: Path): Option<seq<byte>> {
    if p in d then Some(d[p]) else None
  }

  /** The length of a full path buffer in C. */
  const PATH_BUFFER: nat := 1024

  /** base, a slash, the path and the final NUL do not fit the buffer. */
  predicate TooLong(base: nat, p: Path) {
    base + 1 + |p| >= PATH_BUFFER
  }

  lemma SameDir(a: Dir, b: Dir)
    requires forall p :: Lookup(a, p) == Lookup(b, p)
    ensures a == b
  {
    forall p ensures p in a <==> p in b {
      assert Lookup(a, p) == Lookup(b, p);
    }
    forall p | p in a ensures a[p] == b[p] {
      assert Lookup(a, p) == Lookup(b, p);
    }
  }

  /** A directory whose files can be changed one at a time. */
  class Folder {
    var files: Dir

    constructor (files: Dir)
      ensures this.files == files
    {
      this.files := files;
    }
  }
}
