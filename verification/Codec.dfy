/** Printing and parsing lists of records, given a printer and a parser for one record. */
module Codec {
  import opened Bytes
  import opened Seqs

  datatype Parsed<+I> = Malformed | Parsed(item: I, next: nat)

  function PrintMany<I>(print_: I -> seq<byte>, items: seq<I>): seq<byte> {
    if items == [] then [] else print_(items[0]) + PrintMany(print_, items[1..])
  }

  /** Up to count records from pos, stopping at the first malformed one. */
  function ParseMany<I>(parse: nat -> Parsed<I>, pos: nat, count: nat): (items: seq<I>)
    ensures |items| <= count
    decreases count
  {
    if count == 0 || parse(pos).Malformed? then []
    else [parse(pos).item] + ParseMany(parse, parse(pos).next, count - 1)
  }

  /** What parse finds at a position is a well-formed record whose printed form stands there. */
  ghost predicate Sound<I>(s: seq<byte>, ok: I -> bool, print_: I -> seq<byte>, parse: nat -> Parsed<I>) {
    forall p: nat :: parse(p).Parsed? ==>
                       p <= parse(p).next <= |s| && ok(parse(p).item) && s[p..parse(p).next] == print_(parse(p).item)
  }

  ghost predicate PrintedHere<I>(s: seq<byte>, print_: I -> seq<byte>, p: nat, i: I) {
    p + |print_(i)| <= |s| && s[p..p + |print_(i)|] == print_(i)
  }

  /** parse finds every well-formed record that stands printed at a position. */
  ghost predicate Complete<I(!new)>(s: seq<byte>, ok: I -> bool, print_: I -> seq<byte>, parse: nat -> Parsed<I>) {
    forall p: nat, i :: ok(i) && PrintedHere(s, print_, p, i) ==> parse(p) == Parsed(i, p + |print_(i)|)
  }

  lemma {:induction false} PrintManyAppend<I>(print_: I -> seq<byte>, a: seq<I>, b: seq<I>)
    ensures PrintMany(print_, a + b) == PrintMany(print_, a) + PrintMany(print_, b)
  {
    if a == [] {
      assert a + b == b;
    } else {
      HeadOfAppend(a, b);
      PrintManyAppend(print_, a[1..], b);
      Assoc(print_(a[0]), PrintMany(print_, a[1..]), PrintMany(print_, b));
    }
  }

  lemma {:induction false} PrintedFront<I>(s: seq<byte>, print_: I -> seq<byte>, p: nat, i: I, next: nat, rest: seq<I>)
    requires p <= next <= |s| && s[p..next] == print_(i)
    ensures PrintMany(print_, rest) <= s[next..] <==> PrintMany(print_, [i] + rest) <= s[p..]
  {
    assert ([i] + rest)[1..] == rest;
    DropTake(s, p, next - p);
    DropDrop(s, p, next - p);
    PrefixParts(print_(i), PrintMany(print_, rest), s[p..]);
  }

  /** The printer undoes the parser: the bytes at pos start with the printed form of what was parsed. */
  lemma {:induction false} PrintOfParse<I>(s: seq<byte>, ok: I -> bool, print_: I -> seq<byte>, parse: nat -> Parsed<I>,
                                           pos: nat, count: nat)
    requires Sound(s, ok, print_, parse) && pos <= |s|
    ensures PrintMany(print_, ParseMany(parse, pos, count)) <= s[pos..]
    ensures forall k :: 0 <= k < |ParseMany(parse, pos, count)| ==> ok(ParseMany(parse, pos, count)[k])
    decreases count
  {
    if count > 0 && parse(pos).Parsed? {
      var Parsed(i, next) := parse(pos);
      PrintOfParse(s, ok, print_, parse, next, count - 1);
      PrintedFront(s, print_, pos, i, next, ParseMany(parse, next, count - 1));
    }
  }

  /** The parser undoes the printer. */
  lemma {:induction false} ParseOfPrint<I(!new)>(s: seq<byte>, ok: I -> bool, print_: I -> seq<byte>,
                                                 parse: nat -> Parsed<I>, pos: nat, items: seq<I>)
    requires Complete(s, ok, print_, parse) && pos <= |s|
    requires forall k :: 0 <= k < |items| ==> ok(items[k])
    requires PrintMany(print_, items) <= s[pos..]
    ensures ParseMany(parse, pos, |items|) == items
    decreases |items|
  {
    if items != [] {
      var i, rest := items[0], items[1..];
      assert items == [i] + rest;
      PrefixParts(print_(i), PrintMany(print_, rest), s[pos..]);
      DropTake(s, pos, |print_(i)|);
      assert PrintedHere(s, print_, pos, i);
      PrintedFront(s, print_, pos, i, pos + |print_(i)|, rest);
      ParseOfPrint(s, ok, print_, parse, pos + |print_(i)|, rest);
    }
  }
}
