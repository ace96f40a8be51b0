/** Counting: a digest of 32 bytes cannot tell all files apart, whatever function computes it. */
module Collisions {
  import opened Bytes
  import opened Hashing

  ghost function Image<A(!new), B(!new)>(f: A -> B, s: set<A>): set<B> {
    set x | x in s :: f(x)
  }

  ghost predicate InjectiveOn<A(!new), B>(f: A -> B, s: set<A>) {
    forall x, y :: x in s && y in s && f(x) == f(y) ==> x == y
  }

  lemma {:induction false} ImageSize<A(!new), B(!new)>(f: A -> B, s: set<A>)
    requires InjectiveOn(f, s)
    ensures |Image(f, s)| == |s|
  {
    if s != {} {
      var x :| x in s;
      var rest := s - {x};
      ImageSize(f, rest);
      assert Image(f, s) == Image(f, rest) + {f(x)};
      assert f(x) !in Image(f, rest);
    }
  }

  lemma Subset<T>(a: set<T>, b: set<T>)
    requires a <= b
    ensures |a| <= |b|
  {
    assert b == a + (b - a);
  }

  /** More arguments than values leave two arguments with one value. */
  lemma Pigeonhole<A(!new), B(!new)>(f: A -> B, s: set<A>, values: set<B>) returns (x: A, y: A)
    requires (forall a :: a in s ==> f(a) in values) && |s| > |values|
    ensures x in s && y in s && x != y && f(x) == f(y)
  {
    if InjectiveOn(f, s) {
      ImageSize(f, s);
      Subset(Image(f, s), values);
    }
    x, y :| x in s && y in s && x != y && f(x) == f(y);
  }

  // ---- More files than digests ----

  function Prepend(b: byte): seq<byte> -> seq<byte> {
    (t: seq<byte>) => [b] + t
  }

  /** All byte strings of length n. */
  ghost function Strings(n: nat): set<seq<byte>> {
    if n == 0 then {[]} else set b: byte, t | t in Strings(n - 1) :: Prepend(b)(t)
  }

  lemma {:induction false} StringsAre(n: nat, t: seq<byte>)
    ensures t in Strings(n) <==> |t| == n
  {
    if n > 0 {
      if |t| == n {
        StringsAre(n - 1, t[1..]);
        assert Prepend(t[0])(t[1..]) == t;
      }
      if t in Strings(n) {
        var b: byte, u :| u in Strings(n - 1) && t == Prepend(b)(u);
        StringsAre(n - 1, u);
      }
    }
  }

  lemma PrependInjective(b: byte, s: set<seq<byte>>)
    ensures InjectiveOn(Prepend(b), s)
  {
    forall x, y | x in s && y in s && Prepend(b)(x) == Prepend(b)(y) ensures x == y {
      assert Prepend(b)(x)[1..] == x && Prepend(b)(y)[1..] == y;
    }
  }

  /** A set that holds the values of an injective function on another one, and one more value, is larger. */
  lemma OneMore<A(!new), B(!new)>(f: A -> B, s: set<A>, t: set<B>, other: B)
    requires InjectiveOn(f, s) && other in t && forall x :: x in s ==> f(x) in t && f(x) != other
    ensures |s| < |t|
  {
    ImageSize(f, s);
    Subset(Image(f, s) + {other}, t);
  }

  /** There are more strings of one more byte: those that start with 0 are as many, and there are others. */
  lemma {:induction false} MoreStrings(n: nat)
    ensures |Strings(n)| < |Strings(n + 1)|
  {
    var other := Prepend(1)(Zeros(n));
    forall t | t in Strings(n) ensures Prepend(0)(t) in Strings(n + 1) && Prepend(0)(t) != other {
      StringsAre(n, t);
      StringsAre(n + 1, Prepend(0)(t));
      assert Prepend(0)(t)[0] == 0 && other[0] == 1;
    }
    StringsAre(n + 1, other);
    PrependInjective(0, Strings(n));
    OneMore(Prepend(0), Strings(n), Strings(n + 1), other);
  }

  /** Digests of n bytes do not tell the files of n + 1 bytes apart. */
  lemma {:induction false} CollisionAt(digest: seq<byte> -> seq<byte>, n: nat) returns (x: seq<byte>, y: seq<byte>)
    requires forall t :: |digest(t)| == n
    ensures |x| == |y| == n + 1 && x != y && digest(x) == digest(y)
  {
    MoreStrings(n);
    forall t | t in Strings(n + 1) ensures digest(t) in Strings(n) {
      StringsAre(n, digest(t));
    }
    x, y := Pigeonhole(digest, Strings(n + 1), Strings(n));
    StringsAre(n + 1, x);
    StringsAre(n + 1, y);
  }

  /** For every compression function two different files of 33 bytes have the same digest. */
  lemma CollisionExists(step: Compression) returns (x: seq<byte>, y: seq<byte>)
    ensures |x| == |y| == 33 && x != y && DigestOf(step)(x) == DigestOf(step)(y)
  {
    x, y := CollisionAt(DigestOf(step), 32);
  }
}
