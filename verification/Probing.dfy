/** Linear probing over a cyclic table: the theory behind both open-addressing tables of libpaf. */
module Probing {
  import opened Bytes

  /** The slot d steps after home, wrapping at the end of the table. */
  function At(cap: nat, home: nat, d: nat): (i: nat)
    requires home < cap && d <= cap
    ensures i < cap
  {
    if home + d < cap then home + d else home + d - cap
  }

  /** How many steps lead from home to slot i. */
  function Dist(cap: nat, home: nat, i: nat): (d: nat)
    requires home < cap && i < cap
    ensures d < cap && At(cap, home, d) == i
    ensures forall e :: 0 <= e < cap && At(cap, home, e) == i ==> e == d
  {
    if home <= i then i - home else i + cap - home
  }

  /** The first d slots from home are all taken, by keys other than k. */
  ghost predicate Clear<K>(t: seq<Option<K>>, home: nat, d: nat, k: K)
    requires home < |t| && d <= |t|
  {
    forall j :: 0 <= j < d ==> t[At(|t|, home, j)].Some? && t[At(|t|, home, j)].value != k
  }

  /** No gap, and no earlier copy of the key, between a key's home slot and the slot that holds it. */
  ghost predicate WellProbed<K>(t: seq<Option<K>>, home: K -> nat) {
    forall i :: 0 <= i < |t| && t[i].Some? ==>
                  home(t[i].value) < |t| &&
                  Clear(t, home(t[i].value), Dist(|t|, home(t[i].value), i), t[i].value)
  }

  ghost function Keys<K(!new)>(t: seq<Option<K>>): set<K> {
    set i | 0 <= i < |t| && t[i].Some? :: t[i].value
  }

  lemma OneSlotPerKey<K>(t: seq<Option<K>>, home: K -> nat, i: nat, j: nat)
    requires WellProbed(t, home) && i < |t| && j < |t|
    requires t[i].Some? && t[j].Some?
    ensures t[i] == t[j] ==> i == j
  {
    var hi, hj := home(t[i].value), home(t[j].value);
    assert Clear(t, hi, Dist(|t|, hi, i), t[i].value) && Clear(t, hj, Dist(|t|, hj, j), t[j].value);
  }

  /** A probe that reaches an empty slot has seen every slot its key could be in. */
  lemma StopMeansAbsent<K(!new)>(t: seq<Option<K>>, home: K -> nat, d: nat, k: K)
    requires WellProbed(t, home) && home(k) < |t| && d < |t|
    requires Clear(t, home(k), d, k) && t[At(|t|, home(k), d)].None?
    ensures k !in Keys(t)
  {
    forall i | 0 <= i < |t| && t[i].Some?
      ensures t[i].value != k
    {
      var di := Dist(|t|, home(k), i);
      assert di < d ==> t[At(|t|, home(k), di)].value != k;
      var key := t[i].value;
      assert Clear(t, home(key), Dist(|t|, home(key), i), key);
    }
  }

  /** While some slot is empty a probe ends before it has gone round. */
  lemma ProbeBounded<K>(t: seq<Option<K>>, home: nat, d: nat, k: K, free: nat)
    requires home < |t| && d <= |t| && free < |t|
    requires t[free].None? && Clear(t, home, d, k)
    ensures d <= Dist(|t|, home, free)
  {
    assert At(|t|, home, Dist(|t|, home, free)) == free;
  }

  /** If a key is in the table a probe ends at its slot at the latest. */
  lemma ProbeBoundedByKey<K>(t: seq<Option<K>>, home: nat, d: nat, k: K, i: nat)
    requires home < |t| && d <= |t| && i < |t|
    requires t[i] == Some(k) && Clear(t, home, d, k)
    ensures d <= Dist(|t|, home, i)
  {
    assert At(|t|, home, Dist(|t|, home, i)) == i;
  }

  /** Filling the empty slot where the probe for k stopped keeps the table well probed. */
  lemma PutKeepsProbes<K(!new)>(t: seq<Option<K>>, home: K -> nat, d: nat, k: K)
    requires WellProbed(t, home) && home(k) < |t| && d < |t|
    requires Clear(t, home(k), d, k) && t[At(|t|, home(k), d)].None?
    ensures WellProbed(t[At(|t|, home(k), d) := Some(k)], home)
    ensures Keys(t[At(|t|, home(k), d) := Some(k)]) == Keys(t) + {k}
  {
    StopMeansAbsent(t, home, d, k);
    var p := At(|t|, home(k), d);
    var t' := t[p := Some(k)];
    forall i | 0 <= i < |t'| && t'[i].Some?
      ensures home(t'[i].value) < |t'|
      ensures Clear(t', home(t'[i].value), Dist(|t'|, home(t'[i].value), i), t'[i].value)
    {
      if i != p {
        var h, key := home(t[i].value), t[i].value;
        assert Clear(t, h, Dist(|t|, h, i), key);
        assert key in Keys(t);
      } else {
        assert Dist(|t'|, home(k), p) == d;
      }
    }
    assert t'[p] == Some(k);
    forall key | key in Keys(t) ensures key in Keys(t') {
      var i :| 0 <= i < |t| && t[i].Some? && t[i].value == key;
      assert t'[i] == t[i];
    }
  }

  lemma {:induction false} FullTableKeys<K(!new)>(t: seq<Option<K>>)
    requires forall i :: 0 <= i < |t| ==> t[i].Some?
    requires forall i, j :: 0 <= i < j < |t| ==> t[i] != t[j]
    ensures |Keys(t)| == |t|
  {
    if t != [] {
      var n := |t| - 1;
      var front := t[..n];
      FullTableKeys(front);
      forall key | key in Keys(t) ensures key in Keys(front) + {t[n].value} {
        var i :| 0 <= i < |t| && t[i].Some? && t[i].value == key;
        assert i < n ==> front[i] == t[i];
      }
      forall key | key in Keys(front) ensures key in Keys(t) {
        var i :| 0 <= i < n && front[i].value == key;
        assert t[i] == front[i];
      }
      assert t[n].value in Keys(t);
      assert Keys(t) == Keys(front) + {t[n].value};
      assert forall i :: 0 <= i < n ==> front[i] == t[i] != t[n];
      assert t[n].value !in Keys(front);
    }
  }

  /** Fewer keys than slots leaves an empty slot. */
  lemma FreeSlotExists<K(!new)>(t: seq<Option<K>>, home: K -> nat) returns (free: nat)
    requires WellProbed(t, home) && |Keys(t)| < |t|
    ensures free < |t| && t[free].None?
  {
    if forall i :: 0 <= i < |t| ==> t[i].Some? {
      forall i, j | 0 <= i < j < |t| ensures t[i] != t[j] {
        OneSlotPerKey(t, home, i, j);
      }
      FullTableKeys(t);
    }
    free :| 0 <= free < |t| && t[free].None?;
  }
}
