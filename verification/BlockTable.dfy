/** The hash-to-offset table that indexes the 4 KB blocks of the old file (paf_binary_delta.c). */
module BlockTable {
  import opened Bytes
  import opened Probing

  const HT_CAP: nat := 0x10_0000

  datatype Slot = Slot(hash: nat, offset: nat, used: bool)

  /** hash & (HT_CAP - 1), HT_CAP being a power of two. */
  function Home(hash: nat): (i: nat)
    ensures i < HT_CAP
  {
    hash % HT_CAP
  }

  ghost function KeyView(s: seq<Slot>): (t: seq<Option<nat>>)
    ensures |t| == |s|
    ensures forall i :: 0 <= i < |s| ==> t[i] == if s[i].used then Some(s[i].hash) else None
  {
    seq(|s|, i requires 0 <= i < |s| => if s[i].used then Some(s[i].hash) else None)
  }

  /** The slots hold exactly the finite map m, each key reachable by probing from its home slot. */
  ghost predicate Represents(s: seq<Slot>, m: map<nat, nat>) {
    && |s| == HT_CAP
    && WellProbed(KeyView(s), Home)
    && m.Keys == Keys(KeyView(s))
    && forall i :: 0 <= i < |s| && s[i].used ==> s[i].hash in m && m[s[i].hash] == s[i].offset
  }

  /** A probe for hash has somewhere to stop: at the hash itself or at an empty slot. */
  ghost predicate ProbeEnds(m: map<nat, nat>, hash: nat) {
    hash in m || |m| < HT_CAP
  }

  lemma StopExists(s: seq<Slot>, m: map<nat, nat>, hash: nat) returns (stop: nat)
    requires Represents(s, m) && ProbeEnds(m, hash)
    ensures stop < HT_CAP && (!s[stop].used || s[stop].hash == hash)
  {
    var t := KeyView(s);
    if hash in m {
      stop :| 0 <= stop < |t| && t[stop].Some? && t[stop].value == hash;
    } else {
      assert |m| == |m.Keys|;
      stop := FreeSlotExists(t, Home);
    }
  }

  /** One more step of a probe stays short of any slot where it would stop. */
  lemma ProbeAdvances(s: seq<Slot>, hash: nat, d: nat, stop: nat)
    requires |s| == HT_CAP && stop < HT_CAP && d < HT_CAP
    requires !s[stop].used || s[stop].hash == hash
    requires Clear(KeyView(s), Home(hash), d, hash)
    requires var x := s[At(HT_CAP, Home(hash), d)]; x.used && x.hash != hash
    ensures Clear(KeyView(s), Home(hash), d + 1, hash) && d + 1 < HT_CAP
    ensures (At(HT_CAP, Home(hash), d) + 1) % HT_CAP == At(HT_CAP, Home(hash), d + 1)
  {
    var t := KeyView(s);
    assert Clear(t, Home(hash), d + 1, hash);
    if t[stop].None? {
      ProbeBounded(t, Home(hash), d + 1, hash, stop);
    } else {
      ProbeBoundedByKey(t, Home(hash), d + 1, hash, stop);
    }
  }

  lemma WriteAtStop(s: seq<Slot>, m: map<nat, nat>, hash: nat, offset: nat, d: nat)
    requires Represents(s, m) && d < HT_CAP && Clear(KeyView(s), Home(hash), d, hash)
    requires var x := s[At(HT_CAP, Home(hash), d)]; !x.used || x.hash == hash
    ensures Represents(s[At(HT_CAP, Home(hash), d) := Slot(hash, offset, true)], m[hash := offset])
  {
    var t, p := KeyView(s), At(HT_CAP, Home(hash), d);
    var s' := s[p := Slot(hash, offset, true)];
    assert KeyView(s') == t[p := Some(hash)];
    if s[p].used {
      assert t[p := Some(hash)] == t;
      assert hash in Keys(t);
      forall i | 0 <= i < |s'| && s'[i].used
        ensures s'[i].hash in m[hash := offset] && m[hash := offset][s'[i].hash] == s'[i].offset
      {
        OneSlotPerKey(t, Home, i, p);
      }
    } else {
      PutKeepsProbes(t, Home, d, hash);
      StopMeansAbsent(t, Home, d, hash);
      forall i | 0 <= i < |s'| && s'[i].used && i != p
        ensures s'[i].hash != hash
      {
        assert t[i] == Some(s[i].hash);
        assert s[i].hash in Keys(t);
      }
    }
  }

  lemma FoundAtStop(s: seq<Slot>, m: map<nat, nat>, hash: nat, d: nat)
    requires Represents(s, m) && d < HT_CAP && Clear(KeyView(s), Home(hash), d, hash)
    ensures var x := s[At(HT_CAP, Home(hash), d)];
            (x.used && x.hash == hash ==> hash in m && m[hash] == x.offset) && (!x.used ==> hash !in m)
  {
    if !s[At(HT_CAP, Home(hash), d)].used {
      StopMeansAbsent(KeyView(s), Home, d, hash);
    }
  }

  class Table {
    const slots: array<Slot>
    ghost var contents: map<nat, nat>

    ghost predicate Valid()
      reads this, slots
    {
      slots.Length == HT_CAP && Represents(slots[..], contents)
    }

    /** calloc of HT_CAP slots: every slot unused. */
    constructor ()
      ensures Valid() && contents == map[] && fresh(slots)
    {
      slots := new Slot[HT_CAP](_ => Slot(0, 0, false));
      contents := map[];
      new;
      assert Keys(KeyView(slots[..])) == {};
    }

    method Insert(hash: nat, offset: nat)
      requires Valid() && ProbeEnds(contents, hash)
      modifies this, slots
      ensures Valid() && contents == old(contents)[hash := offset]
    {
      ghost var s := slots[..];
      ghost var stop := StopExists(s, contents, hash);
      ghost var d := 0;
      var idx := Home(hash);
      while slots[idx].used && slots[idx].hash != hash
        modifies {}
        invariant d < HT_CAP && idx == At(HT_CAP, Home(hash), d)
        invariant slots[..] == s && Clear(KeyView(s), Home(hash), d, hash)
        decreases HT_CAP - d
      {
        ProbeAdvances(s, hash, d, stop);
        idx, d := (idx + 1) % HT_CAP, d + 1;
      }
      WriteAtStop(s, contents, hash, offset, d);
      slots[idx] := Slot(hash, offset, true);
      assert slots[..] == s[idx := Slot(hash, offset, true)];
      contents := contents[hash := offset];
    }

    method Find(hash: nat) returns (found: bool, offset: nat)
      requires Valid() && ProbeEnds(contents, hash)
      ensures found <==> hash in contents
      ensures found ==> offset == contents[hash]
    {
      ghost var s := slots[..];
      ghost var stop := StopExists(s, contents, hash);
      ghost var d := 0;
      var idx := Home(hash);
      while slots[idx].used
        modifies {}
        invariant d < HT_CAP && idx == At(HT_CAP, Home(hash), d)
        invariant slots[..] == s && Clear(KeyView(s), Home(hash), d, hash)
        decreases HT_CAP - d
      {
        FoundAtStop(s, contents, hash, d);
        if slots[idx].hash == hash {
          return true, slots[idx].offset;
        }
        ProbeAdvances(s, hash, d, stop);
        idx, d := (idx + 1) % HT_CAP, d + 1;
      }
      FoundAtStop(s, contents, hash, d);
      return false, 0;
    }
  }
}
