/** The static range split over worker threads and why the schedule does not matter
    (paf_parallel.h, run_extract_parallel in libpaf_core.c, phase3_write_parallel in paf_extractor_gpu.c). */
module Parallel {
  import opened Bytes
  import opened Hashing

  // ---- The ranges ----

  /** t * n / nt, in 64-bit arithmetic that cannot overflow for 32-bit n. */
  function RangeStart(n: nat, nt: nat, t: nat): nat
    requires nt > 0
  {
    t * n / nt
  }

  function RangeEnd(n: nat, nt: nat, t: nat): nat
    requires t < nt
  {
    if t == nt - 1 then n else (t + 1) * n / nt
  }

  lemma DivideMonotone(a: nat, b: nat, d: nat)
    requires a <= b && d > 0
    ensures a / d <= b / d
  {
    assert d * (a / d) <= a && b < d * (b / d + 1);
    TimesMonotone(b / d + 1, a / d, d);
  }

  lemma DivideExact(n: nat, d: nat)
    requires d > 0
    ensures d * n / d == n
  {
    assert d * (n + 1) == d * n + d;
    QuotientIs(d * n, d, n);
  }

  lemma DivideOneMore(a: nat, d: nat)
    requires d > 0
    ensures (a + d) / d == a / d + 1
  {
    var q := a / d;
    assert d * q <= a < d * (q + 1);
    assert d * (q + 1) == d * q + d && d * (q + 2) == d * (q + 1) + d;
    QuotientIs(a + d, d, q + 1);
  }

  /** Each range starts where the one before ends; the last one ends at n. */
  lemma RangesFollow(n: nat, nt: nat, t: nat)
    requires t < nt
    ensures RangeStart(n, nt, 0) == 0
    ensures RangeEnd(n, nt, t) == RangeStart(n, nt, t + 1)
    ensures RangeStart(n, nt, t) <= RangeEnd(n, nt, t) <= n
  {
    DivideExact(n, nt);
    TimesMonotone(t, t + 1, n);
    TimesMonotone(t + 1, nt, n);
    DivideMonotone(t * n, (t + 1) * n, nt);
    DivideMonotone((t + 1) * n, nt * n, nt);
  }

  /** With at most as many workers as items no worker is idle. */
  lemma NoIdleWorker(n: nat, nt: nat, t: nat)
    requires t < nt <= n
    ensures RangeStart(n, nt, t) < RangeEnd(n, nt, t)
  {
    RangesFollow(n, nt, t);
    assert (t + 1) * n == t * n + n;
    DivideMonotone(t * n + nt, (t + 1) * n, nt);
    DivideOneMore(t * n, nt);
  }

  lemma {:induction false} RangesApart(n: nat, nt: nat, s: nat, t: nat)
    requires s < t < nt
    ensures RangeEnd(n, nt, s) <= RangeStart(n, nt, t)
    decreases t - s
  {
    RangesFollow(n, nt, s);
    if s + 1 < t {
      RangesFollow(n, nt, s + 1);
      RangesApart(n, nt, s + 1, t);
    }
  }

  ghost predicate Owns(n: nat, nt: nat, t: nat, i: nat)
    requires nt > 0
  {
    t < nt && RangeStart(n, nt, t) <= i < RangeEnd(n, nt, t)
  }

  lemma {:induction false} OwnerUpTo(n: nat, nt: nat, i: nat, t: nat) returns (w: nat)
    requires t < nt && i < RangeEnd(n, nt, t)
    ensures Owns(n, nt, w, i)
  {
    RangesFollow(n, nt, t);
    if RangeStart(n, nt, t) <= i {
      w := t;
    } else {
      RangesFollow(n, nt, t - 1);
      w := OwnerUpTo(n, nt, i, t - 1);
    }
  }

  /** Every index below n belongs to exactly one worker. */
  lemma OneOwner(n: nat, nt: nat, i: nat) returns (w: nat)
    requires nt > 0 && i < n
    ensures Owns(n, nt, w, i)
    ensures forall t :: Owns(n, nt, t, i) ==> t == w
  {
    w := OwnerUpTo(n, nt, i, nt - 1);
    forall t: nat | Owns(n, nt, t, i) ensures t == w {
      if t < w {
        RangesApart(n, nt, t, w);
      } else if w < t {
        RangesApart(n, nt, w, t);
      }
    }
  }

  // ---- Jobs: each index writes at most one key ----

  datatype Job<K, V> = Nothing | Put(key: K, value: V)

  function Get<K, V>(m: map<K, V>, k: K): Option<V> {
    if k in m then Some(m[k]) else None
  }

  function Perform<K, V>(m: map<K, V>, j: Job<K, V>): map<K, V> {
    if j.Put? then m[j.key := j.value] else m
  }

  /** The sequential loop. */
  function InOrder<K, V>(m: map<K, V>, jobs: seq<Job<K, V>>): map<K, V> {
    if jobs == [] then m else Perform(InOrder(m, jobs[..|jobs| - 1]), jobs[|jobs| - 1])
  }

  ghost predicate DistinctKeys<K, V>(jobs: seq<Job<K, V>>) {
    forall i, j :: 0 <= i < j < |jobs| && jobs[i].Put? && jobs[j].Put? ==> jobs[i].key != jobs[j].key
  }

  ghost predicate Writes<K, V>(jobs: seq<Job<K, V>>, i: nat, k: K) {
    i < |jobs| && jobs[i].Put? && jobs[i].key == k
  }

  /** The last of the jobs from lo to hi that writes k. */
  ghost function LastIn<K, V>(jobs: seq<Job<K, V>>, lo: nat, hi: nat, k: K): Option<V> {
    if hi <= lo || hi > |jobs| then None
    else if Writes(jobs, hi - 1, k) then Some(jobs[hi - 1].value)
    else LastIn(jobs, lo, hi - 1, k)
  }

  lemma {:induction false} LastSplit<K, V>(jobs: seq<Job<K, V>>, lo: nat, mid: nat, hi: nat, k: K)
    requires lo <= mid <= hi <= |jobs|
    ensures LastIn(jobs, lo, hi, k)
         == if LastIn(jobs, mid, hi, k).Some? then LastIn(jobs, mid, hi, k) else LastIn(jobs, lo, mid, k)
    decreases hi
  {
    if mid < hi && !Writes(jobs, hi - 1, k) {
      LastSplit(jobs, lo, mid, hi - 1, k);
    }
  }

  lemma {:induction false} LastFound<K, V>(jobs: seq<Job<K, V>>, lo: nat, hi: nat, k: K) returns (i: nat)
    requires LastIn(jobs, lo, hi, k).Some?
    ensures lo <= i < hi && Writes(jobs, i, k) && LastIn(jobs, lo, hi, k) == Some(jobs[i].value)
  {
    i := hi - 1;
    if !Writes(jobs, i, k) {
      i := LastFound(jobs, lo, hi - 1, k);
    }
  }

  lemma {:induction false} LastNone<K, V>(jobs: seq<Job<K, V>>, lo: nat, hi: nat, k: K)
    requires forall i :: lo <= i < hi ==> !Writes(jobs, i, k)
    ensures LastIn(jobs, lo, hi, k).None?
  {
    if lo < hi <= |jobs| {
      LastNone(jobs, lo, hi - 1, k);
    }
  }

  /** The only write to a key is the last one. */
  lemma {:induction false} LastOnly<K, V>(jobs: seq<Job<K, V>>, lo: nat, hi: nat, i: nat, k: K)
    requires DistinctKeys(jobs) && lo <= i < hi <= |jobs| && Writes(jobs, i, k)
    ensures LastIn(jobs, lo, hi, k) == Some(jobs[i].value)
    decreases hi
  {
    if i < hi - 1 {
      LastOnly(jobs, lo, hi - 1, i, k);
    }
  }

  /** after is before with the jobs from lo to hi done in order: each key has its last write. */
  ghost predicate Overlaid<K(!new), V>(jobs: seq<Job<K, V>>, lo: nat, hi: nat, before: map<K, V>, after: map<K, V>) {
    forall k :: Get(after, k) == if LastIn(jobs, lo, hi, k).Some? then LastIn(jobs, lo, hi, k) else Get(before, k)
  }

  lemma SameMaps<K(!new), V>(a: map<K, V>, b: map<K, V>)
    requires forall k :: Get(a, k) == Get(b, k)
    ensures a == b
  {
    forall k ensures (k in a <==> k in b) && (k in a ==> a[k] == b[k]) {
      assert Get(a, k) == Get(b, k);
    }
  }

  lemma OverlaidOneMore<K(!new), V>(jobs: seq<Job<K, V>>, lo: nat, hi: nat, before: map<K, V>, after: map<K, V>)
    requires Overlaid(jobs, lo, hi, before, after) && lo <= hi < |jobs|
    ensures Overlaid(jobs, lo, hi + 1, before, Perform(after, jobs[hi]))
  {
    var after' := Perform(after, jobs[hi]);
    forall k
      ensures Get(after', k)
           == if LastIn(jobs, lo, hi + 1, k).Some? then LastIn(jobs, lo, hi + 1, k) else Get(before, k)
    {
      assert LastIn(jobs, lo, hi + 1, k)
          == if Writes(jobs, hi, k) then Some(jobs[hi].value) else LastIn(jobs, lo, hi, k);
    }
  }

  lemma OverlaidThen<K(!new), V>(jobs: seq<Job<K, V>>, lo: nat, mid: nat, hi: nat, a: map<K, V>, b: map<K, V>,
                                 c: map<K, V>)
    requires lo <= mid <= hi <= |jobs| && Overlaid(jobs, lo, mid, a, b) && Overlaid(jobs, mid, hi, b, c)
    ensures Overlaid(jobs, lo, hi, a, c)
  {
    forall k ensures Get(c, k) == if LastIn(jobs, lo, hi, k).Some? then LastIn(jobs, lo, hi, k) else Get(a, k) {
      LastSplit(jobs, lo, mid, hi, k);
    }
  }

  ghost function Below(n: nat): set<nat> {
    if n == 0 then {} else Below(n - 1) + {n - 1}
  }

  lemma {:induction false} BelowIs(n: nat)
    ensures |Below(n)| == n && forall i: nat :: i in Below(n) <==> i < n
  {
    if n > 0 {
      BelowIs(n - 1);
    }
  }

  lemma {:induction false} InOrderOneMore<K, V>(m0: map<K, V>, jobs: seq<Job<K, V>>, n: nat)
    requires n < |jobs|
    ensures InOrder(m0, jobs[..n + 1]) == Perform(InOrder(m0, jobs[..n]), jobs[n])
  {
    assert jobs[..n + 1][..n] == jobs[..n];
  }

  /** The sequential loop leaves the last write of each key. */
  lemma {:induction false} InOrderLast<K(!new), V>(m0: map<K, V>, jobs: seq<Job<K, V>>, n: nat)
    requires n <= |jobs|
    ensures Overlaid(jobs, 0, n, m0, InOrder(m0, jobs[..n]))
  {
    if n > 0 {
      InOrderLast(m0, jobs, n - 1);
      OverlaidOneMore(jobs, 0, n - 1, m0, InOrder(m0, jobs[..n - 1]));
      InOrderOneMore(m0, jobs, n - 1);
    }
  }

  lemma {:induction false} InOrderIs<K(!new), V>(m0: map<K, V>, jobs: seq<Job<K, V>>)
    ensures Overlaid(jobs, 0, |jobs|, m0, InOrder(m0, jobs))
  {
    InOrderLast(m0, jobs, |jobs|);
    assert jobs[..|jobs|] == jobs;
  }

  // ---- The last writes of the workers ----

  /** What worker w writes last to k. */
  ghost function LastOf<K, V>(jobs: seq<Job<K, V>>, nt: nat, w: nat, k: K): Option<V>
    requires w < nt
  {
    LastIn(jobs, RangeStart(|jobs|, nt, w), RangeEnd(|jobs|, nt, w), k)
  }

  /** All workers that write k write the same to it last. */
  ghost predicate Agree<K, V>(jobs: seq<Job<K, V>>, nt: nat, k: K) {
    forall v: nat, w: nat :: v < nt && w < nt && LastOf(jobs, nt, v, k).Some? && LastOf(jobs, nt, w, k).Some? ==>
                               LastOf(jobs, nt, v, k) == LastOf(jobs, nt, w, k)
  }

  /** Jobs with distinct keys always agree. */
  lemma DistinctAgree<K, V>(jobs: seq<Job<K, V>>, nt: nat, k: K)
    requires DistinctKeys(jobs)
    ensures Agree(jobs, nt, k)
  {
    forall v: nat, w: nat | v < nt && w < nt && LastOf(jobs, nt, v, k).Some? && LastOf(jobs, nt, w, k).Some?
      ensures LastOf(jobs, nt, v, k) == LastOf(jobs, nt, w, k)
    {
      var i := LastFound(jobs, RangeStart(|jobs|, nt, v), RangeEnd(|jobs|, nt, v), k);
      var j := LastFound(jobs, RangeStart(|jobs|, nt, w), RangeEnd(|jobs|, nt, w), k);
      assert i == j;
    }
  }

  /** The last write of all is the last write of some worker. */
  lemma {:induction false} SomeWorkersLast<K, V>(jobs: seq<Job<K, V>>, nt: nat, t: nat, k: K)
    requires t <= nt && nt > 0
    ensures var last := LastIn(jobs, 0, RangeStart(|jobs|, nt, t), k);
            if last.Some? then exists w: nat :: w < t && LastOf(jobs, nt, w, k) == last
            else forall w: nat :: w < t ==> LastOf(jobs, nt, w, k).None?
  {
    if t == 0 {
      RangesFollow(|jobs|, nt, 0);
    } else {
      SomeWorkersLast(jobs, nt, t - 1, k);
      RangesFollow(|jobs|, nt, t - 1);
      LastSplit(jobs, 0, RangeStart(|jobs|, nt, t - 1), RangeEnd(|jobs|, nt, t - 1), k);
      assert LastOf(jobs, nt, t - 1, k) == LastIn(jobs, RangeStart(|jobs|, nt, t - 1), RangeStart(|jobs|, nt, t), k);
    }
  }

  lemma {:induction false} LastOfAll<K, V>(jobs: seq<Job<K, V>>, nt: nat, k: K)
    requires nt > 0
    ensures var last := LastIn(jobs, 0, |jobs|, k);
            if last.Some? then exists w: nat :: w < nt && LastOf(jobs, nt, w, k) == last
            else forall w: nat :: w < nt ==> LastOf(jobs, nt, w, k).None?
  {
    SomeWorkersLast(jobs, nt, nt, k);
    DivideExact(|jobs|, nt);
  }

  // ---- Workers in any interleaving ----

  /** The shared output and, for each worker, the next index it will process. */
  datatype Pool<K, V> = Pool(out: map<K, V>, next: seq<nat>)

  function Starts(n: nat, nt: nat): (next: seq<nat>)
    requires nt > 0
    ensures |next| == nt && forall t :: 0 <= t < nt ==> next[t] == RangeStart(n, nt, t)
  {
    seq(nt, t requires 0 <= t < nt => RangeStart(n, nt, t))
  }

  function Launch<K, V>(m0: map<K, V>, n: nat, nt: nat): (s: Pool<K, V>)
    requires nt > 0
  {
    Pool(m0, Starts(n, nt))
  }

  /** Worker w processes its next index. */
  ghost predicate WorkerStep<K, V>(jobs: seq<Job<K, V>>, s: Pool<K, V>, s': Pool<K, V>, w: nat) {
    && w < |s.next| && s.next[w] < RangeEnd(|jobs|, |s.next|, w) && s.next[w] < |jobs|
    && s' == Pool(Perform(s.out, jobs[s.next[w]]), s.next[w := s.next[w] + 1])
  }

  ghost predicate SomeStep<K, V>(jobs: seq<Job<K, V>>, s: Pool<K, V>, s': Pool<K, V>) {
    exists w :: WorkerStep(jobs, s, s', w)
  }

  ghost predicate Schedule<K, V>(jobs: seq<Job<K, V>>, run: seq<Pool<K, V>>) {
    forall k :: 0 <= k < |run| - 1 ==> SomeStep(jobs, run[k], run[k + 1])
  }

  ghost predicate Finished<K, V>(jobs: seq<Job<K, V>>, s: Pool<K, V>) {
    forall w :: 0 <= w < |s.next| ==> s.next[w] == RangeEnd(|jobs|, |s.next|, w)
  }

  ghost predicate IsDone(n: nat, next: seq<nat>, i: nat)
    requires next != []
  {
    exists w :: 0 <= w < |next| && Owns(n, |next|, w, i) && i < next[w]
  }

  ghost function Done(n: nat, next: seq<nat>): set<nat>
    requires next != []
  {
    set i | i in Below(n) && IsDone(n, next, i)
  }

  ghost predicate InRange(n: nat, next: seq<nat>) {
    forall w :: 0 <= w < |next| ==> RangeStart(n, |next|, w) <= next[w] <= RangeEnd(n, |next|, w)
  }

  lemma DoneGrows(n: nat, next: seq<nat>, w: nat)
    requires w < |next| && InRange(n, next) && next[w] < RangeEnd(n, |next|, w)
    ensures next[w] < n && next[w] !in Done(n, next)
    ensures Done(n, next[w := next[w] + 1]) == Done(n, next) + {next[w]}
  {
    var i, next' := next[w], next[w := next[w] + 1];
    RangesFollow(n, |next|, w);
    BelowIs(n);
    var owner := OneOwner(n, |next|, i);
    assert Owns(n, |next|, w, i);
    assert IsDone(n, next', i);
    forall j | j in Done(n, next) ensures j in Done(n, next') {
      var v :| 0 <= v < |next| && Owns(n, |next|, v, j) && j < next[v];
      assert Owns(n, |next'|, v, j) && j < next'[v];
    }
    forall j | j in Done(n, next') ensures j in Done(n, next) + {i} {
      var v :| 0 <= v < |next| && Owns(n, |next|, v, j) && j < next'[v];
      assert j != i ==> j < next[v];
    }
  }

  lemma StepInRange(n: nat, next: seq<nat>, w: nat)
    requires w < |next| && InRange(n, next) && next[w] < RangeEnd(n, |next|, w)
    ensures InRange(n, next[w := next[w] + 1])
  {
  }

  lemma SameSizeSubset(a: set<nat>, b: set<nat>)
    requires a <= b
    ensures |a| <= |b| && (|a| == |b| <==> a == b)
  {
    assert b == a + (b - a);
  }

  /** Every worker is within its range, and that many distinct indices are done. */
  ghost predicate Tracks(n: nat, next: seq<nat>, count: nat) {
    next != [] && InRange(n, next) && |Done(n, next)| == count <= n
  }

  /** One more step of worker w: its index was not done, now it is, and nothing else changes. */
  lemma Advance(n: nat, next: seq<nat>, count: nat, w: nat)
    requires Tracks(n, next, count) && w < |next| && next[w] < RangeEnd(n, |next|, w)
    ensures next[w] < n && next[w] !in Done(n, next)
    ensures Done(n, next[w := next[w] + 1]) == Done(n, next) + {next[w]}
    ensures Tracks(n, next[w := next[w] + 1], count + 1)
  {
    DoneGrows(n, next, w);
    StepInRange(n, next, w);
    BelowIs(n);
    SameSizeSubset(Done(n, next) + {next[w]}, Below(n));
  }

  lemma AtLaunch(n: nat, nt: nat)
    requires nt > 0
    ensures Tracks(n, Starts(n, nt), 0)
  {
    forall i | i in Below(n) ensures !IsDone(n, Starts(n, nt), i) {
    }
    assert Done(n, Starts(n, nt)) == {};
    forall w | 0 <= w < nt ensures RangeStart(n, nt, w) <= RangeEnd(n, nt, w) {
      RangesFollow(n, nt, w);
    }
  }

  /** What worker w has written last to k so far. */
  ghost function SoFar<K, V>(jobs: seq<Job<K, V>>, next: seq<nat>, w: nat, k: K): Option<V>
    requires w < |next|
  {
    LastIn(jobs, RangeStart(|jobs|, |next|, w), next[w], k)
  }

  /** The value at k is the latest write of some worker, or the old one while no worker has written k. */
  ghost predicate Latest<K, V>(m0: map<K, V>, jobs: seq<Job<K, V>>, next: seq<nat>, out: map<K, V>, k: K) {
    if forall w: nat :: w < |next| ==> SoFar(jobs, next, w, k).None? then Get(out, k) == Get(m0, k)
    else exists w: nat :: w < |next| && SoFar(jobs, next, w, k).Some? && Get(out, k) == SoFar(jobs, next, w, k)
  }

  /** The next job of worker w makes its write the latest, and leaves other keys alone. */
  lemma LatestStep<K, V>(m0: map<K, V>, jobs: seq<Job<K, V>>, next: seq<nat>, out: map<K, V>, k: K, w: nat)
    requires Latest(m0, jobs, next, out, k) && w < |next| && InRange(|jobs|, next) && next[w] < |jobs|
    ensures Latest(m0, jobs, next[w := next[w] + 1], Perform(out, jobs[next[w]]), k)
  {
    var i, next' := next[w], next[w := next[w] + 1];
    assert forall v: nat :: v < |next| && v != w ==> SoFar(jobs, next', v, k) == SoFar(jobs, next, v, k);
    if Writes(jobs, i, k) {
      assert SoFar(jobs, next', w, k) == Some(jobs[i].value);
    } else {
      assert SoFar(jobs, next', w, k) == SoFar(jobs, next, w, k);
    }
  }

  ghost predicate AllLatest<K(!new), V>(m0: map<K, V>, jobs: seq<Job<K, V>>, next: seq<nat>, out: map<K, V>) {
    forall k :: Latest(m0, jobs, next, out, k)
  }

  lemma AllLatestStep<K(!new), V>(m0: map<K, V>, jobs: seq<Job<K, V>>, next: seq<nat>, out: map<K, V>, w: nat)
    requires AllLatest(m0, jobs, next, out) && w < |next| && InRange(|jobs|, next) && next[w] < |jobs|
    ensures AllLatest(m0, jobs, next[w := next[w] + 1], Perform(out, jobs[next[w]]))
  {
    var next', out' := next[w := next[w] + 1], Perform(out, jobs[next[w]]);
    forall k ensures Latest(m0, jobs, next', out', k) {
      LatestStep(m0, jobs, next, out, k, w);
    }
  }

  /** That many distinct jobs are done, and each key has the latest write of some worker. */
  ghost predicate HasDone<K(!new), V>(m0: map<K, V>, jobs: seq<Job<K, V>>, next: seq<nat>, out: map<K, V>,
                                      count: nat) {
    Tracks(|jobs|, next, count) && AllLatest(m0, jobs, next, out)
  }

  /** The next job of worker w is one more. */
  lemma JobDone<K(!new), V>(m0: map<K, V>, jobs: seq<Job<K, V>>, next: seq<nat>, out: map<K, V>, count: nat, w: nat)
    requires HasDone(m0, jobs, next, out, count) && w < |next| && next[w] < RangeEnd(|jobs|, |next|, w)
    ensures next[w] < |jobs| && HasDone(m0, jobs, next[w := next[w] + 1], Perform(out, jobs[next[w]]), count + 1)
  {
    Advance(|jobs|, next, count, w);
    AllLatestStep(m0, jobs, next, out, w);
  }

  lemma StepBy<K(!new), V>(m0: map<K, V>, jobs: seq<Job<K, V>>, s: Pool<K, V>, s': Pool<K, V>, count: nat, w: nat)
    requires HasDone(m0, jobs, s.next, s.out, count) && WorkerStep(jobs, s, s', w)
    ensures |s'.next| == |s.next| && HasDone(m0, jobs, s'.next, s'.out, count + 1)
  {
    JobDone(m0, jobs, s.next, s.out, count, w);
  }

  /** After k steps of any interleaving, k distinct jobs are done and each key has the latest write of some worker. */
  lemma {:induction false} ScheduleProgress<K(!new), V>(m0: map<K, V>, jobs: seq<Job<K, V>>, nt: nat,
                                                        run: seq<Pool<K, V>>, k: nat)
    requires nt > 0 && Schedule(jobs, run) && k < |run| && run[0] == Launch(m0, |jobs|, nt)
    ensures |run[k].next| == nt && HasDone(m0, jobs, run[k].next, run[k].out, k)
  {
    if k == 0 {
      AtLaunch(|jobs|, nt);
    } else {
      ScheduleProgress(m0, jobs, nt, run, k - 1);
      assert SomeStep(jobs, run[k - 1], run[k - 1 + 1]);
      var w: nat :| WorkerStep(jobs, run[k - 1], run[k], w);
      StepBy(m0, jobs, run[k - 1], run[k], k - 1, w);
    }
  }

  lemma {:induction false} FinishedIsAll(n: nat, next: seq<nat>, count: nat)
    requires Tracks(n, next, count)
    ensures (forall w :: 0 <= w < |next| ==> next[w] == RangeEnd(n, |next|, w)) <==> count == n
    ensures count == n ==> Done(n, next) == Below(n)
  {
    BelowIs(n);
    SameSizeSubset(Done(n, next), Below(n));
    if forall w :: 0 <= w < |next| ==> next[w] == RangeEnd(n, |next|, w) {
      forall i | i in Below(n) ensures IsDone(n, next, i) {
        var w := OneOwner(n, |next|, i);
      }
    }
    if w :| 0 <= w < |next| && next[w] < RangeEnd(n, |next|, w) {
      DoneGrows(n, next, w);
    }
  }

  /** When all workers are finished, a key on which they agree has the value of the sequential loop. */
  lemma {:induction false} AgreedValue<K(!new), V>(m0: map<K, V>, jobs: seq<Job<K, V>>, s: Pool<K, V>, k: K)
    requires s.next != [] && Finished(jobs, s) && Latest(m0, jobs, s.next, s.out, k) && Agree(jobs, |s.next|, k)
    ensures Get(s.out, k) == Get(InOrder(m0, jobs), k)
  {
    InOrderIs(m0, jobs);
    LastOfAll(jobs, |s.next|, k);
    assert forall w: nat :: w < |s.next| ==> SoFar(jobs, s.next, w, k) == LastOf(jobs, |s.next|, w, k);
  }

  /** Parallel equals sequential: a schedule has at most n steps, it is finished exactly after n of them, and then every
      key on which the workers agree has the value of the sequential loop. */
  lemma {:induction false} AnySchedule<K(!new), V>(m0: map<K, V>, jobs: seq<Job<K, V>>, nt: nat, run: seq<Pool<K, V>>)
    requires nt > 0 && run != [] && Schedule(jobs, run) && run[0] == Launch(m0, |jobs|, nt)
    ensures var end := run[|run| - 1];
            && |run| - 1 <= |jobs|
            && (Finished(jobs, end) <==> |run| - 1 == |jobs|)
            && (Finished(jobs, end) ==> forall k :: Agree(jobs, nt, k) ==> Get(end.out, k) == Get(InOrder(m0, jobs), k))
  {
    var n, steps, end := |jobs|, |run| - 1, run[|run| - 1];
    ScheduleProgress(m0, jobs, nt, run, steps);
    FinishedIsAll(n, end.next, steps);
    if Finished(jobs, end) {
      forall k | Agree(jobs, nt, k) ensures Get(end.out, k) == Get(InOrder(m0, jobs), k) {
        AgreedValue(m0, jobs, end, k);
      }
    }
  }

  /** The states a pool has gone through since its launch; the last one is s. */
  ghost predicate Through<K, V>(m0: map<K, V>, jobs: seq<Job<K, V>>, nt: nat, run: seq<Pool<K, V>>, s: Pool<K, V>)
    requires nt > 0
  {
    run != [] && Schedule(jobs, run) && run[0] == Launch(m0, |jobs|, nt) && run[|run| - 1] == s
  }

  lemma ScheduleLonger<K, V>(jobs: seq<Job<K, V>>, run: seq<Pool<K, V>>, s: Pool<K, V>)
    requires run != [] && Schedule(jobs, run) && SomeStep(jobs, run[|run| - 1], s)
    ensures Schedule(jobs, run + [s])
  {
    var longer := run + [s];
    forall k | 0 <= k < |longer| - 1 ensures SomeStep(jobs, longer[k], longer[k + 1]) {
      if k < |run| - 1 {
        assert SomeStep(jobs, run[k], run[k + 1]);
      }
    }
  }

  /** The step a thread takes when it performs its next job. */
  lemma ThroughStep<K(!new), V>(m0: map<K, V>, jobs: seq<Job<K, V>>, nt: nat, run: seq<Pool<K, V>>, s: Pool<K, V>,
                      w: nat)
      returns (s': Pool<K, V>)
    requires nt > 0 && Through(m0, jobs, nt, run, s)
    requires w < nt == |s.next| && s.next[w] < RangeEnd(|jobs|, nt, w)
    ensures s.next[w] < |jobs| && s' == Pool(Perform(s.out, jobs[s.next[w]]), s.next[w := s.next[w] + 1])
    ensures Through(m0, jobs, nt, run + [s'], s') && |run| <= |jobs|
  {
    RangesFollow(|jobs|, nt, w);
    s' := Pool(Perform(s.out, jobs[s.next[w]]), s.next[w := s.next[w] + 1]);
    assert WorkerStep(jobs, s, s', w);
    ScheduleLonger(jobs, run, s');
    AnySchedule(m0, jobs, nt, run + [s']);
  }

  /** What some complete run of the workers leaves. */
  ghost predicate Leaves<K(!new), V(!new)>(m0: map<K, V>, jobs: seq<Job<K, V>>, nt: nat, out: map<K, V>) {
    if jobs == [] then out == m0
    else nt > 0 && exists run, s :: Through(m0, jobs, nt, run, s) && Finished(jobs, s) && s.out == out
  }

  lemma {:induction false} ThroughAll<K(!new), V(!new)>(m0: map<K, V>, jobs: seq<Job<K, V>>, nt: nat,
                                                        run: seq<Pool<K, V>>, s: Pool<K, V>)
    requires nt > 0 && Through(m0, jobs, nt, run, s) && |s.next| == nt
    requires forall w :: 0 <= w < nt ==> s.next[w] >= RangeEnd(|jobs|, nt, w)
    ensures Finished(jobs, s) && Leaves(m0, jobs, nt, s.out)
  {
    ScheduleProgress(m0, jobs, nt, run, |run| - 1);
    assert InRange(|jobs|, s.next);
    AnySchedule(m0, jobs, nt, run);
    if jobs == [] {
      assert |run| == 1;
    }
  }

  /** A key on which the workers agree has the value of the sequential loop after every run. */
  lemma {:induction false} LeftWhereAgreed<K(!new), V(!new)>(m0: map<K, V>, jobs: seq<Job<K, V>>, nt: nat, out: map<K,
                                             V>, k: K)
    requires Leaves(m0, jobs, nt, out) && Agree(jobs, nt, k)
    ensures Get(out, k) == Get(InOrder(m0, jobs), k)
  {
    if jobs != [] {
      var run, s :| Through(m0, jobs, nt, run, s) && Finished(jobs, s) && s.out == out;
      AnySchedule(m0, jobs, nt, run);
    }
  }

  // ---- Which outcomes there are ----

  /** Worker w runs to its end while the others wait. */
  lemma {:induction false} RunOut<K(!new), V>(m0: map<K, V>, jobs: seq<Job<K, V>>, nt: nat, run: seq<Pool<K, V>>,
                                              s: Pool<K, V>, w: nat)
      returns (run': seq<Pool<K, V>>, s': Pool<K, V>)
    requires nt > 0 && Through(m0, jobs, nt, run, s) && w < nt == |s.next|
    requires s.next[w] <= RangeEnd(|jobs|, nt, w)
    ensures Through(m0, jobs, nt, run', s') && s'.next == s.next[w := RangeEnd(|jobs|, nt, w)]
    ensures Overlaid(jobs, s.next[w], RangeEnd(|jobs|, nt, w), s.out, s'.out)
    decreases RangeEnd(|jobs|, nt, w) - s.next[w]
  {
    RangesFollow(|jobs|, nt, w);
    if s.next[w] == RangeEnd(|jobs|, nt, w) {
      run', s' := run, s;
    } else {
      var i := s.next[w];
      var t := ThroughStep(m0, jobs, nt, run, s, w);
      run', s' := RunOut(m0, jobs, nt, run + [t], t, w);
      assert Overlaid(jobs, i, i, s.out, s.out);
      OverlaidOneMore(jobs, i, i, s.out, s.out);
      OverlaidThen(jobs, i, i + 1, RangeEnd(|jobs|, nt, w), s.out, t.out, s'.out);
    }
  }

  /** The first t workers one after the other: the sequential loop over their ranges. */
  lemma {:induction false} OneByOne<K(!new), V>(m0: map<K, V>, jobs: seq<Job<K, V>>, nt: nat, t: nat)
      returns (run: seq<Pool<K, V>>, s: Pool<K, V>)
    requires t <= nt && nt > 0
    ensures Through(m0, jobs, nt, run, s) && |s.next| == nt
    ensures forall w: nat :: w < nt ==>
                               s.next[w] == if w < t then RangeEnd(|jobs|, nt, w) else RangeStart(|jobs|, nt, w)
    ensures Overlaid(jobs, 0, RangeStart(|jobs|, nt, t), m0, s.out)
  {
    if t == 0 {
      s := Launch(m0, |jobs|, nt);
      run := [s];
      RangesFollow(|jobs|, nt, 0);
    } else {
      var before, u := OneByOne(m0, jobs, nt, t - 1);
      RangesFollow(|jobs|, nt, t - 1);
      run, s := RunOut(m0, jobs, nt, before, u, t - 1);
      OverlaidThen(jobs, 0, RangeStart(|jobs|, nt, t - 1), RangeStart(|jobs|, nt, t), m0, u.out, s.out);
    }
  }

  /** The sequential loop is what one of the runs leaves. */
  lemma {:induction false} InOrderLeft<K(!new), V(!new)>(m0: map<K, V>, jobs: seq<Job<K, V>>, nt: nat)
    requires nt > 0 || jobs == []
    ensures Leaves(m0, jobs, nt, InOrder(m0, jobs))
  {
    if jobs != [] {
      var run, s := OneByOne(m0, jobs, nt, nt);
      DivideExact(|jobs|, nt);
      InOrderIs(m0, jobs);
      SameMaps(s.out, InOrder(m0, jobs));
      ThroughAll(m0, jobs, nt, run, s);
    }
  }

  /** All of the first t workers except x run to their ends. */
  lemma {:induction false} AllBut<K(!new), V>(m0: map<K, V>, jobs: seq<Job<K, V>>, nt: nat, x: nat, t: nat)
      returns (run: seq<Pool<K, V>>, s: Pool<K, V>)
    requires t <= nt && nt > 0
    ensures Through(m0, jobs, nt, run, s) && |s.next| == nt
    ensures forall w: nat :: w < nt ==>
                               s.next[w] == if w < t && w != x then RangeEnd(|jobs|, nt, w)
                                            else RangeStart(|jobs|, nt, w)
  {
    if t == 0 {
      s := Launch(m0, |jobs|, nt);
      run := [s];
    } else {
      run, s := AllBut(m0, jobs, nt, x, t - 1);
      if t - 1 != x {
        RangesFollow(|jobs|, nt, t - 1);
        run, s := RunOut(m0, jobs, nt, run, s, t - 1);
      }
    }
  }

  /** Some run leaves the last write of worker x. */
  lemma {:induction false} WorkerWins<K(!new), V(!new)>(m0: map<K, V>, jobs: seq<Job<K, V>>, nt: nat, x: nat, k: K)
      returns (out: map<K, V>)
    requires x < nt && LastOf(jobs, nt, x, k).Some?
    ensures Leaves(m0, jobs, nt, out) && Get(out, k) == LastOf(jobs, nt, x, k)
  {
    var before, u := AllBut(m0, jobs, nt, x, nt);
    RangesFollow(|jobs|, nt, x);
    var run, s := RunOut(m0, jobs, nt, before, u, x);
    ThroughAll(m0, jobs, nt, run, s);
    out := s.out;
  }

  /** Where the workers do not agree, two runs leave different values. */
  lemma {:induction false} Disagreement<K(!new), V(!new)>(m0: map<K, V>, jobs: seq<Job<K, V>>, nt: nat, k: K)
      returns (a: map<K, V>, b: map<K, V>)
    requires !Agree(jobs, nt, k)
    ensures Leaves(m0, jobs, nt, a) && Leaves(m0, jobs, nt, b) && Get(a, k) != Get(b, k)
  {
    var v: nat, w: nat :| v < nt && w < nt && LastOf(jobs, nt, v, k).Some? && LastOf(jobs, nt, w, k).Some?
                          && LastOf(jobs, nt, v, k) != LastOf(jobs, nt, w, k);
    a := WorkerWins(m0, jobs, nt, v, k);
    b := WorkerWins(m0, jobs, nt, w, k);
  }

  /** The schedule does not matter at a key if and only if the workers that write it agree on what they write last, and
      then its value is that of the sequential loop. */
  lemma {:induction false} ScheduleIrrelevant<K(!new), V(!new)>(m0: map<K, V>, jobs: seq<Job<K, V>>, nt: nat, k: K)
    requires nt > 0
    ensures (forall out :: Leaves(m0, jobs, nt, out) ==> Get(out, k) == Get(InOrder(m0, jobs), k))
            <==> Agree(jobs, nt, k)
  {
    if Agree(jobs, nt, k) {
      forall out | Leaves(m0, jobs, nt, out) ensures Get(out, k) == Get(InOrder(m0, jobs), k) {
        LeftWhereAgreed(m0, jobs, nt, out, k);
      }
    } else {
      var a, b := Disagreement(m0, jobs, nt, k);
    }
  }

  lemma {:induction false} DistinctLeft<K(!new), V(!new)>(m0: map<K, V>, jobs: seq<Job<K, V>>, nt: nat, out: map<K, V>)
    requires Leaves(m0, jobs, nt, out) && DistinctKeys(jobs)
    ensures out == InOrder(m0, jobs)
  {
    forall k ensures Get(out, k) == Get(InOrder(m0, jobs), k) {
      DistinctAgree(jobs, nt, k);
      LeftWhereAgreed(m0, jobs, nt, out, k);
    }
    SameMaps(out, InOrder(m0, jobs));
  }

  lemma {:induction false} InOrderAppend<K, V>(m: map<K, V>, a: seq<Job<K, V>>, b: seq<Job<K, V>>)
    ensures InOrder(m, a + b) == InOrder(InOrder(m, a), b)
    decreases |b|
  {
    if b == [] {
      assert a + b == a;
    } else {
      var n := |b| - 1;
      InOrderAppend(m, a, b[..n]);
      assert (a + b)[..|a + b| - 1] == a + b[..n];
    }
  }

  // ---- parallel_sha256_cpu ----

  /** The files of a batch: slices of one flat buffer. */
  ghost predicate Slices(flat: seq<byte>, offsets: seq<nat>, sizes: seq<nat>) {
    |offsets| == |sizes| && forall i :: 0 <= i < |sizes| ==> offsets[i] + sizes[i] <= |flat|
  }

  function Slice(flat: seq<byte>, offsets: seq<nat>, sizes: seq<nat>, i: nat): seq<byte>
    requires i < |offsets| == |sizes| && offsets[i] + sizes[i] <= |flat|
  {
    flat[offsets[i]..offsets[i] + sizes[i]]
  }

  /** How many threads parallel_sha256_cpu starts for n items on a machine with cpus processors. */
  function Threads(cpus: int, most: nat, n: nat): (nt: nat)
    requires most > 0
    ensures nt <= n && (n > 0 ==> nt > 0)
  {
    var wanted := if cpus > 0 then cpus else 2;
    var capped := if wanted > most then most else wanted;
    if capped > n then n else capped
  }

  function Digests(step: Compression, flat: seq<byte>, offsets: seq<nat>, sizes: seq<nat>): (hashes: seq<seq<byte>>)
    requires Slices(flat, offsets, sizes)
    ensures |hashes| == |sizes|
    ensures forall i :: 0 <= i < |sizes| ==> hashes[i] == DigestWith(step, Slice(flat, offsets, sizes, i))
  {
    seq(|sizes|, i requires 0 <= i < |sizes| => DigestWith(step, Slice(flat, offsets, sizes, i)))
  }

  function Results<T>(job: nat -> T, n: nat): (r: seq<T>)
    ensures |r| == n && forall i :: 0 <= i < n ==> r[i] == job(i)
  {
    seq(n, i requires 0 <= i < n => job(i))
  }

  /** Storing a result at its index, as a job on the array seen as a map. */
  function IndexJobs<T>(job: nat -> T, n: nat): (jobs: seq<Job<nat, T>>)
    ensures |jobs| == n && forall i: nat :: i < n ==> jobs[i] == Put(i, job(i))
  {
    seq(n, i requires 0 <= i < n => Put(i, job(i)))
  }

  lemma IndexJobsDistinct<T>(job: nat -> T, n: nat)
    ensures DistinctKeys(IndexJobs(job, n))
  {
  }

  lemma {:induction false} IndexJobsDone<T>(job: nat -> T, n: nat, i: nat)
    requires i < n
    ensures Get(InOrder(map[], IndexJobs(job, n)), i) == Some(job(i))
  {
    var jobs := IndexJobs(job, n);
    IndexJobsDistinct(job, n);
    InOrderIs(map[], jobs);
    assert Writes(jobs, i, i);
    LastOnly(jobs, 0, n, i, i);
  }

  /** The array holds the results that have been stored. */
  ghost predicate Holds<T>(a: seq<T>, out: map<nat, T>) {
    forall i :: i in out && i < |a| ==> a[i] == out[i]
  }

  lemma HoldsMore<T>(a: seq<T>, out: map<nat, T>, i: nat, x: T)
    requires Holds(a, out) && i < |a|
    ensures Holds(a[i := x], Perform(out, Put(i, x)))
  {
  }

  lemma HoldsAll<T>(job: nat -> T, a: seq<T>)
    requires Holds(a, InOrder(map[], IndexJobs(job, |a|)))
    ensures a == Results(job, |a|)
  {
    forall i: nat | i < |a| ensures a[i] == job(i) {
      IndexJobsDone(job, |a|, i);
    }
  }

  /** The workers of a pool, interleaved in any order, each storing the result of its next index. */
  method RunWorkers<T(!new)>(job: nat -> T, n: nat, nt: nat, results: array<T>)
    requires nt > 0 && results.Length == n
    modifies results
    ensures results[..] == Results(job, n)
  {
    ghost var jobs := IndexJobs(job, n);
    IndexJobsDistinct(job, n);
    var next: seq<nat> := Starts(n, nt);
    var ends := seq(nt, t requires 0 <= t < nt => RangeEnd(n, nt, t));
    ghost var s := Launch(map[], n, nt);
    ghost var run := [s];
    while exists w :: 0 <= w < nt && next[w] < ends[w]
      invariant |next| == nt && next == s.next && Through(map[], jobs, nt, run, s) && Holds(results[..], s.out)
      decreases n + 1 - |run|
    {
      var w :| 0 <= w < nt && next[w] < ends[w];
      var i := next[w];
      ghost var before, out := results[..], s.out;
      s := ThroughStep(map[], jobs, nt, run, s, w);
      run := run + [s];
      HoldsMore(before, out, i, job(i));
      results[i] := job(i);
      assert results[..] == before[i := job(i)];
      next := next[w := i + 1];
    }
    ThroughAll(map[], jobs, nt, run, s);
    DistinctLeft(map[], jobs, nt, s.out);
    HoldsAll(job, results[..]);
  }

  function DigestJob(step: Compression, flat: seq<byte>, offsets: seq<nat>, sizes: seq<nat>): nat -> seq<byte>
    requires Slices(flat, offsets, sizes)
  {
    (i: nat) => if i < |sizes| then DigestWith(step, Slice(flat, offsets, sizes, i)) else []
  }

  /** parallel_sha256_cpu: every hash is the digest of its slice. */
  method ParallelHash(step: Compression, flat: seq<byte>, offsets: seq<nat>, sizes: seq<nat>, cpus: int)
      returns (hashes: array<seq<byte>>)
    requires Slices(flat, offsets, sizes)
    ensures fresh(hashes) && hashes[..] == Digests(step, flat, offsets, sizes)
  {
    var n := |sizes|;
    hashes := new seq<byte>[n](_ => []);
    var nt := Threads(cpus, 32, n);
    if n > 0 {
      RunWorkers(DigestJob(step, flat, offsets, sizes), n, nt, hashes);
    }
  }
}
