/**
 * What the search emits, as a function of the order in which it extracts
 * pairs: each extracted pair `c` is reported against every earlier pair of
 * the same sum, in extraction order. The lemmas show that, for any
 * extraction order without repetitions, every colliding couple of distinct
 * extracted pairs is reported exactly once and nothing else is.
 */
module Collisions {
  import opened Powers

  /** A pair (a, b) of the search space; the source keeps it as `std::pair<int, int>`. */
  datatype Pair = Pair(a: nat, b: nat)

  /** One solution record `(p.a, p.b, c.a, c.b, sum)`: `p` was met earlier than `c`, both with sum `sum`. */
  datatype Hit = Hit(p: Pair, c: Pair, sum: nat)

  /** a^N + b^N for the pair (a, b). */
  function Sum(n: nat, p: Pair): nat
  {
    Pow(p.a, n) + Pow(p.b, n)
  }

  /** The search space: 1 <= b <= a <= B. */
  predicate InRange(bound: nat, p: Pair)
  {
    1 <= p.b <= p.a <= bound
  }

  predicate Distinct<T(==)>(s: seq<T>)
  {
    forall i, j :: 0 <= i < j < |s| ==> s[i] != s[j]
  }

  predicate SortedBySum(n: nat, s: seq<Pair>)
  {
    forall i, j :: 0 <= i < j < |s| ==> Sum(n, s[i]) <= Sum(n, s[j])
  }

  /** The pairs of `s` whose sum is `v`, in their order in `s`. */
  function SameSum(n: nat, s: seq<Pair>, v: nat): (r: seq<Pair>)
    ensures forall p :: p in r <==> p in s && Sum(n, p) == v
    ensures Distinct(s) ==> Distinct(r)
  {
    if s == [] then []
    else
      var init, last := s[..|s| - 1], s[|s| - 1];
      assert forall p :: p in s <==> p in init || p == last;
      assert Distinct(s) ==> last !in init;
      SameSum(n, init, v) + (if Sum(n, last) == v then [last] else [])
  }

  /** The records emitted when `c` (with sum `sum`) meets the run `run`: one per pair of `run` other than `c`. */
  function RunHits(run: seq<Pair>, c: Pair, sum: nat): (r: seq<Hit>)
    ensures forall h :: h in r <==> h.p in run && h.p != c && h.c == c && h.sum == sum
    ensures Distinct(run) ==> Distinct(r)
  {
    if run == [] then []
    else
      var init, last := run[..|run| - 1], run[|run| - 1];
      assert forall p :: p in run <==> p in init || p == last;
      assert Distinct(run) ==> last !in init;
      RunHits(init, c, sum) + (if last != c then [Hit(last, c, sum)] else [])
  }

  /** Everything emitted, in order, after the pairs `done` were extracted in that order. */
  function AllHits(n: nat, done: seq<Pair>): seq<Hit>
  {
    if done == [] then []
    else
      var init, c := done[..|done| - 1], done[|done| - 1];
      AllHits(n, init) + RunHits(SameSum(n, init, Sum(n, c)), c, Sum(n, c))
  }

  /** Extending the extraction order by `c` appends exactly the records of `c` against the earlier pairs of its sum. */
  lemma AllHitsSnoc(n: nat, done: seq<Pair>, c: Pair)
    ensures AllHits(n, done + [c]) == AllHits(n, done) + RunHits(SameSum(n, done, Sum(n, c)), c, Sum(n, c))
  {
    assert (done + [c])[..|done|] == done;
  }

  /** Running the run only up to its i-th pair emits a prefix of the run's records. */
  lemma {:induction false} RunHitsPrefix(run: seq<Pair>, c: Pair, sum: nat, i: nat)
    requires i <= |run|
    ensures RunHits(run[..i], c, sum) <= RunHits(run, c, sum)
    decreases |run|
  {
    if i < |run| {
      var init := run[..|run| - 1];
      assert init[..i] == run[..i];
      RunHitsPrefix(init, c, sum, i);
    } else {
      assert run[..i] == run;
    }
  }

  /** Soundness: every record couples two different extracted pairs whose sums are the recorded sum. */
  lemma {:induction false} HitSound(n: nat, done: seq<Pair>, h: Hit)
    requires h in AllHits(n, done)
    ensures h.p in done && h.c in done && h.p != h.c
    ensures Sum(n, h.p) == h.sum == Sum(n, h.c)
    decreases |done|
  {
    var init, c := done[..|done| - 1], done[|done| - 1];
    assert forall p :: p in init ==> p in done;
    if h in AllHits(n, init) {
      HitSound(n, init, h);
    }
  }

  /** Completeness: two different extracted pairs of equal sum are reported, the earlier one first. */
  lemma {:induction false} HitComplete(n: nat, done: seq<Pair>, i: nat, j: nat)
    requires i < j < |done|
    requires done[i] != done[j] && Sum(n, done[i]) == Sum(n, done[j])
    ensures Hit(done[i], done[j], Sum(n, done[j])) in AllHits(n, done)
    decreases |done|
  {
    var init := done[..|done| - 1];
    if j < |done| - 1 {
      HitComplete(n, init, i, j);
    } else {
      assert done[i] in init;
    }
  }

  /** Extraction without repetitions emits no record twice. */
  lemma {:induction false} HitsDistinct(n: nat, done: seq<Pair>)
    requires Distinct(done)
    ensures Distinct(AllHits(n, done))
    decreases |done|
  {
    if done != [] {
      var init, c := done[..|done| - 1], done[|done| - 1];
      assert Distinct(init);
      HitsDistinct(n, init);
      var old_, new_ := AllHits(n, init), RunHits(SameSum(n, init, Sum(n, c)), c, Sum(n, c));
      forall h | h in old_
        ensures h !in new_
      {
        HitSound(n, init, h);
        assert c !in init;
      }
      DistinctAppend(old_, new_);
    }
  }

  /** Extraction without repetitions never reports a couple in both orders. */
  lemma {:induction false} HitsNoReverse(n: nat, done: seq<Pair>, h: Hit, sum: nat)
    requires Distinct(done)
    requires h in AllHits(n, done)
    ensures Hit(h.c, h.p, sum) !in AllHits(n, done)
    decreases |done|
  {
    var init, c := done[..|done| - 1], done[|done| - 1];
    var g := Hit(h.c, h.p, sum);
    assert Distinct(init) && c !in init;
    if h in AllHits(n, init) {
      HitSound(n, init, h);
      HitsNoReverse(n, init, h, sum);
      // g is not among the records of c either: they all have `c` second, and h.p is in init.
    } else {
      // h is a record of c against init, so h.c == c and h.p is in init.
      if g in AllHits(n, init) {
        HitSound(n, init, g);
        assert false;
      }
    }
  }

  lemma DistinctAppend<T>(s: seq<T>, t: seq<T>)
    requires Distinct(s) && Distinct(t)
    requires forall x :: x in s ==> x !in t
    ensures Distinct(s + t)
  {
    forall i, j | 0 <= i < j < |s + t|
      ensures (s + t)[i] != (s + t)[j]
    {
      if i < |s| && j >= |s| {
        assert (s + t)[i] in s && (s + t)[j] in t;
      }
    }
  }
}
