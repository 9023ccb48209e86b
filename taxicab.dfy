/**
 * The program as a whole: the configuration constants, and the run of
 * `main` once the output file is open — power table, search, and the
 * final flush of the result buffer when it goes out of scope.
 */
module Taxicab {
  import opened Powers
  import opened ResultsSink
  import opened Collisions
  import opened Search

  /** The exponent N of a^N + b^N = c^N + d^N. */
  const N: nat := 4
  /** The upper bound B on every coordinate. */
  const B: nat := 1001805
  /** The number of records after which the search stops; 0 means no limit. */
  const MAX_HITS: nat := 30000
  /** The capacity of the result buffer, in characters. */
  const BUFFER_SIZE: nat := 1024 * 512

  /** The shipped configuration keeps every sum, and twice the largest power, below 2^128, and B fits an `int`. */
  lemma ConfigurationFits()
    ensures B < INT_MAX && 2 * Pow(B, N) <= U128_MAX && BUFFER_SIZE >= FLUSH_MARGIN
  {
    assert Pow(B, 2) == B * B;
    assert Pow(B, 4) == (B * B) * B * B;
  }

  /**
   * `main` after opening the output file: the text of the file after the
   * buffer's destructor ran is the records of `emitted`, those are sound,
   * pairwise distinct and, unless the cap stopped the run, every solution
   * of the search space.
   */
  method FindSolutions(n: nat, bound: nat, maxHits: nat, capacity: nat)
    returns (hits: nat, stoppedEarly: bool, ghost file: string, ghost done: seq<Pair>, ghost emitted: seq<Hit>)
    requires bound < INT_MAX && 2 * Pow(bound, n) <= U128_MAX && capacity >= FLUSH_MARGIN
    ensures file == Records(emitted)
    ensures Distinct(emitted) && emitted <= AllHits(n, done)
    ensures forall p, i :: InRange(bound, p) && p !in done && 0 <= i < |done| ==> Sum(n, done[i]) <= Sum(n, p)
    ensures forall h :: h in emitted ==> Hit(h.c, h.p, h.sum) !in emitted
    ensures forall h :: h in emitted ==>
      InRange(bound, h.p) && InRange(bound, h.c) && h.p != h.c && Sum(n, h.p) == h.sum == Sum(n, h.c)
    ensures stoppedEarly ==> maxHits > 0 && |emitted| == maxHits == hits
    ensures stoppedEarly ==> |done| > 0 && forall p, q ::
      InRange(bound, p) && InRange(bound, q) && p != q && Sum(n, p) == Sum(n, q) < Sum(n, done[|done| - 1]) ==>
      Hit(p, q, Sum(n, q)) in emitted || Hit(q, p, Sum(n, p)) in emitted
    ensures !stoppedEarly ==> emitted == AllHits(n, done) && (maxHits > 0 ==> hits == |emitted| < maxHits)
    ensures !stoppedEarly ==> |done| == Triangle(bound) && forall a :: 1 <= a <= bound ==> RowExtractions(done, a) == a
    ensures !stoppedEarly ==> forall p, q :: InRange(bound, p) && InRange(bound, q) && p != q && Sum(n, p) == Sum(n, q) ==>
      Hit(p, q, Sum(n, q)) in emitted || Hit(q, p, Sum(n, p)) in emitted
  {
    var sink := new ResultsBuffer(capacity);
    var pows := PrecomputePows(n, bound);
    forall i | 0 <= i <= bound
      ensures pows[i] == Pow(i, n)
    {
      PowNoWrap(i, bound, n);
    }
    hits, stoppedEarly, done, emitted := Search.Search(n, bound, maxHits, pows, sink);
    sink.Close();
    file := sink.file;
    HitsDistinct(n, done);
    PrefixDistinct(AllHits(n, done), emitted);
    forall h | h in emitted
      ensures Hit(h.c, h.p, h.sum) !in emitted
    {
      HitsNoReverse(n, done, h, h.sum);
    }
    if stoppedEarly {
      forall p, q | InRange(bound, p) && InRange(bound, q) && p != q && Sum(n, p) == Sum(n, q) < Sum(n, done[|done| - 1])
        ensures Hit(p, q, Sum(n, q)) in emitted || Hit(q, p, Sum(n, p)) in emitted
      {
        ReportedBelowLast(n, bound, done, emitted, p, q);
      }
    } else {
      forall p, q | InRange(bound, p) && InRange(bound, q) && p != q && Sum(n, p) == Sum(n, q)
        ensures Hit(p, q, Sum(n, q)) in emitted || Hit(q, p, Sum(n, p)) in emitted
      {
        MetInOrder(n, done, p, q);
      }
    }
  }

  /** A prefix of a sequence without repetitions has none either. */
  lemma PrefixDistinct<T>(s: seq<T>, t: seq<T>)
    requires Distinct(s) && t <= s
    ensures Distinct(t)
  {
    forall i, j | 0 <= i < j < |t|
      ensures t[i] != t[j]
    {
      assert t[i] == s[i] && t[j] == s[j];
    }
  }

  /** Two different extracted pairs of equal sum are reported once, the one extracted first as the first pair. */
  lemma MetInOrder(n: nat, done: seq<Pair>, p: Pair, q: Pair)
    requires p in done && q in done && p != q && Sum(n, p) == Sum(n, q)
    ensures Hit(p, q, Sum(n, q)) in AllHits(n, done) || Hit(q, p, Sum(n, p)) in AllHits(n, done)
  {
    var i :| 0 <= i < |done| && done[i] == p;
    var j :| 0 <= j < |done| && done[j] == q;
    if i < j {
      HitComplete(n, done, i, j);
    } else {
      HitComplete(n, done, j, i);
    }
  }

  /**
   * At the cap, every couple whose sum is below the last extracted sum is
   * reported: both pairs were extracted before the last one, and everything
   * those earlier extractions report was pushed.
   */
  lemma ReportedBelowLast(n: nat, bound: nat, done: seq<Pair>, emitted: seq<Hit>, p: Pair, q: Pair)
    requires |done| > 0 && AllHits(n, done[..|done| - 1]) <= emitted
    requires forall p, i :: InRange(bound, p) && p !in done && 0 <= i < |done| ==> Sum(n, done[i]) <= Sum(n, p)
    requires InRange(bound, p) && InRange(bound, q) && p != q && Sum(n, p) == Sum(n, q) < Sum(n, done[|done| - 1])
    ensures Hit(p, q, Sum(n, q)) in emitted || Hit(q, p, Sum(n, p)) in emitted
  {
    var k := |done| - 1;
    var earlier := done[..k];
    assert done == earlier + [done[k]];
    assert p in earlier && q in earlier;
    MetInOrder(n, earlier, p, q);
    var h :| h in AllHits(n, earlier) && (h == Hit(p, q, Sum(n, q)) || h == Hit(q, p, Sum(n, p)));
    PrefixMember(AllHits(n, earlier), emitted, h);
  }

  /** What a prefix holds, the whole sequence holds. */
  lemma PrefixMember<T>(s: seq<T>, t: seq<T>, x: T)
    requires s <= t && x in s
    ensures x in t
  {
    var i :| 0 <= i < |s| && s[i] == x;
    assert t[i] == x;
  }
}
