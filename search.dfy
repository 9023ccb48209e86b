/**
 * The search of `main`: the frontier is seeded with (a, 1) for every row a,
 * then nodes are extracted in non-decreasing order of sum; consecutive equal
 * sums form a run, each new member of a run is reported against every
 * earlier member, and the row of the extracted node advances by one column.
 */
module Search {
  import opened Powers
  import opened Decimal
  import opened ResultsSink
  import opened Frontier
  import opened Collisions

  /** The power table the search reads: entry i is exactly i^n. */
  predicate IsPowTable(pows: seq<nat>, n: nat, bound: nat)
  {
    |pows| == bound + 1 && forall i :: 0 <= i <= bound ==> pows[i] == Pow(i, n)
  }

  /** The frontier node of row a at column b. */
  function RowNode(n: nat, a: nat, b: nat): Node
  {
    Node(a, b, Sum(n, Pair(a, b)))
  }

  /** The text of one solution record. */
  function HitRecord(h: Hit): string
  {
    Record(h.p.a, h.p.b, h.c.a, h.c.b, h.sum)
  }

  /** The text of a sequence of solution records, in order. */
  function Records(hs: seq<Hit>): string
  {
    if hs == [] then [] else Records(hs[..|hs| - 1]) + HitRecord(hs[|hs| - 1])
  }

  lemma RecordsSnoc(hs: seq<Hit>, h: Hit)
    ensures Records(hs + [h]) == Records(hs) + HitRecord(h)
  {
    assert (hs + [h])[..|hs|] == hs;
  }

  lemma {:induction false} RecordsAppend(hs: seq<Hit>, ks: seq<Hit>)
    ensures Records(hs + ks) == Records(hs) + Records(ks)
    decreases |ks|
  {
    if ks == [] {
      assert hs + ks == hs;
    } else {
      var init, last := ks[..|ks| - 1], ks[|ks| - 1];
      assert hs + ks == (hs + init) + [last];
      RecordsSnoc(hs + init, last);
      RecordsAppend(hs, init);
      AppendAssoc(Records(hs), Records(init), HitRecord(last));
    }
  }

  lemma PrefixAppend<T>(a: seq<T>, b: seq<T>, d: seq<T>)
    requires b <= d
    ensures a + b <= a + d && |a + b| == |a| + |b|
  {
    assert (a + d)[..|a + b|] == a + b;
  }

  lemma AppendAssoc<T>(a: seq<T>, b: seq<T>, c: seq<T>)
    ensures (a + b) + c == a + (b + c)
  {
  }

  lemma TextAppend(text: string, hs: seq<Hit>, ks: seq<Hit>)
    ensures text + Records(hs) + Records(ks) == text + Records(hs + ks)
  {
    RecordsAppend(hs, ks);
    AppendAssoc(text, Records(hs), Records(ks));
  }

  /** 1 + 2 + ... + k: the number of pairs 1 <= b <= a <= k. */
  function Triangle(k: nat): nat
  {
    if k == 0 then 0 else Triangle(k - 1) + k
  }

  lemma {:induction false} TriangleClosedForm(k: nat)
    ensures 2 * Triangle(k) == k * (k + 1)
  {
    if k > 0 {
      TriangleClosedForm(k - 1);
    }
  }

  /*
   * The ghost `cursor` of the search gives, for every row a, the column of
   * its live node (a + 1 once the row is exhausted). The following count,
   * over rows 1..k, the pairs already extracted and the rows still live.
   */

  function Extracted(cursor: seq<nat>, k: nat): int
    requires k < |cursor|
  {
    if k == 0 then 0 else Extracted(cursor, k - 1) + cursor[k] - 1
  }

  function LiveRows(cursor: seq<nat>, k: nat): nat
    requires k < |cursor|
  {
    if k == 0 then 0 else LiveRows(cursor, k - 1) + (if cursor[k] <= k then 1 else 0)
  }

  lemma {:induction false} ExtractedUpdate(cursor: seq<nat>, k: nat, a: nat, v: nat)
    requires k < |cursor| && 1 <= a < |cursor|
    ensures Extracted(cursor[a := v], k) == Extracted(cursor, k) + (if a <= k then v - cursor[a] else 0)
  {
    if k > 0 {
      ExtractedUpdate(cursor, k - 1, a, v);
    }
  }

  lemma {:induction false} LiveRowsUpdate(cursor: seq<nat>, k: nat, a: nat, v: nat)
    requires k < |cursor| && 1 <= a < |cursor|
    ensures LiveRows(cursor[a := v], k)
         == LiveRows(cursor, k) + (if a <= k then (if v <= a then 1 else 0) - (if cursor[a] <= a then 1 else 0) else 0)
  {
    if k > 0 {
      LiveRowsUpdate(cursor, k - 1, a, v);
    }
  }

  lemma {:induction false} ExtractedBound(cursor: seq<nat>, k: nat)
    requires k < |cursor|
    requires forall a :: 1 <= a <= k ==> cursor[a] <= a + 1
    ensures Extracted(cursor, k) <= Triangle(k)
    ensures (forall a :: 1 <= a <= k ==> cursor[a] == a + 1) ==> Extracted(cursor, k) == Triangle(k)
  {
    if k > 0 {
      ExtractedBound(cursor, k - 1);
    }
  }

  lemma {:induction false} LiveRowsBound(cursor: seq<nat>, k: nat)
    requires k < |cursor|
    ensures LiveRows(cursor, k) <= k
  {
    if k > 0 {
      LiveRowsBound(cursor, k - 1);
    }
  }

  lemma {:induction false} InitialCounts(cursor: seq<nat>, k: nat)
    requires k < |cursor|
    requires forall a :: 1 <= a <= k ==> cursor[a] == 1
    ensures Extracted(cursor, k) == 0 && LiveRows(cursor, k) == k
  {
    if k > 0 {
      InitialCounts(cursor, k - 1);
    }
  }

  /*
   * The loop invariant of the search, in parts. `nodes` is the frontier,
   * `done` the pairs extracted so far in extraction order, and `cursor` the
   * ghost row cursors.
   */

  ghost predicate CursorsInv(bound: nat, cursor: seq<nat>)
  {
    |cursor| == bound + 1 && forall a :: 1 <= a <= bound ==> 1 <= cursor[a] <= a + 1
  }

  /** One node per live row: the frontier holds exactly the node at each unfinished row's cursor, once. */
  ghost predicate NodesInv(n: nat, bound: nat, nodes: multiset<Node>, cursor: seq<nat>)
    requires CursorsInv(bound, cursor)
  {
    // Bound to a name so that the verifier does not split the predicate into its conjuncts at every call site.
    var holds :=
      && (forall m :: m in nodes ==>
            1 <= m.a <= bound && m.b == cursor[m.a] && m.b <= m.a && m == RowNode(n, m.a, m.b) && nodes[m] == 1)
      && (forall a :: 1 <= a <= bound && cursor[a] <= a ==> RowNode(n, a, cursor[a]) in nodes)
      && |nodes| == LiveRows(cursor, bound);
    holds
  }

  /** The extracted pairs are, without repetition, exactly the pairs left of their row's cursor. */
  ghost predicate DoneInv(bound: nat, done: seq<Pair>, cursor: seq<nat>)
    requires CursorsInv(bound, cursor)
  {
    // Bound to a name so that the verifier does not split the predicate into its conjuncts at every call site.
    var holds :=
      && (forall i :: 0 <= i < |done| ==> InRange(bound, done[i]) && done[i].b < cursor[done[i].a])
      && (forall a, b :: 1 <= a <= bound && 1 <= b < cursor[a] ==> Pair(a, b) in done)
      && Distinct(done)
      && |done| == Extracted(cursor, bound);
    holds
  }

  /** Extraction so far is in non-decreasing sum order, and nothing in the frontier is smaller. */
  ghost predicate OrderInv(n: nat, nodes: multiset<Node>, done: seq<Pair>)
  {
    && SortedBySum(n, done)
    && (forall i, m :: 0 <= i < |done| && m in nodes ==> Sum(n, done[i]) <= m.sum)
  }

  ghost predicate FrontierInv(n: nat, bound: nat, nodes: multiset<Node>, done: seq<Pair>, cursor: seq<nat>)
  {
    // Bound to a name so that the verifier does not split the predicate into its conjuncts at every call site.
    var holds :=
      && CursorsInv(bound, cursor)
      && NodesInv(n, bound, nodes, cursor)
      && DoneInv(bound, done, cursor)
      && OrderInv(n, nodes, done);
    holds
  }

  /** The frontier never holds two nodes of one row, so never more than `bound` nodes. */
  lemma FrontierBounded(n: nat, bound: nat, nodes: multiset<Node>, done: seq<Pair>, cursor: seq<nat>)
    requires FrontierInv(n, bound, nodes, done, cursor)
    ensures |nodes| <= bound
    ensures forall x, y :: x in nodes && y in nodes && x.a == y.a ==> x == y
  {
    LiveRowsBound(cursor, bound);
  }

  /** A row's next column has a sum no smaller than the current one. */
  lemma SumGrowsAlongRow(n: nat, a: nat, b: nat)
    ensures Sum(n, Pair(a, b)) <= Sum(n, Pair(a, b + 1))
  {
    PowMonotone(b, b + 1, n);
  }

  /** Sums of pairs in range fit in u128 and stay strictly below the sentinel U128_MAX. */
  lemma SumBelowSentinel(n: nat, bound: nat, p: Pair)
    requires InRange(bound, p) && 2 * Pow(bound, n) <= U128_MAX
    ensures Sum(n, p) < U128_MAX
  {
    PowMonotone(p.a, bound, n);
    PowMonotone(p.b, bound, n);
  }

  /** Seeding (a, 1) for every row establishes the invariant with nothing extracted. */
  lemma InitInv(n: nat, bound: nat, nodes: multiset<Node>, cursor: seq<nat>)
    requires |cursor| == bound + 1 && forall a :: 1 <= a <= bound ==> cursor[a] == 1
    requires forall m :: m in nodes ==> 1 <= m.a <= bound && m == RowNode(n, m.a, 1) && nodes[m] == 1
    requires forall a :: 1 <= a <= bound ==> RowNode(n, a, 1) in nodes
    requires |nodes| == bound
    ensures FrontierInv(n, bound, nodes, [], cursor)
  {
    InitialCounts(cursor, bound);
  }

  /** Extracting a top node, advancing its row's cursor and inserting its successor preserves the invariant. */
  lemma StepInv(n: nat, bound: nat, nodes: multiset<Node>, done: seq<Pair>, cursor: seq<nat>, top: Node)
    requires FrontierInv(n, bound, nodes, done, cursor)
    requires IsTop(top, nodes)
    ensures FrontierInv(n, bound, NextNodes(n, nodes, top), done + [Pair(top.a, top.b)], cursor[top.a := top.b + 1])
  {
    StepNodes(n, bound, nodes, cursor, top, NextNodes(n, nodes, top));
    StepDone(bound, done, cursor, top.a, top.b);
    StepOrder(n, bound, nodes, done, cursor, top, NextNodes(n, nodes, top));
  }

  lemma StepNodes(n: nat, bound: nat, nodes: multiset<Node>, cursor: seq<nat>, top: Node, nodes': multiset<Node>)
    requires CursorsInv(bound, cursor) && NodesInv(n, bound, nodes, cursor)
    requires top in nodes && nodes' == NextNodes(n, nodes, top)
    ensures CursorsInv(bound, cursor[top.a := top.b + 1])
    ensures 1 <= top.a <= bound && 1 <= top.b == cursor[top.a] <= top.a
    ensures NodesInv(n, bound, nodes', cursor[top.a := top.b + 1])
  {
    RemoveTop(n, bound, nodes, cursor, top);
    var rest := nodes - multiset{top};
    assert nodes' == if top.b + 1 <= top.a then rest + multiset{RowNode(n, top.a, top.b + 1)} else rest;
    AdvanceRow(n, bound, rest, cursor, top.a, top.b, nodes');
  }

  /** Removing the top node leaves no node of its row, and the other rows' nodes unchanged. */
  lemma RemoveTop(n: nat, bound: nat, nodes: multiset<Node>, cursor: seq<nat>, top: Node)
    requires CursorsInv(bound, cursor) && NodesInv(n, bound, nodes, cursor)
    requires top in nodes
    ensures 1 <= top.a <= bound && 1 <= top.b == cursor[top.a] <= top.a
    ensures forall m :: m in nodes - multiset{top} ==>
      1 <= m.a <= bound && m.a != top.a && m.b == cursor[m.a] && m.b <= m.a && m == RowNode(n, m.a, m.b)
      && (nodes - multiset{top})[m] == 1
    ensures forall a :: 1 <= a <= bound && a != top.a && cursor[a] <= a ==> RowNode(n, a, cursor[a]) in nodes - multiset{top}
    ensures |nodes - multiset{top}| + 1 == LiveRows(cursor, bound)
  {
    var rest := nodes - multiset{top};
    forall m | m in rest
      ensures m in nodes && m.a != top.a && rest[m] == 1
    {
      assert rest[m] == nodes[m] - (if m == top then 1 else 0);
    }
    forall a | 1 <= a <= bound && a != top.a && cursor[a] <= a
      ensures RowNode(n, a, cursor[a]) in rest
    {
      assert RowNode(n, a, cursor[a]) in nodes;
    }
  }

  /** Moving row `a`'s cursor from `b` to `b + 1`, and inserting the node (a, b + 1) if it exists, restores one node per live row. */
  lemma AdvanceRow(n: nat, bound: nat, rest: multiset<Node>, cursor: seq<nat>, a: nat, b: nat, nodes': multiset<Node>)
    requires CursorsInv(bound, cursor) && 1 <= a <= bound && 1 <= b == cursor[a] <= a
    requires forall m :: m in rest ==>
      1 <= m.a <= bound && m.a != a && m.b == cursor[m.a] && m.b <= m.a && m == RowNode(n, m.a, m.b) && rest[m] == 1
    requires forall a' :: 1 <= a' <= bound && a' != a && cursor[a'] <= a' ==> RowNode(n, a', cursor[a']) in rest
    requires |rest| + 1 == LiveRows(cursor, bound)
    requires nodes' == if b + 1 <= a then rest + multiset{RowNode(n, a, b + 1)} else rest
    ensures CursorsInv(bound, cursor[a := b + 1]) && NodesInv(n, bound, nodes', cursor[a := b + 1])
  {
    var cursor' := cursor[a := b + 1];
    var succ := RowNode(n, a, b + 1);
    assert succ !in rest;
    forall m | m in nodes'
      ensures 1 <= m.a <= bound && m.b == cursor'[m.a] && m.b <= m.a && m == RowNode(n, m.a, m.b) && nodes'[m] == 1
    {
      if m != succ || b + 1 > a {
        assert m in rest;
      }
    }
    LiveRowsUpdate(cursor, bound, a, b + 1);
  }

  lemma StepDone(bound: nat, done: seq<Pair>, cursor: seq<nat>, a: nat, b: nat)
    requires CursorsInv(bound, cursor) && DoneInv(bound, done, cursor)
    requires 1 <= a <= bound && 1 <= b <= a && cursor[a] == b
    ensures CursorsInv(bound, cursor[a := b + 1])
    ensures DoneInv(bound, done + [Pair(a, b)], cursor[a := b + 1])
  {
    var cursor' := cursor[a := b + 1];
    var done' := done + [Pair(a, b)];
    assert Pair(a, b) !in done;
    forall a', b' | 1 <= a' <= bound && 1 <= b' < cursor'[a']
      ensures Pair(a', b') in done'
    {
      if a' != a || b' != b {
        assert Pair(a', b') in done;
      }
    }
    ExtractedUpdate(cursor, bound, a, b + 1);
  }

  lemma StepOrder(n: nat, bound: nat, nodes: multiset<Node>, done: seq<Pair>, cursor: seq<nat>, top: Node,
                  nodes': multiset<Node>)
    requires CursorsInv(bound, cursor) && NodesInv(n, bound, nodes, cursor) && OrderInv(n, nodes, done)
    requires IsTop(top, nodes) && nodes' == NextNodes(n, nodes, top)
    ensures OrderInv(n, nodes', done + [Pair(top.a, top.b)])
  {
    assert top == RowNode(n, top.a, top.b);
    NextAbove(n, nodes, done, top, nodes');
    SortedSnoc(n, done, Pair(top.a, top.b));
  }

  /** Every node of the next frontier has a sum no smaller than the extracted top's, and so than every earlier pair's. */
  lemma NextAbove(n: nat, nodes: multiset<Node>, done: seq<Pair>, top: Node, nodes': multiset<Node>)
    requires OrderInv(n, nodes, done) && IsTop(top, nodes) && top == RowNode(n, top.a, top.b)
    requires nodes' == NextNodes(n, nodes, top)
    ensures forall m :: m in nodes' ==> top.sum <= m.sum && forall i :: 0 <= i < |done| ==> Sum(n, done[i]) <= m.sum
  {
    var succ := RowNode(n, top.a, top.b + 1);
    assert nodes' == if top.b + 1 <= top.a then nodes - multiset{top} + multiset{succ} else nodes - multiset{top};
    SumGrowsAlongRow(n, top.a, top.b);
    forall m | m in nodes'
      ensures top.sum <= m.sum && forall i :: 0 <= i < |done| ==> Sum(n, done[i]) <= m.sum
    {
      if m != succ || top.b + 1 > top.a {
        assert m in nodes;
      }
    }
  }

  /** Appending a pair whose sum is no smaller than every earlier one keeps the order sorted by sum. */
  lemma SortedSnoc(n: nat, done: seq<Pair>, c: Pair)
    requires SortedBySum(n, done) && forall i :: 0 <= i < |done| ==> Sum(n, done[i]) <= Sum(n, c)
    ensures SortedBySum(n, done + [c])
  {
    var done' := done + [c];
    forall i, j | 0 <= i < j < |done'|
      ensures Sum(n, done'[i]) <= Sum(n, done'[j])
    {
      if j == |done| {
        assert done'[i] == done[i];
      }
    }
  }

  /**
   * The hit counter after `count` records under the cap `maxHits` (0 means
   * no cap): only a capped search counts, and `stop` says the cap was reached.
   */
  predicate Counted(maxHits: nat, base: nat, count: nat, hits: nat, stop: bool)
  {
    if maxHits > 0 then hits == base + count && (if stop then hits == maxHits else hits < maxHits)
    else hits == base && !stop
  }

  /**
   * The inner loop of a run: `c` meets the earlier pairs `run` of its sum in
   * order; every pair other than `c` yields one pushed record. With a cap,
   * every push counts one hit and the loop stops at the `maxHits`-th.
   */
  method EmitRun(sink: ResultsBuffer, run: seq<Pair>, c: Pair, sum: nat, maxHits: nat, hits0: nat)
    returns (hits: nat, stop: bool, ghost out: seq<Hit>)
    requires sink.Valid()
    requires forall p :: p in run ==> p.a <= INT_MAX && p.b <= INT_MAX
    requires c.a <= INT_MAX && c.b <= INT_MAX && sum <= U128_MAX
    requires maxHits > 0 ==> hits0 < maxHits
    modifies sink, sink.buffer
    ensures sink.Valid()
    ensures sink.Output() == old(sink.Output()) + Records(out)
    ensures out <= RunHits(run, c, sum)
    ensures Counted(maxHits, hits0, |out|, hits, stop)
    ensures !stop ==> out == RunHits(run, c, sum)
  {
    hits, stop, out := hits0, false, [];
    ghost var text0 := sink.Output();
    var i := 0;
    while i < |run| && !stop
      invariant 0 <= i <= |run|
      invariant sink.Valid() && sink.Output() == text0 + Records(out)
      invariant out == RunHits(run[..i], c, sum)
      invariant Counted(maxHits, hits0, |out|, hits, stop)
    {
      hits, stop, out := EmitStep(sink, run, i, c, sum, maxHits, hits0, hits, text0, out);
      i := i + 1;
    }
    RunHitsPrefix(run, c, sum, i);
    assert !stop ==> run[..i] == run;
  }

  /** One iteration of the run loop: the `i`-th pair of the run, if it is not `c` itself, is pushed and counted. */
  method EmitStep(sink: ResultsBuffer, run: seq<Pair>, i: nat, c: Pair, sum: nat, maxHits: nat, hits0: nat,
                  hitsIn: nat, ghost text0: string, ghost out0: seq<Hit>)
    returns (hits: nat, stop: bool, ghost out: seq<Hit>)
    requires i < |run| && run[i].a <= INT_MAX && run[i].b <= INT_MAX
    requires c.a <= INT_MAX && c.b <= INT_MAX && sum <= U128_MAX
    requires sink.Valid() && sink.Output() == text0 + Records(out0)
    requires out0 == RunHits(run[..i], c, sum)
    requires Counted(maxHits, hits0, |out0|, hitsIn, false)
    modifies sink, sink.buffer
    ensures sink.Valid() && sink.Output() == text0 + Records(out)
    ensures out == RunHits(run[..i + 1], c, sum)
    ensures Counted(maxHits, hits0, |out|, hits, stop)
  {
    var p := run[i];
    RunHitsSnoc(run, i, c, sum);
    if p != c {
      PushHit(sink, Hit(p, c, sum), text0, out0);
      out := out0 + [Hit(p, c, sum)];
      hits, stop := CountHit(maxHits, hits0, |out0|, hitsIn);
    } else {
      hits, stop, out := hitsIn, false, out0;
    }
  }

  /** Going one pair further along the run adds that pair's record, unless it is `c` itself. */
  lemma RunHitsSnoc(run: seq<Pair>, i: nat, c: Pair, sum: nat)
    requires i < |run|
    ensures RunHits(run[..i + 1], c, sum) == RunHits(run[..i], c, sum) + (if run[i] != c then [Hit(run[i], c, sum)] else [])
  {
    assert run[..i + 1][..i] == run[..i];
  }

  /** `hits += 1` under a cap, and whether the cap is reached: `hits >= MAX_HITS`. */
  method CountHit(maxHits: nat, hits0: nat, ghost count: nat, hitsIn: nat) returns (hits: nat, stop: bool)
    requires Counted(maxHits, hits0, count, hitsIn, false)
    ensures Counted(maxHits, hits0, count + 1, hits, stop)
  {
    hits, stop := hitsIn, false;
    if maxHits > 0 {
      hits := hits + 1;
      stop := hits >= maxHits;
    }
  }

  /** `results.push` of one record, seen as extending the pushed text by that record. */
  method PushHit(sink: ResultsBuffer, h: Hit, ghost text0: string, ghost pushed: seq<Hit>)
    requires sink.Valid() && sink.Output() == text0 + Records(pushed)
    requires h.p.a <= INT_MAX && h.p.b <= INT_MAX && h.c.a <= INT_MAX && h.c.b <= INT_MAX && h.sum <= U128_MAX
    modifies sink, sink.buffer
    ensures sink.Valid() && sink.Output() == text0 + Records(pushed + [h])
  {
    var flushed := sink.Push(h.p.a, h.p.b, h.c.a, h.c.b, h.sum);
    RecordsSnoc(pushed, h);
    AppendAssoc(text0, Records(pushed), HitRecord(h));
  }

  /**
   * The search loop of `main`, from seeding the frontier to exhaustion or
   * the cap. `done` is the extraction order and `emitted` the records pushed
   * to `sink`, in order.
   */
  method Search(n: nat, bound: nat, maxHits: nat, pows: seq<nat>, sink: ResultsBuffer)
    returns (hits: nat, stoppedEarly: bool, ghost done: seq<Pair>, ghost emitted: seq<Hit>)
    requires IsPowTable(pows, n, bound)
    requires bound < INT_MAX && 2 * Pow(bound, n) <= U128_MAX
    requires sink.Valid()
    modifies sink, sink.buffer
    ensures sink.Valid()
    ensures sink.Output() == old(sink.Output()) + Records(emitted)
    ensures Distinct(done) && SortedBySum(n, done)
    ensures forall i :: 0 <= i < |done| ==> InRange(bound, done[i])
    ensures forall p, i :: InRange(bound, p) && p !in done && 0 <= i < |done| ==> Sum(n, done[i]) <= Sum(n, p)
    ensures emitted <= AllHits(n, done)
    ensures forall h :: h in emitted ==>
      InRange(bound, h.p) && InRange(bound, h.c) && h.p != h.c && Sum(n, h.p) == h.sum == Sum(n, h.c)
    ensures maxHits > 0 ==> hits == |emitted|
    ensures maxHits == 0 ==> hits == 0 && !stoppedEarly
    ensures stoppedEarly ==> maxHits > 0 && |emitted| == maxHits
    ensures stoppedEarly ==> |done| > 0 && AllHits(n, done[..|done| - 1]) <= emitted
    ensures !stoppedEarly ==> emitted == AllHits(n, done) && (maxHits > 0 ==> |emitted| < maxHits)
    ensures !stoppedEarly ==> |done| == Triangle(bound) && forall p :: InRange(bound, p) ==> p in done
    ensures !stoppedEarly ==> forall a :: 1 <= a <= bound ==> RowExtractions(done, a) == a
  {
    var pq;
    ghost var cursor;
    pq, cursor := Seed(n, bound, pows);
    var prevSum: nat := U128_MAX;
    var prevPairs: seq<Pair> := [];
    hits, stoppedEarly, done, emitted := 0, false, [], [];
    ghost var text0 := sink.Output();
    while pq.nodes != multiset{}
      invariant SearchInv(n, bound, maxHits, pq.nodes, done, cursor, emitted, prevSum, prevPairs, hits)
      invariant sink.Valid() && sink.Output() == text0 + Records(emitted)
      decreases Triangle(bound) - |done|
    {
      var stop;
      ghost var nodes;
      ghost var before := done;
      prevSum, prevPairs, hits, stop, nodes, done, cursor, emitted :=
        Step(pq, sink, n, bound, maxHits, pows, text0, prevSum, prevPairs, hits, pq.nodes, done, cursor, emitted);
      if stop {
        stoppedEarly := true;
        assert done[..|done| - 1] == before;
        HitsPrefixSound(n, bound, done, emitted);
        return;
      }
    }
    FinishedRows(n, bound, done, cursor);
    forall a | 1 <= a <= bound
      ensures RowExtractions(done, a) == a
    {
      RowExhausted(bound, done, a);
    }
    forall h | h in emitted
      ensures InRange(bound, h.p) && InRange(bound, h.c) && h.p != h.c && Sum(n, h.p) == h.sum == Sum(n, h.c)
    {
      HitSound(n, done, h);
    }
  }

  /** The heap initialisation of `main`: one node (a, 1) per row a, with nothing extracted. */
  method Seed(n: nat, bound: nat, pows: seq<nat>) returns (pq: MinHeap, ghost cursor: seq<nat>)
    requires IsPowTable(pows, n, bound)
    ensures fresh(pq)
    ensures SearchInv(n, bound, 0, pq.nodes, [], cursor, [], U128_MAX, [], 0)
  {
    pq := new MinHeap();
    cursor := seq(bound + 1, _ => 1);
    for a := 1 to bound + 1
      invariant forall m :: m in pq.nodes ==> 1 <= m.a < a && m == RowNode(n, m.a, 1) && pq.nodes[m] == 1
      invariant forall a' :: 1 <= a' < a ==> RowNode(n, a', 1) in pq.nodes
      invariant |pq.nodes| == a - 1
    {
      assert RowNode(n, a, 1) !in pq.nodes;
      var m := MakeNode(pows, n, bound, a, 1);
      pq.Push(m);
    }
    InitInv(n, bound, pq.nodes, cursor);
  }

  /** The state of the run accumulator: `prevPairs` is the run of `prevSum`, the last extracted sum (or the sentinel). */
  ghost predicate RunInv(n: nat, done: seq<Pair>, prevSum: nat, prevPairs: seq<Pair>)
  {
    && prevPairs == SameSum(n, done, prevSum)
    && (done != [] ==> prevSum == Sum(n, done[|done| - 1]))
    && (done == [] ==> prevSum == U128_MAX)
  }

  /** The invariant of the search loop: a well-formed frontier, the full report so far, and the run accumulator. */
  ghost predicate SearchInv(n: nat, bound: nat, maxHits: nat, nodes: multiset<Node>, done: seq<Pair>, cursor: seq<nat>,
                            emitted: seq<Hit>, prevSum: nat, prevPairs: seq<Pair>, hits: nat)
  {
    // Bound to a name so that the verifier does not split the predicate into its conjuncts at every call site.
    var holds :=
      && FrontierInv(n, bound, nodes, done, cursor)
      && |done| <= Triangle(bound)
      && emitted == AllHits(n, done)
      && RunInv(n, done, prevSum, prevPairs)
      && Counted(maxHits, 0, |emitted|, hits, false);
    holds
  }

  /** What holds of the extraction order in every state, also after the search stops at the cap. */
  ghost predicate DoneFacts(n: nat, bound: nat, done: seq<Pair>)
  {
    && Distinct(done) && SortedBySum(n, done) && (forall i :: 0 <= i < |done| ==> InRange(bound, done[i]))
    && ExtractedFirst(n, bound, done)
  }

  /** No pair in range that is still to come has a smaller sum than an extracted one: `done` is a prefix of the sum order. */
  ghost predicate ExtractedFirst(n: nat, bound: nat, done: seq<Pair>)
  {
    // Bound to a name so that the verifier does not split the predicate into its conjuncts at every call site.
    var holds := forall p, i :: InRange(bound, p) && p !in done && 0 <= i < |done| ==> Sum(n, done[i]) <= Sum(n, p);
    holds
  }

  /** Every pair not yet extracted lies at or right of its row's cursor, so its sum is at least its row's frontier node's. */
  lemma FrontierExtractedFirst(n: nat, bound: nat, nodes: multiset<Node>, done: seq<Pair>, cursor: seq<nat>)
    requires FrontierInv(n, bound, nodes, done, cursor)
    ensures ExtractedFirst(n, bound, done)
  {
    forall p, i | InRange(bound, p) && p !in done && 0 <= i < |done|
      ensures Sum(n, done[i]) <= Sum(n, p)
    {
      assert Pair(p.a, p.b) == p;
      assert cursor[p.a] <= p.b;
      assert RowNode(n, p.a, cursor[p.a]) in nodes;
      PowMonotone(cursor[p.a], p.b, n);
    }
  }

  /**
   * One iteration of the search loop: extract a top node, run the run logic
   * on its pair and, unless the cap was reached, insert the next node of
   * its row.
   */
  method Step(pq: MinHeap, sink: ResultsBuffer, n: nat, bound: nat, maxHits: nat, pows: seq<nat>, ghost text0: string,
              prevSum: nat, prevPairs: seq<Pair>, hits0: nat, ghost nodes0: multiset<Node>,
              ghost done0: seq<Pair>, ghost cursor0: seq<nat>, ghost emitted0: seq<Hit>)
    returns (sum': nat, run': seq<Pair>, hits: nat, stop: bool, ghost nodes: multiset<Node>,
             ghost done: seq<Pair>, ghost cursor: seq<nat>, ghost emitted: seq<Hit>)
    requires IsPowTable(pows, n, bound)
    requires bound < INT_MAX && 2 * Pow(bound, n) <= U128_MAX
    requires pq.nodes == nodes0 != multiset{}
    requires SearchInv(n, bound, maxHits, nodes0, done0, cursor0, emitted0, prevSum, prevPairs, hits0)
    requires sink.Valid() && sink.Output() == text0 + Records(emitted0)
    modifies pq, sink, sink.buffer
    ensures pq.nodes == nodes
    ensures sink.Valid() && sink.Output() == text0 + Records(emitted)
    ensures |done| == |done0| + 1 && DoneFacts(n, bound, done)
    ensures done[..|done0|] == done0
    ensures stop ==> AllHits(n, done0) <= emitted <= AllHits(n, done) && Counted(maxHits, 0, |emitted|, hits, true)
    ensures !stop ==> SearchInv(n, bound, maxHits, nodes, done, cursor, emitted, sum', run', hits)
  {
    var curr := pq.Pop();
    assert IsTop(curr, nodes0);
    var c := Pair(curr.a, curr.b);
    StepFacts(n, bound, maxHits, nodes0, done0, cursor0, emitted0, prevSum, prevPairs, hits0, curr);
    sum', run', hits, stop, emitted :=
      ReportPair(sink, n, done0, c, curr.sum, prevSum, prevPairs, maxHits, hits0, emitted0, text0);
    done := done0 + [c];
    cursor := cursor0[curr.a := curr.b + 1];
    nodes := if stop then nodes0 - multiset{curr} else NextNodes(n, nodes0, curr);
    Advance(pq, pows, n, bound, curr, stop, nodes0);
  }

  /** Unless the cap stopped the search, `pq.emplace(a, b + 1, pows[a] + pows[b + 1])` when row a is not finished. */
  method Advance(pq: MinHeap, pows: seq<nat>, n: nat, bound: nat, top: Node, stop: bool, ghost nodes0: multiset<Node>)
    requires IsPowTable(pows, n, bound) && top.a <= bound
    requires pq.nodes == nodes0 - multiset{top}
    modifies pq
    ensures pq.nodes == if stop then nodes0 - multiset{top} else NextNodes(n, nodes0, top)
  {
    if !stop && top.b + 1 <= top.a {
      var succ := MakeNode(pows, n, bound, top.a, top.b + 1);
      pq.Push(succ);
    }
  }

  /** `Node{a, b, pows[a] + pows[b]}`: the node of row a at column b, its sum read from the table. */
  method MakeNode(pows: seq<nat>, n: nat, bound: nat, a: nat, b: nat) returns (m: Node)
    requires IsPowTable(pows, n, bound) && a <= bound && b <= bound
    ensures m == RowNode(n, a, b)
  {
    m := Node(a, b, pows[a] + pows[b]);
  }

  /** The frontier after extracting `top`: its row's next node replaces it, unless the row is finished. */
  ghost function NextNodes(n: nat, nodes: multiset<Node>, top: Node): multiset<Node>
  {
    if top.b + 1 <= top.a then nodes - multiset{top} + multiset{RowNode(n, top.a, top.b + 1)} else nodes - multiset{top}
  }

  /**
   * What extracting a top node gives: a pair in range whose sum is below the
   * sentinel, an empty run when its sum is new, and the invariant of the
   * frontier, the extraction order and the run once its row has advanced.
   */
  lemma StepFacts(n: nat, bound: nat, maxHits: nat, nodes: multiset<Node>, done: seq<Pair>, cursor: seq<nat>,
                  emitted: seq<Hit>, prevSum: nat, prevPairs: seq<Pair>, hits: nat, top: Node)
    requires bound < INT_MAX && 2 * Pow(bound, n) <= U128_MAX
    requires SearchInv(n, bound, maxHits, nodes, done, cursor, emitted, prevSum, prevPairs, hits)
    requires IsTop(top, nodes)
    ensures top == RowNode(n, top.a, top.b) && InRange(bound, Pair(top.a, top.b))
    ensures top.sum < U128_MAX && top.a <= INT_MAX && top.b <= INT_MAX
    ensures forall p :: p in done ==> p.a <= INT_MAX && p.b <= INT_MAX
    ensures top.sum != prevSum ==> SameSum(n, done, top.sum) == []
    ensures var done' := done + [Pair(top.a, top.b)];
      && FrontierInv(n, bound, NextNodes(n, nodes, top), done', cursor[top.a := top.b + 1])
      && |done'| <= Triangle(bound) && DoneFacts(n, bound, done')
      && RunInv(n, done', top.sum, SameSum(n, done', top.sum))
  {
    SumBelowSentinel(n, bound, Pair(top.a, top.b));
    DoneInIntRange(bound, done);
    if top.sum != prevSum {
      NoEarlierSum(n, bound, nodes, done, cursor, top, prevSum);
    }
    var done' := done + [Pair(top.a, top.b)];
    StepInv(n, bound, nodes, done, cursor, top);
    FrontierExtractedFirst(n, bound, NextNodes(n, nodes, top), done', cursor[top.a := top.b + 1]);
    ExtractedBound(cursor[top.a := top.b + 1], bound);
    assert done'[|done'| - 1] == Pair(top.a, top.b);
  }

  /**
   * The run logic for one extracted pair `c` of sum `sum`: when `sum` equals
   * the previous sum, `c` is reported against the run so far and joins it;
   * otherwise it starts a new run of its own. With a cap, `stop` says the
   * `maxHits`-th record was pushed.
   */
  method ReportPair(sink: ResultsBuffer, n: nat, ghost done: seq<Pair>, c: Pair, sum: nat,
                    prevSum: nat, prevPairs: seq<Pair>, maxHits: nat, hits0: nat,
                    ghost emitted0: seq<Hit>, ghost text0: string)
    returns (sum': nat, run': seq<Pair>, hits: nat, stop: bool, ghost emitted: seq<Hit>)
    requires sink.Valid() && sink.Output() == text0 + Records(emitted0)
    requires sum == Sum(n, c) <= U128_MAX && c.a <= INT_MAX && c.b <= INT_MAX
    requires forall p :: p in done ==> p.a <= INT_MAX && p.b <= INT_MAX
    requires prevPairs == SameSum(n, done, prevSum)
    requires sum != prevSum ==> SameSum(n, done, sum) == []
    requires emitted0 == AllHits(n, done)
    requires Counted(maxHits, 0, |emitted0|, hits0, false)
    modifies sink, sink.buffer
    ensures sink.Valid() && sink.Output() == text0 + Records(emitted)
    ensures sum' == sum && run' == SameSum(n, done + [c], sum)
    ensures AllHits(n, done) <= emitted <= AllHits(n, done + [c])
    ensures Counted(maxHits, 0, |emitted|, hits, stop)
    ensures !stop ==> emitted == AllHits(n, done + [c])
  {
    ghost var reported := RunHits(SameSum(n, done, sum), c, sum);
    AllHitsSnoc(n, done, c);
    assert AllHits(n, done + [c]) == emitted0 + reported;
    SameSumSnoc(n, done, c, sum);
    if sum == prevSum {
      ghost var out;
      hits, stop, out := EmitRun(sink, prevPairs, c, sum, maxHits, hits0);
      TextAppend(text0, emitted0, out);
      PrefixAppend(emitted0, out, reported);
      emitted := emitted0 + out;
      sum', run' := prevSum, prevPairs + [c];
    } else {
      assert reported == [];
      assert emitted0 + reported == emitted0;
      hits, stop, emitted := hits0, false, emitted0;
      sum', run' := sum, [c];
    }
  }

  /** Every extracted pair has `int` coordinates. */
  lemma DoneInIntRange(bound: nat, done: seq<Pair>)
    requires bound < INT_MAX && forall i :: 0 <= i < |done| ==> InRange(bound, done[i])
    ensures forall p :: p in done ==> p.a <= INT_MAX && p.b <= INT_MAX
  {
  }

  /** A sum that differs from the last extracted one exceeds every extracted sum, so it starts a new, empty run. */
  lemma NoEarlierSum(n: nat, bound: nat, nodes: multiset<Node>, done: seq<Pair>, cursor: seq<nat>, curr: Node, prevSum: nat)
    requires FrontierInv(n, bound, nodes, done, cursor)
    requires curr in nodes
    requires done != [] ==> prevSum == Sum(n, done[|done| - 1])
    requires curr.sum != prevSum
    ensures forall i :: 0 <= i < |done| ==> Sum(n, done[i]) < curr.sum
    ensures SameSum(n, done, curr.sum) == []
  {
    forall i | 0 <= i < |done|
      ensures Sum(n, done[i]) < curr.sum
    {
      assert Sum(n, done[i]) <= Sum(n, done[|done| - 1]) <= curr.sum;
    }
    SameSumAbove(n, done, curr.sum);
  }

  lemma SameSumSnoc(n: nat, s: seq<Pair>, p: Pair, v: nat)
    ensures SameSum(n, s + [p], v) == SameSum(n, s, v) + (if Sum(n, p) == v then [p] else [])
  {
    assert (s + [p])[..|s|] == s;
  }

  /** No pair of `s` reaches the sum `v`: the run of `v` in `s` is empty. */
  lemma {:induction false} SameSumAbove(n: nat, s: seq<Pair>, v: nat)
    requires forall i :: 0 <= i < |s| ==> Sum(n, s[i]) < v
    ensures SameSum(n, s, v) == []
    decreases |s|
  {
    if s != [] {
      SameSumAbove(n, s[..|s| - 1], v);
    }
  }

  /** When the search stops at the cap, what it pushed is a prefix of the full report, and sound. */
  lemma HitsPrefixSound(n: nat, bound: nat, done: seq<Pair>, emitted: seq<Hit>)
    requires forall i :: 0 <= i < |done| ==> InRange(bound, done[i])
    requires emitted <= AllHits(n, done)
    ensures forall h :: h in emitted ==>
      InRange(bound, h.p) && InRange(bound, h.c) && h.p != h.c && Sum(n, h.p) == h.sum == Sum(n, h.c)
  {
    forall h | h in emitted
      ensures InRange(bound, h.p) && InRange(bound, h.c) && h.p != h.c && Sum(n, h.p) == h.sum == Sum(n, h.c)
    {
      var k :| 0 <= k < |emitted| && emitted[k] == h;
      assert AllHits(n, done)[k] == h;
      HitSound(n, done, h);
    }
  }

  /** With the frontier empty every row is exhausted: all pairs in range were extracted. */
  lemma FinishedRows(n: nat, bound: nat, done: seq<Pair>, cursor: seq<nat>)
    requires FrontierInv(n, bound, multiset{}, done, cursor)
    ensures |done| == Triangle(bound)
    ensures forall p :: InRange(bound, p) ==> p in done
  {
    assert forall a :: 1 <= a <= bound ==> cursor[a] == a + 1 by {
      forall a | 1 <= a <= bound
        ensures cursor[a] == a + 1
      {
        assert RowNode(n, a, cursor[a]) !in multiset{};
      }
    }
    ExtractedBound(cursor, bound);
    forall p | InRange(bound, p)
      ensures p in done
    {
      assert Pair(p.a, p.b) in done;
    }
  }

  /** How many of the extracted pairs lie in row `a`. */
  function RowExtractions(done: seq<Pair>, a: nat): nat
  {
    if done == [] then 0
    else RowExtractions(done[..|done| - 1], a) + (if done[|done| - 1].a == a then 1 else 0)
  }

  /** The distinct pairs of row `a` among `done`. */
  ghost function InRow(done: seq<Pair>, a: nat): set<Pair>
  {
    set p | p in done && p.a == a
  }

  /** The first `k` pairs of row `a`. */
  ghost function RowPrefix(a: nat, k: nat): set<Pair>
  {
    set b | 1 <= b <= k :: Pair(a, b)
  }

  /** Without repetitions, counting the pairs of a row counts its distinct pairs. */
  lemma {:induction false} RowExtractionsCount(done: seq<Pair>, a: nat)
    requires Distinct(done)
    ensures RowExtractions(done, a) == |InRow(done, a)|
  {
    if done != [] {
      var init, last := done[..|done| - 1], done[|done| - 1];
      assert done == init + [last];
      RowExtractionsCount(init, a);
      assert last !in init by {
        forall i | 0 <= i < |init|
          ensures init[i] != last
        {
          assert done[i] == init[i];
        }
      }
      if last.a == a {
        assert InRow(done, a) == InRow(init, a) + {last};
      } else {
        assert InRow(done, a) == InRow(init, a);
      }
    }
  }

  lemma {:induction false} RowPrefixSize(a: nat, k: nat)
    ensures |RowPrefix(a, k)| == k
  {
    if k > 0 {
      RowPrefixSize(a, k - 1);
      assert RowPrefix(a, k) == RowPrefix(a, k - 1) + {Pair(a, k)};
      assert Pair(a, k) !in RowPrefix(a, k - 1);
    }
  }

  /** Once every pair in range was extracted, each without repetition, row `a` was extracted exactly `a` times. */
  lemma RowExhausted(bound: nat, done: seq<Pair>, a: nat)
    requires Distinct(done) && forall i :: 0 <= i < |done| ==> InRange(bound, done[i])
    requires forall p :: InRange(bound, p) ==> p in done
    requires 1 <= a <= bound
    ensures RowExtractions(done, a) == a
  {
    RowExtractionsCount(done, a);
    RowPrefixSize(a, a);
    assert InRow(done, a) == RowPrefix(a, a) by {
      forall p | p in InRow(done, a)
        ensures p in RowPrefix(a, a)
      {
        var i :| 0 <= i < |done| && done[i] == p;
        assert InRange(bound, done[i]);
      }
      forall p | p in RowPrefix(a, a)
        ensures p in InRow(done, a)
      {
        assert InRange(bound, p);
      }
    }
  }
}
