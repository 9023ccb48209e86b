# Taxicab solver, modelled in Dafny

The program finds every solution of a^N + b^N = c^N + d^N with
1 <= b <= a <= B and 1 <= d <= c <= B. It produces the pairs (a, b) of the
staircase in non-decreasing order of a^N + b^N. It does this with a
priority queue that holds one node per row a. The node sits at the row's
next column b.

Pairs extracted with the same sum form a run. Each newly extracted pair is
reported against every earlier pair of its run. Each report writes a text
record "a b c d sum" into a fixed-size character buffer. The buffer is
flushed to the output file when at most 200 characters are left, and
once more when it is destroyed. An optional cap stops the whole program
after MAX_HITS records. Sums are 128-bit unsigned integers, and
`formatU128` prints them in chunks of 19 digits.

The model consists of seven modules:

- `Powers` (`powers.dfy`) covers `powN` and `precompute_pows`.
  - `powN` is a loop on u128 that wraps modulo 2^128.
  - Both are proved equal to exact powers reduced modulo 2^128.
  - Below the overflow bound the table entries are proved to be the exact powers.
- `Decimal` (`decimal.dfy`) covers `formatU128`, proved equal to the shortest
  decimal text of its argument.
  - That text is well formed.
  - It parses back to the value, and every canonical digit string is the text of its value.
  - The 19-digit chunking is exact.
- `ResultsSink` (`results_buffer.dfy`) is the class `ResultsBuffer`. It has
  the buffer as an `array<char>`, the fill position `pos` and the file's
  contents as a ghost string.
  - `Push`, `Flush` and the destructor `Close` state both the new text and the exact flush condition.
  - Everything pushed so far is always `file + buffer[..pos]`.
  - A record never overruns the buffer's 200-character margin.
- `Frontier` (`frontier.dfy`) covers `Node`, the comparator `SumCmp`, and the
  priority queue as a class over a multiset of nodes.
  - `Pop` returns a node of smallest sum.
- `Collisions` (`collisions.dfy`) is the reference definition of what the
  search reports. `AllHits(n, done)` is the sequence of records emitted when
  the pairs `done` are extracted in that order.
  - Its records are proved sound, complete, free of repetition, and never reported in both orders.
- `Search` (`search.dfy`) is the search loop of `main` as imperative code.
  - The loop is split into `Search`, `Step`, `ReportPair`, `EmitRun` and `Advance`.
  - It carries a ghost extraction order `done` and ghost row cursors.
  - The loop invariant `SearchInv` covers:
    - the frontier: one node per live row, at its cursor;
    - the extraction order: distinct, sorted by sum, exactly the pairs left of the cursors;
    - the run accumulator: `prev_pairs` is the run of `prev_sum`;
    - the text pushed so far: the records of `AllHits(done)`, or a prefix of them once the cap is reached.
- `Taxicab` (`taxicab.dfy`) is the configuration and `main` after the file is
  open: the power table, the search, and the final flush.

## Model

| member | source | states |
|---|---|---|
| Powers.PowN | main.cpp:131-138 | multiplying 1 by x, n times, in u128 gives x^n reduced modulo 2^128 |
| Powers.PrecomputePows | main.cpp:141-148 | the table has bound + 1 entries, and entry i is i^n modulo 2^128 for every 0 <= i <= bound |
| Powers.PowNoWrap | main.cpp:143-145 | when bound^n < 2^128, every table entry i <= bound is the exact power i^n |
| Powers.PowMonotone | main.cpp:141-148 | i <= j implies i^n <= j^n, so bound^n bounds every entry |
| Decimal.FormatU128 | main.cpp:88-98 | the text written is the shortest decimal text of the value, on both branches of the 2^64 test |
| Decimal.ChunkSplit | main.cpp:89-93 | above UINT64_MAX the leading part value / 10^19 is non-zero, and the text is its text followed by the remainder zero-padded to 19 digits |
| Decimal.PaddedChunk | main.cpp:93 | `%019llu` of a value below 10^19 is exactly 19 digits and parses back to the value |
| Decimal.DecWellFormed | main.cpp:96 | the decimal text is non-empty and all digits; it starts with '0' iff the value is 0, and then it is "0" |
| Decimal.DecRoundTrip | main.cpp:88-98 | parsing the decimal text of v gives v |
| Decimal.DecCanonical | main.cpp:88-98 | every non-empty digit string without a leading zero, or "0", is the text of its value (the inverse direction of the round trip) |
| Decimal.DecLength | main.cpp:88-98 | a value below 10^k has at most k digits |
| ResultsSink.RecordFits | main.cpp:108-112 | a record of int coordinates and a u128 sum is at most 84 characters, less than the 200-character margin |
| ResultsSink.CoordsLength | main.cpp:109 | the `"%d %d %d %d "` text of int coordinates takes at most 11 characters each |
| ResultsSink.ResultsBuffer.constructor | main.cpp:101 | a new buffer is empty (`pos` is 0) over an empty file, with the given capacity |
| ResultsSink.ResultsBuffer.Push | main.cpp:104-118 | the pushed text grows by exactly the record; the result is true iff the fill position reached capacity - 200, in which case the file holds everything pushed and `pos` is 0; otherwise the file is unchanged and `pos` grows by the record's length |
| ResultsSink.ResultsBuffer.Append | main.cpp:109-111 | the buffer's filled prefix grows by the coordinates, the decimal sum and a newline |
| ResultsSink.ResultsBuffer.Put | main.cpp:109-110 | copying a formatted string into the buffer at `pos` extends the filled prefix by that string |
| ResultsSink.ResultsBuffer.FlushIfFull | main.cpp:112-117 | flushes exactly when `pos >= capacity - 200`, and reports whether it did |
| ResultsSink.ResultsBuffer.Flush | main.cpp:120-128 | the file grows by the filled prefix and `pos` becomes 0; with `pos == 0` the file is unchanged |
| ResultsSink.ResultsBuffer.Close | main.cpp:102 | after the destructor's flush the file holds everything pushed |
| Frontier.SumCmpOrder | main.cpp:75-79 | the comparator `x.sum > y.sum` is a strict weak order: irreflexive, transitive, and two nodes are unordered iff their sums are equal |
| Frontier.TopIsMinimum | main.cpp:75-79 | a node is the top under `SumCmp` iff it is in the queue and no node has a smaller sum |
| Frontier.TopExists | main.cpp:75-79 | every non-empty frontier has a node that no other node outranks under `SumCmp` |
| Frontier.MinHeap.constructor | main.cpp:171 | the queue starts empty |
| Frontier.MinHeap.Push | main.cpp:222 | `emplace` adds exactly one node |
| Frontier.MinHeap.Pop | main.cpp:186-187 | `top` then `pop` returns a node whose sum is at most every sum in the queue, and removes exactly one copy of it |
| Collisions.SameSum | main.cpp:212-217 | the run of a sum holds exactly the extracted pairs of that sum, in order, without repetition if the extraction had none |
| Collisions.RunHits | main.cpp:191-195 | the records of one extracted pair c are exactly one per earlier run pair other than c, without repetition |
| Collisions.AllHitsSnoc | main.cpp:190-212 | extracting one more pair appends exactly its records against the earlier pairs of its sum |
| Collisions.RunHitsPrefix | main.cpp:191-207 | stopping the inner loop part-way emits a prefix of that pair's records |
| Collisions.HitSound | main.cpp:190-195 | every record couples two different extracted pairs whose sums both equal the recorded sum |
| Collisions.HitComplete | main.cpp:190-212 | two different extracted pairs of equal sum are reported, the earlier one first |
| Collisions.HitsDistinct | main.cpp:191-195 | extraction without repetition emits no record twice |
| Collisions.HitsNoReverse | main.cpp:191-212 | extraction without repetition never reports a couple in both orders |
| Search.TriangleClosedForm | main.cpp:174-176 | 2 * (1 + ... + B) == B * (B + 1): the number of pairs of the staircase |
| Search.InitInv | main.cpp:174-176 | seeding (a, 1) for every row establishes the frontier invariant with nothing extracted |
| Search.Seed | main.cpp:171-184 | a fresh queue with one node (a, 1) per row, sums from the table; the search invariant holds with nothing extracted, the sentinel as previous sum, an empty run and no hits |
| Search.FrontierBounded | main.cpp:220-223 | the frontier never holds two nodes of one row, so at most B nodes |
| Search.SumGrowsAlongRow | main.cpp:220-222 | a row's next column has a sum no smaller than the current one |
| Search.SumBelowSentinel | main.cpp:178 | under the overflow bound every sum is strictly below U128_MAX, so the sentinel never equals a real sum |
| Search.StepInv | main.cpp:185-223 | extracting a top node, advancing its row and inserting its successor preserves the frontier invariant |
| Search.StepNodes | main.cpp:186-223 | after the pop and the successor insert the frontier again holds exactly one node per unfinished row, at its cursor |
| Search.RemoveTop | main.cpp:186-187 | after the pop, no node of the popped row is left and every other row keeps its node |
| Search.AdvanceRow | main.cpp:220-223 | inserting (a, b + 1) when b + 1 <= a restores one node per live row |
| Search.StepDone | main.cpp:186-189 | the extracted pair is new, and the extraction order stays exactly the pairs left of the cursors |
| Search.StepOrder | main.cpp:185-223 | extracted sums stay non-decreasing, and no frontier node is below an extracted sum |
| Search.NextAbove | main.cpp:220-222 | every node of the next frontier has a sum no smaller than the extracted one |
| Search.SortedSnoc | main.cpp:186-189 | appending a pair whose sum is no smaller than all earlier ones keeps the order sorted by sum |
| Search.StepFacts | main.cpp:186-190 | the popped node is an in-range pair of int coordinates with its exact sum below the sentinel; a sum different from `prev_sum` has an empty run so far |
| Search.NoEarlierSum | main.cpp:213-217 | a sum different from the last extracted one exceeds every extracted sum, so it has no extracted pair and clearing the run is exact |
| Search.SameSumAbove | main.cpp:213-217 | when no extracted pair reaches a sum, its run is empty |
| Search.SameSumSnoc | main.cpp:212 | the run of a sum grows by the extracted pair exactly when the pair has that sum |
| Search.DoneInIntRange | main.cpp:189 | every extracted pair has int coordinates |
| Search.ReportPair | main.cpp:190-218 | the records pushed are those of the extracted pair against its run, a prefix of them when the cap is reached, after everything earlier extractions report; the new run is the run of the current sum |
| Search.EmitRun | main.cpp:191-210 | pushes a prefix of the pair's records, all of them unless the cap stopped it, and counts one hit per push under a cap |
| Search.EmitStep | main.cpp:192-208 | the i-th run pair, unless it is the current pair itself, is pushed and counted |
| Search.RunHitsSnoc | main.cpp:192-195 | one more run pair adds its record exactly when it is not the current pair |
| Search.CountHit | main.cpp:197-207 | under a cap, `hits` grows by one and the loop stops exactly when `hits >= MAX_HITS` |
| Search.PushHit | main.cpp:194-195 | the pushed text grows by the record `prev.a prev.b curr.a curr.b sum` |
| Search.MakeNode | main.cpp:222 | the node built from the table is the row's node with its exact sum |
| Search.Advance | main.cpp:220-223 | the successor is inserted iff the cap did not stop the search and the row is not exhausted |
| Search.Step | main.cpp:186-223 | one iteration extracts one new pair, keeping the extraction a prefix of the sum order; it keeps the search invariant, or, stopping at the cap, leaves everything earlier extractions report followed by a prefix of the new pair's records, with exactly MAX_HITS records |
| Search.HitsPrefixSound | main.cpp:204-207 | what was pushed before the cap is sound |
| Search.FinishedRows | main.cpp:185 | when the queue is empty, every pair in range was extracted, B(B + 1)/2 in total |
| Search.FrontierExtractedFirst | main.cpp:185-223 | while the queue keeps one node per live row at its cursor and nothing below an extracted sum, every pair not yet extracted has a sum at least every extracted one |
| Search.RowExhausted | main.cpp:220-223 | when the queue is empty, row a was extracted exactly a times |
| Search.Search | main.cpp:170-224 | the pushed text is the records of `emitted`, sound and a prefix of `AllHits(done)`; the extraction is distinct, in range, sorted by sum and a prefix of the sum order (no pair left out has a smaller sum than an extracted one); at the cap `emitted` has exactly MAX_HITS records and holds everything reported before the last extraction; otherwise it is all of `AllHits(done)`, every pair was extracted and row a exactly a times |
| Taxicab.ConfigurationFits | main.cpp:46-49 | N = 4 and B = 1001805 keep 2 * B^4 below 2^128 and B below INT_MAX, and the 512 KiB buffer exceeds the margin |
| Taxicab.FindSolutions | main.cpp:162-225 | the file holds the records emitted, each sound, distinct, never in both orders; at the cap exactly MAX_HITS of them, including every couple whose sum is below the last extracted sum, and no unextracted pair has a smaller sum than an extracted one; otherwise every couple of different in-range pairs with equal sums is reported once |
| Taxicab.MetInOrder | main.cpp:190-212 | two different extracted pairs of equal sum are reported in one or the other order |
| Taxicab.ReportedBelowLast | main.cpp:190-207 | at the cap, every couple of different in-range pairs with equal sums below the last extracted sum was reported |

## Left out

- Command-line handling and opening the output file (main.cpp:151-160) are not modelled. `FindSolutions` starts with the file open and empty.
- Console output is left out: the startup messages, the stage markers and the progress line every UPDATE_INTERVAL hits (main.cpp:164-169, 173, 182-183, 199-202, 205).
- `sprintf_nowarn` (main.cpp:62-68) is a compiler-pragma wrapper. Its formatting is modelled by `Dec` and `Padded`, and the NUL terminator `sprintf` writes after each text is not modelled.
- The internals of `std::priority_queue` are not modelled. `MinHeap` states only what `emplace`, `top` and `pop` promise. `prev_pairs.reserve(8)` (main.cpp:180) has no observable effect.
- Which of several nodes with equal sums the queue returns first is not fixed. The model lets `Pop` return any node of smallest sum, so the order of records within a run is that extraction order.
- Search.Search: sums are unbounded naturals. The search requires 2 * bound^n <= U128_MAX and bound < INT_MAX, under which the source's u128 additions and int coordinates cannot wrap. Configurations that would wrap are outside the model. `powN` itself models the wrap.
- ResultsSink.ResultsBuffer.Push: it takes its four coordinates as naturals, while `push` takes signed `int`s, which `%d` would print with a '-' when negative. The only caller (main.cpp:194) passes coordinates in 1..B, so no negative value reaches it.
- Failed writes to the output file are not modelled. The file contents are a ghost string that `Flush` extends.
- Taxicab.FindSolutions: the file contents are a ghost out-parameter, because writing the file is I/O.
- The body of the `while` loop is one loop in the source. The model splits it into the methods `Step`, `ReportPair`, `EmitRun`, `EmitStep` and `Advance`, and the inner `for` loop is `EmitRun` with `EmitStep` as its body.
- On the cap, the code returns from inside the inner loop (main.cpp:204-207), before the successor of the popped node is inserted (main.cpp:220-223). The model does the same: `Advance` inserts nothing once `stop` is set.
- The comment on `precompute_pows` (main.cpp:140) says 0 < a < B. The code fills entries 0..B, and the model follows the code.
- test.py is not part of this model. It validates a results file against a table downloaded over the network, and it uses the exponent 3 while main.cpp uses 4.
