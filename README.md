# A verified model of the tsp solver core

This project models, in Dafny, the core of a small travelling-salesman
solver written in Rust. The repository holds two snapshots of the solver:
`src/` (the current one) and `tsp-rust/` (an older one). Both are
modelled, each file against its own text:

- **The lexicographic brute force** of `src/algo/brute_force.rs`.
  `next_permutation` is the in-place lexicographic successor (Knuth's
  Algorithm L). `BruteForce::step` advances one permutation per call and
  keeps the shortest closed tour seen so far.
- **The swap-based brute force** of `tsp-rust/`. `permute` and
  `get_permutations` build all n! permutations by swap, recurse and swap
  back. `BruteForce::step` walks that list one tour per call.
  `run_brute_force` scores every permutation as an open path of squared
  segment lengths and keeps the first minimum.
- **The two simulated-annealing engines** (`src/algo/annealing.rs`,
  `tsp-rust/src/algo/annealing.rs`). Each is a state machine over the
  counters `candidate`, `step` and `last_decrease`, a temperature and a
  current tour. Its neighbour moves are a swap of two positions, the
  reversal of a closed range, and a circular shift by one.
- **The helpers.** These are:
  - the in-place `swap` and `dist_sqr` (`tsp-rust/src/util.rs`);
  - the open-path energy, the `"0 -> 2 -> 1"` serialiser and
    `swap_two_cities` (`tsp-rust/src/aron.rs`);
  - in `src/main.rs`, the command-line checks and the canonical form and
    comma-separated output of the final tour.

Tours are `seq<nat>`. `IsPerm(p, n)` says that p holds every city
0..n-1 exactly once. A weight function `(nat, nat) -> real` scores an
edge. `CyclicLength` includes the edge back to the start and
`OpenLength` does not. `Cyclic(w)` and `Open(w)` are the matching
scoring functions.

The two step-wise brute-force engines and `run_brute_force` share one
best-so-far record, `Record.Tracks`:

- the length starts at the largest finite f64 and the path starts absent;
- a measured tour replaces the record only when it scores strictly less;
- the record is therefore the first lowest-scoring tour measured.

The annealing engines are modelled twice:

- as a pure transition function `Next`, the partner against which
  invariants and acceptance rules are proved;
- as a class whose `Step` method mutates the fields and is proved equal
  to that function.

Random choices are parameters: the move with its indices and direction,
the outcome of the uphill draw, and the insertion positions of the
initial tour.

Three places where the model follows the code rather than the comments
or the declared types:

- The annealing engines set `last_decrease` on every accepted proposal,
  including equal-length and uphill ones, not only on a decrease.
- The distance matrix comment says "squared distances", but `dist`
  takes the square root. The model uses the Euclidean distance with the
  square root supplied as a function.
- `src/algo/brute_force.rs:23` returns a tuple, not the `TspState`
  declared in `src/algo/mod.rs`. `BruteForce.State` returns the numbers.

## Model

| member | source | states |
|---|---|---|
| Tour.Iota | src/algo/brute_force.rs:15 | The starting arrangement holds city i at position i. |
| Tour.PermFacts | src/algo/annealing.rs:58-62 | A permutation of 0..n-1 has length n, holds only cities below n, and holds each of them. |
| Tour.Swapped | tsp-rust/src/util.rs:9-13 | Exchanging x and y puts s[y] at x and s[x] at y and leaves every other position and the length as they were. |
| Tour.SwappedInvolution | tsp-rust/src/util.rs:9-13 | Swapping the same pair twice restores the tour; swapping a position with itself changes nothing. |
| Tour.SwappedPermutes | tsp-rust/src/util.rs:9-13 | A swap keeps the multiset of cities, so a permutation stays one. |
| Tour.Reverse | src/algo/brute_force.rs:71 | The reversal has the same length and reads the input backwards. |
| Tour.ReversePermutes | src/algo/brute_force.rs:71 | Reversing keeps the multiset of cities. |
| Tour.ReverseRange | src/algo/annealing.rs:181-193 | Reversing [s, e] mirrors the entries inside the range and copies those outside. |
| Tour.ReverseRangeInvolution | src/algo/annealing.rs:181-193 | Reversing the same range twice restores the tour. |
| Tour.ReverseRangePermutes | src/algo/annealing.rs:181-193 | Reversing a range keeps the multiset of cities. |
| Tour.ShiftedRight | src/algo/annealing.rs:206-213 | The right shift is the last entry followed by all the others in order. |
| Tour.ShiftedLeft | src/algo/annealing.rs:216-223 | The left shift is every entry after the first, then the first. |
| Tour.ShiftsAreInverse | src/algo/annealing.rs:206-223 | Shifting right then left, or left then right, gives back the tour. |
| Tour.ShiftsPermute | src/algo/annealing.rs:206-223 | Both shifts keep the multiset of cities. |
| Tour.RotateStep | src/main.rs:76-78 | Shifting the rotation by k left once gives the rotation by k + 1. |
| Tour.CyclePrefixIsOpen | src/algo/brute_force.rs:36-41 | The first k edges of the closed tour add up to the open length of its first k + 1 cities. |
| Tour.CycleClosesOpen | src/algo/brute_force.rs:36-41 | The closed length is the open length plus the edge from the last city back to the first. |
| Tour.OpenCons | tsp-rust/src/brute_force.rs:31-34 | Prepending a city adds one edge to the open length. |
| Tour.OpenSnoc | tsp-rust/src/brute_force.rs:31-34 | Appending a city adds one edge to the open length. |
| Tour.ShiftLeftKeepsLength | src/algo/annealing.rs:113-118 | The left shift keeps the closed length. |
| Tour.ShiftRightKeepsLength | src/algo/annealing.rs:113-118 | The right shift keeps the closed length. |
| Tour.RotateKeepsLength | src/main.rs:76-78 | A rotation by any number of places keeps the closed length. |
| Tour.ReverseKeepsOpenLength | src/main.rs:82-86 | Under a symmetric weight the reversed open path has the same length. |
| Tour.ReverseKeepsLength | src/main.rs:82-86 | Under a symmetric weight the reversed closed tour has the same length. |
| Tour.MeasureCycle | src/algo/annealing.rs:113-118 | The accumulating loop over (i + 1) % len computes the closed length of the tour. |
| Util.DistSqr | tsp-rust/src/util.rs:2-6 | The squared distance is never negative and is zero from a city to itself. |
| Util.DistSqrSymmetric | tsp-rust/src/util.rs:2-6 | dist_sqr(a, b) equals dist_sqr(b, a). |
| Util.CityWeight | src/algo/brute_force.rs:38-40 | Moving between two listed cities costs the metric of their coordinates. |
| Util.MatrixWeight | src/algo/annealing.rs:117 | Moving between two cities costs their entry in the distance table. |
| Util.EuclidWeightSymmetric | src/algo/annealing.rs:155-159 | The Euclidean weight is symmetric whatever the square root is. |
| Util.Swap | tsp-rust/src/util.rs:9-13 | The array after the call is the old one with entries x and y exchanged. swap_two_cities at tsp-rust/src/aron.rs:31-35 is the same function. |
| Record.TracksStart | src/algo/brute_force.rs:18-19 | The length f64::MAX and no path form a valid record of nothing measured. |
| Record.TracksStep | src/algo/brute_force.rs:42-45 | Keeping a new tour only when it scores strictly less keeps the record; a tie keeps the earlier tour. |
| Record.RecordIsFirstMinimum | tsp-rust/src/algo/brute_force.rs:40-43 | A kept path scores no more than any measured tour and strictly less than every tour measured before it. |
| Record.NoRecordMeansSentinel | tsp-rust/src/brute_force.rs:26-27 | With no path kept, every measured tour scored at least f64::MAX. |
| LexBruteForce.SortedIsLeast | src/algo/brute_force.rs:15 | An ascending arrangement comes first among all arrangements of its values. |
| LexBruteForce.LastAscentBelow | src/algo/brute_force.rs:52-58 | The first scan finds the last ascent among the positions it has seen. |
| LexBruteForce.LastAboveBelow | src/algo/brute_force.rs:60-65 | The second scan finds the last position after k whose value exceeds perm[k]. |
| LexBruteForce.NextPerm | src/algo/brute_force.rs:50-75 | The successor next_permutation computes keeps the length and every entry before the last ascent k, and puts a larger value at k; the lemmas below show it is the immediate greater arrangement, or the input itself when there is no ascent. |
| LexBruteForce.NoAscentIffNonIncreasing | src/algo/brute_force.rs:52-58 | The scan finds no k exactly when the arrangement is non-increasing. |
| LexBruteForce.PivotFacts | src/algo/brute_force.rs:54-65 | When k exists: it is the last ascent, l > k, perm[l] > perm[k], and everything after l is at most perm[k]. |
| LexBruteForce.NextPermPermutes | src/algo/brute_force.rs:67-71 | The successor keeps the length and the multiset of the arrangement. |
| LexBruteForce.NextPermIsGreater | src/algo/brute_force.rs:67-71 | The successor comes strictly after its input in lexicographic order. |
| LexBruteForce.NextPermIsImmediate | src/algo/brute_force.rs:51-75 | No arrangement of the same values lies strictly between the input and its successor. |
| LexBruteForce.NoAscentIsLast | src/algo/brute_force.rs:74 | Without an ascent no arrangement of the same values comes after the input. |
| LexBruteForce.NextPermutation | src/algo/brute_force.rs:51-75 | It answers true exactly when an ascent exists; then perm becomes its successor, and otherwise perm is unchanged. |
| LexBruteForce.ReverseAfter | src/algo/brute_force.rs:71 | After the call the entries up to k are as they were and the rest are the old ones in reverse. |
| LexBruteForce.EnumeratedStep | src/algo/brute_force.rs:32-35 | Measuring the successor of the current arrangement extends the enumeration and stays a permutation. |
| LexBruteForce.Successor012 | src/algo/brute_force.rs:51-75 | The successor of 012 is 021. |
| LexBruteForce.Successor021 | src/algo/brute_force.rs:51-75 | The successor of 021 is 102. |
| LexBruteForce.Successor102 | src/algo/brute_force.rs:51-75 | The successor of 102 is 120. |
| LexBruteForce.Successor120 | src/algo/brute_force.rs:51-75 | The successor of 120 is 201. |
| LexBruteForce.Successor201 | src/algo/brute_force.rs:51-75 | The successor of 201 is 210. |
| LexBruteForce.ThreeCities | src/algo/brute_force.rs:15 | From 012 the engine measures 021, 102, 120, 201 and 210 in that order, after which there is no successor. |
| LexBruteForce.LexLessTransitive | src/algo/brute_force.rs:51-75 | Lexicographic order is transitive. |
| LexBruteForce.LexLessAsymmetric | src/algo/brute_force.rs:51-75 | Lexicographic order is strict: a before b excludes b before a and a == b. |
| LexBruteForce.LexTotal | src/algo/brute_force.rs:51-75 | Two arrangements of the same length are equal or ordered one way or the other. |
| LexBruteForce.IotaIsLeast | src/algo/brute_force.rs:15 | The identity comes first among the permutations of 0..n-1. |
| LexBruteForce.EnumeratedPerm | src/algo/brute_force.rs:32-35 | Every tour the engine reaches is a permutation of 0..n-1. |
| LexBruteForce.EnumeratedClimbs | src/algo/brute_force.rs:32-35 | Each tour the engine reaches comes strictly after the one it held before. |
| LexBruteForce.ClimbsAbove | src/algo/brute_force.rs:32-35 | Each tour reached comes strictly after every tour held before it. |
| LexBruteForce.EnumeratedDistinct | src/algo/brute_force.rs:31-35 | No tour is reached twice, and the identity is never reached again. |
| LexBruteForce.BeforeSuccessor | src/algo/brute_force.rs:51-75 | A permutation strictly before the successor of c is c itself or comes before c. |
| LexBruteForce.SuccessorIsImmediate | src/algo/brute_force.rs:51-75 | Any arrangement of the same values after c is the successor of c or comes after it. |
| LexBruteForce.EnumeratedCovers | src/algo/brute_force.rs:32-35 | Every permutation up to the current arrangement is the identity or has been reached. |
| LexBruteForce.EnumerationComplete | src/algo/brute_force.rs:32-34 | When the successor runs out, the permutations of 0..n-1 are exactly the identity and the tours reached. |
| LexBruteForce.EnumerationCount | src/algo/brute_force.rs:31-35 | When the successor runs out, exactly n! - 1 tours have been reached. |
| LexBruteForce.SearchStep | src/algo/brute_force.rs:32-45 | One step keeps the enumeration and the strict-less best-so-far record. |
| LexBruteForce.ExhaustedIsShortest | src/algo/brute_force.rs:32-45 | Once the successor runs out and n >= 2, the kept length is at most the closed length of every permutation, the never-measured identity included. |
| LexBruteForce.BruteForce.Init | src/algo/brute_force.rs:13-21 | perm starts as the identity, p_count at 0, length at f64::MAX and path absent. |
| LexBruteForce.BruteForce.State | src/algo/brute_force.rs:23-29 | Callable only once a path is kept; it reports a permutation whose closed length is the kept length, below f64::MAX, and p_count. |
| LexBruteForce.BruteForce.Step | src/algo/brute_force.rs:31-47 | It answers true, changing nothing, exactly when perm is non-increasing; then p_count is n! - 1 and, for n >= 2, the kept length is the shortest closed tour. Otherwise perm becomes its successor, p_count grows by one, the record is replaced only on a strictly shorter tour, and the length never grows. |
| LexBruteForce.BruteForce.Keep | src/algo/brute_force.rs:35-45 | Counting the new tour and replacing the record only on a strictly smaller length keeps the search state. |
| SwapBruteForce.Permute | tsp-rust/src/algo/brute_force.rs:59-69 | arr is unchanged after the call, and res gains exactly the generator's list for arr from position p. tsp-rust/src/brute_force.rs:3-13 is the same function. |
| SwapBruteForce.Perms | tsp-rust/src/algo/brute_force.rs:59-69 | The list permute appends from position p: the array itself once every position is fixed, otherwise one swap-recurse-swap round per x in p..len; the lemmas below give its count, shape, first entry and completeness. |
| SwapBruteForce.GetPermutations | tsp-rust/src/algo/brute_force.rs:49-57 | The result is the generator's list for the identity. tsp-rust/src/brute_force.rs:15-23 is the same function. |
| SwapBruteForce.PermsCount | tsp-rust/src/algo/brute_force.rs:59-69 | permute from position p appends exactly (len - p)! entries. |
| SwapBruteForce.BranchesCount | tsp-rust/src/algo/brute_force.rs:63-67 | The loop from x on appends (len - x) * (len - p - 1)! entries. |
| SwapBruteForce.PermsShape | tsp-rust/src/algo/brute_force.rs:59-69 | Every appended entry is a rearrangement of arr and agrees with arr before position p. |
| SwapBruteForce.BranchesShape | tsp-rust/src/algo/brute_force.rs:63-67 | Every entry appended by the loop from x on is a rearrangement of arr, agrees with it before p, and holds at p a value from arr[x..]. |
| SwapBruteForce.RoundShape | tsp-rust/src/algo/brute_force.rs:64-66 | The entries of one round (swap p with x, recurse) have that shape. |
| SwapBruteForce.PermsFirst | tsp-rust/src/algo/brute_force.rs:60-66 | The first entry appended is arr itself. |
| SwapBruteForce.PermsNoRepeats | tsp-rust/src/algo/brute_force.rs:59-69 | For an arr without repeated cities, no entry is appended twice. |
| SwapBruteForce.BranchesNoRepeats | tsp-rust/src/algo/brute_force.rs:63-67 | Rounds with different x produce disjoint entries, so the loop appends no entry twice. |
| SwapBruteForce.PermsComplete | tsp-rust/src/algo/brute_force.rs:59-69 | Every rearrangement of arr that agrees with it before p is appended. |
| SwapBruteForce.AllTours | tsp-rust/src/brute_force.rs:15-23 | get_permutations(n) holds exactly the permutations of 0..n-1, n! of them, none repeated, the identity first. |
| SwapBruteForce.MeasureOpen | tsp-rust/src/brute_force.rs:31-34 | The loop over i in 1..len computes the open length of the path. |
| SwapBruteForce.RunBruteForce | tsp-rust/src/brute_force.rs:25-42 | The result is absent (the unwrap panics) exactly when every permutation scores at least f64::MAX. Otherwise it is a permutation of least open squared length, the first such in generation order, reported as the square root of that length. |
| LegacyBruteForce.BruteForce.Init | tsp-rust/src/algo/brute_force.rs:13-22 | The list holds n! permutations, index starts at 0, length at f64::MAX and path absent. |
| LegacyBruteForce.BruteForce.State | tsp-rust/src/algo/brute_force.rs:24-30 | Callable only once a path is kept; the path is a permutation of least closed length among those measured, and of all permutations once the list is exhausted. |
| LegacyBruteForce.BruteForce.Step | tsp-rust/src/algo/brute_force.rs:32-46 | It measures permutations[index] and advances index by one. It answers true exactly when the list is exhausted, and replaces the record only on a strictly shorter tour. |
| Moves.Apply | src/algo/annealing.rs:105-110 | Every move yields a tour of the same length. |
| Moves.ApplyPermutes | src/algo/annealing.rs:173-223 | Every move keeps the multiset of cities, so a permutation stays one. |
| Moves.ApplyUndo | src/algo/annealing.rs:173-223 | Swap and inversion undo themselves and the two shifts undo each other. |
| Moves.ShiftKeepsLength | src/algo/annealing.rs:196-203 | A shift in either direction keeps the closed length. |
| Moves.DistinctIndices | src/algo/annealing.rs:162-170 | x is the first draw and y the first later draw that differs from it; both are below max and differ. It gives none only when every draw repeats x, which is certain when max < 2. The older copy at tsp-rust/src/algo/annealing.rs:149-157 is the same. |
| Moves.DrawMove | src/algo/annealing.rs:105-110 | Kind 0 draws a swap and kind 1 an inversion, both of the first draw and the first later draw that differs from it; kind 2 is a shift in the drawn direction. A swap or inversion is missing exactly when every draw repeats the first, and always on fewer than two cities. Every move drawn fits the tour. |
| Moves.SwapCities | src/algo/annealing.rs:173-178 | The copy with entries x and y exchanged. The older swap_cities at tsp-rust/src/algo/annealing.rs:160-165 gives the same result through util::swap. |
| Moves.InvertSection | src/algo/annealing.rs:181-193 | The loop computes the reversal of the closed range between the two indices, whichever comes first. The older copy at tsp-rust/src/algo/annealing.rs:168-180 is the same. |
| Moves.ShiftRight | src/algo/annealing.rs:206-213 | The loop computes the last entry followed by the others in order. |
| Moves.ShiftLeft | src/algo/annealing.rs:216-223 | The loop computes the entries after the first, then the first. |
| Moves.Propose | src/algo/annealing.rs:105-110 | The proposal is the tour the drawn move leads to. |
| Schedule.DistanceTable | src/algo/annealing.rs:49-55 | Entry (a, b) is the metric measured from the lower index to the higher one. |
| Schedule.DistanceTableSymmetric | src/algo/annealing.rs:49-55 | The table is symmetric, so the weight it defines is too. |
| Schedule.BuildDistance | src/algo/annealing.rs:49-55 | The nested fill overwrites every entry, the diagonal included, and yields the table. The older fill at tsp-rust/src/algo/annealing.rs:45-51 is the same. |
| Schedule.Insert | src/algo/annealing.rs:61 | Inserting v before position k adds v there and keeps the entries around it. |
| Schedule.Insertions | src/algo/annealing.rs:58-62 | The random-insertion tour has one entry per city. |
| Schedule.InsertionsPermute | src/algo/annealing.rs:58-62 | Whatever positions are drawn, the initial tour is a permutation of 0..n-1. |
| Schedule.InsertionPath | src/algo/annealing.rs:58-62 | The insertion loop builds that tour. The older loop at tsp-rust/src/algo/annealing.rs:54-58 is the same. |
| Schedule.Accepts | src/algo/annealing.rs:121-131 | A proposal no longer than the current tour is always taken; a longer one only when the uphill draw succeeds. |
| Schedule.Stops | src/algo/annealing.rs:140-144 | The search stops once step exceeds max_steps, and otherwise only when more than max_nodecrease steps have passed since the last accepted proposal. |
| Schedule.Cooled | src/algo/annealing.rs:146 | The temperature after k batches is the start cooled k times; with a factor in [0, 1] it stays between 0 and the start. |
| Annealing.NextKeepsInv | src/algo/annealing.rs:100-151 | Every call keeps candidate <= candidates, last_decrease <= step, step <= max_steps + 1, path and sample permutations, length the closed length of path, and temperature = start_temp cooled step times. |
| Annealing.Offered | src/algo/annealing.rs:103-137 | The proposal becomes the sample and candidate advances; the path, length and last_decrease either stay or become the proposal, its closed length and step; without an uphill success the length does not grow. |
| Annealing.BatchEnded | src/algo/annealing.rs:138-149 | candidate restarts at 0 and the path is kept; the call answers done exactly when the stop rule holds, and otherwise cools the temperature once and advances step. |
| Annealing.Next | src/algo/annealing.rs:100-151 | Only a batch-end call can answer done; a proposal call advances candidate, a batch-end call resets it and keeps the path; the length grows only on an uphill success. |
| Annealing.OfferKeepsInv | src/algo/annealing.rs:103-137 | The proposal branch keeps those invariants. |
| Annealing.BatchEndKeepsInv | src/algo/annealing.rs:138-149 | The batch-end branch keeps those invariants, cooling once per step. |
| Annealing.NextProgress | src/algo/annealing.rs:100-151 | A call that goes on advances (step, candidate) lexicographically; a full batch at step max_steps + 1 stops; only a full batch stops. |
| Annealing.DownhillAccepted | src/algo/annealing.rs:121-136 | A proposal no longer than the current tour is taken whatever the draw, and sets last_decrease to step. |
| Annealing.UphillRefused | src/algo/annealing.rs:103-137 | A refused proposal still becomes the sample; only the candidate count changes besides. |
| Annealing.NoUphillNoIncrease | src/algo/annealing.rs:121-136 | Without a successful uphill draw the length never grows. |
| Annealing.BatchEnd | src/algo/annealing.rs:138-149 | A batch end resets candidate, leaves the tours alone, stops iff step > max_steps or step - last_decrease > max_nodecrease, and otherwise cools once and advances step. |
| Annealing.Annealing.New | src/algo/annealing.rs:45-80 | The table is filled, the tour is the random-insertion tour, sample equals path, length is its closed length, the temperature is start_temp, and the counters are 0. |
| Annealing.Annealing.Init | src/algo/annealing.rs:84-86 | init is new with the default parameters 30.0, 0.95, 200 candidates, 200 steps and 50 steps without decrease. |
| Annealing.Annealing.State | src/algo/annealing.rs:88-98 | Reports path and sample, both permutations, and the closed length of path. |
| Annealing.Annealing.Offer | src/algo/annealing.rs:103-137 | The proposal branch changes the fields exactly as the transition function does. |
| Annealing.Annealing.EndBatch | src/algo/annealing.rs:138-149 | The batch-end branch changes the fields exactly as the transition function does. |
| Annealing.Annealing.Step | src/algo/annealing.rs:100-151 | step keeps the invariants and changes the fields exactly as the transition function does. |
| LegacyAnnealing.NextKeepsInv | tsp-rust/src/algo/annealing.rs:94-145 | Every call keeps candidate <= candidates, last_decrease <= step, step <= max_steps + 1, path a permutation, length its closed length, and temperature = 1.0 cooled step times. |
| LegacyAnnealing.Offered | tsp-rust/src/algo/annealing.rs:97-131 | candidate advances; the path, length and last_decrease either stay or become the proposal, its closed length and step; without an uphill success the length does not grow. |
| LegacyAnnealing.BatchEnded | tsp-rust/src/algo/annealing.rs:132-143 | candidate restarts at 0 and the path is kept; the call answers done exactly when the stop rule holds, and otherwise cools the temperature once and advances step. |
| LegacyAnnealing.Next | tsp-rust/src/algo/annealing.rs:94-145 | Only a batch-end call can answer done; a proposal call advances candidate, a batch-end call resets it and keeps the path; the length grows only on an uphill success. |
| LegacyAnnealing.OfferKeepsInv | tsp-rust/src/algo/annealing.rs:97-131 | The proposal branch keeps those invariants. |
| LegacyAnnealing.BatchEndKeepsInv | tsp-rust/src/algo/annealing.rs:132-143 | The batch-end branch keeps those invariants. |
| LegacyAnnealing.NextProgress | tsp-rust/src/algo/annealing.rs:94-145 | A call that goes on advances (step, candidate) lexicographically, and a full last batch stops. |
| LegacyAnnealing.Acceptance | tsp-rust/src/algo/annealing.rs:115-131 | A proposal no longer than the current tour is taken whatever the draw; a longer one refused by the draw leaves everything but candidate alone. |
| LegacyAnnealing.BatchEnd | tsp-rust/src/algo/annealing.rs:132-143 | A batch end resets candidate, keeps the tour, stops iff the stop rule holds, and otherwise cools once and advances step. |
| LegacyAnnealing.Annealing.New | tsp-rust/src/algo/annealing.rs:41-75 | The table is filled, the tour is the random-insertion tour with its closed length, the temperature is 1.0 whatever the parameters, and the counters are 0. |
| LegacyAnnealing.Annealing.Init | tsp-rust/src/algo/annealing.rs:79-81 | init is new with the default parameters 0.95, 500 candidates, 500 steps and 50 steps without decrease. |
| LegacyAnnealing.Annealing.State | tsp-rust/src/algo/annealing.rs:83-92 | Reports a permutation and its closed length. |
| LegacyAnnealing.Annealing.Offer | tsp-rust/src/algo/annealing.rs:97-131 | The proposal branch changes the fields exactly as the transition function does. |
| LegacyAnnealing.Annealing.EndBatch | tsp-rust/src/algo/annealing.rs:132-143 | The batch-end branch changes the fields exactly as the transition function does. |
| LegacyAnnealing.Annealing.Step | tsp-rust/src/algo/annealing.rs:94-145 | step keeps the invariants and changes the fields exactly as the transition function does. |
| Aron.CalculateEnergy | tsp-rust/src/aron.rs:7-13 | The loop over i in 0..=len-2 computes the open length of the path; it needs len >= 2. |
| Aron.EnergyIsOpenTour | tsp-rust/src/aron.rs:7-13 | The energy is the closed length minus the closing edge; for two cities it is the single edge. |
| Aron.PathToString | tsp-rust/src/aron.rs:22-29 | The string is the decimals of the path joined by " -> ", it holds exactly len - 1 arrows, and splitting it on " -> " and parsing gives back the path. |
| Text.DigitChar | src/main.rs:94 | A digit value below 10 becomes a decimal digit character. |
| Text.DigitValue | src/main.rs:40 | A digit character has a value below 10. |
| Text.NatToString | src/main.rs:94 | The decimal form is non-empty, all digits, and has no leading zero. |
| Text.NatToStringValue | src/main.rs:94 | The digits of the decimal form of n are worth n. |
| Text.NatToStringInjective | src/main.rs:91-97 | Different numbers have different decimal forms. |
| Text.ParseNat | src/main.rs:40 | The unbounded digit reader beneath the usize parse (Text.ParseUsize): a number is read exactly when the text is non-empty and all digits. |
| Text.ParseNatRoundTrip | src/main.rs:40 | The unbounded digit reader beneath the usize parse gives back n from the decimal form of n. |
| Text.ParseUsize | src/main.rs:40 | A usize read is below 2^64, comes from non-empty text, and fails when the text starts with neither '+' nor a digit. |
| Text.ParseUsizeRoundTrip | src/main.rs:40 | Reading the decimal form of n below 2^64, with or without a leading '+', gives n. |
| Text.JoinSeparators | src/main.rs:91-97 | Joining a non-empty path puts exactly len - 1 separator characters in the text. |
| Text.Join | src/main.rs:91-97 | The decimals of the path with the separator between neighbours, as the comma join of main and the " -> " join at tsp-rust/src/aron.rs:22-29 build it; the text is empty exactly for an empty path. |
| Text.FindFrom | tsp-rust/src/aron.rs:21 | The search behind the split that reads a "0 -> 2 -> 1" string back finds the first occurrence of the separator at or after k, or reports that there is none. |
| Text.Split | tsp-rust/src/aron.rs:22-29 | Splitting always gives at least one piece. |
| Text.ParsePieces | tsp-rust/src/aron.rs:22-29 | Reading the pieces gives one number per piece. |
| Text.SplitJoin | tsp-rust/src/aron.rs:22-29 | Splitting the joined text on its separator gives the decimal forms of the path. |
| Text.JoinRoundTrip | tsp-rust/src/aron.rs:22-29 | Reading back a joined path, with a separator that does not start with a digit, gives the path. |
| Cli.SkipLeading | src/main.rs:28 | The scan stops at the first character that is not white space. |
| Cli.SkipTrailing | src/main.rs:28 | The backwards scan stops after the last character that is not white space. |
| Cli.Trim | src/main.rs:28-34 | The trimmed text is no longer than the input and neither starts nor ends with white space. |
| Cli.TrimPadded | src/main.rs:28-34 | Trimming white-space padding off a word gives back the word. |
| Cli.LeadingPadding | src/main.rs:28 | The leading scan skips exactly the white-space padding. |
| Cli.TrailingPadding | src/main.rs:28 | The trailing scan skips exactly the white-space padding. |
| Cli.Lower | src/main.rs:28-34 | Lowercasing keeps the length and maps each character on its own. |
| Cli.ParseArgs | src/main.rs:25-52 | Fewer than three arguments is an error, and only then. An unrecognised algorithm name is an error exactly when the normalised name is unknown. A success carries the named algorithm and a recognised mode. Random mode carries a count below 2^64 and at least 2. |
| Cli.RandomModeCount | src/main.rs:36-47 | In random mode the arguments are accepted exactly when a fourth one reads as a usize of at least 2; a missing count is its own error. |
| Cli.ModeChecks | src/main.rs:34-52 | Input mode is accepted with no count check; an unknown mode word is an error. |
| Cli.NormalizeIs | src/main.rs:28-34 | Trimming then lowercasing a padded word gives the word lowercased. |
| Cli.ShortNameNormal | src/main.rs:29-30 | The short algorithm names are already normalised. |
| Cli.RandomNormal | src/main.rs:36 | The mode word "random" is already normalised. |
| Cli.AcceptsRandom | src/main.rs:25-47 | A short algorithm name, "random" and the decimal form of a count from 2 up to 2^64 - 1 are accepted, whatever follows. |
| Cli.AcceptsPadded | src/main.rs:28-35 | A padded, mixed-case algorithm name with an input-mode word is accepted. |
| Cli.FirstIndex | src/main.rs:76 | position finds the first index holding the value. |
| Cli.Canonicalize | src/main.rs:75-86 | The split, concatenation, reversal, pop and insert compute the canonical form of the tour; it needs 0 in the tour and at least two cities. |
| Cli.RotatePermutes | src/main.rs:76-78 | A rotation keeps the multiset of cities. |
| Cli.Oriented | src/main.rs:80-86 | The orientation keeps the length and the first city and leaves path[1] <= path[len - 1]. |
| Cli.Canonical | src/main.rs:75-86 | The printed order has the tour's length, starts at city 0, and has path[1] <= path[len - 1]. |
| Cli.OrientedShape | src/main.rs:82-86 | The orientation keeps the first city and the multiset, and leaves path[1] <= path[len - 1]. |
| Cli.CanonicalShape | src/main.rs:75-86 | The canonical form starts with 0, has the same cities, and has path[1] <= path[len - 1]. |
| Cli.CanonicalKeepsLength | src/main.rs:75-86 | Under a symmetric weight the canonical form has the same closed length as the tour. |
| Cli.CanonicalIdempotent | src/main.rs:75-86 | Canonicalising twice is the same as once. |
| Cli.OutputRoundTrip | src/main.rs:91-97 | The printed line holds len - 1 commas, and splitting it on "," and parsing gives back the path. |

## Left out

- Floating point. Lengths are exact reals, so f64 and f32 rounding is not modelled. `sqrt` is a function the caller supplies. `f64::MAX` is the exact real value of the largest finite f64.
- The acceptance probability `E.powf(delta_e / temperature)` and `gen_bool`. Their outcome is the `uphill` parameter of `Step`.
- Randomness in general (`thread_rng`, `gen_range`, `gen_bool`):
  - the move kind, the indices, the shift direction and the insertion positions are parameters;
  - `distinct_indicies` reads a finite supply of draws and answers None when every draw repeats the first, where the source would loop on.
- Moves.DistinctIndices: termination of the source's redraw loop is not modelled, because it depends on the random source.
- I/O: `input_cities`, `random_cities`, the printing in `src/main.rs`, and the status strings of the `state` methods. `state` returns the numbers the strings are formatted from.
- The visualiser (`src/visualize.rs`, `tsp-rust/src/visualize.rs`), `tsp-rust/src/main.rs`, and `main_aron` with the stray line 126 of `tsp-rust/src/aron.rs`. They are console and window front ends.
- `tsp-rust/src/annealing.rs` is unfinished (`todo!()`), and `src/algo/mod.rs` only declares the trait and `TspState`.
- `src/util.rs` is not part of this model. Its `dist` is modelled by `dist` in `src/algo/annealing.rs`. The `util::dist`, `util::shift_right` and `util::shift_left` that `tsp-rust/` calls are not in `tsp-rust/src/util.rs`, so their current versions in `src/algo/annealing.rs` stand in for them.
- `algo::run`, called at `src/main.rs:71`, does not exist. `Cli.Canonicalize` starts from the final `state.path` of either engine.
- The visualiser flag read at `src/main.rs:54-68` is not modelled, because it only selects the window front end.
- Cli.Lower: lowercasing is ASCII only. No keyword the arguments are matched against has a character that Unicode lowercases differently.
- Cli.ParseArgs: errors are kinds, not the source's message texts, and `usize` is taken to be 64 bits wide.
- Cli.Canonicalize: the `Vec` operations `split_at`, `concat`, `reverse`, `pop` and `insert` act on a `seq` value rather than in place.
- Annealing.NextKeepsInv: the temperature is stated as the start temperature cooled once per step (`Cooled`), not as a closed power. `Cooled` is only shown to stay between 0 and the start, not to decrease strictly, because that needs more nonlinear real arithmetic.
- Source panics are preconditions rather than modelled failures:
  - LexBruteForce.NextPermutation and LexBruteForce.BruteForce.Step require a non-empty perm, because `0..len - 1` underflows for an empty one;
  - Moves.ShiftRight and Moves.ShiftLeft require a non-empty tour, because they read its last or first entry;
  - LegacyBruteForce.BruteForce.Step requires index < |permutations|, because one more call reads past the list;
  - Aron.PathToString requires a non-empty path, because it reads path[0].
- LexBruteForce.BruteForce.State: with one city `step` never keeps a path, so the `unwrap` in `state` would panic. The model makes `state` require a kept path.
