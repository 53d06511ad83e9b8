# Advent of Code 2022 solvers, modelled in Dafny

This project models the core of the C# solutions to the 2022 Advent of Code
puzzles. Each source file gets one Dafny module, and each module keeps the
source's form:

- `Algorithms`: the generic breadth-first search with its dedup table (`loopbackDetection`). The search is a method with a loop. It is proved against a trace of the states dequeued and enqueued.
- `Problem19`: the robot-factory search. `Resource` is a record of four `short` values with wrap-around arithmetic. `SolveBluePrintIteratively` is a loop over a queue and a cache, proved to be an instance of the engine's trace and proved to terminate.
- `Problem13`: nested packets. The comparison is pure recursion. The parser is a recursive method with a loop, proved equal to a reference parser. A printer is proved to be the parser's inverse. The decoder key is tied to the number of packets below each divider.
- `Problem21`: the monkey troop. Values are a recursive function over a map of monkeys, and a ghost ranking rules out cycles. The push that solves for the human is a method on a class holding the map. It is proved equal to a pure `Push`, and the solving is proved along a path of unknowns.
- `Problem1` (earlier project): the depth counter. A loop keeps a three-slot window in an array. It is proved to count increases of single values and of window sums, with `Sum()`'s overflow check.
- `Problem02`: the rock-paper-scissors score tables. They are proved equal to shape-plus-outcome definitions. The totalling loop is proved to wrap exactly like `int +=`. The earlier project's `Problem2` is the same code.
- `Problem3`: rucksack priorities. The loop over lines and groups of three is proved to compute the line sum and the complete-group badge sum. The LINQ versions are compared with it.
- `Problem4` (earlier project): pairs of section ranges. The loop builds both ranges as sets; it is proved to compute interval lengths, and the counts are characterised as nesting and meeting. The LINQ cross-check is modelled as written and as intended.
- `Problem6` (both copies of day 6): the start-of-packet marker. The loop keeps a counting dictionary over a sliding window. It is proved to report the first window of pairwise distinct characters. The LINQ version is proved to agree with it when a marker exists.
- `Problem5` (both copies of day 5): the crate stacks. A class holds the dictionary of stacks, and the drawing, reversal and crane loops are methods on it. They are proved against pure definitions. The lemmas cover where crates land, the reversal of the one-at-a-time move and crate conservation.
- `Problem07`: the directory tree. A shell transcript is replayed into a node sequence through a class whose `MoveDown` and file additions update it in place. Recursive sizes are proved exact and monotone up the tree. Full names are proved to be paths from the root. The deletion choice is proved to be the smallest directory that frees enough space.
- `Problem8`: the tree-house grid. Loading parses each digit into a 2-D array, with the source's exceptions. The survey is nested loops over arrays. Each counting loop is proved to compute a viewing distance defined on the grid, and visibility is proved equivalent to some view reaching the edge. Scores multiply with 32-bit wrap-around and are proved exact when they fit.
- `Problem9`: the rope of ten knots. `DragTail` is a function, and the step loop updates a `positions` array through it, adding knot 1 and the last knot to sets. The loops are proved against a pure fold over single steps. Every step keeps consecutive knots touching. The visited sets are characterised and only grow.
- `Problem10`: the CPU with register X. Instruction objects count their delay down in `TryExecute`, and the two runs are loops over them. The sequential run is proved to sum cycle times X at the six checkpoints. The drawing run is proved to light pixel i iff X during cycle i + 1 is within one of column i % 40.
- `Problem11`: the monkeys throwing items. Each monkey is an object whose item list and inspection count change in place. The item, turn, round and run loops are methods proved against pure definitions. The lemmas cover item conservation, one inspection per item, the target after reduction modulo the product of the tests, and monkey business as the product of the two largest counts.
- `Problem20`: mixing the encrypted list. The round and move loops are methods over a sequence that `RemoveAt` and `Insert` change. They are proved against pure rounds of moves. The lemmas show that a move keeps the elements and puts the moved one at its new position modulo the others. They also show that mixing only fails on a one-element list, and that the answer reads the circle from the first zero.
- `Problem14`: falling sand. The board is a class over a 2-D `char` array with an x offset, and the segment, floor and pouring loops are methods on it. A segment is proved to mark exactly the cells between its ends. The inner loop is proved to follow a pure fall function. A grain is proved to rest only on three blocked cells and, with the floor laid, never to be lost. Each resting grain turns one air cell into sand, so the count equals the sand cells.
- `Problem22`: the monkey-map walk. The walker is a class whose map, position, heading and pending count change in place. Its loops are proved against pure step, move and instruction functions. The lemmas cover the turns and the facing value, decoding the password, digits building the count, the flat wrap landing on the far end of the row or column, moves never ending on a wall, part 1 never failing, and the cube edge table pairing up its transitions.
- `Problem17`: rocks pushed by jets of gas and falling in a seven-wide chamber. The map is a class whose row list changes in place. Its methods are proved against pure functions for the fall, the trim and the column tops. The lemmas cover reading the rock patterns, undoing an overlay, trimming keeping the height and every column's top, a rock raising the tower by at most its own height, and the cycle skip.
- `Problem15`: the search for the point no sensor sees, in diagonal coordinates. The lemmas cover the round trip of the coordinate change, diamonds becoming squares, `BoxSize` in 32- and 64-bit arithmetic, and slicing a box keeping exactly its cells outside the sensor's square. They also show that the boxes left never overlap and hold exactly the cells no sensor reaches, and which candidates are printed.
- `Problem18`: the droplet surface. Part 1 counts faces that touch no cube. Part 2 is the cached flood fill. `Scan.Exterior` is proved to answer whether a point is air that can walk through air out of the cubes' bounding box, and its cache stays correct across calls. Part 2 never exceeds part 1.
- `Problem12`: the hill climb. Reading the map fills two 2-D arrays. The search is a breadth-first loop over a queue of paths. It keeps the queue sorted by length with no entry more than one longer than the first, so a cell's first distance is never improved. With a single `E` the distances are proved to be the fewest steps, and -1 is proved to mark exactly the unreachable cells. Both answers are proved to be shortest climbs.
- `Problem24`: the blizzard valley. Blizzards wrap around inside the bounds, and each one's cell is proved to repeat after the width (columns) and the height (rows). The cache is a class over an array of lazily built grids. Its answers are proved to be whether a blizzard is at the cell at the reduced minute, and so to agree with the true answer from minute 0 on. The successor rule is proved to list the allowed moves in the order right, left, down, up, stay.
- `Problem16`: the valve search. A `long` of valve bits is modelled as its 64 bits, with `|`, `&` and `~` taken bit by bit and `1L << id` using the id's low six bits. `Add`, `Remove`, `From` and `Enumerate` are proved to set, clear, collect and list exactly the right ids. `Mapping` is a class over its dictionary's entries in insertion order, and a name is proved to come back from its id while at most 256 names are known. `GetNextStep` is a loop over a queue, a history map and the best path. `TryEnqueue` is proved to move the best only to strictly more pressure and to requeue a known state only when its score is better. The loop is proved equal to a pure search that offers each path's opening and moves in order, to terminate, and to return the start or an offered path no worse than any expanded path or any child with time left that was offered.
- `Problem25`: SNAFU (balanced base-5) numbers. The reading loop is proved equal to Horner's rule. The writing loops (greedy digits, then carries) are proved to round-trip.

Shared modules:

- `Wrappers`: `Option` and `Result`. The exception a C# member throws becomes a `Failure` carrying the exception's name.
- `Numerics`: C#'s unchecked 16-, 32- and 64-bit wrap-around and its truncating `/` and `%`.
- `Seqs`: small sequence facts.
- `Text`: `string.Split(char)` with its inverse `string.Join`, ordinal `StartsWith`, and `int.Parse` on decimal text with its exceptions.
- `Helpers`: array deconstruction, the row-major 2-D `For`, `AsEnumerable` over a `Range`, and the dictionary helpers `AddOrUpdate`, `Increment` and `Decrement` on a dictionary class. The earlier project's `Helpers.cs` is the same code without the `Range` overload and `Decrement`.
- `Types`: the point and rectangle records, their `Add` with wrap-around and the implicit tuple conversions.

## Model

| member | source | states |
|---|---|---|
| Algorithms.BestAfter | csharp/Algorithms.cs:24-29 | the running best is the start value or one of the states tested |
| Algorithms.BestIsMaximal | csharp/Algorithms.cs:24-29 | when "better" is a strict order, no dequeued state and not the start value is better than the final best |
| Algorithms.AdmitAll | csharp/Algorithms.cs:33-58 | the dedup pass over one state's successors: the table only gains keys, and without an identity function every successor is enqueued and the table is untouched |
| Algorithms.AdmitOne | csharp/Algorithms.cs:35-57 | a successor is enqueued and its score stored iff its identity is new or its score beats the stored one; otherwise nothing changes |
| Algorithms.AdmittedAreCandidates | csharp/Algorithms.cs:33-58 | the enqueued successors form a sub-multiset of the candidates |
| Algorithms.AdmittedFromCandidates | csharp/Algorithms.cs:33-58 | every enqueued successor is a candidate, and no more are enqueued than offered |
| Algorithms.RecordContents | csharp/Algorithms.cs:37-54 | after a batch of writes each identity holds the score of the last state written with it, and other keys keep their scores |
| Algorithms.RecordKeys | csharp/Algorithms.cs:37-54 | the writes add exactly the identities of the states written to the table's keys |
| Algorithms.RecordLatest | csharp/Algorithms.cs:37-54 | an identity written maps to the score of the last state written with it |
| Algorithms.RecordKeeps | csharp/Algorithms.cs:37-54 | a key no state is written under keeps its score |
| Algorithms.AdmitAllRecords | csharp/Algorithms.cs:35-57 | the table after a pass is the old table overwritten, in order, by the admitted successors' scores |
| Algorithms.RecordAppend | csharp/Algorithms.cs:37-54 | two batches of writes in turn equal one batch of their concatenation |
| Algorithms.TableRecordsSuccessors | csharp/Algorithms.cs:22-59 | over the whole search the table is exactly the record of the enqueued successors' scores |
| Algorithms.NoIdentityEnqueuesAll | csharp/Algorithms.cs:35-57 | with a null identity function every successor of every dequeued state is enqueued, in order |
| Algorithms.StoredScoresImprove | csharp/Algorithms.cs:44-54 | when "better score" is transitive, a stored score is only replaced by a better one |
| Algorithms.ExpandAllSnoc | csharp/Algorithms.cs:26-58 | expanding one more dequeued state appends its admitted successors and continues from the table reached so far |
| Algorithms.TraceStep | csharp/Algorithms.cs:26-58 | one turn of the loop (dequeue the head, admit its successors) extends the trace by that state |
| Algorithms.AdmitSuccessors | csharp/Algorithms.cs:33-58 | the inner loop returns the successors the dedup rule admits, in order, and the updated table |
| Algorithms.BreadthFirstSearch | csharp/Algorithms.cs:15-62 | the initial state is dequeued first; states are dequeued in the order enqueued; the queue empties iff all enqueued states were dequeued; the result is the running best; the queue contents and the table follow the dedup trace |
| Algorithms.BreadthFirstSearchWithComparers | csharp/Algorithms.cs:142-157 | the comparer overload is the main search with "better" meaning "compares greater" |
| Algorithms.BreadthFirstSearchByNaturalOrder | csharp/Algorithms.cs:159-174 | the natural-order overload is the comparer overload with the types' own `CompareTo` |
| Algorithms.BreadthFirstSearchWithoutDedup | csharp/Algorithms.cs:176-182 | without dedup every successor of every dequeued state is enqueued, in order |
| Problem19.MinusUndoesPlus | csharp/solvers/Problem19.cs:15-23 | `(a + b) - b == a` and `(a - b) + b == a` for every resource, even when a `short` component wraps |
| Problem19.Plus | csharp/solvers/Problem19.cs:20-23 | `a + b` is componentwise, and each component is the exact sum whenever that sum fits a `short` |
| Problem19.Minus | csharp/solvers/Problem19.cs:15-18 | `a - b` is componentwise, and each component is the exact difference whenever that difference fits a `short` |
| Problem19.Times | csharp/solvers/Problem19.cs:25-28 | `a * b` scales every component, and each is the exact product whenever that product fits a `short` |
| Problem19.ExactWithoutOverflow | csharp/solvers/Problem19.cs:20-28 | when no component leaves the `short` range `+` is exact; `a * 1 == a`, `a * 0 == 0` and `a + 0 == a` |
| Problem19.CompareTo | csharp/solvers/Problem19.cs:30-39 | the answer is -1, 0 or 1; it is 1 iff `a` is strictly larger than `b` in all four components, -1 iff strictly smaller in all four, and 0 otherwise, e.g. when only some components are larger |
| Problem19.DominanceOrder | csharp/solvers/Problem19.cs:30-49 | `CompareTo` is antisymmetric, `>` is `<` reversed, `a > b` iff every component is strictly larger and `a < b` iff every component is strictly smaller, `>` is irreflexive and transitive |
| Problem19.ComponentwiseOrder | csharp/solvers/Problem19.cs:51-65 | `>=` is `<=` reversed, and is reflexive, antisymmetric and transitive |
| Problem19.ParsedBlueprint | csharp/solvers/Problem19.cs:84-98 | a parsed blueprint has the four robots in order ore, clay, obsidian, geode, each producing one of its own resource, with non-negative costs and no geode cost |
| Problem19.StepState | csharp/solvers/Problem19.cs:285-291 | a minute keeps the production and uses up exactly one minute |
| Problem19.StepStateAccumulates | csharp/solvers/Problem19.cs:285-291 | a minute keeps the production, adds it to the stock and uses up one minute |
| Problem19.BuildPaysAndProduces | csharp/solvers/Problem19.cs:263-265 | building a robot pays its cost, collects the old production and adds the robot's production |
| Problem19.MaxCosts | csharp/solvers/Problem19.cs:222-230 | the componentwise maximum bounds every robot's cost and each component is some robot's cost |
| Problem19.OffersAreMoves | csharp/solvers/Problem19.cs:249-276 | every successor is a minute of waiting or the build of an affordable, useful robot |
| Problem19.BuildableIsOffered | csharp/solvers/Problem19.cs:249-271 | an affordable, useful robot is offered unless a later robot in the list stopped the loop |
| Problem19.WaitsUnlessStopped | csharp/solvers/Problem19.cs:268-276 | when no geode or obsidian robot is built the last successor is waiting a minute |
| Problem19.StopsAtLastStopper | csharp/solvers/Problem19.cs:268-271 | building a geode or obsidian robot ends the successor list |
| Problem19.RulesNextStates | csharp/solvers/Problem19.cs:240-279 | a state with no minutes left has no successors; otherwise it has the robot loop's successors |
| Problem19.TryEnqueue | csharp/solvers/Problem19.cs:214-221 | a state is queued, and its minutes cached, iff its (stock, production) key is new or cached with fewer minutes |
| Problem19.RulesAdmitSnoc | csharp/solvers/Problem19.cs:214-221 | the engine's dedup rule, instantiated for this puzzle, is `TryEnqueue` |
| Problem19.PotentialAppend | csharp/solvers/Problem19.cs:233-280 | the termination measure adds up over a split queue |
| Problem19.PotentialUniform | csharp/solvers/Problem19.cs:233-280 | states with equal minutes weigh the same |
| Problem19.ExpansionShrinks | csharp/solvers/Problem19.cs:233-280 | replacing the head by its admitted successors, one minute younger, lowers the measure, so the loop ends |
| Problem19.EnqueueOffer | csharp/solvers/Problem19.cs:266 | one more `TryEnqueue` extends the engine's admission by that offer |
| Problem19.VisitRobot | csharp/solvers/Problem19.cs:251-272 | one turn of the robot loop offers the build exactly when the robot is affordable and useful, and stops after a geode or obsidian robot |
| Problem19.VisitRobots | csharp/solvers/Problem19.cs:249-273 | the robot loop, from the last robot to the first, offers the successor list less the final wait, which is left out exactly when the loop stopped |
| Problem19.Expand | csharp/solvers/Problem19.cs:245-277 | expanding a state queues exactly what the engine admits from its successors |
| Problem19.ExpandHead | csharp/solvers/Problem19.cs:233-280 | one dequeue-and-expand step keeps minutes non-negative and lowers the measure |
| Problem19.SolveBlueprintIteratively | csharp/solvers/Problem19.cs:207-283 | a blueprint without robots throws; otherwise the loop ends, the answer is the running best by geodes, no dequeued state has more geodes, and the run is the engine's trace under the puzzle's rules |
| Problem13.Compare | csharp/solvers/Problem13.cs:18-68 | the answer is -1, 0 or 1, and two ints compare by numeric value |
| Problem13.CompareItems | csharp/solvers/Problem13.cs:24-43 | the answer is -1, 0 or 1; an empty list equals only the empty list and is below any other; a non-empty list is above the empty one |
| Problem13.IntActsAsSingleton | csharp/solvers/Problem13.cs:22-64 | an int compared with a list, on either side, behaves as the one-element list holding it |
| Problem13.FirstDifferenceDecides | csharp/solvers/Problem13.cs:24-43 | lists compare lexicographically: the first non-zero element comparison decides; otherwise the shorter list is less and lists of equal length are equal |
| Problem13.CompareAntisymmetric | csharp/solvers/Problem13.cs:18-68 | swapping the arguments negates the answer |
| Problem13.CompareReflexive | csharp/solvers/Problem13.cs:18-68 | every packet compares equal to itself |
| Problem13.ParseLine | csharp/solvers/Problem13.cs:109-137 | the recursive parser with its item loop returns exactly what the reference parser `ParsePacket` returns, including the exceptions |
| Problem13.ParsePacket | csharp/solvers/Problem13.cs:109-137 | a successful parse leaves a strict suffix of the line as `rest` |
| Problem13.ParseItems | csharp/solvers/Problem13.cs:119-126 | the item loop, when it succeeds, leaves a strict suffix of the line as `rest` |
| Problem13.ParsesEmptyList | csharp/solvers/Problem13.cs:111-117 | "[]" gives the empty list and consumes two characters |
| Problem13.ParsesDigitRun | csharp/solvers/Problem13.cs:128-136 | a run of digits gives that number and the rest starts at the first non-digit |
| Problem13.ParseFormat | csharp/solvers/Problem13.cs:109-137 | parsing a printed packet gives it back, items in source order, and stops right after its closing ']' |
| Problem13.ParseItemsFormat | csharp/solvers/Problem13.cs:119-126 | the item loop reads a printed item list back in order and consumes the closing ']' |
| Problem13.InOrder | csharp/solvers/Problem13.cs:83-97 | the 1-based indices, ascending, of exactly the pairs whose first packet compares below the second |
| Problem13.CountBelowPermutation | csharp/solvers/Problem13.cs:103 | sorting does not change how many packets are below a divider |
| Problem13.PositionIsCountBelow | csharp/solvers/Problem13.cs:103-105 | in a sorted list a packet that nothing else ties with sits after exactly the packets below it |
| Problem13.DecoderKey | csharp/solvers/Problem13.cs:104-106 | the product of the dividers' 1-based positions is never negative, and is positive iff both dividers are in the list |
| Problem13.DecoderKeyCounts | csharp/solvers/Problem13.cs:99-106 | the decoder key is (packets below [[2]] + 1) times (packets below [[6]] + 2) whenever no packet ties with a divider |
| Problem25.SnafuToInt | csharp/solvers/Problem25.cs:70-87 | the accumulator loop computes Horner's rule over the digit values, and fails on the first foreign character |
| Problem25.SnafuValueFailsOnForeignChar | csharp/solvers/Problem25.cs:75-82 | reading fails exactly when some character is not one of `2 1 0 - =` |
| Problem25.CeilLog5 | csharp/solvers/Problem25.cs:29 | the least power of five at or above the value |
| Problem25.ValueAppend | csharp/solvers/Problem25.cs:83 | the value of a digit list splits at any point by place value |
| Problem25.CarryKeepsValue | csharp/solvers/Problem25.cs:47-51 | taking 5 from a digit and adding 1 to the next higher digit keeps the value |
| Problem25.DigitChar | csharp/solvers/Problem25.cs:57-64 | each balanced digit maps to the character that reads back as it |
| Problem25.TrimLeadingZeros | csharp/solvers/Problem25.cs:67 | `TrimStart('0')` keeps a suffix without a leading '0' and drops only '0's |
| Problem25.ToCharsReadsBack | csharp/solvers/Problem25.cs:54-66 | the characters of balanced digits read back as their value |
| Problem25.TrimmedReadsBack | csharp/solvers/Problem25.cs:54-67 | trimming leading zeros does not change the value read back |
| Problem25.CountFits | csharp/solvers/Problem25.cs:33-39 | the subtraction loop counts how many times the digit value fits and leaves the remainder |
| Problem25.Greedy | csharp/solvers/Problem25.cs:29-42 | the digit loop writes the value in plain base 5, leading digit 0 or 1, digits 0 to 4 |
| Problem25.Carry | csharp/solvers/Problem25.cs:45-52 | the carry loop keeps the value and leaves every digit in -2..2 |
| Problem25.IntToSnafu | csharp/solvers/Problem25.cs:26-68 | for a positive value the result uses only SNAFU digits, has no leading '0' and reads back as the value |
| Problem25.RoundTrip | csharp/solvers/Problem25.cs:20-23 | converting a positive sum to SNAFU and back gives the sum |
| Problem21.Divide | csharp/solvers/Problem21.cs:97 | `long` division throws exactly on a zero divisor or on `long.MinValue / -1`; otherwise the quotient is a `long` whose magnitude times the divisor's is at most the dividend's |
| Problem21.Combine | csharp/solvers/Problem21.cs:92-100 | an unknown operand makes `+ - * /` unknown; '=' yields 1 for equal operands (two unknowns included) and 0 otherwise; any other operator throws `NotSupportedException`; known results of `long` operands are `long`s |
| Problem21.GetResult | csharp/solvers/Problem21.cs:88-116 | a missing name throws `KeyNotFoundException`; in a troop of `long`s every known result is a `long` |
| Problem21.Push | csharp/solvers/Problem21.cs:29-121 | a push keeps the names and every waiting monkey, writes only numbers, keeps the troop acyclic and within `long` |
| Problem21.Troop.PushResult | csharp/solvers/Problem21.cs:29-121 | the mutating push leaves the troop as `Push` describes, and unchanged when it throws |
| Problem21.Troop.Solve | csharp/solvers/Problem21.cs:142-149 | a missing or non-waiting root throws; otherwise the first answer is the root's value, and the second is the human's number after the human is cleared, the root becomes '=' and 1 is pushed into it |
| Problem21.PartTwoRanked | csharp/solvers/Problem21.cs:146-147 | clearing the human and rebinding the root keeps the troop acyclic |
| Problem21.PushStores | csharp/solvers/Problem21.cs:113-121 | after a push to a number the monkey reports the pushed value |
| Problem21.PushNeedsOneUnknown | csharp/solvers/Problem21.cs:35-64 | a push to a waiting monkey does nothing when both operands are known and throws `ArgumentException` when neither is |
| Problem21.ClosedUnchanged | csharp/solvers/Problem21.cs:118-121 | writing an unknown number changes nothing in a subtree whose numbers are all known |
| Problem21.PushSolves | csharp/solvers/Problem21.cs:29-86 | on a solvable path a push writes one unknown number and the monkey pushed into then evaluates to the pushed result |
| Problem21.AddSubtractInvert | csharp/solvers/Problem21.cs:42-73 | for '+' and '-' the operand pushed to the unknown side, on either side, gives back the wanted (wrapped) result |
| Problem21.MultiplyInvertsIffExact | csharp/solvers/Problem21.cs:48-76 | for '*' the known factor times the pushed quotient gives back the result exactly when the division leaves no remainder |
| Problem21.DivisorInvertsWhenExact | csharp/solvers/Problem21.cs:51-53 | for '/' with an unknown divisor the pushed quotient gives back the result when it divides the dividend exactly |
| Problem21.InexactDivisorMisses | csharp/solvers/Problem21.cs:51-53 | pushing 4 into `10 / _` pushes 2, and `10 / 2` is 5 |
| Problem21.DividendInverts | csharp/solvers/Problem21.cs:77-79 | for '/' with an unknown dividend the pushed product gives back the result when it fits in a `long` |
| Problem21.OverflowingDividendMisses | csharp/solvers/Problem21.cs:77-79 | pushing 2^62 into `_ / 4` pushes the wrapped product 0, and `0 / 4` is 0 |
| Problem21.EqualsPushesKnownValue | csharp/solvers/Problem21.cs:54-98 | '=' pushes the known side's value to the unknown side, and the test holds for the pushed result only when that result is 1 |
| Problem21.HumanBalancesRoot | csharp/solvers/Problem21.cs:146-149 | when the rebuilt troop is solvable with the human as its only unknown, the push gives the human a number and the root's two operands then evaluate equal |
| Helpers.Deconstruct | csharp/Helpers.cs:13-19 | an array splits into its two elements exactly when it has length 2; any other length is an `ArgumentException`; the copy in `aoc/Helpers.cs` is the same code |
| Helpers.CellOrderIndex | csharp/Helpers.cs:21-28 | the nested loops visit cell (i, j) at position i * columns + j, i.e. row-major order |
| Helpers.For | csharp/Helpers.cs:21-38 | every cell of the 2-D array is visited exactly once, in row-major order, with its current value; the copy in `aoc/Helpers.cs` is the same code |
| Helpers.Singleton | csharp/Helpers.cs:40-43 | the generic `AsEnumerable` yields exactly its one value |
| Helpers.GetOffsetAndLength | csharp/Helpers.cs:45-49 | a range resolves to (start, end - start) with from-end indices counted back from the length; a start past the end or an end past the length is an `ArgumentOutOfRangeException` |
| Helpers.RangeValues | csharp/Helpers.cs:45-49 | `AsEnumerable(range)` yields start, start + 1, ..., end - 1, and fails when the range does not resolve |
| Helpers.AddedOrUpdated | csharp/Helpers.cs:51-65 | the key ends up holding `update(old)` if it was present and `add` otherwise; the key set gains only that key and every other entry is unchanged |
| Helpers.Dictionary.AddOrUpdate | csharp/Helpers.cs:51-65 | updating the dictionary in place leaves exactly the `AddedOrUpdated` map; the copy in `aoc/Helpers.cs` is the same code |
| Helpers.IncrementCounts | csharp/Helpers.cs:67-73 | incrementing stores `amount` for a new key and the 32-bit wrapped sum for an existing one, leaving other keys alone |
| Helpers.IncrementThenDecrement | csharp/Helpers.cs:67-81 | a decrement by the same amount undoes an increment of an existing 32-bit count |
| Helpers.Increment | csharp/Helpers.cs:67-73 | incrementing a dictionary in place leaves the `Incremented` map; the copy in `aoc/Helpers.cs` is the same code |
| Helpers.Decrement | csharp/Helpers.cs:75-81 | decrementing is incrementing by the wrapped negation of the amount |
| Types.Point2I.Add | csharp/Types.cs:7-10 | adding a point adds the coordinates, with 32-bit wrap-around; without overflow it is plain addition |
| Types.Point2I.AddXY | csharp/Types.cs:12-15 | adding offsets adds them to the coordinates, with 32-bit wrap-around |
| Types.AddIsAddXY | csharp/Types.cs:7-15 | adding a point is adding its coordinates as offsets |
| Types.AddInverse | csharp/Types.cs:12-15 | adding (0, 0) changes nothing, and adding (-dx, -dy) undoes adding (dx, dy), even across wrap-around |
| Types.FromTuple | csharp/Types.cs:5 | the implicit conversion keeps both coordinates |
| Types.IPoint3FromTuple | csharp/Types.cs:20 | the implicit conversion keeps all three coordinates |
| Types.LPoint2FromTuple | csharp/Types.cs:25 | the implicit conversion keeps both coordinates |
| Types.LPoint3FromTuple | csharp/Types.cs:30 | the implicit conversion keeps all three coordinates |
| Types.BoundsAreInclusive | csharp/Types.cs:38-43 | all four corners of a non-empty rectangle are in bounds and the points just outside each edge are not |
| Problem02.BasicScore | csharp/solvers/Problem02.cs:15-20 | the round's score is defined exactly for `them` in A-C and `me` in X-Z and lies in 1..9; other characters make the switch throw; the copy in `aoc/solvers/Problem2.cs` is the same code |
| Problem02.BasicScoreIsShapePlusOutcome | csharp/solvers/Problem02.cs:15-20 | the basic score is the shape's value (1-3) plus 6 for a win, 3 for a draw and 0 for a loss |
| Problem02.ComplicatedScore | csharp/solvers/Problem02.cs:21-26 | the second score is defined for the same characters and lies in 1..9; the copy in `aoc/solvers/Problem2.cs` is the same code |
| Problem02.ComplicatedScoreAchievesTarget | csharp/solvers/Problem02.cs:21-26 | X/Y/Z score 0/3/6 and the rest of the score is the value of the reply that loses, draws or wins against `them` |
| Problem02.Totals | csharp/solvers/Problem02.cs:13-27 | the exact totals exist iff every round is valid, and each lies between the number of rounds and nine times it |
| Problem02.ScoreRounds | csharp/solvers/Problem02.cs:9-27 | the loop fails iff some round is invalid and otherwise returns the two totals wrapped to 32 bits; the copy in `aoc/solvers/Problem2.cs` is the same code |
| Problem02.SmallInputsDoNotWrap | csharp/solvers/Problem02.cs:11-27 | up to 238,609,294 rounds the `int` totals are exact |
| Problem1.CountIncreases | aoc/solvers/Problem1.cs:29-35 | the number of values greater than their predecessor; the first value is never counted |
| Problem1.CountWindowIncreases | aoc/solvers/Problem1.cs:23-28 | the number of reads after which the three-slot sum grew |
| Problem1.CheckedSum | aoc/solvers/Problem1.cs:23-25 | `Sum()` of three `int` slots succeeds iff neither partial sum overflows, and is then the exact sum |
| Problem1.SlotBeforeWrite | aoc/solvers/Problem1.cs:19-24 | the slot read i overwrites holds the value read three reads earlier, or the 99999 it started with |
| Problem1.SlotLastWrite | aoc/solvers/Problem1.cs:24 | after n reads, slot (n - d) mod 3 holds the value read d reads ago |
| Problem1.WindowHoldsLastThree | aoc/solvers/Problem1.cs:19-25 | after at least three reads the slots hold exactly the last three values, so their sum is the sliding-window sum |
| Problem1.WindowIncrease | aoc/solvers/Problem1.cs:23-28 | the window sum grows iff the new value is greater than the one it replaces |
| Problem1.Run | aoc/solvers/Problem1.cs:16-39 | the loop throws iff some window sum overflows; otherwise it returns both counts |
| Problem3.PriorityOfLetters | csharp/solvers/Problem3.cs:63-66 | 'a'..'z' are worth 1..26 and 'A'..'Z' 27..52, and no two letters share a priority; the copy in `aoc/solvers/Problem3.cs` is the same code |
| Problem3.Single | csharp/solvers/Problem3.cs:40 | `Single` succeeds exactly on a set with one element and returns it; otherwise it is an `InvalidOperationException` |
| Problem3.SingletonIsSizeOne | csharp/solvers/Problem3.cs:40 | "non-empty with all elements equal" is "exactly one element" |
| Problem3.LinePriorityIsSharedItem | csharp/solvers/Problem3.cs:38-41 | a line's halves, split at length / 2, must share exactly one item type, whose priority the line adds |
| Problem3.GroupPriorityIsBadge | csharp/solvers/Problem3.cs:50-52 | a group of three lines must share exactly one item type, whose priority the group adds |
| Problem3.TotalSucceedsIffAll | csharp/solvers/Problem3.cs:35-56 | a sum succeeds iff every line (or group) it adds succeeds, since the first `Single` to throw ends the run |
| Problem3.TotalFailureStays | csharp/solvers/Problem3.cs:35-56 | a failure part way through is a failure of the whole run |
| Problem3.CompartmentOverlap | csharp/solvers/Problem3.cs:30-61 | the loop succeeds iff every line and every complete group has its one shared item, and returns the line sum and the sum over complete groups; the copy in `aoc/solvers/Problem3.cs` is the same code |
| Problem3.ReadLine | csharp/solvers/Problem3.cs:36-55 | one turn adds the line's priority and, when the line is the third of its group, the group's badge, then clears the group |
| Problem3.GroupGrows | csharp/solvers/Problem3.cs:47 | the group list holds the item sets of the group's lines read so far, in order |
| Problem3.Chunks | csharp/solvers/Problem3.cs:77 | `Chunk(3)` yields chunks of one to three lines |
| Problem3.FullChunks | csharp/solvers/Problem3.cs:77-82 | keeping only chunks of exactly three lines leaves only full chunks |
| Problem3.FullChunkPriorities | csharp/solvers/Problem3.cs:77-82 | the full chunks, each priced by its common item, are the loop's groups of three priced the same way, in order |
| Problem3.ChunksAllFull | csharp/solvers/Problem3.cs:77 | when the line count is a multiple of three every chunk is full |
| Problem3.LinqSums | csharp/solvers/Problem3.cs:68-98 | `WithLinq` as written: part 1 is the loop's line sum and fails with it; LinqSumsOnWholeGroups and PartialGroupCounted say when part 2 agrees with the loop's badge sum |
| Problem3.LinqSumsOnWholeGroups | csharp/solvers/Problem3.cs:68-98 | `WithLinq` and `WithQuerySyntax` as written equal the filtered pipeline, and so the loop's sums, on a whole number of groups |
| Problem3.WholeGroupSumsMatchLoop | csharp/solvers/Problem3.cs:30-98 | the LINQ pipeline with the trailing partial chunk filtered out succeeds exactly when both loop sums succeed, and then yields the loop's two sums |
| Problem3.PartialGroupCounted | csharp/solvers/Problem3.cs:77-82 | on five lines "aa" the loop's badge sum is 1 while the LINQ pipeline's is 2 |
| Problem4.SectionRange | aoc/solvers/Problem4.cs:25-26 | `Enumerable.Range(start, end - start + 1)` is the set start..end; it throws when end + 1 < start or when the 32-bit count wraps (0..int.MaxValue) |
| Problem4.SectionsContents | aoc/solvers/Problem4.cs:25-26 | a section range holds exactly the integers from its start to its end, and end - start + 1 of them |
| Problem4.SectionsMeet | aoc/solvers/Problem4.cs:27 | two ranges intersect in the range from the later start to the earlier end |
| Problem4.MeasurePair | aoc/solvers/Problem4.cs:25-27 | building both ranges as sets and intersecting them gives the interval lengths of `PairSizes`, and fails exactly when it says |
| Problem4.Tally | aoc/solvers/Problem4.cs:28-36 | a pair adds one to the first count iff the intersection is as large as one range, and one to the second iff it is not empty |
| Problem4.CountOverlaps | aoc/solvers/Problem4.cs:19-39 | the loop returns the two counts over all pairs, or the first `Enumerable.Range` failure |
| Problem4.ContainedIffNested | aoc/solvers/Problem4.cs:27-31 | a pair counts as contained iff one range lies inside the other (an empty range lies inside any) |
| Problem4.OverlappingIffMeet | aoc/solvers/Problem4.cs:33-36 | a pair counts as overlapping iff both ranges are non-empty and each starts no later than the other ends |
| Problem4.Counts | aoc/solvers/Problem4.cs:21-37 | neither count exceeds the number of pairs |
| Problem4.LinqRange | aoc/solvers/Problem4.cs:49 | `start..(end + 1)` is built unless `end + 1` wraps to a negative index, which throws |
| Problem4.LinqOverlapComparesRanges | aoc/solvers/Problem4.cs:52 | as written, the LINQ "overlap" is 1 when the two ranges are identical and 0 otherwise |
| Problem4.LinqMissesNestedPair | aoc/solvers/Problem4.cs:41-59 | on the pair 2-4,3-3 the loop counts (1, 1) and `ExecuteLinq` as written (0, 0) |
| Problem4.RangeValuesAreSections | csharp/Helpers.cs:45-49 | the values of `start..(end + 1)` are exactly the sections start..end |
| Problem4.FixedLinqMatchesLoop | aoc/solvers/Problem4.cs:46-53 | with the `Range` overload, each projected pair has the loop's three numbers, below `int.MaxValue` |
| Problem4.FixedLinqCounts | aoc/solvers/Problem4.cs:46-59 | with the `Range` overload, `ExecuteLinq` returns the loop's counts whenever no range ends at `int.MaxValue` |
| Problem6.Run | csharp/solvers/Problem6.cs:23-41 | the loop reports i + 1 for the first index i whose last `size` characters are pairwise distinct, and reports nothing when no such window exists; the copy in `csharp/solvers/Problem06.cs` is the same code |
| Problem6.FirstMarkerIsFirst | csharp/solvers/Problem6.cs:35-39 | the reported position p has the `size` characters before it pairwise distinct and no earlier index ends such a window; there is no report iff no index does |
| Problem6.MarkerFromIsFirst | csharp/solvers/Problem6.cs:26-40 | searching from any index finds the earliest marker at or after it, and finds none iff none exists there |
| Problem6.Step | csharp/solvers/Problem6.cs:28-34 | one iteration increments the new character and, from index `size` on, decrements the one leaving the window, keeping the dictionary in step with the window |
| Problem6.NextCountsTrack | csharp/solvers/Problem6.cs:26-34 | after index i each character read so far is a key whose value is its number of occurrences in the last min(i + 1, size) characters; those that left the window stay at 0 |
| Problem6.CountNext | csharp/Helpers.cs:67-73 | `Increment` by 1 of a dictionary mirroring a multiset mirrors the multiset with that character added, with no 32-bit wrap while counts stay below the line length |
| Problem6.CountOneLess | csharp/Helpers.cs:75-81 | `Decrement` by 1 of a present key mirrors the multiset with one copy removed, and the key stays in the dictionary |
| Problem6.CountOneMore | csharp/Helpers.cs:67-73 | `Increment` by 1 adds the key if it was absent and mirrors the multiset with one more copy |
| Problem6.WindowSlides | csharp/solvers/Problem6.cs:28-34 | reading one more character appends it to the window, and once the window is full removes the character `size` places back |
| Problem6.OnesMeanMarker | csharp/solvers/Problem6.cs:35 | while the dictionary tracks the window, exactly `size` values equal to 1 holds iff the window is full and pairwise distinct; zero entries never count |
| Problem6.DistinctChars | csharp/solvers/Problem06.cs:45-46 | `Distinct().Count()` of a string is at most its length, and equal to it iff its characters are pairwise distinct |
| Problem6.DistinctOnce | csharp/solvers/Problem6.cs:35 | in a window of pairwise distinct characters every character has count 1 |
| Problem6.NoEarlyMarker | csharp/solvers/Problem6.cs:26-35 | no index before `size - 1` can report, since fewer than `size` characters have been read |
| Problem6.LinqFollowsLoop | csharp/solvers/Problem06.cs:43-47 | the LINQ scan from window start j finds the loop's marker less `size`, and runs `Substring` past the end when the loop finds none |
| Problem6.LinqHeaderFrom | csharp/solvers/Problem06.cs:43-47 | the scan throws only `ArgumentOutOfRangeException`; a start other than -1 is the first window from `i` on whose `size` characters are pairwise distinct |
| Problem6.RunLinq | csharp/solvers/Problem06.cs:41-52 | `RunLinq` throws only `ArgumentOutOfRangeException`; unless no window was found it reports the end of the first window of `size` pairwise distinct characters |
| Problem6.LinqMatchesLoop | csharp/solvers/Problem06.cs:14-17 | `RunLinq` prints the same position as `Run` whenever the line has a marker; without one it throws on a non-empty line and prints `size - 1` on an empty one |
| Problem5.LineCrates | csharp/solvers/Problem05.cs:24-31 | the columns scanned from stack i on are exactly the stacks k ≥ i whose column 4k + 1 lies inside the line and holds a letter |
| Problem5.Yard.ReadDrawingLine | csharp/solvers/Problem05.cs:24-39 | one drawing line pushes the letter at column 4i + 1 onto stack i, creating the stack at its first crate; stacks without a letter in the line are unchanged; the copy in `csharp/solvers/Problem5.cs` is the same code |
| Problem5.AddedNext | csharp/solvers/Problem05.cs:29-37 | reading column i pushes its letter, if any, onto stack i and changes no other stack |
| Problem5.AddedNone | csharp/solvers/Problem05.cs:24 | before the first column nothing has changed |
| Problem5.AddedAll | csharp/solvers/Problem05.cs:26-28 | once the column index passes the end of the line, every crate of the line has been pushed |
| Problem5.Overwritten | csharp/solvers/Problem05.cs:32-37 | creating an empty stack and then pushing onto it is the same as writing the pushed stack directly |
| Problem5.DrawnColumns | csharp/solvers/Problem05.cs:15-40 | after the drawing, stack i exists iff some line shows a crate at column 4i + 1, and it holds exactly those crates, top line pushed first |
| Problem5.TopIsHighest | csharp/solvers/Problem05.cs:42-48 | after the reversal pass the top of every stack is the crate from the highest line that shows one in its column |
| Problem5.NoCrateAbove | csharp/solvers/Problem05.cs:24-39 | an empty column means no drawing line shows a crate there |
| Problem5.Flipped | csharp/solvers/Problem05.cs:42-48 | the reversal pass keeps the stack numbers and reverses every stack |
| Problem5.Yard.ReverseAll | csharp/solvers/Problem05.cs:42-48 | the in-place pass over every stack leaves the stacks equal to `Flipped` of the old ones; the copy in `csharp/solvers/Problem5.cs` is the same code |
| Problem5.Yard.ReverseStack | csharp/solvers/Problem05.cs:44-47 | listing a stack, clearing it and pushing the list back yields the stack reversed |
| Problem5.ReversedTwice | csharp/solvers/Problem05.cs:56 | reversing twice gives back the sequence |
| Problem5.ReversedSnoc | csharp/solvers/Problem05.cs:79 | reversing a sequence with one more crate on top puts that crate first |
| Problem5.PoppedOne | csharp/solvers/Problem05.cs:101-104 | one more pop leaves one fewer crate and appends the popped crate to the reversed block |
| Problem5.ReversedMultiset | csharp/solvers/Problem05.cs:77-80 | reversing keeps every crate |
| Problem5.Clone | csharp/solvers/Problem05.cs:56-60 | `new Stack(s.Reverse())` for every stack gives identical stacks in identical order; the copy in `csharp/solvers/Problem5.cs` is the same code |
| Problem5.SameStacks | csharp/solvers/Problem05.cs:13 | two dictionaries of stacks with the same keys and the same stacks are equal |
| Problem5.Moved9000Reverses | csharp/solvers/Problem05.cs:77-80 | `count` single-crate moves between different stacks take the top `count` crates off `from` and put them on `to` in reversed order; they throw `KeyNotFoundException` for a missing stack and `InvalidOperationException` when `from` has fewer than `count` crates |
| Problem5.Moved9000InPlace | csharp/solvers/Problem05.cs:77-80 | moving from a stack onto itself changes nothing, but throws when the stack is missing or empty |
| Problem5.Yard.CrateMover9000 | csharp/solvers/Problem05.cs:77-80 | the in-place loop of single-crate moves succeeds, throws and ends in the state exactly as the single-move specification does; the copy in `csharp/solvers/Problem5.cs` is the same code |
| Problem5.Yard.PopBlock | csharp/solvers/Problem05.cs:101-104 | popping `count` crates onto a temporary stack succeeds iff `from` exists and holds enough crates; the temporary stack then holds the top `count` crates reversed and `from` keeps the rest |
| Problem5.Yard.PushBlock | csharp/solvers/Problem05.cs:105-108 | popping the temporary stack onto `to` succeeds iff `to` exists, and appends the temporary stack's contents reversed |
| Problem5.Yard.CrateMover9001 | csharp/solvers/Problem05.cs:100-108 | the two loops through a temporary stack move the top `count` crates onto `to` in their original order, with the same exceptions as the closed form `Moved9001`; the copy in `csharp/solvers/Problem5.cs` is the same code |
| Problem5.CranesDiffer | csharp/solvers/Problem5.cs:79-110 | between two different stacks the two cranes succeed on the same inputs; the 9001 keeps the block's order and the 9000 leaves the same block reversed |
| Problem5.MoveConserves | csharp/solvers/Problem05.cs:79-108 | a successful instruction between different stacks takes exactly `count` crates from `from`, adds them to `to`, conserves the crates of those two stacks and leaves every other stack unchanged |
| Problem5.Moved9000Conserves | csharp/solvers/Problem5.cs:79-82 | the one-at-a-time move conserves crates and touches only `from` and `to` |
| Problem5.Moved9001Conserves | csharp/solvers/Problem5.cs:102-110 | the temp-stack move conserves crates and touches only `from` and `to` |
| Problem5.BlockShifted | csharp/solvers/Problem05.cs:100-108 | replacing the top `count` crates of one stack by a block with the same crates on another keeps the keys, the other stacks and the crates |
| Problem5.Ascending | csharp/solvers/Problem05.cs:83 | `OrderBy(s => s.Key)` lists every stack number exactly once |
| Problem5.AscendingSorted | csharp/solvers/Problem05.cs:83 | the listed stack numbers are strictly increasing |
| Problem5.PrependIncreasing | csharp/solvers/Problem05.cs:83 | a number below every listed one can be put in front |
| Problem5.LeastExists | csharp/solvers/Problem05.cs:83 | a non-empty set of stack numbers has a least one |
| Problem5.PeeksAreTops | csharp/solvers/Problem05.cs:83 | peeking the listed stacks succeeds iff none of them is empty, and gives their top crates in order |
| Problem5.TopsInOrder | csharp/solvers/Problem05.cs:83-112 | the message is the top crate of every stack by ascending stack number; `Peek` throws iff some stack is empty |
| Problem5.NoneEmpty | csharp/solvers/Problem05.cs:83 | when the listing covers exactly the stacks, no listed stack is empty iff no stack is |
| Problem5.DrawingEnd | csharp/solvers/Problem05.cs:15-22 | the drawing ends at the first line without `[`, or at the end of the input |
| Problem5.Yard.Part1 | csharp/solvers/Problem05.cs:64-85 | running all instructions with the 9000 and peeking gives the specified outcome; the first instruction that throws ends the run with its exception |
| Problem5.Yard.Part2 | csharp/solvers/Problem05.cs:87-114 | running all instructions with the 9001 and peeking gives the specified outcome, stopping at the first exception |
| Problem5.RearrangedStops | csharp/solvers/Problem05.cs:66-81 | once an instruction throws, the later ones are never run |
| Problem5.ExecuteCore | csharp/solvers/Problem05.cs:11-62 | reading the drawing, reversing, skipping the separator line and running both parts on clones gives part 1's outcome on the drawn stacks and the parsed instructions, then part 2's only when part 1 did not throw (a part-1 exception is the run's); the copy in `csharp/solvers/Problem5.cs` is the same code |
| Problem07.ChildNamed | csharp/solvers/Problem07.cs:26 | `FirstOrDefault` finds a child at or after position k whose name is the path, and finds none exactly when no child from k on has that name |
| Problem07.MovedDown | csharp/solvers/Problem07.cs:24-30 | the tree never shrinks and the directory returned is one of its nodes |
| Problem07.MoveDownFinds | csharp/solvers/Problem07.cs:24-30 | the directory returned is a child of the node with the requested name; an existing child leaves the tree unchanged, otherwise exactly one new empty child is appended, with this node as its parent; no other node changes |
| Problem07.MoveDownWellFormed | csharp/solvers/Problem07.cs:24-30 | moving down keeps the tree well formed: parent and child links agree both ways and child names stay unique |
| Problem07.FileSystem.MoveDown | csharp/solvers/Problem07.cs:24-30 | the in-place `MoveDown` leaves the tree and returns the child that `MovedDown` describes, and the tree stays well formed |
| Problem07.FileSystem.constructor | csharp/solvers/Problem07.cs:13-17 | the tree starts as the root "/" alone, with no parent |
| Problem07.ChildrenTotalBounds | csharp/solvers/Problem07.cs:32-35 | with no negative file sizes, the first k children together are at least as large as each of them |
| Problem07.TotalSizeBounds | csharp/solvers/Problem07.cs:32-35 | with no negative file sizes, a directory's size is at least its children's total, and that total is not negative |
| Problem07.ChildNoLarger | csharp/solvers/Problem07.cs:32-35 | with no negative file sizes, a directory is at least as large as each of its children |
| Problem07.WithinRoot | csharp/solvers/Problem07.cs:32-35 | with no negative file sizes, no directory is larger than the root |
| Problem07.SizeExact | csharp/solvers/Problem07.cs:32-35 | `GetSize` equals the true recursive size (files plus children) whenever sizes are not negative and that size fits an `int`: no `Sum` throws and the `+` does not wrap |
| Problem07.ChildrenExact | csharp/solvers/Problem07.cs:34 | under the same conditions, the checked `Sum` over the first k children is their exact total |
| Problem07.Size | csharp/solvers/Problem07.cs:32-35 | `GetSize` returns an `int` and throws only `OverflowException` |
| Problem07.ChildrenSize | csharp/solvers/Problem07.cs:34 | the checked `Sum` over the children returns an `int` and throws only `OverflowException` |
| Problem07.FullNameFromRoot | csharp/solvers/Problem07.cs:37-42 | every full name starts with the root's name and ends with the node's name, and a child's full name is its parent's, then " :: ", then its name |
| Problem07.WithFile | csharp/solvers/Problem07.cs:85 | adding a file appends it to this directory's files and changes no name, parent or child list anywhere |
| Problem07.WithFileWellFormed | csharp/solvers/Problem07.cs:85 | adding a file keeps the tree well formed |
| Problem07.FileSystem.AddFile | csharp/solvers/Problem07.cs:85 | the in-place `Files.Add` gives `WithFile` of the old tree, which stays well formed |
| Problem07.EnteredConsistent | csharp/solvers/Problem07.cs:71 | `allNodes.Add(current = current.MoveDown(...))` keeps the tree well formed, with `current` and every entry of `allNodes` naming a node |
| Problem07.Command | csharp/solvers/Problem07.cs:56-77 | a `$` line keeps the shell state consistent; the result is `IndexOutOfRangeException` for a missing word and `NullReferenceException` for a null `current` |
| Problem07.Listing | csharp/solvers/Problem07.cs:79-87 | a listing line keeps the shell state consistent; a null `current` throws before a missing name, and that before `int.Parse` |
| Problem07.Step | csharp/solvers/Problem07.cs:54-88 | one line of the transcript keeps the shell state consistent |
| Problem07.Replay | csharp/solvers/Problem07.cs:51-88 | replaying the transcript from the root alone gives a consistent state or the first exception |
| Problem07.ReplayStops | csharp/solvers/Problem07.cs:54-88 | once a line has thrown, no further line changes the outcome |
| Problem07.CdUp | csharp/solvers/Problem07.cs:64-66 | `$ cd ..` moves to the parent, which is null when `current` is the root |
| Problem07.CdRoot | csharp/solvers/Problem07.cs:67-69 | `$ cd /` moves to the root from anywhere, even after climbing above it |
| Problem07.CdInto | csharp/solvers/Problem07.cs:70-72 | `$ cd x` moves into child x (added if new) and appends it to `allNodes`; x is a child of the previous current directory; with a null current it throws `NullReferenceException` |
| Problem07.OtherCommand | csharp/solvers/Problem07.cs:59-76 | any command other than `cd`, such as `$ ls`, changes nothing |
| Problem07.ListedDir | csharp/solvers/Problem07.cs:82-83 | a `dir x` line changes nothing |
| Problem07.ListedFile | csharp/solvers/Problem07.cs:84-86 | a `size name` line adds a file with that name and size to the current directory |
| Problem07.Sizes | csharp/solvers/Problem07.cs:90-93 | the sizes of `allNodes` are each node's `GetSize`, in order; a failure is the exception of some node's `GetSize` |
| Problem07.Small | csharp/solvers/Problem07.cs:95 | the `Where` keeps only sizes at most 100000 and is no longer than its input |
| Problem07.SmallKeeps | csharp/solvers/Problem07.cs:95 | the `Where` keeps each size at most 100000 exactly as often as it occurs, and drops every larger one |
| Problem07.Smallest | csharp/solvers/Problem07.cs:103 | `OrderBy(...).First(...)` finds nothing exactly when every size is below `needed`; otherwise it returns a size at least `needed`, no larger than any other such size and strictly smaller than any earlier such size (the sort is stable) |
| Problem07.Needed | csharp/solvers/Problem07.cs:100-101 | for a root size in `int` range that is not negative, the wrapped `needed` is exactly 30000000 − (70000000 − root size) |
| Problem07.Choose | csharp/solvers/Problem07.cs:103-104 | the report names an entered directory whose size is the smallest at least `needed`; `InvalidOperationException` comes exactly when no size reaches `needed` |
| Problem07.SizesExact | csharp/solvers/Problem07.cs:90-93 | when sizes are not negative and the root's size fits an `int`, every `GetSize` in the listing is the node's true size |
| Problem07.DeletionChoice | csharp/solvers/Problem07.cs:95-104 | under the same conditions, the answers are `Answer` over the true sizes, with `needed` computed exactly; so the chosen directory is the smallest at least 30000000 − (70000000 − root size) |
| Problem07.Summary | csharp/solvers/Problem07.cs:90-104 | on success every entered directory's `GetSize` succeeded and the reported directory is an entered one with its own `GetSize`; a failure is an overflow or a missing candidate |
| Problem07.Outcome | csharp/solvers/Problem07.cs:49-105 | a successful run replayed the whole transcript and reports a directory it entered, with that directory's `GetSize` |
| Problem07.RunCommand | csharp/solvers/Problem07.cs:56-77 | the in-place handling of a `$` line has the effect, or throws the exception, that `Command` gives |
| Problem07.RunListing | csharp/solvers/Problem07.cs:79-87 | the in-place handling of a listing line has the effect, or throws the exception, that `Listing` gives |
| Problem07.Interpret | csharp/solvers/Problem07.cs:54-88 | the in-place handling of one line matches `Step` |
| Problem07.ExecuteCore | csharp/solvers/Problem07.cs:49-105 | the solver's loop and reports give `Outcome` of the transcript: the replay, then the answers |
| Text.Split | csharp/solvers/Problem07.cs:58 | `Split(' ')` returns at least one piece, and no piece contains the separator |
| Text.JoinedSplit | csharp/solvers/Problem07.cs:79 | joining the pieces of a split with the separator gives the string back |
| Text.SplitJoined | csharp/solvers/Problem07.cs:79 | splitting pieces that contain no separator, once joined, gives the pieces back |
| Text.SplitPiece | csharp/solvers/Problem07.cs:79 | a string without the separator splits into itself alone |
| Text.SplitPrefix | csharp/solvers/Problem07.cs:58 | a separator-free piece followed by the separator is the first piece of the split |
| Text.Decimal | csharp/solvers/Problem07.cs:85 | the decimal digits of n are non-empty, all digits, and read back as n |
| Text.ParseInt | csharp/solvers/Problem07.cs:85 | `int.Parse` succeeds only on an optional sign followed by digits whose value fits an `int`; it throws `FormatException` exactly when the text is not such a number; otherwise it yields the digits' value with the sign applied when that fits, and throws `OverflowException` when it does not |
| Text.ParseSigned | csharp/solvers/Problem07.cs:85 | `int.Parse` reads back every `int` written in decimal |
| Numerics.LinqSum | csharp/solvers/Problem07.cs:34 | LINQ's `Sum` succeeds exactly when every running total fits an `int`, and then gives the exact sum; otherwise it throws `OverflowException` |
| Numerics.SumMonotone | csharp/solvers/Problem07.cs:98 | with no negative values, every running total lies between 0 and the whole sum |
| Numerics.LinqSumFits | csharp/solvers/Problem07.cs:98 | `Sum` of non-negative values whose total fits an `int` does not throw and is exact |
| Problem8.RowError | csharp/solvers/Problem8.cs:20-23 | parsing one row can fail only with `FormatException` (a non-digit, met first) or `IndexOutOfRangeException` (a digit past the first line's width) |
| Problem8.LinesError | csharp/solvers/Problem8.cs:17-24 | loading the rows in order can fail only with those two exceptions |
| Problem8.HeightAt | csharp/solvers/Problem8.cs:22 | a stored height is between 0 and 9 |
| Problem8.Heights | csharp/solvers/Problem8.cs:15-24 | a loaded grid has one row per line and the first line's width; loading fails only with `ArgumentOutOfRangeException` (no lines), `FormatException` or `IndexOutOfRangeException` |
| Problem8.RowErrorNone | csharp/solvers/Problem8.cs:20-23 | a row loads without error iff every character is a digit inside the first line's width |
| Problem8.LinesErrorNone | csharp/solvers/Problem8.cs:17-24 | all rows load without error iff each of them does |
| Problem8.HeightsSucceed | csharp/solvers/Problem8.cs:15-24 | loading succeeds iff there is a line, every line is all digits, and no line is longer than the first |
| Problem8.HeightsAreDigits | csharp/solvers/Problem8.cs:22 | each height is the digit's value, and 0 past the end of a shorter line |
| Problem8.Load | csharp/solvers/Problem8.cs:15-24 | the loading loops throw exactly the exception `Heights` predicts, and otherwise the array holds `Heights`' grid |
| Problem8.AnyInColumnExists | csharp/solvers/Problem8.cs:38-39 | the `Any` scan over a column range finds a tree at least as tall iff one exists in that range |
| Problem8.AnyInRowExists | csharp/solvers/Problem8.cs:40-41 | the `Any` scan over a row range finds a tree at least as tall iff one exists in that range |
| Problem8.BlockedExists | csharp/solvers/Problem8.cs:36-41 | each of the four `Any` tests is true iff some tree on that side, in the same row or column, is at least as tall |
| Problem8.ViewFrom | csharp/solvers/Problem8.cs:43-73 | a counting loop never counts more trees than stand between the tree and the edge |
| Problem8.ViewFromStops | csharp/solvers/Problem8.cs:43-73 | the viewing distance is 0 only at the edge, every tree it passes is shorter, and unless it reaches the edge it stops on a tree at least as tall |
| Problem8.ViewFromUnique | csharp/solvers/Problem8.cs:43-73 | any count with those three properties is the viewing distance |
| Problem8.BlockedAlongLine | csharp/solvers/Problem8.cs:36-48 | a side is blocked iff the line of sight the counting loop walks holds a tree at least as tall |
| Problem8.ClearIffSeesEdge | csharp/solvers/Problem8.cs:36-73 | a side is clear iff the viewing distance that way runs to the edge and the edge tree is shorter |
| Problem8.VisibleIffSeesEdge | csharp/solvers/Problem8.cs:36-73 | a tree is visible iff in some direction its view runs to the edge past a shorter edge tree |
| Problem8.EdgeTrees | csharp/solvers/Problem8.cs:36-73 | trees on the edge are visible; a tree is on the edge iff one of its viewing distances is 0 |
| Problem8.ProductZero | csharp/solvers/Problem8.cs:75 | a zero factor makes the wrapped and the exact product 0 |
| Problem8.ExactProductNonNegative | csharp/solvers/Problem8.cs:75 | a product of non-negative factors is non-negative |
| Problem8.ProductExact | csharp/solvers/Problem8.cs:75 | non-negative factors whose exact product fits an `int` multiply without wrapping |
| Problem8.FourFactorsExact | csharp/solvers/Problem8.cs:75 | `up * down * left * right` in `int` arithmetic is the exact product when that fits |
| Problem8.ScenicScore | csharp/solvers/Problem8.cs:75 | edge trees score 0, and a score is the exact product of the four viewing distances whenever that fits an `int` |
| Problem8.LookUp | csharp/solvers/Problem8.cs:43-49 | the upward counting loop computes the viewing distance upwards |
| Problem8.LookLeft | csharp/solvers/Problem8.cs:51-57 | the leftward counting loop computes the viewing distance to the left |
| Problem8.LookDown | csharp/solvers/Problem8.cs:59-65 | the downward counting loop computes the viewing distance downwards |
| Problem8.LookRight | csharp/solvers/Problem8.cs:67-73 | the rightward counting loop computes the viewing distance to the right |
| Problem8.SurveyCell | csharp/solvers/Problem8.cs:36-75 | one pass of the loop body gives the tree's visibility and its wrapped scenic score |
| Problem8.SurveyRow | csharp/solvers/Problem8.cs:34-76 | the inner loop fills one row of `visible` and `score` and leaves the other rows alone |
| Problem8.Survey | csharp/solvers/Problem8.cs:26-76 | after the nested loops every cell of `visible` and `score` holds that tree's visibility and score |
| Problem8.Flatten | csharp/solvers/Problem8.cs:99 | `Cast<bool>()` lists a 2-D array's cells row after row |
| Problem8.Count | csharp/solvers/Problem8.cs:99 | `Count(v => v)` is at most the number of entries |
| Problem8.CountIsTrueEntries | csharp/solvers/Problem8.cs:99 | the count is the number of true entries |
| Problem8.CellListed | csharp/solvers/Problem8.cs:99 | tree (r, c) is entry `r * width + c` of the row-major listing |
| Problem8.Max | csharp/solvers/Problem8.cs:102 | `Max()` throws `InvalidOperationException` exactly on an empty sequence, and otherwise returns an element no smaller than any other |
| Problem8.BestBoundsAll | csharp/solvers/Problem8.cs:102 | the best score is at least every tree's score |
| Problem8.ReportedScores | csharp/solvers/Problem8.cs:102 | the sequence the program takes the maximum of has exactly one element |
| Problem8.ReportedScoresIsTheArray | csharp/solvers/Problem8.cs:102 | that element is the score array itself, not one score per tree |
| Problem8.Execute | csharp/solvers/Problem8.cs:13-102 | the whole run gives the loading error, or the number of visible trees and the best score |
| Problem8.ExpectedAnswers | csharp/solvers/Problem8.cs:99-102 | the reported count is the number of visible trees, and the best score bounds every tree's score |
| Problem9.DragTailCloses | csharp/solvers/Problem9.cs:15-21 | a touching knot stays put; any other knot moves exactly one step and comes exactly one step closer, so a knot at most two away ends up touching |
| Problem9.MoveHead | csharp/solvers/Problem9.cs:30-47 | R, L, U and D move the head by exactly one unit, and any other letter leaves it where it is |
| Problem9.FollowFromKeepsAhead | csharp/solvers/Problem9.cs:49-52 | dragging the knots after `i` leaves knots 0 to `i` unchanged |
| Problem9.FollowFromTaut | csharp/solvers/Problem9.cs:49-52 | the drag loop makes the rope taut again when one pair is at most two apart, and moves each knot at most one step |
| Problem9.Step | csharp/solvers/Problem9.cs:28-52 | one step keeps ten knots and puts the head where the `switch` moves it |
| Problem9.StepKeepsTaut | csharp/solvers/Problem9.cs:28-52 | after a step of a taut rope every pair of consecutive knots touches again, and no knot moved more than one step |
| Problem9.RopeInvariant | csharp/solvers/Problem9.cs:26-56 | after any number of steps consecutive knots touch, and no knot is further from the origin than the number of steps |
| Problem9.HeadPosition | csharp/solvers/Problem9.cs:28-47 | the head's x is the number of R steps minus L steps, and its y the number of D steps minus U steps |
| Problem9.Trail | csharp/solvers/Problem9.cs:24-25 | a visited set contains the origin and the knot's current position |
| Problem9.TrailVisits | csharp/solvers/Problem9.cs:24-55 | a position is visited iff it is the origin or the knot's position after some step |
| Problem9.TrailGrows | csharp/solvers/Problem9.cs:54-55 | the visited sets only grow |
| Problem9.TrailSnoc | csharp/solvers/Problem9.cs:54-55 | each step adds the knot's new position to its set |
| Problem9.RopeSnoc | csharp/solvers/Problem9.cs:28-52 | each further step applies one more `Step` to the rope |
| Problem9.StepRope | csharp/solvers/Problem9.cs:30-52 | the loop body updates the `positions` array to the rope after one step |
| Problem9.RunMotion | csharp/solvers/Problem9.cs:28-56 | the loop over one line's count leaves the rope and both sets as after all of that line's steps |
| Problem9.Execute | csharp/solvers/Problem9.cs:13-60 | the two printed counts are the sizes of knot 1's and the last knot's visited sets after all steps |
| Problem10.Apply | csharp/solvers/Problem10.cs:64-91 | a noop leaves X alone; an addx adds its amount, exactly when the sum fits in an `int` and wrapped otherwise |
| Problem10.ExecutionState.constructor | csharp/solvers/Problem10.cs:21-26 | a new state's register dictionary holds just X = 1 |
| Problem10.Instruction.constructor | csharp/solvers/Problem10.cs:44-47 | a new instruction's delay is 1 for noop and 2 for addx |
| Problem10.Instruction.Execute | csharp/solvers/Problem10.cs:86-89 | `Execute` changes only register X, to the instruction's effect |
| Problem10.Instruction.TryExecute | csharp/solvers/Problem10.cs:49-59 | the delay drops by one; the call reports completion iff the delay is no longer positive, and only then applies the effect |
| Problem10.ParseInstruction | csharp/solvers/Problem10.cs:200-213 | a line parses only when its first word is noop or addx, and any other first word gives `ArgumentOutOfRangeException` |
| Problem10.ParseWritten | csharp/solvers/Problem10.cs:200-213 | "noop" and "addx n" for every `int` n parse to exactly those instructions |
| Problem10.XAfter | csharp/solvers/Problem10.cs:86-89 | X after any sequence of instructions is an `int` |
| Problem10.Trace | csharp/solvers/Problem10.cs:49-59 | the per-cycle values of X number between one and two per instruction and are all `int`s |
| Problem10.TraceSnoc | csharp/solvers/Problem10.cs:49-59 | one more instruction adds its 1 or 2 cycles, all seeing X as the earlier instructions left it, then applies its effect |
| Problem10.XAfterAdds | csharp/solvers/Problem10.cs:86-89 | without overflow, X is 1 plus the sum of the addx amounts |
| Problem10.TracePrefix | csharp/solvers/Problem10.cs:151-161 | running more instructions only extends the per-cycle values |
| Problem10.TraceDuring | csharp/solvers/Problem10.cs:151-161 | every cycle of instruction k sees X as instructions 0 to k - 1 left it |
| Problem10.FromStep | csharp/solvers/Problem10.cs:153-157 | with increasing checkpoints, the head of the list is the cycle counter iff the counter is a checkpoint, and moving on removes just that head |
| Problem10.SignalNext | csharp/solvers/Problem10.cs:153-157 | cycle n adds its product to the strength exactly when n is a checkpoint |
| Problem10.SignalPrefix | csharp/solvers/Problem10.cs:151-161 | the strength up to cycle n depends only on the first n cycles |
| Problem10.Reached | csharp/solvers/Problem10.cs:142 | the checkpoints reached by cycle n are checkpoints no later than n |
| Problem10.ReachedStep | csharp/solvers/Problem10.cs:153-157 | with increasing checkpoints, cycle n reaches one more checkpoint iff n is a checkpoint |
| Problem10.ReachedNone | csharp/solvers/Problem10.cs:141-142 | before cycle 1 no positive checkpoint is reached |
| Problem10.ReachedAll | csharp/solvers/Problem10.cs:142 | once every checkpoint is passed, all are reached, in order |
| Problem10.CheckSumSnoc | csharp/solvers/Problem10.cs:155-156 | reaching one more checkpoint adds its wrapped product to the reference sum |
| Problem10.SignalHit | csharp/solvers/Problem10.cs:153-157 | a checkpoint cycle adds the same product to the strength and to the reference sum |
| Problem10.SignalIsCheckSum | csharp/solvers/Problem10.cs:151-161 | for any increasing positive checkpoint list, the strength after n cycles is the in-order sum of cycle times X over the checkpoints reached |
| Problem10.SignalUpTo | csharp/solvers/Problem10.cs:151-161 | the strength is always an `int` |
| Problem10.SignalAtCheckPoints | csharp/solvers/Problem10.cs:142-157 | in a run of at least 220 cycles, the strength adds cycle times X once for each of 20, 60, 100, 140, 180 and 220, in order |
| Problem10.ParseAllSnoc | csharp/solvers/Problem10.cs:145-150 | reading one more line adds its instruction, or fails with that line's parse exception |
| Problem10.ParseAllFailureStays | csharp/solvers/Problem10.cs:150 | once a line fails to parse, the run has failed with that exception |
| Problem10.FirstEmpty | csharp/solvers/Problem10.cs:147-148 | the sequential run stops at the first empty line: every line before it is non-empty |
| Problem10.Sequential | csharp/solvers/Problem10.cs:139-164 | the sequential run throws exactly when reading the instructions throws, and otherwise reports an `int` strength |
| Problem10.RunInstruction | csharp/solvers/Problem10.cs:151-161 | the do-while runs exactly the instruction's 1 or 2 cycles, adds the product of each checkpoint cycle to the strength, and leaves X updated |
| Problem10.RunLine | csharp/solvers/Problem10.cs:150-161 | after one parsed line the cycle counter, checkpoint list, X and strength are those of the instructions so far plus this one |
| Problem10.RunSequential | csharp/solvers/Problem10.cs:139-164 | the run returns the strength over all cycles of the instructions before the first empty line, or the first parse exception |
| Problem10.LitMeaning | csharp/solvers/Problem10.cs:178 | for an `int` X the pixel is lit iff X is within one of the column; the test throws only when the wrapped difference is `int.MinValue` |
| Problem10.Pixels | csharp/solvers/Problem10.cs:170-185 | n cycles without an exception draw n pixels |
| Problem10.PixelsMeaning | csharp/solvers/Problem10.cs:170-185 | pixel i is lit iff X during cycle i + 1 is within one of column i % 40 |
| Problem10.PixelsSnoc | csharp/solvers/Problem10.cs:178-185 | one more cycle appends its own pixel |
| Problem10.PixelsPrefix | csharp/solvers/Problem10.cs:170-185 | the pixels depend only on the cycles drawn so far |
| Problem10.PixelsFailureStays | csharp/solvers/Problem10.cs:178 | once a pixel test throws, the drawing has thrown |
| Problem10.Fetch | csharp/solvers/Problem10.cs:172-176 | after a successful fetch an instruction is pending |
| Problem10.Tick | csharp/solvers/Problem10.cs:178-190 | a cycle without an exception appends one pixel, reads no line, and completes the instruction iff its delay was at most one |
| Problem10.DrawStep | csharp/solvers/Problem10.cs:170-190 | a cycle without an exception appends exactly one pixel to those drawn |
| Problem10.Drawn | csharp/solvers/Problem10.cs:170-197 | n cycles without an exception have drawn n pixels |
| Problem10.DrawnFailureStays | csharp/solvers/Problem10.cs:170-197 | once a cycle throws, the drawing run has thrown that exception |
| Problem10.FetchReady | csharp/solvers/Problem10.cs:172-176 | reading a line adds its instruction to those read, with its full delay, and keeps the drawing state consistent |
| Problem10.CyclePixel | csharp/solvers/Problem10.cs:178 | cycle n of an instruction draws its pixel from X as the earlier instructions left it |
| Problem10.TickAgrees | csharp/solvers/Problem10.cs:178-190 | drawing and `TryExecute` keep the state consistent, and a completed instruction joins the done ones |
| Problem10.DrawStepAgrees | csharp/solvers/Problem10.cs:170-190 | a cycle without an exception keeps X, the delay and the pixels consistent with the instructions read |
| Problem10.DrawnAgrees | csharp/solvers/Problem10.cs:170-197 | every state the drawing run reaches agrees with the instructions it has read |
| Problem10.DrawnPixels | csharp/solvers/Problem10.cs:170-197 | after n cycles the pixels are those drawn from the per-cycle values of X of the instructions read |
| Problem10.DrawnMeaning | csharp/solvers/Problem10.cs:170-197 | after n cycles there are n pixels, and pixel i is lit iff X during cycle i + 1 is within one of column i % 40 |
| Problem10.RenderMeaning | csharp/solvers/Problem10.cs:165-198 | a drawing without an exception has 240 pixels, each lit iff X during its cycle is within one of its column |
| Problem10.Render | csharp/solvers/Problem10.cs:165-198 | a drawing without an exception shows exactly 240 pixels |
| Problem10.DrawCycle | csharp/solvers/Problem10.cs:172-190 | one loop iteration moves the objects' state exactly as one step of the pure drawing run, or raises its exception |
| Problem10.RunRender | csharp/solvers/Problem10.cs:165-198 | the 240-cycle loop returns the pure drawing run's pixels, or its first exception |
| Problem10.Execute | csharp/solvers/Problem10.cs:15-19 | the strength of the sequential run, then the pixels of the drawing run over the same lines |
| Problem11.Inspect | csharp/solvers/Problem11.cs:89 | an operation's result is a `long`, exact when it fits, and `old - old` is always zero |
| Problem11.Closure | csharp/solvers/Problem11.cs:48-69 | the closure built from an operation line computes that operation in `long` arithmetic |
| Problem11.LongRemTruncates | csharp/solvers/Problem11.cs:96-97 | `%` on `long` throws exactly for a zero divisor or `long.MinValue % -1`, and otherwise truncates toward zero |
| Problem11.DividedTruncates | csharp/solvers/Problem11.cs:91-95 | the worry level is divided by 3, truncating toward zero, exactly when `reduce` is set |
| Problem11.Toss | csharp/solvers/Problem11.cs:89-98 | a zero factor divides by zero, a zero test always throws, and a successful toss goes to the true or the false monkey |
| Problem11.TossOutcome | csharp/solvers/Problem11.cs:89-98 | a toss throws iff the factor or the test is zero or the one overflowing remainder occurs; otherwise the thrown value is the divided worry modulo the factor, smaller than the factor, and the target is the true monkey iff that value is divisible by the test |
| Problem11.ResidueKeepsDivisibility | csharp/solvers/Problem11.cs:79-97 | reducing modulo a multiple of a test does not change divisibility by that test, in both directions |
| Problem11.TossKeepsRoute | csharp/solvers/Problem11.cs:96-98 | when the test divides the factor, the target is the true monkey iff the unreduced divided worry is divisible by the test |
| Problem11.FactorExact | csharp/solvers/Problem11.cs:79 | when no partial product overflows, the factor is the exact product of all tests |
| Problem11.Factor | csharp/solvers/Problem11.cs:79 | the product of the tests throws `InvalidOperationException` exactly when there are no monkeys |
| Problem11.ProductMultiple | csharp/solvers/Problem11.cs:79 | every test divides the exact product of the tests |
| Problem11.FactorDivisible | csharp/solvers/Problem11.cs:79 | without overflow, every non-zero test divides the factor |
| Problem11.Business | csharp/solvers/Problem11.cs:123-124 | no monkeys gives `InvalidOperationException`; one monkey gives its count; otherwise the result is the `long` product of a largest count and a largest among the other counts |
| Problem11.BusinessOfTopTwo | csharp/solvers/Problem11.cs:123-124 | any choice of a largest count and a largest remaining count gives the same monkey business |
| Problem11.Initial | csharp/solvers/Problem11.cs:41-77 | the parsed monkeys keep their rules and starting items, in input order, with zero inspections |
| Problem11.TotalUpdate | csharp/solvers/Problem11.cs:83-99 | replacing one monkey changes the total item count by the difference in what it holds |
| Problem11.Tossing | csharp/solvers/Problem11.cs:89-98 | every item of every monkey is tossed with the run's `reduce` flag and factor |
| Problem11.ThrowItem | csharp/solvers/Problem11.cs:89-99 | handling an item succeeds iff its toss succeeds and the target is a monkey in the list; an out-of-range target gives `ArgumentOutOfRangeException` |
| Problem11.ThrowItemLands | csharp/solvers/Problem11.cs:97-99 | the thrown value is appended to the target's list and to no other list |
| Problem11.ThrowItemCounts | csharp/solvers/Problem11.cs:90 | handling an item raises the handler's count by one, in `long`, and no other count |
| Problem11.ThrowItemConserves | csharp/solvers/Problem11.cs:83-99 | one throw adds exactly one item to the total |
| Problem11.Throws | csharp/solvers/Problem11.cs:87-99 | handling a list of items in order keeps the number of monkeys |
| Problem11.ThrowsConserve | csharp/solvers/Problem11.cs:83-99 | handling n items adds n items to the total |
| Problem11.ThrowsInspections | csharp/solvers/Problem11.cs:89-90 | handling n items raises the handler's count by n, in `long`, and leaves every other count alone |
| Problem11.ThrowsStep | csharp/solvers/Problem11.cs:87-99 | each item is handled from the state the earlier items left |
| Problem11.ThrowsKeepRules | csharp/solvers/Problem11.cs:10-31 | handling items never changes any monkey's rule |
| Problem11.ThrowsFailureStays | csharp/solvers/Problem11.cs:87-99 | an exception from one item ends the turn with that exception |
| Problem11.Turn | csharp/solvers/Problem11.cs:85-99 | a turn keeps the number of monkeys |
| Problem11.TurnEffect | csharp/solvers/Problem11.cs:85-99 | a turn keeps the total item count, raises the monkey's own count by the number of items it held and leaves the other counts alone |
| Problem11.TurnsUpTo | csharp/solvers/Problem11.cs:83-100 | the turns of the first n monkeys keep the number of monkeys |
| Problem11.TurnsConserve | csharp/solvers/Problem11.cs:83-100 | turns never change the total item count |
| Problem11.TurnsStep | csharp/solvers/Problem11.cs:83-100 | each monkey's turn starts from the state the earlier turns left |
| Problem11.TurnsKeepRules | csharp/solvers/Problem11.cs:83-100 | turns never change any monkey's rule |
| Problem11.TurnsFailureStays | csharp/solvers/Problem11.cs:83-100 | an exception in one turn ends the round with that exception |
| Problem11.Round | csharp/solvers/Problem11.cs:83-100 | a round keeps the number of monkeys |
| Problem11.Rounds | csharp/solvers/Problem11.cs:81-112 | any number of rounds keeps the number of monkeys |
| Problem11.RoundsStep | csharp/solvers/Problem11.cs:81-112 | each round starts from the state the earlier rounds left |
| Problem11.RoundsKeepRules | csharp/solvers/Problem11.cs:81-112 | rounds never change any monkey's rule |
| Problem11.RoundsConserve | csharp/solvers/Problem11.cs:81-112 | however many rounds run, the monkeys hold as many items as they started with |
| Problem11.RoundsFailureStays | csharp/solvers/Problem11.cs:81-112 | an exception in one round ends the run with that exception |
| Problem11.Run | csharp/solvers/Problem11.cs:39-125 | with no monkeys the run throws `InvalidOperationException` |
| Problem11.Monkey.constructor | csharp/solvers/Problem11.cs:21-30 | a new monkey has the given rule and items and no inspections |
| Problem11.Monkey.State | csharp/solvers/Problem11.cs:10-31 | a monkey's value is its rule, its current items and its current count |
| Problem11.States | csharp/solvers/Problem11.cs:81-112 | the monkeys' values in list order |
| Problem11.ThrowOne | csharp/solvers/Problem11.cs:87-99 | one pass of the item loop performs `ThrowItem`; after an exception only the handler's count has changed |
| Problem11.RunTurn | csharp/solvers/Problem11.cs:85-99 | a monkey's turn leaves the monkeys as `Turn` says, or reports `Turn`'s exception |
| Problem11.RunRound | csharp/solvers/Problem11.cs:83-100 | a round leaves the monkeys as `Round` says, or reports its exception |
| Problem11.Build | csharp/solvers/Problem11.cs:41-77 | the new, distinct monkeys are the parsed monkeys in input order |
| Problem11.RunRounds | csharp/solvers/Problem11.cs:81-112 | the round loop runs `rounds` rounds, none when negative, as `Rounds` says |
| Problem11.RunMonkeys | csharp/solvers/Problem11.cs:39-125 | the factor, the rounds and the monkey business are exactly `Run`'s |
| Problem11.Execute | csharp/solvers/Problem11.cs:33-37 | the answers are the runs with 20 rounds dividing by 3 and 10000 rounds without; the first exception ends both |
| Problem20.Tag | csharp/solvers/Problem20.cs:18 | element i carries tag i and the number times the key, wrapped to `long` |
| Problem20.IndexOfTag | csharp/solvers/Problem20.cs:23 | the search gives -1 or a position holding the element with that tag |
| Problem20.IndexOfTagFirst | csharp/solvers/Problem20.cs:23 | the position found is the first with the tag, and -1 means no element carries it |
| Problem20.IndexOfZero | csharp/solvers/Problem20.cs:36 | the search gives -1 or a position holding a zero |
| Problem20.IndexOfZeroFirst | csharp/solvers/Problem20.cs:36 | the position found is the first zero, and -1 means there is no zero |
| Problem20.Remainder | csharp/solvers/Problem20.cs:26 | `%` by a positive count stays strictly between minus and plus the count and takes the dividend's sign |
| Problem20.RemainderTruncates | csharp/solvers/Problem20.cs:26 | that remainder is the one left by division truncated toward zero |
| Problem20.NewIndex | csharp/solvers/Problem20.cs:26-31 | the new position lies in `0 .. Count-1`, and an empty remainder of the list divides by zero |
| Problem20.NewIndexCongruent | csharp/solvers/Problem20.cs:26-31 | without overflow, the new position is the old one plus the value, modulo the number of other elements |
| Problem20.Insert | csharp/solvers/Problem20.cs:31 | `List.Insert` puts the element at that position and shifts the rest up by one |
| Problem20.RemoveAt | csharp/solvers/Problem20.cs:25 | `List.RemoveAt` drops that position and shifts the rest down by one |
| Problem20.RemoveInsert | csharp/solvers/Problem20.cs:25-31 | removing at the position just inserted at gives back the list |
| Problem20.InsertMultiset | csharp/solvers/Problem20.cs:31 | inserting adds exactly that element to the list's multiset |
| Problem20.RemoveAtMultiset | csharp/solvers/Problem20.cs:25 | removing takes exactly that element out of the list's multiset |
| Problem20.MoveEffect | csharp/solvers/Problem20.cs:23-31 | a move keeps the multiset, puts the first element with the tag at the new position and leaves the other elements in their order |
| Problem20.MoveFails | csharp/solvers/Problem20.cs:23-31 | a move fails exactly when no element has the tag (index -1) or the list has one element (division by zero) |
| Problem20.Move | csharp/solvers/Problem20.cs:23-31 | a move keeps the length of the list and throws only an out-of-range index or a division by zero |
| Problem20.MovingMixes | csharp/solvers/Problem20.cs:23-31 | the move only reorders, succeeds whenever the tag is present in a list of other than one element, and divides by zero on one element |
| Problem20.MovesPermute | csharp/solvers/Problem20.cs:20-32 | the moves of one round keep the multiset of elements |
| Problem20.Round | csharp/solvers/Problem20.cs:20-32 | an empty list is left as it is, and with a move that only reorders, a round only reorders |
| Problem20.Rounds | csharp/solvers/Problem20.cs:19-32 | an empty list is left as it is, and with a move that only reorders, any number of rounds only reorders |
| Problem20.TagTagged | csharp/solvers/Problem20.cs:18 | a freshly tagged list carries every tag `0 .. n-1` |
| Problem20.PermutationTagged | csharp/solvers/Problem20.cs:19-32 | a reordering keeps every tag present |
| Problem20.MovesSucceed | csharp/solvers/Problem20.cs:20-32 | with every tag present, the moves of a round all succeed unless the list has one element |
| Problem20.RoundsSucceed | csharp/solvers/Problem20.cs:19-32 | the rounds fail exactly for a one-element list and at least one round, and then by dividing by zero |
| Problem20.MovesFailureStays | csharp/solvers/Problem20.cs:20-32 | after a failed move the round ends with that failure |
| Problem20.RoundsFailureStays | csharp/solvers/Problem20.cs:19-32 | after a failed round the run ends with that failure |
| Problem20.Answer | csharp/solvers/Problem20.cs:36-41 | the answer is a `long` sum, and only an empty list makes it fail, by dividing by zero |
| Problem20.RotatedAt | csharp/solvers/Problem20.cs:37-39 | position `(z + k) % n` is the k-th element reading round the circle from z |
| Problem20.AnswerAfterZero | csharp/solvers/Problem20.cs:36-41 | with a zero present, the answer adds the elements 1000, 2000 and 3000 places after the first zero, going round the circle, wrapped to `long` |
| Problem20.MixFails | csharp/solvers/Problem20.cs:16-41 | a run fails exactly on an empty list or on a single number with at least one round, and always by dividing by zero |
| Problem20.Mix | csharp/solvers/Problem20.cs:16-41 | the answer is a `long`, and an empty list divides by zero |
| Problem20.Run | csharp/solvers/Problem20.cs:16-41 | the method computes the tagged, mixed and summed answer |
| Problem20.MixRounds | csharp/solvers/Problem20.cs:19 | the outer loop runs `iterations` rounds, none when it is negative, and stops at the first failure |
| Problem20.MixRound | csharp/solvers/Problem20.cs:20-32 | the inner loop moves the tags `0 .. n-1` in order, and stops at the first failure |
| Problem20.MoveOne | csharp/solvers/Problem20.cs:23-31 | one pass of the loop body is the move of that tag |
| Problem20.Execute | csharp/solvers/Problem20.cs:9-14 | the two answers are the plain single round and ten rounds with key 811589153, and the first failure is reported |
| Problem14.Bounds | csharp/solvers/Problem14.cs:30-48 | every point lies in the returned box, and each bound is either its starting value (`int.MaxValue`, 0, 0, 0) or met by a point |
| Problem14.BoundsUnique | csharp/solvers/Problem14.cs:30-48 | only one box meets that description, so the loop computes the least and greatest coordinates |
| Problem14.Walk | csharp/solvers/Problem14.cs:67-75 | the cells a segment marks begin at its start point and end at its end point |
| Problem14.WalkLength | csharp/solvers/Problem14.cs:69-73 | a segment marks one cell more than the larger of its two gaps |
| Problem14.WalkCovers | csharp/solvers/Problem14.cs:65-76 | a horizontal or vertical segment marks exactly the cells between its ends, both ends included |
| Problem14.Step | csharp/solvers/Problem14.cs:72 | a step toward the end closes the gap by one on each axis that still has a gap and leaves a closed axis closed |
| Problem14.StepCloser | csharp/solvers/Problem14.cs:67-75 | a step from a point other than the end shrinks the distance, and the walk is that point followed by the walk from the step |
| Problem14.Board.constructor | csharp/solvers/Problem14.cs:50-52 | a fresh board of the given width and `maxY + 3` rows, every cell `'\0'` |
| Problem14.Board.At | csharp/solvers/Problem14.cs:99 | a read succeeds iff the cell is inside the array's bounds, and otherwise throws `IndexOutOfRangeException` |
| Problem14.Board.Write | csharp/solvers/Problem14.cs:71 | a write inside the bounds changes that one cell; outside it throws and changes nothing |
| Problem14.Board.DrawSegment | csharp/solvers/Problem14.cs:67-75 | succeeds iff every cell of the walk is inside; then exactly the walk's cells hold rock; even a failed draw only ever writes rock |
| Problem14.Board.DrawPaths | csharp/solvers/Problem14.cs:53-79 | on success every rock cell other than the source holds `'#'`; the only writes are rock and `'+'` on the source |
| Problem14.Board.Floor | csharp/solvers/Problem14.cs:82-85 | row `maxY + 2` holds rock across the whole board and no other cell changes |
| Problem14.Board.Fall | csharp/solvers/Problem14.cs:92-118 | a grain's fall fails only by reading outside the board |
| Problem14.Board.FallRests | csharp/solvers/Problem14.cs:99-121 | a grain rests only where the three cells below are on the board and blocked, never above its start, drifting at most one column per row fallen, and on air unless it never moved |
| Problem14.Board.FloorCatches | csharp/solvers/Problem14.cs:82-98 | once the floor is laid, a grain that starts above it is never lost past the bottom row |
| Problem14.Board.Drop | csharp/solvers/Problem14.cs:91-118 | the inner loop reaches exactly the landing the fall defines from (500, 0), without changing the board |
| Problem14.Board.Lay | csharp/solvers/Problem14.cs:53-85 | on a fresh board a success leaves the floor and the rock in place, no sand, and no sand on the source |
| Problem14.Board.Settle | csharp/solvers/Problem14.cs:119-121 | the resting cell becomes `'o'` and nothing else changes |
| Problem14.Board.SandAdded | csharp/solvers/Problem14.cs:119-123 | settling on a cell without sand adds one sand cell, and removes one air cell when the cell was air |
| Problem14.Board.Pour | csharp/solvers/Problem14.cs:88-131 | the count equals the number of new sand cells; pouring ends with sand on the source or a grain lost; every change turns air, or last the source, into sand; a failure is `IndexOutOfRangeException` |
| Problem14.Allocate | csharp/solvers/Problem14.cs:30-52 | a board exists only when its lengths are non-negative and its x range fits `int`; it is fresh and all air |
| Problem14.Try | csharp/solvers/Problem14.cs:28-142 | a success leaves sand on the source, the floor and every rock cell in place, and a count equal to the number of sand cells; `ArgumentOutOfRangeException` iff no board was made |
| Problem22.Right | csharp/solvers/Problem22.cs:157 | a right turn maps a heading to a heading, and a left turn undoes it |
| Problem22.Left | csharp/solvers/Problem22.cs:161 | a left turn maps a heading to a heading |
| Problem22.TurnsCancel | csharp/solvers/Problem22.cs:155-162 | a right turn then a left turn, or a left then a right, restore the heading |
| Problem22.FourRights | csharp/solvers/Problem22.cs:155-158 | four right turns restore the heading |
| Problem22.Facing | csharp/solvers/Problem22.cs:185-194 | the facing value of a heading is between 0 and 3 |
| Problem22.FacingTurns | csharp/solvers/Problem22.cs:155-194 | the facing value determines the heading; a right turn adds 1 modulo 4 and a left turn adds 3 |
| Problem22.Display | csharp/solvers/Problem22.cs:174-183 | the mark is `>`, `v`, `<` or `^` by facing value, and never a wall or a blank |
| Problem22.PasswordDecodes | csharp/solvers/Problem22.cs:172 | for a map under 249 columns, the password divided by 1000 is the row, its last three digits divided by 4 the column, and its remainder modulo 4 the facing |
| Problem22.MapLines | csharp/solvers/Problem22.cs:142 | the map is the longest prefix of the input without an empty line |
| Problem22.IndexOf | csharp/solvers/Problem22.cs:145 | the result is -1 or a position holding the character |
| Problem22.IndexOfFirst | csharp/solvers/Problem22.cs:145 | the position found is the first one, and -1 means the character is absent |
| Problem22.RewindFarEnd | csharp/solvers/Problem22.cs:90-98 | rewinding from a cell on the map ends on the same row or column behind it, on the map, with the next cell back off the map |
| Problem22.FlatStepOnMap | csharp/solvers/Problem22.cs:69-99 | from a cell on the map, the flat step, wrapped or not, lands on the map |
| Problem22.FindFlatStep | csharp/solvers/Problem22.cs:69-99 | the loop returns exactly the flat step |
| Problem22.CubeEdge | csharp/solvers/Problem22.cs:219-311 | every edge transition leaves with one of the four headings |
| Problem22.CubeEdgeInverse | csharp/solvers/Problem22.cs:221-311 | the transitions pair up: leaving the arrival cell against the arrival heading returns to the cell left, facing opposite |
| Problem22.CubeStep | csharp/solvers/Problem22.cs:196-314 | part 2's next step keeps the heading one of the four |
| Problem22.NextStep | csharp/solvers/Problem22.cs:321-323 | the chosen step rule keeps the heading one of the four |
| Problem22.Steps | csharp/solvers/Problem22.cs:321-334 | a move keeps the heading one of the four and fails only by reading outside the map |
| Problem22.StepsAvoidWalls | csharp/solvers/Problem22.cs:321-334 | from a cell that is not a wall, a move ends on a cell that is not a wall and keeps every wall |
| Problem22.FlatStaysOnMap | csharp/solvers/Problem22.cs:101-118 | on the flat map a move from the map never fails, ends on the map and keeps walls and blanks |
| Problem22.Moved | csharp/solvers/Problem22.cs:316-339 | a move, with part 2's mark on the start cell, fails only by reading outside the map |
| Problem22.Follow | csharp/solvers/Problem22.cs:151-167 | following instructions keeps the heading one of the four and fails only by reading outside the map |
| Problem22.FollowDigits | csharp/solvers/Problem22.cs:163-165 | a run of digits only builds the count, to its decimal value while that fits an `int` |
| Problem22.Solution | csharp/solvers/Problem22.cs:140-172 | a run fails only with `InvalidOperationException` on an empty input or `IndexOutOfRangeException` |
| Problem22.FlatFollowSucceeds | csharp/solvers/Problem22.cs:25-43 | on the flat map every instruction string is followed without failure and leaves the walker on the map |
| Problem22.FlatSolutionFails | csharp/solvers/Problem22.cs:15-45 | part 1 fails iff the input is empty, the first line is empty, or the top row has no open tile |
| Problem22.Walker.constructor | csharp/solvers/Problem22.cs:145-148 | the walker starts at the given column of the top row, facing right, with no pending count |
| Problem22.Walker.FindNextStep | csharp/solvers/Problem22.cs:323 | the step method returns the step rule's next cell and heading |
| Problem22.Walker.Advance | csharp/solvers/Problem22.cs:323-333 | one loop pass stops before a wall, moves and marks, or fails, exactly as one step of the move |
| Problem22.Walker.Walk | csharp/solvers/Problem22.cs:321-334 | the step loop leaves exactly the map and state of the move, or fails as it does |
| Problem22.Walker.DoMove | csharp/solvers/Problem22.cs:316-339 | the pending move is made and the count reset to 0, exactly as the pure move, or it fails as it does |
| Problem22.Walker.Obey | csharp/solvers/Problem22.cs:153-166 | one instruction changes the state exactly as the first step of following |
| Problem22.Walker.Run | csharp/solvers/Problem22.cs:151-167 | the instruction loop leaves the map, state and count of following the instructions, or fails as it does |
| Problem22.Solve | csharp/solvers/Problem22.cs:140-172 | the method returns exactly the password or exception of the pure run |
| Problem17.TrimEnd | csharp/solvers/Problem17.cs:277 | the trimmed line is a prefix of the line, does not end in white space, and only white space was removed |
| Problem17.TrimmedReversed | csharp/solvers/Problem17.cs:277 | the lines come out as many as went in, in reverse order, each trimmed at the end |
| Problem17.RockLines | csharp/solvers/Problem17.cs:277 | a pattern gives one line per newline-separated piece, so at least one |
| Problem17.Frozen | csharp/solvers/Problem17.cs:278-287 | the rock value has the matrix's two dimensions and a set cell exactly where the matrix holds `true` |
| Problem17.FillRow | csharp/solvers/Problem17.cs:281-284 | the row is filled with its line's `#` cells and the rows below stay filled exactly when the line is no wider than the matrix; otherwise the fill stops, as the out-of-range write would |
| Problem17.TranslateRock | csharp/solvers/Problem17.cs:275-288 | fails with `IndexOutOfRangeException` exactly when some line is longer than the lowest one; otherwise the rock is `lines.Count` by `lines[0].Length` with a set cell exactly at each `#` |
| Problem17.Shape | csharp/solvers/Problem17.cs:14-43 | each of the five drawings is a rectangle at most four wide whose lines survive splitting and trimming unchanged |
| Problem17.JoinedLines | csharp/solvers/Problem17.cs:277 | a raw string literal's lines, read back by split, trim and reverse, are the same lines lowest first |
| Problem17.PatternsFit | csharp/solvers/Problem17.cs:14-45 | none of the five patterns makes `TranslateRock` throw, and each rock is narrow enough to start two cells from the left wall |
| Problem17.Paint | csharp/solvers/Problem17.cs:234-253 | drawing or clearing a rock keeps the map's shape, sets each covered cell to the value and leaves every other cell alone |
| Problem17.OverlayUndone | csharp/solvers/Problem17.cs:130-135 | drawing a rock where it fits and clearing it again gives back the map, so the verbose display leaves the simulation unchanged |
| Problem17.OverlayBlocks | csharp/solvers/Problem17.cs:255-273 | once a rock with a set cell is drawn, `TryOverlay` rejects the same rock at the same place |
| Problem17.TopFrom | csharp/solvers/Problem17.cs:183-190 | the scan finds the highest row at or above `lo` whose column is filled, or 0 when there is none |
| Problem17.Tops | csharp/solvers/Problem17.cs:177-192 | the signature heights are always seven values, one per column |
| Problem17.MinOf | csharp/solvers/Problem17.cs:208 | `Min()` returns an element no larger than any other |
| Problem17.TrimEdge | csharp/solvers/Problem17.cs:193-215 | the rows trimmed are 0 or fewer than the map holds, no more than any column's top, and when positive every column is filled at its top |
| Problem17.LastFilled | csharp/solvers/Problem17.cs:123 | `FindLastIndex` returns -1 or an index whose row holds rock, with no rock in any row above it |
| Problem17.LastFilledUnique | csharp/solvers/Problem17.cs:123 | any index with rock in its row and none above is the one `FindLastIndex` returns |
| Problem17.LastFilledSuffix | csharp/solvers/Problem17.cs:211 | removing rows below the highest filled row lowers its index by the number removed |
| Problem17.TrimKeepsHeight | csharp/solvers/Problem17.cs:122-123 | after trimming, the highest filled row plus the rows trimmed is the highest filled row before, so the height counting `lost` is unchanged |
| Problem17.TrimKeepsTops | csharp/solvers/Problem17.cs:193-215 | trimming removes no column's top block: in a column with rock the top survives, shifted down by the trim |
| Problem17.JetShift | csharp/solvers/Problem17.cs:139-145 | an empty jet line is a division by zero, `<` and `>` shift by -1 and 1, and any other character is a `SwitchExpressionException` |
| Problem17.JetsRepeat | csharp/solvers/Problem17.cs:99 | the jets repeat with the line's length, which is what justifies keeping only `iJet % line.Length` in the signature |
| Problem17.Fall | csharp/solvers/Problem17.cs:137-170 | the fall fails only on a bad jet; otherwise it ends at or below its start using one jet per row dropped plus one, between the walls, on a place where it fits and from which it cannot drop further |
| Problem17.FitsAboveTower | csharp/solvers/Problem17.cs:255-273 | above the highest filled row a rock between the walls always fits |
| Problem17.FitsOnMap | csharp/solvers/Problem17.cs:255-273 | `TryOverlay` accepts a position exactly when the rock is between the walls and above the floor and every map cell it covers is empty |
| Problem17.StartTop | csharp/solvers/Problem17.cs:123-124 | the reference row is at least -1 |
| Problem17.Grow | csharp/solvers/Problem17.cs:126 | growing keeps the map as a prefix, adds only empty seven-wide rows, and reaches the wanted size |
| Problem17.GrowKeepsTop | csharp/solvers/Problem17.cs:126 | growing the map does not move its highest filled row |
| Problem17.StartBottom | csharp/solvers/Problem17.cs:128 | a new rock starts with at least three empty rows below it |
| Problem17.Room | csharp/solvers/Problem17.cs:123-126 | the grown map has rows for the whole new rock at its start and the same highest filled row |
| Problem17.PaintRaises | csharp/solvers/Problem17.cs:158 | drawing a rock that rests at most one row above the tower keeps the tower and raises it by at most the rock's height |
| Problem17.RestsOnTower | csharp/solvers/Problem17.cs:137-170 | a falling rock between the walls comes to rest no higher than just above the tower |
| Problem17.DropRaises | csharp/solvers/Problem17.cs:122-170 | a dropped rock never lowers the tower and raises it by at most its own height |
| Problem17.Chamber.constructor | csharp/solvers/Problem17.cs:13 | the map starts empty |
| Problem17.Chamber.TryOverlay | csharp/solvers/Problem17.cs:255-273 | the verdict is `Fits`: inside the walls, above the floor and on no filled cell |
| Problem17.Chamber.Stamp | csharp/solvers/Problem17.cs:234-253 | the map becomes `Paint` of the old map |
| Problem17.Chamber.Overlay | csharp/solvers/Problem17.cs:234-243 | the map becomes the old map with the rock's cells set |
| Problem17.Chamber.DeOverlay | csharp/solvers/Problem17.cs:244-253 | the map becomes the old map with the rock's cells cleared |
| Problem17.Chamber.ScanTops | csharp/solvers/Problem17.cs:182-191 | the array holds every column's top |
| Problem17.Chamber.GetSignature | csharp/solvers/Problem17.cs:177-192 | a fresh array of the seven column tops, zeros for an empty map |
| Problem17.Chamber.TrimMap | csharp/solvers/Problem17.cs:193-215 | returns the lowest column top and removes exactly that many rows from the bottom |
| Problem17.Chamber.MakeRoom | csharp/solvers/Problem17.cs:123-128 | the map is grown to `Room` and the rock starts at `StartBottom` |
| Problem17.Chamber.Push | csharp/solvers/Problem17.cs:139-155 | one pass of the fall loop agrees with one step of `Fall`: the same failure, the same shift, and either a row dropped or the rest found |
| Problem17.Chamber.Settle | csharp/solvers/Problem17.cs:137-170 | the map gets the rock drawn where `Fall` says it rests and the jet counter `Fall`'s, or on a bad jet the map is unchanged and the error is `Fall`'s |
| Problem17.Chamber.Drop | csharp/solvers/Problem17.cs:123-170 | the map is the grown map with the rock drawn where `Landing` says it rests, or just the grown map when a jet fails |
| Problem17.Chamber.Place | csharp/solvers/Problem17.cs:122-170 | one turn reports the rows trimmed and keeps the tower's height, counting them, between its old value and that plus the rock's height; errors are only the jet errors |
| Problem17.Skip | csharp/solvers/Problem17.cs:103-108 | the rocks skipped are a whole number of cycles and leave between one and one cycle of rocks still to drop |
| Problem17.SkipOvershoots | csharp/solvers/Problem17.cs:105-108 | the skip as written lands exactly on the last iteration when the rocks left are a whole number of cycles, and never beyond it |
| Problem17.SkipAsWritten | csharp/solvers/Problem17.cs:105-108 | the skip as written is a whole number of cycles that reaches `iterations` or stops less than one cycle short of it |
| Problem17.SkipOvershootsExample | csharp/solvers/Problem17.cs:105-108 | with 10 rocks and a 5-rock cycle found at rock 5 the skip as written reaches 10 while the corrected skip stays at 5 |
| Problem17.Recall | csharp/solvers/Problem17.cs:96-118 | no rocks or an empty jet line divide by zero; a signature seen before skips the corrected `Skip` rocks and adds that many cycles of height gain and stops tracking; a new one is recorded with the turn and height |
| Problem17.Run | csharp/solvers/Problem17.cs:89-175 | fails only on a jet error or with nothing to divide by; the height reported is the highest filled row plus one plus the rows trimmed and fast-forwarded, a count never negative; it never lowers the tower, and drops and skips exactly `iterations` rocks in all |
| Problem17.ExecuteCore | csharp/solvers/Problem17.cs:10-46 | no input is `FirstAsync`'s exception, an empty jet line a division by zero, and any height reported is not negative |
| Problem15.ToDiagonal | csharp/solvers/Problem15.cs:197-200 | the diagonal coordinates add up to twice x and differ by twice y |
| Problem15.FromDiagonal | csharp/solvers/Problem15.cs:202-205 | with C#'s division toward zero, a pair of equal parity gives the point whose doubled coordinates are the sum and the difference |
| Problem15.DiagonalRoundTrip | csharp/solvers/Problem15.cs:197-205 | mapping a point to diagonal coordinates and back gives the point |
| Problem15.DiagonalOnto | csharp/solvers/Problem15.cs:197-205 | a pair of diagonal coordinates belongs to a point exactly when its sum is even |
| Problem15.DiamondIsSquare | csharp/solvers/Problem15.cs:53-58 | a point is within Manhattan distance d of the sensor exactly when both diagonal coordinates are within d of the sensor's, the basis for working with squares |
| Problem15.BoxSize | csharp/solvers/Problem15.cs:164-167 | the size is a `long`, and it is width times height whenever both sides are `int` values |
| Problem15.ProductFits | csharp/solvers/Problem15.cs:166 | the product of two `int` values never overflows a `long` |
| Problem15.PieceSize | csharp/solvers/Problem15.cs:148-149 | for a piece at least one row high, a positive size means a proper box and any other size a box with no cell, so `RemoveAll` drops only empty boxes |
| Problem15.UnitSize | csharp/solvers/Problem15.cs:154 | a proper box has size 1 exactly when it is a single cell |
| Problem15.Slice | csharp/solvers/Problem15.cs:99-140 | a box that misses the sensor's rectangle is carried over unchanged; otherwise at most four pieces, each inside the box and each at least one row high |
| Problem15.SliceCovers | csharp/solvers/Problem15.cs:105-143 | the pieces of a box hold exactly its cells outside the open square (left, right) x (top, bottom), as the comment in the source claims |
| Problem15.SliceApart | csharp/solvers/Problem15.cs:113-140 | the pieces of one box share no cell |
| Problem15.Reach | csharp/solvers/Problem15.cs:86-91 | the sensor's rectangle extends one past its distance on every side, so its open interior is not empty |
| Problem15.ReachIsDiamond | csharp/solvers/Problem15.cs:86-91 | a point is inside a sensor's open square exactly when it is no farther from the sensor than the sensor's beacon |
| Problem15.Pass | csharp/solvers/Problem15.cs:92-146 | the loop over one sensor turns proper boxes into pieces at least one row high with `int` sides |
| Problem15.PassCovers | csharp/solvers/Problem15.cs:92-146 | the pass keeps exactly the old boxes' cells outside the sensor's square |
| Problem15.PassWithin | csharp/solvers/Problem15.cs:92-146 | every box the pass collects lies inside one of the old boxes |
| Problem15.PassDisjoint | csharp/solvers/Problem15.cs:92-146 | a pass over boxes that share no cell collects boxes that share no cell |
| Problem15.Sized | csharp/solvers/Problem15.cs:149 | the boxes kept are boxes of the list, each of positive size |
| Problem15.SizedCovers | csharp/solvers/Problem15.cs:148-149 | removing the boxes of no positive size loses no cell, and every box kept is proper |
| Problem15.SizedDisjoint | csharp/solvers/Problem15.cs:149 | removing boxes keeps the rest apart |
| Problem15.SensorPass | csharp/solvers/Problem15.cs:92-151 | the loop that takes boxes from the front of the list and the `RemoveAll` after it give the sized pass |
| Problem15.Initial | csharp/solvers/Problem15.cs:77-80 | the first box is proper |
| Problem15.Remaining | csharp/solvers/Problem15.cs:82-152 | after every sensor the list holds only proper boxes |
| Problem15.RemainingDisjoint | csharp/solvers/Problem15.cs:82-152 | the boxes left never overlap, so no cell is counted twice |
| Problem15.RemainingCells | csharp/solvers/Problem15.cs:82-152 | a diagonal cell is left exactly when the first box holds it and it is inside no sensor's square |
| Problem15.RemainingPoints | csharp/solvers/Problem15.cs:53-58 | a point's cell is left exactly when the point is in the first box and strictly farther from every sensor than that sensor's beacon |
| Problem15.Report | csharp/solvers/Problem15.cs:157-159 | the frequency is x times 4000000 plus y, and for a corner of equal parity the point maps back to the corner |
| Problem15.Candidates | csharp/solvers/Problem15.cs:154-160 | the candidates are exactly the reports of the boxes of size 1 |
| Problem15.CandidateUnseen | csharp/solvers/Problem15.cs:154-160 | the point printed for a box left at the end, when its corner is a point's cell, is in the first box and out of every sensor's reach |
| Problem15.Part2 | csharp/solvers/Problem15.cs:51-162 | the candidates printed are those of the boxes left after slicing out every sensor in input order |
| Problem18.Neighbours | csharp/solvers/Problem18.cs:25-36 | the six points tested around a cube are exactly the points sharing a face with it |
| Problem18.Cubes | csharp/solvers/Problem18.cs:14-15 | the set holds exactly the listed points |
| Problem18.Missing | csharp/solvers/Problem18.cs:25-36 | at most one per point tested, and zero exactly when every tested point is a cube |
| Problem18.Faces | csharp/solvers/Problem18.cs:20-37 | the open faces of the listed cubes number at most six per cube |
| Problem18.Part1 | csharp/solvers/Problem18.cs:20-40 | the total is the number of faces whose neighbour is not a cube, between 0 and six times the number of cubes |
| Problem18.BoundsOf | csharp/solvers/Problem18.cs:46-47 | no cubes gives `InvalidOperationException`; otherwise the box holds every cube and each of its six sides touches one, so it is the smallest such box |
| Problem18.CubeTrapped | csharp/solvers/Problem18.cs:53-54 | a cube is never exterior |
| Problem18.OutsideEscapes | csharp/solvers/Problem18.cs:56-59 | air outside the bounding box is exterior |
| Problem18.SameRegion | csharp/solvers/Problem18.cs:98-110 | two points joined by a walk through air are both exterior or both enclosed, which is why the found answer is stored for everything still queued |
| Problem18.Trapped | csharp/solvers/Problem18.cs:119-121 | a region of air inside the box, closed under stepping to non-cube neighbours, holds no exterior point |
| Problem18.Escaping | csharp/solvers/Problem18.cs:127-138 | the exterior neighbours of a cube are never more than its open faces |
| Problem18.ExteriorAtMostFaces | csharp/solvers/Problem18.cs:125-139 | the part 2 count never exceeds the part 1 count |
| Problem18.Part2 | csharp/solvers/Problem18.cs:42-142 | no cubes fails with `InvalidOperationException`; otherwise the total is the number of faces whose neighbour reaches the outside of the bounding box through air |
| Problem18.Scan.constructor | csharp/solvers/Problem18.cs:49 | the cache starts empty, which is trivially consistent |
| Problem18.Scan.QuickCheck | csharp/solvers/Problem18.cs:56-65 | undecided exactly for an uncached point inside the box; a point outside the box is exterior, and any decided answer is whether the point escapes |
| Problem18.Scan.TryEnqueue | csharp/solvers/Problem18.cs:75-89 | a cube or a visited point changes nothing; other air is marked and queued once, with a walk from the start point recorded |
| Problem18.Scan.Expand | csharp/solvers/Problem18.cs:91-96 | after the six calls every neighbour of the point is a cube or marked, the old queue is a prefix of the new one, and every new mark is a queued neighbour |
| Problem18.Scan.Start | csharp/solvers/Problem18.cs:67-96 | the fill starts from the undecided point with its neighbours queued |
| Problem18.Scan.Advance | csharp/solvers/Problem18.cs:98-119 | expanding an undecided queued point keeps the fill's invariant, marks only points of the grown box, and makes progress |
| Problem18.Scan.Settle | csharp/solvers/Problem18.cs:100-110 | the decided answer is cached for the point found, for the start point and for every point still queued, and it is the start point's true answer |
| Problem18.Scan.Exhausted | csharp/solvers/Problem18.cs:119-121 | a fill whose queue runs dry has found an enclosed start point |
| Problem18.Scan.Exterior | csharp/solvers/Problem18.cs:51-122 | the answer is whether the point is air that reaches the outside of the bounding box through air, every cached answer stays correct, no cache entry is dropped, and an undecided point ends up cached |
| Problem18.Scan.Tally | csharp/solvers/Problem18.cs:127-128 | one test adds one exactly when the neighbour is exterior |
| Problem18.Scan.ExteriorAround | csharp/solvers/Problem18.cs:127-138 | the six tests of a cube add its exterior faces |
| Problem12.Coord.Add | csharp/solvers/Problem12.cs:12-15 | the result is offset from the coordinate by exactly the given rows and columns |
| Problem12.Cells | csharp/solvers/Problem12.cs:18 | a path lists its head first and then every cell it came through |
| Problem12.Length | csharp/solvers/Problem12.cs:20 | the length of a path is one less than its number of cells, and never negative |
| Problem12.LengthStep | csharp/solvers/Problem12.cs:64 | extending a path by a cell adds one to its length and puts the cell in front |
| Problem12.Height | csharp/solvers/Problem12.cs:36-49 | `S` is height 0, `E` height 25, any other character its distance from `a` |
| Problem12.LastReadStep | csharp/solvers/Problem12.cs:36-47 | reading one more cell keeps the last `S` or `E` seen, or moves it to that cell when it holds the mark |
| Problem12.LastReadRow | csharp/solvers/Problem12.cs:32-33 | the end of one line of the map is the start of the next |
| Problem12.ReadRow | csharp/solvers/Problem12.cs:33-50 | after a line, its cells hold their heights, -1 distance except 0 on `E`, and the last `S` and `E` read so far |
| Problem12.Load | csharp/solvers/Problem12.cs:25-50 | an empty input fails with `ArgumentOutOfRangeException` and a line shorter than the first with `IndexOutOfRangeException`; otherwise two fresh arrays hold every height and initial distance, with the last `S` and `E` (or (0, 0) when absent) |
| Problem12.Options | csharp/solvers/Problem12.cs:59 | the four cells tried are exactly the cells beside the head |
| Problem12.WalkStep | csharp/solvers/Problem12.cs:64 | a walk backwards from `E` extended by an allowed step is still such a walk |
| Problem12.WalksTail | csharp/solvers/Problem12.cs:57 | dequeuing keeps the rest of the queue made of walks, in order of length, within one of the dequeued length |
| Problem12.CoveredTail | csharp/solvers/Problem12.cs:57-58 | every cell with a distance stays expanded or queued once the dequeued head counts as expanded |
| Problem12.StartExpanding | csharp/solvers/Problem12.cs:57-59 | dequeuing the first path turns the loop invariant into the invariant of the expansion of that path |
| Problem12.SoundSet | csharp/solvers/Problem12.cs:68-70 | setting a cell that had no distance to the length of a walk reaching it keeps every distance a walk length |
| Problem12.WalksSet | csharp/solvers/Problem12.cs:70-71 | queuing the new path keeps the queue made of walks and in order of length |
| Problem12.ClosedSet | csharp/solvers/Problem12.cs:68-70 | setting a cell that had no distance leaves every expanded cell's neighbours within one step |
| Problem12.CoveredSet | csharp/solvers/Problem12.cs:70-71 | the newly set cell is at the head of the newly queued path |
| Problem12.Relaxed | csharp/solvers/Problem12.cs:68-76 | a relaxation keeps the invariant of the expansion, takes the cell off the unset cells, and makes the path the best path when it reaches the start |
| Problem12.Relax | csharp/solvers/Problem12.cs:60-78 | one option keeps the invariant; afterwards a cell the head may step to has a distance at most one more than the head's, set distances never change, and the queue only grows when a cell gets its first distance |
| Problem12.Assign | csharp/solvers/Problem12.cs:70 | the array write is the ghost distances with that one cell replaced |
| Problem12.FinishExpanding | csharp/solvers/Problem12.cs:59-78 | once every allowed step from the head has a distance within one, the head counts as expanded and the loop invariant holds again |
| Problem12.Visit | csharp/solvers/Problem12.cs:55-79 | one iteration keeps the loop invariant, never changes a set distance, and either sets a new cell or shortens the queue, which bounds the loop |
| Problem12.Initial | csharp/solvers/Problem12.cs:35-45 | before the search every `E` is at 0 and every other cell, and anything outside the map, at -1 |
| Problem12.SearchStart | csharp/solvers/Problem12.cs:52-54 | the queue holding the empty path at `E` satisfies the loop invariant |
| Problem12.Optimal | csharp/solvers/Problem12.cs:55-79 | with a single `E`, once the queue is empty every walk backwards from `E` ends at a cell whose distance is set and no longer than the walk |
| Problem12.SearchDone | csharp/solvers/Problem12.cs:55-79 | with a single `E`, a cell ends at -1 exactly when no walk reaches it, and otherwise at the fewest steps |
| Problem12.Search | csharp/solvers/Problem12.cs:52-79 | every `E` stays at 0 and every other distance set is the length of a walk from `E`; the best path is a walk to the start as long as its distance, and missing exactly when the start got none; with a single `E` distances are shortest and -1 marks exactly the unreachable cells |
| Problem12.Trail | csharp/solvers/Problem12.cs:91-103 | the result is no more than any distance of a height-0 cell that has one, and is either such a distance or `int.MaxValue` |
| Problem12.ShortestUnique | csharp/solvers/Problem12.cs:91-103 | a cell has only one fewest number of steps |
| Problem12.LastIsOnly | csharp/solvers/Problem12.cs:39-45 | when a mark occurs once, the last one read is that cell |
| Problem12.TrailIsLowest | csharp/solvers/Problem12.cs:91-103 | after the search with a single `E`, the trail is the fewest steps from `E` back to any height-0 cell, or `int.MaxValue` when none is reachable |
| Problem12.Execute | csharp/solvers/Problem12.cs:23-106 | reading failures propagate; an unreached start fails with `NullReferenceException`; with a single `S` and `E` it succeeds exactly when a climb from `S` to `E` exists, and then answers the fewest steps from `S` and from the best height-0 cell |
| Problem24.PosMod | csharp/solvers/Problem24.cs:57-58 | the remainder lies in [0, m) and differs from the input by a whole multiple of m |
| Problem24.Blizzard.AtTime | csharp/solvers/Problem24.cs:54-62 | the blizzard's cell at any minute lies inside the inclusive bounds |
| Problem24.AtTimePeriodic | csharp/solvers/Problem24.cs:56-59 | the column repeats after any whole number of widths and the row after any whole number of heights |
| Problem24.AtTimeCycle | csharp/solvers/Problem24.cs:56-59 | after a common multiple of the width and the height, every blizzard is back at the same cell |
| Problem24.CycleMultiple | csharp/solvers/Problem24.cs:30 | any whole number of cycles brings every blizzard back, which is why the cache may reduce the minute |
| Problem24.AtTimeZero | csharp/solvers/Problem24.cs:56-59 | a blizzard that starts inside the bounds is at its start at minute 0 |
| Problem24.LookupPeriodic | csharp/solvers/Problem24.cs:28-48 | a minute from 0 on and the same minute one cycle later get the same answer |
| Problem24.LookupExact | csharp/solvers/Problem24.cs:28-48 | for a minute from 0 on and a cell in bounds the answer is whether some blizzard is at that cell at that very minute; a negative minute that is not a whole number of cycles throws `IndexOutOfRangeException` |
| Problem24.BlizzardLocations.constructor | csharp/solvers/Problem24.cs:20-26 | keeps the blizzards, the bounds and the cycle, and starts with every cache entry empty |
| Problem24.BlizzardLocations.Fill | csharp/solvers/Problem24.cs:38-43 | the new grid has the bounds' size and marks exactly the cells some blizzard occupies at that minute |
| Problem24.BlizzardLocations.IsBlizzardAt | csharp/solvers/Problem24.cs:28-48 | answers as the cache lookup does (reduce the minute, fail on a negative remainder or a cell outside the bounds, else whether a blizzard is there), and every filled entry stays correct |
| Problem24.GameState.Move | csharp/solvers/Problem24.cs:78-86 | throws `ArgumentException` exactly when the Manhattan distance exceeds 1; otherwise only the location (to the new cell), the time (one more, wrapping as `int`) and the previous state (cleared) change |
| Problem24.WillBeInBlizzard | csharp/solvers/Problem24.cs:73-76 | asks the cache about the cell one minute later, keeping the cache correct |
| Problem24.Allowed | csharp/solvers/Problem24.cs:124-134 | a cell is allowed iff it is the start or the end, or it is inside the bounds and free of blizzards next minute; the rule fails iff that lookup fails |
| Problem24.TryPoint | csharp/solvers/Problem24.cs:124-134 | returns the cell the move reaches and the verdict of the allowing rule for it |
| Problem24.MoveShort | csharp/solvers/Problem24.cs:136-145 | `Move` never throws for a move of at most one step and gives the state that move leads to |
| Problem24.SuccessorsFromFails | csharp/solvers/Problem24.cs:122-147 | for short moves the enumeration fails iff the lookup for some move fails |
| Problem24.SuccessorsFromSteps | csharp/solvers/Problem24.cs:122-147 | a successful enumeration is exactly the states the allowed moves lead to, in the order the moves are tried |
| Problem24.NextStatesShape | csharp/solvers/Problem24.cs:122-147 | successors come in the order right, left, down, up, stay, at most five; each is the state its move leads to, and a move appears iff it is allowed; the whole fails iff some lookup fails |
| Problem24.Offer | csharp/solvers/Problem24.cs:136-137 | one try-and-move step appends the allowed move's state, or fails as the enumeration would |
| Problem24.NextStates | csharp/solvers/Problem24.cs:122-147 | the five tries in order yield exactly the pure successor enumeration, keeping the cache correct |
| Problem16.SameBitSmall | csharp/solvers/Problem16.cs:15-18 | below 64, two ids share a mask bit iff they are the same id |
| Problem16.ContainsBit | csharp/solvers/Problem16.cs:41-44 | a set contains an id iff the bit `1L << id` selects (the id's low six bits) is set |
| Problem16.AddContains | csharp/solvers/Problem16.cs:15-44 | after `Add(x)` an id is a member iff it was one or it shares x's bit; so x is in, and every id on another bit keeps its membership |
| Problem16.RemoveContains | csharp/solvers/Problem16.cs:15-44 | after `Remove(x)` an id is a member iff it was one and does not share x's bit; so x is out, and every id on another bit keeps its membership |
| Problem16.AddIdempotent | csharp/solvers/Problem16.cs:20-23 | adding the same id twice gives the same set as adding it once |
| Problem16.RemoveAbsent | csharp/solvers/Problem16.cs:25-28 | removing an id the set does not contain leaves the set unchanged |
| Problem16.EmptyContainsNone | csharp/solvers/Problem16.cs:52 | the empty set contains no id |
| Problem16.NodeSet.Enumerate | csharp/solvers/Problem16.cs:30-39 | the loop over ids 0 to 63 yields the members below each bound, in order |
| Problem16.MembersBelowIn | csharp/solvers/Problem16.cs:30-39 | an id is listed below n iff it is below n and a member |
| Problem16.MembersBelowAscending | csharp/solvers/Problem16.cs:30-39 | the listed ids strictly ascend |
| Problem16.MembersBelowLength | csharp/solvers/Problem16.cs:30-39 | at most n ids are listed below n |
| Problem16.EnumerateMembers | csharp/solvers/Problem16.cs:30-39 | `Enumerate` yields exactly the members below 64, in ascending id order |
| Problem16.FromAccContains | csharp/solvers/Problem16.cs:46-49 | the fold or-ing masks into an accumulator contains an id iff the accumulator does or some listed id shares its bit |
| Problem16.FromContains | csharp/solvers/Problem16.cs:46-51 | `From(nodes)` contains an id iff some listed id shares its bit |
| Problem16.FromContainsSmall | csharp/solvers/Problem16.cs:46-51 | with ids below 64, `From(nodes)` contains exactly the listed ids |
| Problem16.CountAdd | csharp/solvers/Problem16.cs:20-23 | adding an absent id adds exactly one member below 64 |
| Problem16.CountSingle | csharp/solvers/Problem16.cs:20-23 | a set made by adding one id to the empty set has exactly one member |
| Problem16.TwoNodes.Of | csharp/solvers/Problem16.cs:57-63 | the stored pair is the two given ids, the smaller first |
| Problem16.TwoNodesSymmetric | csharp/solvers/Problem16.cs:57-77 | constructing from (a, b) or (b, a) gives equal pairs |
| Problem16.Find | csharp/solvers/Problem16.cs:96-97 | the lookup fails iff no entry has the name, and otherwise returns an id recorded beside the name |
| Problem16.FirstKey | csharp/solvers/Problem16.cs:102-105 | throws `InvalidOperationException` iff no entry has the id; otherwise returns the name of the first entry, in insertion order, that has it |
| Problem16.Mapping.constructor | csharp/solvers/Problem16.cs:92 | the mapping starts empty |
| Problem16.Mapping.GetNodeId | csharp/solvers/Problem16.cs:94-100 | a known name gets its recorded id and nothing changes; a new name is appended with id `(byte)` of the number of names seen before, and the numbering invariant is kept |
| Problem16.FindPrefix | csharp/solvers/Problem16.cs:94-100 | a name's id does not change when later names are added |
| Problem16.IdForSmall | csharp/solvers/Problem16.cs:98 | below 256 names, the `(byte)` cast keeps the count unchanged |
| Problem16.NameRoundTrip | csharp/solvers/Problem16.cs:94-105 | while at most 256 names are known, `Name` of a name's id returns that name |
| Problem16.IsBetterThanIrreflexive | csharp/solvers/Problem16.cs:114-123 | no score is better than itself |
| Problem16.NotBetterThan | csharp/solvers/Problem16.cs:114-123 | a score is not better than another iff it is no larger in both minutes left and pressure |
| Problem16.IsBetterThanNotAsymmetric | csharp/solvers/Problem16.cs:114-123 | two scores can each be better than the other, so the test is not an order |
| Problem16.InvertedCompare | csharp/solvers/Problem16.cs:211-219 | negative iff the first is larger, zero iff equal, positive iff the first is smaller: the default order reversed |
| Problem16.InitialVisits | csharp/solvers/Problem16.cs:230 | the starting path has released nothing and has visited only the start's valve |
| Problem16.OpenedSpec | csharp/solvers/Problem16.cs:260-271 | opening stays in place, uses one minute, adds the flow rate times the minutes then left, opens the valve, resets the visited set to just this valve and links back to the path |
| Problem16.MovedToSpec | csharp/solvers/Problem16.cs:273-287 | a move goes to the edge, uses one minute, releases nothing, keeps the open valves, adds the edge to the visited set and keeps the previous link |
| Problem16.ChildRank | csharp/solvers/Problem16.cs:260-287 | every offered path has opened one more valve, or visited one more since the last opening, than its parent |
| Problem16.ChildWeight | csharp/solvers/Problem16.cs:260-287 | every offered path weighs less than a 66th of its parent, so the queue's total weight falls with each expansion |
| Problem16.TryEnqueue | csharp/solvers/Problem16.cs:232-253 | a path with no time left changes nothing; otherwise the best moves to the path only when its pressure is strictly larger, and the path is queued and its score stored iff its state is new or its score is better than the stored one, else queue and history stay as they were |
| Problem16.SoundOffer | csharp/solvers/Problem16.cs:232-253 | offering a child of the current path keeps every queued path and the best an offered child with time left, and keeps the best at least as good as everything queued or expanded |
| Problem16.SoundDequeue | csharp/solvers/Problem16.cs:256-259 | taking the head off the queue keeps the search's invariant, with the head now expanded |
| Problem16.SoundNext | csharp/solvers/Problem16.cs:256-259 | the head of the queue is the start or a child of an expanded path, so the expanded list stays a chain of offers |
| Problem16.SoundDone | csharp/solvers/Problem16.cs:256-290 | with the queue empty the best is the start or an offered path, and no expanded path released more |
| Problem16.MovesIn | csharp/solvers/Problem16.cs:273-287 | a path is among the moves along a list of edges iff it is the move to a listed edge not yet visited |
| Problem16.MovesLength | csharp/solvers/Problem16.cs:273-287 | there are no more moves than edges |
| Problem16.ChildrenSpec | csharp/solvers/Problem16.cs:260-287 | expanding a path offers exactly the opening, when the valve is shut and its flow is not 0, and the move to each unvisited valve below 64 that a tunnel leads to; at most 65 paths |
| Problem16.ChildrenAreChildren | csharp/solvers/Problem16.cs:260-287 | every path offered by an expansion is a child of the expanded path, as the search's invariant counts them |
| Problem16.OfferAllBest | csharp/solvers/Problem16.cs:232-253 | a run of `TryEnqueue` calls never lowers the best and ends with a best that released at least as much as every offered path with time left, including those the history test then refuses; the best is the old one or an offered path |
| Problem16.OfferAllWeight | csharp/solvers/Problem16.cs:232-253 | each offered child adds at most a 66th of its parent's weight to the queue |
| Problem16.ExpandShrinks | csharp/solvers/Problem16.cs:256-287 | expanding a path leaves the queue lighter than it was with the path still in it, so the search ends |
| Problem16.OfferAllSound | csharp/solvers/Problem16.cs:232-253 | offering the children of the last expanded path, one after another, keeps the search's invariant |
| Problem16.BoundedAfterExpand | csharp/solvers/Problem16.cs:239-287 | after one more expansion the best still released at least as much as every child with time left of every expanded path |
| Problem16.Search | csharp/solvers/Problem16.cs:256-290 | the search from a queue, history and best path, step by step: the head comes off, an unknown valve throws `KeyNotFoundException` (its only exception), otherwise the head's children are offered in order; the best path once the queue is empty |
| Problem16.Expand | csharp/solvers/Problem16.cs:260-287 | the queue, history and best after the loop body are exactly those after `TryEnqueue` of the opening, when allowed, then of the move to each unvisited tunnel in ascending id order; the invariant is kept and the queue is lighter than before the path was taken off |
| Problem16.GetNextStep | csharp/solvers/Problem16.cs:225-291 | the result is `Search` from the queue holding the start, an empty history and the start as best; the search terminates; the first path expanded is the start and each later one was offered by an earlier one; it throws `KeyNotFoundException` iff it takes off a path whose valve is unknown; otherwise it returns the start or an offered path whose pressure is at least that of every expanded path and of every child with time left of an expanded path, even one the history test refused |

## Left out

- The asynchronous search `BreadthFirstSearchAsync` and its caller `SolveBlueprintDelegated`: they run on channels, interlocked counters and tasks, i.e. concurrency.
- Algorithms.BreadthFirstSearch: takes a `fuel` bound on the number of dequeues, because the source loop need not end for an arbitrary successor function. The contract covers every prefix of the run.
- Reading input, printing answers, timing and rendering, in every solver.
- Problem13.Compare: is not proved transitive, so `List.Sort` is not modelled. `DecoderKeyCounts` holds for any sorted arrangement.
- Problem13.DecoderKey: uses structural equality where `IndexOf` on records holding arrays compares the arrays by reference. The two agree when no input packet ties with a divider, which `DecoderKeyCounts` requires.
- Text.IsDigit: is `char.IsDigit` for the ASCII digits only. Other Unicode decimal digits would be accepted into the run and then rejected by `int.Parse`.
- Problem25.CeilLog5: replaces the floating-point `Math.Ceiling(Math.Log(value, 5))` and `Math.Pow(5, p)` with an exact power bound.
- Problem25.IntToSnafu: requires a positive value. For 0 and negative sums the source casts a NaN or negative infinity to `int`, which C# leaves unspecified.
- Problem25.SnafuToInt: does not model 64-bit wrap-around of `long total`. It computes the exact value.
- Problem21: the parsing of monkey lines (fixed-width slicing and `long.Parse`) is not modelled; troops are given as maps.
- Problem21.Troop.PushResult: models each monkey as a map entry, so object identity is not modelled. The source never shares one monkey object between two names.
- Problem1: the input is given as already-parsed `int` values; `int.Parse` and its exceptions are not modelled. The counters are unbounded, as they cannot exceed the number of lines.
- Problem1.Run: compares the values rather than re-parsing the previous line's text, which gives the same result for inputs `int.Parse` accepts.
- Helpers.For: returns the visits (row, column, value) in order instead of calling an action. An action that writes to the array while it is being visited is not modelled.
- Helpers: `Chunks` is not modelled; no modelled solver uses it.
- Problem3: the sums are exact. `int +=` in the loop and LINQ's checked `Sum` would wrap or throw past 2^31 - 1, which needs over 41 million lines.
- Problem3.LinqSums: stands for both `WithLinq` and `WithQuerySyntax`. They build the same pipeline in two syntaxes, and the program calls `WithLinq` twice and never calls `WithQuerySyntax`.
- Problem4: the regular-expression parse of each line is not modelled; pairs are given as four numbers that fit in an `int`. The counters are unbounded, as they cannot exceed the number of lines.
- Problem4.FixedLinqCounts: agrees with the loop only when no range ends at `int.MaxValue`. There `end + 1` wraps and the LINQ version throws, while the loop throws only for the range 0..int.MaxValue.
- Problem6: the console messages are not modelled. `Run` returns the reported position, or none, and `RunLinq` returns the printed number or the exception. Lines are at most `int.MaxValue` characters long, as .NET strings are.
- Problem6: `FindIndex` over an `IEnumerable` is not part of this model. It is taken to return the first matching index, or -1 after the whole sequence, evaluating elements lazily.
- Problem5: `Data.Parse` with its regular expression is a parameter (`parse`) of `ExecuteCore`; the verbose listing of the stacks and the console output are not modelled.
- Problem5: `char.IsLetter` is modelled for ASCII letters only.
- Problem5: the state left behind after an exception is not modelled; only the exception is.
- Problem5: the order in which `ReverseAll` visits the dictionary's stacks is not modelled; every order gives the same result.
- Problem07: the verbose listing of every directory and the console output are not modelled. Their `GetSize` calls are, since they can throw.
- Problem07: each `DirNode` is an element of one node sequence, and parent and child references are positions in it. Object identity and the `Parent` back-pointer become those positions.
- Problem07.Summary: the root's size is taken from the first entry of `allNodes`, which is always the root. The source calls `root.GetSize()` again and gets the same value.
- Problem07.Needed: `free` and `needed` wrap as C# `int` subtraction does. The exact statement needs a root size that fits an `int` and is not negative.
- Problem07.SizeExact: `GetSize`'s final `+` wraps, and a negative file size is accepted by `int.Parse`. Exactness is proved only for non-negative sizes whose totals fit an `int`.
- Text.ParseInt: leading and trailing white space and culture-specific signs, which `int.Parse` also accepts, are not modelled. Only ASCII digits with an optional sign are.
- Text.StartsWith: `StartsWith(string)` is culture-sensitive in .NET. It is modelled as an ordinal prefix test, which agrees with it for "$".
- Problem8: the coloured rendering of the grid (verbose mode) and the console output are not modelled. `Execute` returns the two printed values.
- Problem8.Execute: takes the maximum over the scores, the evidently intended reading of the last line; see Findings for what that line does as written.
- Problem9: the regular-expression parse of each line is not modelled. Motions are given as a letter and a step count.
- Problem9: coordinates are unbounded. `RopeInvariant` bounds every coordinate by the number of steps, so C#'s `int` arithmetic, including `Math.Abs`, cannot overflow before 2^31 - 1 steps.
- Problem10: `RunParallel` is not modelled, because `ExecuteCoreAsync` never calls it.
- Problem10: the console output is not modelled. The strength and the pixels are returned instead, and the checkpoint and verbose lines are not.
- Problem10: the cycle counter `ip` is unbounded. An `int` counter would only wrap after 2^31 cycles, so `ip * X` is taken as the exact product, wrapped to an `int`.
- Problem10: reading past the last line in `RunRender` is modelled as a `NullReferenceException`, from `ParseInstruction` splitting a null line.
- Problem11 parsing: the regular-expression parse of each seven-line chunk and the `switch` that builds the operation closure are not modelled. `MonkeySpec` holds an already parsed monkey, and `Closure` is the closure for each of the three operations.
- Problem11 verbose output: the per-item and per-round `VerboseLine` calls and the `Console.WriteLine` of the result are left out; `RunMonkeys` returns the monkey business instead.
- Problem11.RunTurn: after an exception, the partly updated monkeys are not described, since the exception ends the whole run.
- Problem11.RunRound: after an exception, the partly updated monkeys are not described, for the same reason.
- Problem11.RunRounds: after an exception, the partly updated monkeys are not described, for the same reason.
- Problem20: the numbers are taken as already parsed; `long.Parse` of each input line is not part of this model.
- Problem20: the verbose trace of the list and the console line with the final sum are left out; `Run` returns the sum instead.
- Problem20: the `List<(int, long)>` that `RemoveAt` and `Insert` change in place is a sequence value the loops reassign; nothing else holds a reference to it.
- `Problem14`: the loop at lines 12-25 that catches `IndexOutOfRangeException` and retries with a wider buffer is not modelled; `Try` takes the buffer as a parameter.
- `Problem14`: parsing the `x,y -> x,y` lines (lines 33-40 and 55-64) is not modelled; the paths arrive as points whose coordinates fit `int`.
- `Problem14`: `DrawBoard`, `Console.SetCursorPosition`, the verbose lines, the final `Console.WriteLine` and `Console.ReadLine` are console input and output.
- Problem14.Try: states the count as the number of sand cells on the returned board, not as a function of the paths; there is no pure reference simulation of the whole pour.
- `Problem22`: `RenderMap`, `Console.SetCursorPosition`, the colours, the verbose lines naming each edge crossing and the final `Console.WriteLine` are console output.
- `Problem22`: the jagged `char[][]` map is a `seq<seq<char>>` field that each mark replaces. Nothing else holds its rows, so replacing it and updating it in place agree.
- Problem22.CubeEdge: covers only the 50-wide net the table hard-codes. `faceSize` at line 143 is computed but the step rule does not use it; off that net no case matches and the plain step is taken, as written.
- Problem22.Facing: requires one of the four headings, as does `Display`. Their `switch` expressions would throw `SwitchExpressionException` otherwise, which no reachable state triggers.
- `Problem17`: `RenderMap`, the verbose overlay and `Task.Delay` at lines 130-135 and 163-169, and every `Console.WriteLine` are display only. `OverlayUndone` shows that the verbose overlay leaves the map as it was.
- `Problem17`: the rocks are values after `TranslateRock` fills them. The source never writes to a rock matrix after that, so sharing it between turns changes nothing.
- `Problem17`: `Signature.Equals` and `GetHashCode` are structural equality of a datatype. The hash codes are not modelled.
- `Problem17`: a repeated signature is only a heuristic for a cycle: equal column tops, rock index and jet index do not imply that the map repeats. The model follows the code's fast-forward and does not prove that the skipped height is right.
- `Problem17`: the 64-bit `long` counters and the 32-bit `int` jet counter are unbounded integers, so wrap-around is not modelled. A trillion rocks stay far below `long`'s range.
- Problem17.TrimEnd: treats only the Latin-1 white-space characters as white space, not the rest of Unicode's.
- Problem17.Chamber.TryOverlay: requires the rows the rock would cover to exist. The source would throw `ArgumentOutOfRangeException` there; its callers always grow the map first.
- Problem17.Run: requires every rock to fit between the walls at its start, as the five patterns do (`PatternsFit`). It does not state the height as a function of the inputs; there is no reference simulation of the whole run.
- Problem17.Recall: fast-forwards by the corrected `Skip`, `(iterations - 1 - iRock) / mod` whole cycles. Lines 105 and 108 skip `(iterations - iRock) / mod` cycles, which is one cycle more whenever `(iterations - iRock) % mod == 0`; the program then drops one rock too many. `SkipAsWritten` and `SkipOvershoots` state that difference.
- Problem17.ExecuteCore: runs both parts through `Recall`, so it reports the heights of the corrected fast-forward. Where the skip as written overshoots, the program's height differs from the one modelled.
- Problem17.Run: the ghost counts `dropped` and `skipped` are the model's. With the corrected `Skip` they add up to `iterations`.
- `Problem15`: `Part1` and its dictionary are not modelled, nor is `ExecuteCoreAsync`, which only runs the two parts. The regular-expression parsing of the sensor lines becomes the `Sensor` list passed to `Part2`.
- `Problem15`: the box labels `BoxId` and `Id`, `Render`, the `Stopwatch` and every `Console.WriteLine` are display only.
- `Problem15`: the coordinates are unbounded integers, so the 32-bit `int` arithmetic on them (`ToDiagonalCoordinates`, the sensor's rectangle, the box sides) is taken to stay in range, which it does for inputs of a few million. `BoxSize` alone models its 32-bit differences and 64-bit product.
- Problem15.CandidateUnseen: covers only a box whose corner has a sum of even parity. For an odd sum no point has that cell, and `FromDiagonalCoordinates` still prints a truncated point.
- `Problem18`: the regular-expression parsing in `ExecuteCoreAsync` and the `Console.WriteLine` output are not modelled. The cubes are passed as `points`, which stands for the enumeration of the `HashSet`: `Part1` and `Part2` require the points to be pairwise distinct, as a set's elements are.
- `Problem18`: the six `TryEnqueue` calls are modelled as `Scan.Expand`, a loop over `Neighbours` in the same order.
- `Problem18`: coordinates and counts are unbounded integers. The `int` arithmetic on `p.X - 1` and on `total` is taken not to overflow.
- Problem12: the `Helpers.Verbose` dump of the distance grid and the two `Console.WriteLine` calls are output only; `Execute` returns the two numbers instead.
- Problem12.Search: with no `E` or several, only soundness is proved (every distance is a walk length and `bestPath` is a walk to the start). Other `E` cells keep distance 0 but are never queued, so shortest distances are not claimed then.
- Problem12.Execute: `bestPath.Length` and the distances are unbounded integers. In the source they are `int`, which a map of fewer than 2^31 cells cannot overflow.
- Problem12.Relax: `Queue<T>` is a sequence with enqueue at the back and dequeue at the front. `CoordPath`'s `null` parent is `None`.
- `Problem24`: the `lock` in `IsBlizzardAt` (line 34) guards concurrent filling. Concurrency is not modelled, so the cache is a plain array filled on first use.
- `Problem24`: `Helpers.Lcm`, `Helpers.PosMod`, `Point2<sbyte>` and `Rect2<sbyte>` are not part of this model. The constructor takes the cycle as any positive common multiple of the width and the height. `PosMod` is taken to return the remainder in [0, m).
- `Problem24`: coordinates are unbounded integers, so the `sbyte` casts in `AtTime` and the `sbyte` additions in `Add` are taken not to wrap, which holds for a valley under 127 cells across.
- `Problem24.BlizzardLocations.constructor`: requires bounds at least one cell wide and high. A degenerate valley would make the source's `PosMod` divide by zero.
- `Problem24`: the parsing in `ExecuteCoreAsync` (lines 91-120), the three `Algorithms.PrioritySearch` calls (lines 178-207), `Render`, the `Stopwatch`es and every `Console.WriteLine` are not modelled; the priority search is not part of this model.
- `Problem24`: `NextStatesAsync` (lines 149-174) repeats `NextStates` with a callback in place of `yield return`, so `NextStates` stands for both. The lazy enumeration is modelled as the list it yields, failing as a whole at the first failing lookup.
- Problem16: reading the valve lines and building the node dictionary (csharp/solvers/Problem16.cs:157-165) is text parsing; `GetNextStep` takes the dictionary as a parameter.
- Problem16: the distance-relaxation loop (csharp/solvers/Problem16.cs:167-206) is not modelled. Its table is never read afterwards, and line 200 writes back the old distance instead of the shorter one.
- Problem16: the driver in `Part1` (csharp/solvers/Problem16.cs:293-318) with its priority queue of agents, the console output and `DumpPath` are not modelled; `Inverted`, which orders that queue, is.
- Problem16: `HardState` and `HardPath` (csharp/solvers/Problem16.cs:110, 126-138) are not modelled; no code builds them.
- Problem16.OpenedSpec: does not model 32-bit wrap-around of `FlowRate * (Remaining - 1)` or of the sums; minutes and pressures are unbounded.
- Problem16.NameRoundTrip: proved only while at most 256 names are known; past that, `(byte)_mapping.Count` wraps, ids repeat and `Name` returns the first name with the id.
- Problem16.NodeSet.Enumerate: the lazy `yield` sequence is computed in full.

## Findings

| source | as written | input that shows it | evidently intended | confidence | as-written member | corrected member |
|---|---|---|---|---|---|---|
| csharp/solvers/Problem3.cs:77-82 | `Chunk(3)` also yields a trailing chunk of one or two lines, whose common item is added to the badge sum | five lines "aa": the loop's badge sum is 1, the LINQ sum is 2 | only complete groups of three count, as in the loop the program compares against | high; not executed | Problem3.LinqSums, Problem3.PartialGroupCounted | Problem3.WholeGroupSums, Problem3.WholeGroupSumsMatchLoop |
| aoc/solvers/Problem4.cs:49-52 | `AsEnumerable()` on a `Range` binds the generic one-element overload (the earlier project's helpers have no `Range` overload), so the "intersection" compares the two ranges as values | the pair 2-4,3-3: the loop counts (1, 1), `ExecuteLinq` counts (0, 0) | intersect the ranges' integers, as the `Range` overload in csharp/Helpers.cs:45-49 does | medium; not executed | Problem4.LinqSizes, Problem4.LinqMissesNestedPair | Problem4.FixedLinqSizes, Problem4.FixedLinqCounts |
| csharp/solvers/Problem8.cs:102 | `score.AsEnumerable()` binds the one-element `AsEnumerable<T>(this T)` of csharp/Helpers.cs:40-43, because a 2-D `int` array is not an `IEnumerable<int>`; `Max()` of that sequence is the array itself, so the line prints the array's type name | any grid, e.g. the two lines "12" and "34" | print the largest score in the array | medium; not executed | Problem8.ReportedScores, Problem8.ReportedScoresIsTheArray | Problem8.Max, Problem8.BestBoundsAll |
| csharp/solvers/Problem17.cs:105-108 | the fast-forward moves `iRock` on by `(iterations - iRock) / mod` whole cycles, and the same turn then still drops a rock | a cycle of 5 rocks found at rock 5 with 10 rocks wanted: `iRock` becomes 10, rock number 10 still falls, and 11 rocks are counted | skip `(iterations - 1 - iRock) / mod` cycles, so that the turn's own rock is the last one or still to come | medium; not executed | Problem17.SkipOvershoots, Problem17.SkipOvershootsExample | Problem17.Skip, Problem17.Run |
