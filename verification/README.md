# Table-label extraction from PDF drawing operators — a Dafny model

This project models the pure core of a small TypeScript tool that reads the drawing
operators and text items of a PDF page. The tool labels each text item with the
ruling lines just above and just below it. The model covers these parts:

- **Vertex extraction** (`pairwise`, `enumerateVertices`). A stream of operators runs
  with a current affine matrix. The matrix starts as the identity, and a `save`/`restore`
  stack holds copies of it. Every coordinate pair of a `moveTo`, `lineTo` or
  `constructPath` operator is emitted, mapped by the matrix in force at that operator.
- **Threshold grouping** (`groupByThreshold`). Elements are stably sorted by a numeric key.
  They are then cut into runs. A new run opens whenever a key is `threshold` or more above
  the key that opened the current run.
- **Labelling** (`enumerateLabels`). Vertices are grouped by x, with runs 2 units wide.
  Text items are grouped by anchor x, with runs 10 units wide. The k-th text group gets
  rank k and is measured against the pool of the first k vertex groups, sorted by y. An
  item's `top` is the first pooled y above its anchor. Its `bottom` is the pooled y just
  before that one.
- **The `Sorted` container** (`Sorted.add`). Keys and values live in parallel arrays. A key
  below the first key is put at the front. Otherwise a binary lift over the steps
  2^24, …, 1 finds the last index i ≥ 1 whose key is below the new key (0 when there is
  none), and the pair is spliced in after it.

Modules follow the source. `Geometry` holds the gl-matrix pieces. `Vertices` holds
`pairwise` and `enumerateVertices`. `ArraySort` holds `Array.prototype.sort` with a key
comparator. `Grouping` holds `groupByThreshold`. `Labels` holds `enumerateLabels`.
`SortedKeys` holds `Sorted`. `Seqs` has sequence helpers.

Modelling choices:

- Coordinates are exact `real`s. gl-matrix's `mat2d.multiply` and `vec2.transformMat2d`
  are written out as their 2×3 affine formulas. `multiply(cur, cur, M)` is the product
  cur × M, which applies M first.
- Generators become functions that return finite sequences.
- An operator's `args` is a sequence of `Arg`. Each entry is a number (`Num`) or a nested
  number array (`Nums`). The `constructPath` coordinates are `args[1]`.
- `Array.prototype.sort` has been stable since ECMAScript 2019. With the comparator
  `key(a) - key(b)`, its result is therefore unique. `ArraySort.SortByKey` computes that
  result by insertion.
- The `Sorted` class becomes an immutable value. `SortedKeys.Add` returns the updated
  container instead of mutating it. Both arrays start empty and `add` grows both, so
  `|keys| == |values|` is a precondition. `SortedKeys.AddSpec` is a declarative
  reference: it inserts at the last index ≥ 1 holding a smaller key, plus one. `Add`
  runs the binary lift itself and is proved equal to `AddSpec` on sorted keys.
- JavaScript semantics that matter:
  - An out-of-range `keys[i + w] < key` reads `undefined` and is false.
  - `key < keys[0]` on an empty array is false.
  - `splice(1, 0, x)` on an empty array inserts at 0.
  - `Add` therefore inserts at `min(i + 1, n)`.
- `groupByThreshold` with a threshold ≤ 0 yields an empty first run. This happens because
  the first element is not strictly below `threshold` above itself. The model keeps this
  behaviour. The callers pass 2 and 10.
- `rectangle` and every other operator not listed above fall under `Other` and emit
  nothing. A `lineTo` emits only its own coordinate pairs. No edges are built.

## Model

| member | source | states |
|---|---|---|
| Geometry.Create | src/index.ts:41 | the starting matrix maps every point to itself and is neutral on both sides of multiplication |
| Geometry.Multiply | src/index.ts:56 | the product applied to a point equals applying the right operand first, then the left one |
| Geometry.MultiplyAssociative | src/index.ts:54-57 | successive transforms compose associatively |
| Vertices.Pairwise | src/index.ts:29-38 | n numbers give ⌊n/2⌋ points, the i-th being (s[2i], s[2i+1]); an odd trailing number is dropped |
| Vertices.PairwiseOfCoordinates | src/index.ts:29-38 | pairing the flattened coordinates of any point list gives the list back |
| Vertices.CoordinatesOfPairwise | src/index.ts:29-38 | flattening the pairs gives back the input without its odd trailing number |
| Vertices.Initial | src/index.ts:41-42 | interpretation starts with an empty stack and a matrix that moves no point |
| Vertices.Next | src/index.ts:46-57 | the stack changes only at its top, by +1 for `save` and -1 for `restore` (a `restore` on an empty stack does nothing); `save` pushes the current matrix, `restore` reinstates the last saved one, `transform` makes the matrix apply its operand first, and every other operator leaves the state alone |
| Vertices.Emit | src/index.ts:58-66 | an operator yields one point per coordinate pair of `args` (`moveTo`/`lineTo`) or of `args[1]` (`constructPath`), the i-th being (c[2i], c[2i+1]) mapped by the matrix in force; an odd trailing number is dropped |
| Vertices.EnumerateVertices | src/index.ts:40-69 | the number of points equals the total number of coordinate pairs of the `moveTo`/`lineTo` arguments and `constructPath` `args[1]` arrays |
| Vertices.EmittedCount | src/index.ts:44-68 | one point per coordinate pair of every emitting operator, from any starting state |
| Vertices.SilentOperators | src/index.ts:47-57 | `save`, `restore`, `transform` and every other operator emit nothing |
| Vertices.RunConcat | src/index.ts:44-68 | running two operator lists in sequence equals running their concatenation |
| Vertices.EmittedConcat | src/index.ts:44-68 | the points of a concatenation are the first part's points followed by the second part's, from the state the first part left |
| Vertices.StackDiscipline | src/index.ts:47-53 | while no prefix restores more than it saved, the stack grows by saves minus restores and the entries below the starting depth are untouched |
| Vertices.SaveRestore | src/index.ts:47-53 | `save`, then any balanced stream (transforms included), then `restore` gives back exactly the matrix and stack in force at the `save` |
| Vertices.RestoreWithNothingSaved | src/index.ts:50-53 | from an empty stack with no `save`, every `restore` is a no-op: the stream matches the same stream with the restores removed, in state and in points |
| Vertices.IdentityWithoutTransform | src/index.ts:41-66 | with no `transform`, every matrix stays the identity and each emitted point equals its raw coordinate pair |
| Vertices.VerticesWithoutTransform | src/index.ts:40-69 | on a stream with no `transform`, the vertices are exactly the raw coordinate pairs in operator order |
| Vertices.TransformsCompose | src/index.ts:54-57 | after a run of transforms a point passes through the latest operand first and the earlier matrix last; the stack is unchanged |
| ArraySort.SortByKey | src/index.ts:74 | the sort returns a permutation of its input with keys non-decreasing |
| ArraySort.SortStable | src/index.ts:74 | elements with equal keys keep their input order |
| ArraySort.InsertSorted | src/index.ts:74 | each insertion step keeps a key-sorted sequence sorted |
| ArraySort.InsertPermutes | src/index.ts:74 | each insertion step adds exactly the inserted element |
| ArraySort.InsertKeyClass | src/index.ts:74 | an inserted element goes after every earlier element with the same key |
| Grouping.GroupByThreshold | src/index.ts:71-88 | empty input gives no runs; the runs concatenate to the input stably sorted by key; every run after the first is non-empty, and the first is non-empty exactly when the threshold is positive; keys in a run stay strictly below `threshold` above its first key; each run starts at least `threshold` above the previous run's start |
| Grouping.GroupingUnique | src/index.ts:76-87 | for a positive threshold, any cut of the sorted input into runs with those two threshold properties equals the result |
| Grouping.Cut | src/index.ts:75-87 | the loop yields at least one run and at most one more than the elements it reads; the open run is extended, never dropped, and every run it opens later is non-empty |
| Grouping.CutFlatten | src/index.ts:77-87 | the loop's runs concatenate to the open run followed by the remaining elements |
| Grouping.CutShape | src/index.ts:75-87 | the loop's threshold invariants, from any consistent loop state |
| Labels.FindIndex | src/index.ts:117 | returns the first index whose y is above `ty`, or -1 exactly when none is |
| Labels.LabelFor | src/index.ts:115-123 | for a y-sorted pool with vertices both at/below and above the anchor, `top` is the smallest pooled y above it and `bottom` the largest pooled y at or below it, with `bottom ≤ ty < top` |
| Labels.BracketsPermutation | src/index.ts:110-112 | whether and how the pool brackets an anchor depends only on which vertices it holds, not on their order |
| Labels.Pool | src/index.ts:106-112 | after k text groups the pool is y-sorted and holds exactly the vertices of the first k vertex groups |
| Labels.EnumerateLabels | src/index.ts:97-126 | exactly one label per text item |
| Labels.LabelsFollowItems | src/index.ts:107-124 | one label per text item, named after the items in order of their anchor x |
| Labels.LabelsBracketItems | src/index.ts:105-123 | the item in text group k (0-based) has rank k + 1, and its `bottom`/`top` bracket its anchor y among the vertices of the first k + 1 vertex groups |
| SortedKeys.LastBelow | src/Sorted.ts:11-14 | the last index ≥ 1 holding a key below the new key, or 0 when there is none |
| SortedKeys.Position | src/Sorted.ts:6-15 | the insertion point is 0 for a key below the first key, at least 1 otherwise, and never past the end |
| SortedKeys.Add | src/Sorted.ts:5-17 | both arrays grow by one, with the pair spliced in at the same position; an empty container becomes `[key]`/`[value]`; a key below `keys[0]` goes to the front; on sorted keys the binary lift lands where the reference insertion does |
| SortedKeys.PositionSplitsKeys | src/Sorted.ts:6-15 | on sorted keys, the keys before the insertion point (index 0 aside) are below the new key, `keys[0]` is at most it, and the keys from the insertion point on are at least it |
| SortedKeys.AddKeepsOrder | src/Sorted.ts:5-17 | adding to a sorted container keeps its keys sorted |
| SortedKeys.AddKeepsPairs | src/Sorted.ts:15-16 | the new key/value pairs are the old ones, in order and still paired, with the new pair spliced in |
| SortedKeys.AddEqualToFirst | src/Sorted.ts:6-15 | a key equal to `keys[0]` lands at index 1, because index 0 is never compared |
| SortedKeys.AddAboveAll | src/Sorted.ts:11-16 | a key above every key present is appended |
| SortedKeys.AddAllSorted | src/Sorted.ts:5-17 | any sequence of adds keeps a sorted container sorted, and its keys are the old keys plus the added ones |
| SortedKeys.AddAllPairs | src/Sorted.ts:5-17 | any sequence of adds keeps every pair already held and every pair added, each key still with its value |
| SortedKeys.BuildFromEmpty | src/Sorted.ts:2-17 | a container built from empty by any sequence of adds has sorted keys and holds exactly the added key/value pairs |
| SortedKeys.InsertAtPermutes | src/Sorted.ts:15 | a splice adds exactly the inserted key |

## Left out

- `main` in src/index.ts is left out. It fetches a PDF over the network, loads it with
  pdf.js and prints to the console. All of that is I/O.
- src/example.ts, example/example.ts and example/xml.ts are left out. They are network,
  console, DOM and canvas front ends.
- The `separateToEdges` tests of test/index.ts are left out. That function is not in the
  source modelled here, so edge splitting, crossings and cell enumeration are not modelled.
- IEEE-754 rounding in gl-matrix, and NaN keys or coordinates, are left out. Reals are
  exact and always comparable.
- Double rounding in the grouping test `key - groupKey < threshold` (src/index.ts:79) is
  left out. The model subtracts exact reals, so an element whose key difference rounds
  to below `threshold` in doubles can land in a different run. For example,
  `0.3 - 0.1 < 0.2` holds in doubles but not in reals.
- The in-place effect of `array.sort` (src/index.ts:74) on the caller's arrays is left
  out. `enumerateLabels` reorders its callers' `vertices` and `items` by x. The model
  returns fresh sequences and leaves its inputs as they were.
- Generator laziness and the iterator protocol are left out. Every generator is a finite
  sequence.
- Vertices.EnumerateVertices: malformed argument shapes are excluded by the `WellFormed`
  precondition. The source would throw or compute NaN on them. The excluded shapes are:
  - a `transform` with fewer than six numbers;
  - a nested array in `moveTo`/`lineTo` arguments;
  - a `constructPath` without an array at `args[1]`.
- Vertices.EnumerateVertices: an `argsArray` shorter than `fnArray` is excluded by a
  precondition. pdf.js always gives one argument array per operator. Without one, a
  `transform`, `moveTo`, `lineTo` or `constructPath` would read `undefined` and throw.
  An unpaired `save`, `restore` or other operator would run without error, and the
  model does not cover that case.
- Labels.EnumerateLabels: the failing cases are excluded by the `LabelsDefined`
  precondition rather than modelled. The source would throw or read `undefined` in them:
  - the vertex groups run out before the text groups;
  - an item has no pooled vertex above its anchor;
  - the lowest pooled vertex is already above the anchor.
  The labels produced before such a failure are not modelled.
- SortedKeys.Add: containers longer than 2^25 are excluded by a precondition. The binary
  lift's steps sum to 2^25 − 1, so it cannot reach further.
- SortedKeys.Add: on unsorted keys, `Add` only promises a splice at some position. The
  exact position there is not characterised.
- The `OPS` enumeration lives in a file that is not part of this model. Only the codes the
  extractor distinguishes are named, and every other code is `Other`.
