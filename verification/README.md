# A verified model of the BigFleet dashboard's algorithms

Most of the dashboard carries data from one library to another. This project models the
five places where it computes something of its own, and proves what a reader of its pages
and a client of its HTTP interface may rely on.

- **The Needs walk** (`ui/src/pages/Needs.tsx`, `ui/src/pages/needsKit.tsx`): sort by
  precedence, group by fingerprint, draw cut-lines, append the rest. `Needs`, `WalkSpec`,
  `WalkGroups`, `Walk`, `WalkTheorems`, `WalkFields`, `NeedsPage`, `Coverage`.
- **The bounded fan-out and the client cache** (`pkg/server/handlers_clusters.go`,
  `pkg/server/handlers_available_capacity.go`, `pkg/kubeclient/kubeclient.go`): transition
  systems over all interleavings, on their own and together. `FanOut`, `ClusterHandlers`,
  `ClientCache`, `Requests`, `ClusterRequests`, `CapacityRequests`.
- **The range-query grid** (`pkg/promclient/promclient.go`,
  `pkg/server/handlers_fleet.go`, `pkg/server/handlers_shard_trends.go`): `RangeGrid`.
- **Quantities and penalties** (`ui/src/lib/format.ts`, `ui/src/pages/ShardReports.tsx`):
  `Numerals`, `Quantity`, `Penalty`.
- **The FinOps order and matrix** (`pkg/server/handlers_finops.go`,
  `ui/src/pages/FinOps.tsx`): `BucketOrder`, `FinOpsMatrix`.

`Prelude`, `Decimal`, `Floats`, `Sorting` and `Strings` hold the shared vocabulary.
`Sorting` states what the two runtimes promise: JavaScript's sort is stable when its
comparator is consistent (section 23.1.3.30 of ECMA-262), so `StableSort` is the only
possible result (`Sorting.StableSortUnique`); a Go `sort.Slice`, or a JavaScript sort whose
comparator never answers "equal", is some permutation without inversions.

The order, the cells, the fractions and the tables are specified through named predicates and
functions. So that those names cannot mean anything else, the main results are also stated in
terms of the fields of the inputs alone (`WalkFields`, and the second halves of the contracts
of the methods).

`dafny verify dfyconfig.toml` checks the whole project.

## What the proofs show about the code

Results in the direction a maintainer would hope for are in the table below. These are the
places where a promise fails or a comment disagrees with the code; the model follows the code.

- The comment at `pkg/promclient/promclient.go:145` says missing samples are NaN; the code
  fills them with 0, and `RangeGrid.IsCell` says so.
- A sample less than one step before the start of the range is shown in cell 0, since Go's
  division truncates toward zero (`RangeGrid.CellMeaning`).
- `bucketLess` is not an order on all label sets: "9" < "10" < "1a" < "9"
  (`BucketOrder.NotAnOrder`); `BucketOrder.OrderedExactly` gives the exact condition. Where it
  is one, labels such as "1" and "1.0" still leave the order of the columns open
  (`BucketOrder.OneOrderExactly`).
- Selecting a cluster whose id is "" or "*" shows every need (`NeedsPage.OddIdShowsAll`,
  `NeedsPage.ScopeMatchesTotal`).
- The badge of the empty reason filters nothing, and any badge shows nothing while the
  status filter is "satisfied" (`NeedsPage.BadgeMatchesRows`).
- A quantity such as "1 constructor" reads as NaN, since the suffix table inherits that name;
  `coverage` is then NaN, while the bar that is drawn for that resource counts as full
  (`Coverage.NaNDrawnAsFull`). A plain number of 310 digits or more reads as Infinity, which
  makes `coverage` NaN too (`Coverage.OverflowIsNaN`). `Coverage.CoverageNaNExactly` says
  exactly when it is NaN.
- The comment at `ui/src/lib/format.ts:132` puts every ordinal between 0 and 27. One cent
  stands at -4 and the power of two after the last one on the wire at 28, above "PINNED"
  (`Penalty.CentOffLadder`, `Penalty.BigOffLadder`), while a power of ten with 310 digits is
  back at 0 (`Penalty.HugeOrdinal`). `Penalty.OnLadderExactly` says which labels keep the
  promise, `Penalty.OrdinalMonotone` when a larger amount stands no lower.
- The sort of the cohorts in `buildWalk` finds them in order already; all it may do is move
  cohorts whose heads tie (`WalkTheorems.CohortSortIsIdentity`). The clamp in `MatrixCell`
  changes no value (`FinOpsMatrix.ClampIsIdle`).

## Model

| member | source | states |
|---|---|---|
| Walk.BuildWalk | ui/src/pages/Needs.tsx:243-291 | the loops over map, flat list and items emit a list that the specification `IsWalk` allows, with the order of cohorts left open only where heads tie, and that has the shape of `WalkFields.ShownList` |
| WalkFields.WalkShows | ui/src/pages/Needs.tsx:243-291 | in terms of the fields: one block per fingerprint that two needs carry, unless all clusters are shown, with exactly its needs; blocks, block heads and the tail of the other needs go by larger priority, then by arrival no later (missing is 0); cut-lines, headers and keys as in the source |
| WalkTheorems.Conservation | ui/src/pages/Needs.tsx:243-291 | the row items show every need exactly as often as the input has it |
| WalkTheorems.LayoutHolds | ui/src/pages/Needs.tsx:258-290 | the list is one contiguous block per fingerprint that two or more needs share (none when all clusters are shown), blocks ordered by their top needs, then a tail of exactly the other needs in precedence order |
| WalkTheorems.CohortIsBlock | ui/src/pages/Needs.tsx:266-285 | a block has one header counting its rows, a stably sorted selection of the input's needs, the supply of the first member with one, and at most one cut-line |
| WalkTheorems.CutLineHolds | ui/src/pages/Needs.tsx:271-284 | a cut-line stands below the first member that claimed machines while the next is unmet with none; it counts the rows that follow it, at least one, and its cohort is contested |
| WalkTheorems.KeysDistinct | ui/src/pages/Needs.tsx:273-289 | no two items share a React key, whatever colons fingerprints and cluster ids contain |
| WalkTheorems.CohortSortIsIdentity | ui/src/pages/Needs.tsx:259-265 | the map's insertion order is already a result of the cohort sort, and the only one when no two different needs tie |
| WalkTheorems.WalkExists | ui/src/pages/Needs.tsx:243-291 | every input has a list that the specification allows |
| WalkTheorems.Deterministic | ui/src/pages/Needs.tsx:243-291 | when no two different needs share (priority, arrival), every arrival order of the needs gives the identical item list |
| WalkGroups.MembersCount | ui/src/pages/Needs.tsx:248-257 | a group holds exactly the needs of its fingerprint, as often as the list does |
| WalkTheorems.LeftoverCount | ui/src/pages/Needs.tsx:247-262 | the flat list receives exactly the needs that no cohort holds, each as often as the input has it |
| WalkTheorems.MembersStablySorted | ui/src/pages/Needs.tsx:244-257 | grouping a stably sorted list gives the stable sort of each group |
| Walk.FindCut | ui/src/pages/Needs.tsx:274-280 | finds the first adjacent pair where supply ran out, or -1 exactly when there is none |
| Needs.PrecedesStrictWeak | ui/src/pages/needsKit.tsx:116-119 | precedence is a strict weak order |
| Needs.OutranksExactly | ui/src/pages/needsKit.tsx:116-119 | a need may stand above another unless the other precedes it: it has the larger priority, or the same and an arrival that is no later, where a missing one is 0 |
| Needs.CompetitorsFor | ui/src/pages/needsKit.tsx:129-134 | the first 8 or fewer of the needs that claimed machines, have a larger priority or the same and an earlier arrival, and ask for a common resource, by priority and then arrival; an omitted one is outranked by all that are kept |
| Needs.CandidateCount | ui/src/pages/needsKit.tsx:130-131 | the candidates are all needs that compete in terms of those fields, each as often as the list has it |
| Needs.AheadAcyclic | ui/src/pages/needsKit.tsx:129-134 | following "is listed ahead of" along any chain never returns to a need |
| Needs.LookupExact | ui/src/pages/needsKit.tsx:87-101 | a key is found with the value that the record gives it, and not found exactly when the record is absent or lacks it |
| NeedsPage.Clusters | ui/src/pages/Needs.tsx:67-76 | one entry per cluster that occurs, each with its own total and unmet count; more unmet needs come first, and equal counts go by id |
| NeedsPage.TotalsAddUp | ui/src/pages/Needs.tsx:67-76 | the cluster totals add up to all needs |
| NeedsPage.Summary | ui/src/pages/Needs.tsx:94-102 | the satisfied count and the count of every reason are right, and together they account for every scoped need |
| NeedsPage.ScopedExact | ui/src/pages/Needs.tsx:82-85 | the scope holds exactly the needs of the cluster, or all for the ids "" and "*", as often as the list does |
| NeedsPage.RowsExact | ui/src/pages/Needs.tsx:86-92 | the rows are exactly the scoped needs that pass the status filter and the reason filter |
| NeedsPage.ScopeMatchesTotal | ui/src/pages/Needs.tsx:82-85 | selecting a listed cluster shows as many needs as its total says if and only if its id is neither "" nor "*", or it is the only cluster |
| NeedsPage.OddIdShowsAll | ui/src/pages/Needs.tsx:82-85 | with the id "" or "*", a cluster listed with one need shows two as soon as another cluster has one |
| NeedsPage.BadgeMatchesRows | ui/src/pages/Needs.tsx:86-102 | a badge's count equals the rows that pressing it shows, for every list of needs, if and only if its reason is not empty and the status filter is not "satisfied" |
| NeedsPage.ShownForReason | ui/src/pages/Needs.tsx:86-92 | the number of rows left by each combination of a status filter and a non-empty reason |
| NeedsPage.WalkShowsBadge | ui/src/pages/Needs.tsx:86-105 | and the walk shows exactly that many row items |
| Coverage.CoverageOf | ui/src/pages/needsKit.tsx:80-90 | 1 for a satisfied need; otherwise NaN exactly when some resource's share is not a number, and else the number min in [0,1] with min * want <= want - deficit (or 0) for every wanted resource, and equality for one of them when min is below 1 |
| Coverage.ShareIsDrawn | ui/src/pages/needsKit.tsx:544-548 | the fraction that is drawn for a wanted resource is the one that coverage compares, and is not negative |
| Coverage.DrawnInFields | ui/src/pages/needsKit.tsx:544-548 | the drawn fraction is 1 for a satisfied need, 0 when the deficit is all that is wanted, and otherwise times want it is want - deficit |
| Coverage.CoverageOrderFree | ui/src/pages/needsKit.tsx:80-90 | coverage does not depend on the order of the record's keys |
| Coverage.NaNOnlyFromInherited | ui/src/lib/format.ts:73-78 | a quantity in the usual notation is NaN if and only if its suffix is a name that every object inherits, and infinite if and only if its number or its value reaches 2^1024 - 2^970 |
| Coverage.CoverageNaNExactly | ui/src/pages/needsKit.tsx:80-90 | with the page's parser, coverage is NaN if and only if an aggregate, or the deficit of a wanted resource, ends in an inherited name, or an aggregate reads as Infinity, in the usual notation or out of it; otherwise it is in [0,1] |
| Coverage.NaNDrawnAsFull | ui/src/pages/needsKit.tsx:544-548 | for the aggregate "1 constructor" coverage is NaN while the bar is drawn as full |
| Coverage.OverflowIsNaN | ui/src/pages/needsKit.tsx:84-89 | for an aggregate of 1 followed by 309 zeros or more, coverage and the drawn fraction are NaN |
| Floats.OverflowsExactly | ui/src/lib/format.ts:76-77 | the range test stands for x >= 2^1024 - 2^970, from where doubles round to Infinity |
| Floats.VanishesExactly | ui/src/lib/format.ts:76-77 | and its counterpart for x <= 2^-1075, up to where they round to 0 |
| Coverage.ChunkEstimate | ui/src/pages/needsKit.tsx:95-110 | an estimate exactly when some resource has a positive min-unit and a positive aggregate whose quotient does not round to 0; a finite one is whole, total * minUnit >= aggregate for every resource with a min-unit, and (total - 1) * minUnit < aggregate for the one named, the first with the largest count |
| Coverage.EstimateIsLeast | ui/src/pages/needsKit.tsx:92-110 | a finite estimate is whole, covers every resource with a positive min-unit, and one chunk less fails for the binding resource |
| Coverage.AsksExactly | ui/src/pages/needsKit.tsx:100-109 | a resource contributes chunks if and only if its min-unit is positive and finite, its aggregate is positive and their quotient does not round to 0, NaN and the infinities included |
| FanOut.ReachableInv | pkg/server/handlers_clusters.go:32-66 | every state of every schedule keeps the invariant of slots, semaphore, WaitGroup and response |
| FanOut.BoundedConcurrency | pkg/server/handlers_clusters.go:35-61 | in every reachable state the semaphore count is the number of goroutines that hold a slot, at most 5, and the WaitGroup counter is the number added and not done |
| FanOut.ResponseIsSequential | pkg/server/handlers_clusters.go:32-66 | under every interleaving the slice sent is the one a sequential loop builds, and all goroutines are done when it is sent |
| FanOut.ErrorIsolation | pkg/server/handlers_available_capacity.go:15-64 | environments that differ in one cluster, under any two schedules, give responses that differ in that cluster's slot only |
| FanOut.Progress | pkg/server/handlers_clusters.go:37-61 | no state before the response is stuck on the semaphore or the WaitGroup, taking a read as one step (with the mutex: `Requests.Progress`) |
| FanOut.RunLength | pkg/server/handlers_clusters.go:37-61 | every run has answered after one fixed number of steps, and can move until then |
| ClusterHandlers.ClustersResponse | pkg/server/handlers_clusters.go:32-66 | every cluster is reported at its own index with the sums of the reads that succeeded; its error is absent exactly when both reads succeed and otherwise the first one |
| ClusterHandlers.HealthyCounts | pkg/server/handlers_clusters.go:46-48 | a healthy cluster's total is its number of CapacityRequests, and its pending count includes those without a phase |
| ClusterHandlers.ClustersResponseUnique | pkg/kubeclient/kubeclient.go:65-72 | neither Go's map order nor the scheduler can change the response |
| ClusterHandlers.CapacityResponse | pkg/server/handlers_available_capacity.go:24-63 | each cluster answers with its own items in read order, or with its own error and no items, under every interleaving |
| ClusterHandlers.SumValues | pkg/server/handlers_clusters.go:113-119 | the sum over the map, which `SumAnyOrder` shows to be free of the iteration order |
| ClusterHandlers.SumAnyOrder | pkg/server/handlers_clusters.go:113-119 | any key may be visited first: the total is its value plus the total of the others |
| ClusterHandlers.CountByStatusPhase | pkg/kubeclient/kubeclient.go:82-102 | every phase is counted with the number of objects that carry it, the default one with those that carry none as well; the counts add up to the number of objects, and errors pass through |
| ClusterHandlers.ListAvailableCapacity | pkg/kubeclient/kubeclient.go:115-146 | the items as read, the larger availableCount first and equal counts by name, or the read's error |
| ClientCache.KubeClient.ClientFor | pkg/kubeclient/kubeclient.go:173-192 | the whole new cache and the result of one call, with the cluster and the wrapped cause in its errors; no entry is dropped or replaced and keys stay within the configured clusters |
| ClientCache.ReachableInv | pkg/kubeclient/kubeclient.go:173-192 | the invariant of lock, cache and results over every interleaving of calls |
| ClientCache.Linearizable | pkg/kubeclient/kubeclient.go:177-191 | concurrent calls return what they would return one after the other in lock order, and leave the same cache |
| ClientCache.OneClientPerCluster | pkg/kubeclient/kubeclient.go:179-191 | calls for one cluster that have a client, under way or returned, have the same one, built for that cluster, so at most one of them built it |
| ClientCache.HeldStays | pkg/kubeclient/kubeclient.go:186-191 | however a run goes on, a call keeps the client it has built or found |
| ClientCache.BuiltOnce | pkg/kubeclient/kubeclient.go:179-191 | two successful builds for one cluster, at any two moments of a run, are the same call's |
| ClientCache.OutcomeKinds | pkg/kubeclient/kubeclient.go:182-189 | a call for a configured cluster fails only with its own build error, wrapped |
| ClientCache.EntriesStay | pkg/kubeclient/kubeclient.go:179-191 | however calls continue, a stored entry is never replaced or dropped |
| ClientCache.SerialReturnsEntry | pkg/kubeclient/kubeclient.go:179-191 | a successful call returns the final cache's entry for its cluster and a failed call leaves the cache unchanged |
| ClientCache.SerialKeeps | pkg/kubeclient/kubeclient.go:182-190 | cached clusters are configured ones and every entry was built for its cluster |
| ClientCache.MutualExclusion | pkg/kubeclient/kubeclient.go:177-178 | at most one call is between Lock and Unlock |
| ClientCache.NoDeadlock | pkg/kubeclient/kubeclient.go:177-178 | while a call has not returned some call can move |
| ClientCache.CallsReturn | pkg/kubeclient/kubeclient.go:173-192 | every run is over after at most six steps per call |
| Requests.FanRuns | pkg/server/handlers_clusters.go:37-60 | a run of goroutines that call clientFor is a run of the fan-out whose calls return what they return in the end |
| Requests.CacheRuns | pkg/kubeclient/kubeclient.go:173-192 | and a run of concurrent calls of clientFor, those of other requests included |
| Requests.Bounded | pkg/server/handlers_clusters.go:35-61 | at most five goroutines hold a semaphore slot, waiting for the mutex or not, the WaitGroup counts those not done, and one call at most holds the mutex |
| Requests.ResponseIsSequential | pkg/server/handlers_clusters.go:37-66 | the response is what a sequential loop makes of the calls' results, and all calls of the request have returned when it is sent |
| Requests.Progress | pkg/server/handlers_clusters.go:37-61 | with goroutines that wait for the mutex while they hold a semaphore slot, and other requests that compete for it, something can move until the response is sent |
| Requests.RunsEnd | pkg/server/handlers_clusters.go:37-61 | every run has a bounded number of steps, and one cannot go on if and only if the response is sent and all calls of all requests have returned |
| ClusterRequests.ClustersRequest | pkg/server/handlers_clusters.go:45-58 | each cluster is reported with the first error of its two reads, clientFor's errors included, and the counts of those that succeed |
| ClusterRequests.ClustersListed | pkg/server/handlers_clusters.go:45-58 | the same written out: the error is that of the first clientFor, else of the first read, else of the second clientFor, else of the second read; counts come from the reads that were made and succeeded |
| ClusterRequests.CacheIsInvisible | pkg/server/handlers_clusters.go:37-66 | when no build of the request fails the response is that of the reads alone, whatever other requests do |
| CapacityRequests.CapacityRequest | pkg/server/handlers_available_capacity.go:24-63 | with the shared cache and other requests, each cluster answers with its own items in read order, or with the error of clientFor or of its read and no items |
| CapacityRequests.CapacityListed | pkg/server/handlers_available_capacity.go:38-55 | the same written out, with clientFor's error before the read's |
| RangeGrid.QueryRangeByLabel | pkg/promclient/promclient.go:146-184 | an answer of another type is an error; otherwise the axis, and under every label value the row of the last series that carries it |
| RangeGrid.FillRow | pkg/promclient/promclient.go:169-180 | each cell holds the last finite sample that falls into it, or 0 without one |
| RangeGrid.RowShowsLast | pkg/promclient/promclient.go:169-180 | a filled row in terms of the samples' milliseconds and the range's instants alone |
| RangeGrid.CellMeaning | pkg/promclient/promclient.go:171-174 | a sample reaches cell i exactly when it lies from that grid instant up to the next; cell 0 also takes those less than one step early |
| RangeGrid.GridPoint | pkg/promclient/promclient.go:156-172 | a sample on the grid lands at its own index |
| RangeGrid.RowUnique | pkg/promclient/promclient.go:169-180 | the samples of a series determine its row |
| RangeGrid.OffsetFits | pkg/promclient/promclient.go:156-160 | no product of an index and the step overflows a Duration |
| RangeGrid.SubFits | pkg/promclient/promclient.go:171 | the difference of two instants is clamped to a 64-bit Duration and otherwise exact |
| RangeGrid.HandlerRangeIsValid | pkg/server/handlers_fleet.go:82-89 | every query string yields a range with a step in (0, 1h], a span in (0, 24h], and an end that is a multiple of the step less than one step ago |
| RangeGrid.HandlerRangeIsAsked | pkg/server/handlers_fleet.go:82-89 | the span is the query's duration, at most 24 hours, or an hour without a positive one; the step is the query's step, at most an hour, or 30 seconds; the end is the last multiple of the step since the year 1 |
| RangeGrid.HandlerAxis | pkg/server/handlers_fleet.go:88-91 | the axis has floor(duration/step)+1 points, starts at Start, stays in the range, rises (strictly from a step of one second on), and misses End by less than a step |
| RangeGrid.ParseDuration | pkg/server/handlers_fleet.go:114-126 | always positive and at most the maximum; a positive duration is capped, everything else is the default |
| RangeGrid.FleetActions | pkg/server/handlers_fleet.go:82-111 | for the range that the query asks for, span / step + 1 whole-second instants; kinds sorted and each once; row i has that length and shows for kind i the last finite sample of every step, by its milliseconds, or 0 |
| RangeGrid.ShardTrendsOf | pkg/server/handlers_shard_trends.go:28-60 | the same of the rows of both queries over one range that the query asks for; the pod's own series is picked exactly when it exists |
| Numerals.TrimKeepsValue | ui/src/lib/format.ts:40-43 | trimming k/10^dp keeps the number, keeps the digits before the point, leaves no superfluous dot or zero, and is idempotent |
| Numerals.TrimSigned | ui/src/lib/format.ts:40-43 | the same holds behind a minus sign |
| Numerals.DropDotZerosIsReplace | ui/src/lib/format.ts:42 | the model of the first replacement cuts exactly where its pattern matches |
| Numerals.DropZerosIsReplace | ui/src/lib/format.ts:42 | the model of the second replacement keeps the shortest group that the lazy quantifier allows, and the text itself without a match |
| Numerals.NearestUnique | ui/src/lib/format.ts:42 | toFixed's rounding: the nearest integer, of two the larger |
| Numerals.PrintsNear | ui/src/lib/format.ts:40-43 | for every number below 10^21 in size and every dp, what trimNum prints reads back to within half of 10^-dp |
| Numerals.ShiftIsProduct | ui/src/lib/format.ts:42 | the shift that rounding starts from is multiplication by 10^dp |
| Numerals.UnshiftIsQuotient | ui/src/lib/format.ts:42 | and the shift back is division by 10^dp |
| Quantity.RoundTrip | ui/src/lib/format.ts:73-85 | for every byte count below 2^53, reading back what was printed is exact below 1024, else off by at most a twentieth of the unit and 5% |
| Quantity.PrintedMonotone | ui/src/lib/format.ts:80-85 | the printed values rise with the byte counts, across units too |
| Quantity.PrintedDenotes | ui/src/lib/format.ts:73-85 | the printed text parses to the count rounded to a tenth of its unit |
| Quantity.UnitSuffix | ui/src/lib/format.ts:50-60 | the parser's suffix table undoes the printer's unit table |
| Quantity.PlainValue | ui/src/lib/format.ts:73-78 | a number without a suffix is read as it stands |
| Quantity.DecimalSuffixes | ui/src/lib/format.ts:57-58 | 1000 times the value with "m" is the plain number, and "k", "M", "G", "T" and "P" are each 1000 times the one before |
| Quantity.BinarySuffixes | ui/src/lib/format.ts:59 | "Ki" is 1024 times the plain number, and "Mi", "Gi", "Ti" and "Pi" are each 1024 times the one before |
| Quantity.OtherSuffixes | ui/src/lib/format.ts:77 | any other word is ignored, except the seven inherited names, which give NaN |
| Quantity.OtherTexts | ui/src/lib/format.ts:74-76 | absent and empty text is 0, and text out of the pattern is left to parseFloat, untrimmed |
| Quantity.TrimExact | ui/src/lib/format.ts:75 | trimming takes the white space off both ends and nothing else |
| Quantity.DownIsQuotient | ui/src/lib/format.ts:80-83 | the scaling to a unit is division by its power of 1024 |
| Quantity.ExecIsMatch | ui/src/lib/format.ts:75 | the groups found are those of the pattern's one possible match |
| Penalty.RoundLog2Exact | ui/src/lib/format.ts:143 | the rounded logarithm of an integer is k exactly when 2^(2k-1) < n^2 < 2^(2k+1) |
| Penalty.NoTie | ui/src/lib/format.ts:143 | no integer lies on the boundary between two rungs |
| Penalty.OrdinalOfInteger | ui/src/lib/format.ts:134-144 | an integer label's ordinal is k+3 exactly when it lies on the band of k and does not read as Infinity |
| Penalty.RoundLog2Band | ui/src/lib/format.ts:143 | the rounded logarithm of any positive number is k exactly when 2^(2k-1) <= n^2 < 2^(2k+1) |
| Penalty.OrdinalMonotone | ui/src/lib/format.ts:134-144 | of two labels with amounts the larger stands no lower whenever both read as positive finite numbers; in general, if and only if an amount that reads as 0 is not followed by one below 2^(-7/2), nor one from 2^(-5/2) on by one that reads as Infinity |
| Penalty.OnLadderExactly | ui/src/lib/format.ts:132-144 | the ordinal of any label is between 0 and 27 if and only if it is a name, its amount reads as 0 or Infinity, or 2^-7 <= n^2 < 2^49 |
| Penalty.CentOffLadder | ui/src/lib/format.ts:132-143 | "0.01" has the ordinal -4 |
| Penalty.BigOffLadder | ui/src/lib/format.ts:132-143 | "33554432" has the ordinal 28, above "PINNED" |
| Penalty.HugeOrdinal | ui/src/lib/format.ts:141-142 | 1 followed by 309 zeros or more has the ordinal 0 |
| Penalty.WireOrdinal | ui/src/lib/format.ts:126-144 | each of the 28 labels on the wire has its rung as its ordinal |
| Penalty.OtherNames | ui/src/lib/format.ts:135-140 | "$0" and "$0.50", names in lower case, absent and empty labels |
| Penalty.KeepsExactly | ui/src/lib/format.ts:141 | every digit and point of a label counts towards its amount, and no other character |
| Penalty.OtherRanks | ui/src/pages/ShardReports.tsx:22-30 | an empty label, and text that is no finite number, rank as unset |
| Penalty.LaddersAgree | ui/src/pages/ShardReports.tsx:22-30 | bucketRank and penaltyOrdinal order the wire labels alike |
| Penalty.RowLessStrictWeak | ui/src/pages/ShardReports.tsx:40-49 | the comparator is consistent for every field, with NaN from two PINNED rows as a tie |
| Penalty.SortShortfalls | ui/src/pages/ShardReports.tsx:38-51 | a stable sort: by bucket no lower rank above a higher one, by age the larger ageCycles first, by priority the larger priority first |
| BucketOrder.OrderedExactly | pkg/server/handlers_finops.go:180-196 | bucketLess is a strict weak order on a set of labels if and only if no name separates numerals against their values and no NaN ties with numerals that differ |
| BucketOrder.NotAnOrder | pkg/server/handlers_finops.go:180-196 | "9", "10" and "1a" form a cycle |
| BucketOrder.UsualOrder | pkg/server/handlers_finops.go:180-196 | on numerals, letter-initial names and "pinned" it is an order: numerals by value, then names as texts, then "pinned" |
| BucketOrder.OrderBuckets | pkg/server/handlers_finops.go:171-178 | every label exactly once, and without inversions whenever bucketLess is an order on them |
| BucketOrder.OrderBucketsUnique | pkg/server/handlers_finops.go:171-178 | when no two numerals have equal value there is one result, whatever the map order and the sort |
| BucketOrder.OneOrderExactly | pkg/server/handlers_finops.go:171-178 | where bucketLess is an order, there is one result if and only if no two numerals have equal value |
| FinOpsMatrix.Accumulate | pkg/server/handlers_finops.go:79-106 | in terms of the labels capacity_type and interruption_penalty_bucket: a cell exactly where a sample has both non-empty, holding the last such sample's value; the label sets are those of the matrix and the one-label queries |
| FinOpsMatrix.AccumulatesUnique | pkg/server/handlers_finops.go:79-94 | the samples determine the matrix |
| FinOpsMatrix.OrderCapacityTypes | pkg/server/handlers_finops.go:152-169 | every label exactly once: BareMetal, Reserved, OnDemand and Spot as far as they occur, then the others sorted |
| FinOpsMatrix.OneListOfTypes | pkg/server/handlers_finops.go:152-169 | map iteration order cannot show in that list |
| FinOpsMatrix.Snapshot | pkg/server/handlers_finops.go:79-137 | rows and columns name every cell of the matrix once, and with one sample per cell the drawn table adds up to all samples with both labels |
| FinOpsMatrix.TableShowsAll | pkg/server/handlers_finops.go:79-94 | the sum of the cells is the sum of the samples that carry both labels |
| FinOpsMatrix.MaxCell | ui/src/pages/FinOps.tsx:413-423 | the largest cell of the table, or 0 when none is positive |
| FinOpsMatrix.ClampIsIdle | ui/src/pages/FinOps.tsx:527-528 | every cell's intensity is at most 1 without the clamp, not negative for a non-negative cell, and 1 for the largest |
| FinOpsMatrix.IntensityIsPart | ui/src/pages/FinOps.tsx:527-528 | intensity times the maximum is the value, and it is 0 when there are no machines |
| Sorting.StableSortUnique | ui/src/pages/Needs.tsx:244 | a list is a stable sort of another if and only if it is the one that the model computes, so the engine's algorithm cannot matter |
| Strings.StrLessExactly | pkg/kubeclient/kubeclient.go:70 | the order of texts: a proper prefix first, and otherwise the smaller character at the first difference |

## Left out

- HTTP, gRPC, Prometheus and Kubernetes clients, TLS, timers and JSON: each read is an arbitrary value or error, fixed per cluster, with a deadline as one of the errors.
- The composed model of available capacity makes every append of its read a step, which does nothing after an error of clientFor; the source returns before the loop.
- Lengths of waits: a step of the systems takes no time, and a build under the mutex is a step.
- The texts of clientFor's errors: they are values that carry the cluster and the wrapped cause; quoting them is left to a parameter.
- The width of Go's int: counts of objects are unbounded; the times of the range queries do carry their 64-bit limits.
- The top-level "not configured" responses of the handlers and the pod-name check of the trends handler: one branch each in front of what is modelled.
- React components and hooks, routing, PromQL text, configuration, command line: no computation of their own.
- The other handlers, `fromProto`, `toAPINeedView` and similar copies, enum label switches.
- `formatDuration`, `formatRate`, `formatPercent`, `formatPenalty`, `qtyKind`, `resStr`: short formatters.
- `detectRedFlags`, `fraction` and the FinOps totals: single passes over values that are modelled.
- Rounding of IEEE-754 arithmetic to the precision of a double, and -0: numbers are exact within the range of doubles. Whether text, a product, a quotient or a difference rounds to Infinity, or a product, a quotient or text to 0, is decided on its exact value, so a number in front of a decimal suffix is not rounded before it is multiplied. NaN and the infinities are modelled where they arise (`Floats`). Dividing an integer below 2^53 by a power of two is exact in doubles as well.
- The logarithm of `penaltyOrdinal` is taken exactly, by halving and doubling on squares.
- `toFixed` from 10^21 on, where it prints an exponent: the members that print require less.
- `parseFloat` on text that the quantity pattern rejects, `Number` on text that is not all digits, `strconv.ParseFloat` and `time.ParseDuration`: parameters, so what is proved holds for any of them.
- `localeCompare`: any strict weak order on the cluster ids.
- `toUpperCase` beyond ASCII.
- Inherited names on records other than the suffix table: records are read by their own keys.
- Texts are sequences of characters: Go's byte order and JavaScript's UTF-16 units are not told apart from them.
- The requirement strings of available capacity (`formatRequirements`): items are taken as read.
- The filter for NaN and infinities in `QueryVector` and `QueryByLabel`: the FinOps samples are finite.
- Array and object identity in the browser: `buildWalk` works on values, with its map, flat list and items reassigned; needs are compared by content.
- Needs.CompetitorsFor: which of several tied candidates is kept is left open, because the comparator never answers "equal" and the runtime may order ties as it likes.
- Walk.BuildWalk: the order of cohorts whose heads tie is left open for the same reason.
- RangeGrid.Truncate: instants are whole nanoseconds and the monotonic clock reading is left aside.
