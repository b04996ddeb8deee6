# Data structures, Tarjan's SCC search and MapReduce grouping, in Dafny

This project models three small Go packages and proves what they promise.

- `ds`: the dynamic `Array` (grows by doubling, shrinks when at most a third
  full), the `Stack` built on it, the circular-buffer `Queue`, and the
  singly-linked `SList` used as stack and queue.
- `scc`: Tarjan's strongly-connected-components search (`Find`,
  `strongconnect`, the node stack).
- `mr`: the sequential part of `Run` — one mapper per input record named by
  its decimal position, the grouping of the merged mapper output by key, and
  one reducer per key.

Every Go type whose fields are updated in place is a Dafny `class` whose
methods carry `modifies` clauses and state the new state:

- `Array`, `Stack` and `Queue` keep their backing slice as an `array`.
- `SList` is a linked structure of `SNode` objects. Its ghost `Nodes`,
  `Contents` and `Repr` describe the chain.
- In `scc`, a `*Node` is an id into a `Graph`. The graph's per-node fields
  (`value`, `succs`, `index`, `lowlink`, `onstack`) are sequences indexed by
  id. `collector` is a class holding the components, the stack and the
  index counter.

Loops in the source are `while` loops with invariants.

How the Tarjan model is built:

- The search is also described as a value, `SccSearch.Search`, with the
  invariant `SearchInv`.
- Each state change (visit, lower a lowlink, pop) is a step function on that
  value, with a lemma showing that the step keeps the invariant.
- The class methods are proved against those step functions.

In `mr`, the stream that the goroutines and channels deliver is a parameter:
any interleaving of the mappers' output. Every property holds for every
order of arrival.

Files:

- `wrappers.dfy`: `Option`. It stands for Go's `(V, bool)` results; `None`
  is `(nil, false)`.
- `ranges.dfy`: the runs 0..k-1 and k-1..0 that the `ds` tests fill their
  structures with.
- `arrays.dfy`, `stack.dfy`, `queue.dfy`, `lists.dfy`: the `ds` package.
- `scc_search.dfy`: the search state as values, its invariant and the
  lemmas.
- `scc.dfy`: the graph, the collector, `strongconnect` and `Find`.
- `mr.dfy`: mapper naming, grouping and reducer creation.

## Model

| member | source | states |
|---|---|---|
| Arrays.Max | ds/arrays.go:175-180 | the result is at least both arguments and is one of them |
| Arrays.CapacityAfterAdd | ds/arrays.go:88-90 | a full slice grows to max(2n, 1), so there is always room for one more element; a slice with a free slot keeps its length |
| Arrays.CapacityAfterRemove | ds/arrays.go:111-113 | the new length is never below n or 1; it changes only when the old length was at least 3n |
| Arrays.AppendsCapacity | ds/arrays.go:88-90 | after k >= 1 appends from the zero Array the capacity is a power of two in [k, 2k) |
| Arrays.AppendsCapacityPow2 | ds/arrays.go:88-90 | for 2^e < k <= 2^(e+1), the capacity after k appends is exactly 2^(e+1) |
| Arrays.SixtyFiveAppends | ds/arrays_test.go:34-44 | 65 appends from empty give capacity 128 |
| Arrays.ThirtyThreeRemovals | ds/arrays_test.go:99-115 | from 65 elements in 128 slots, the capacity is 128 for the first 22 removals and 84 from the 23rd to the 33rd |
| Arrays.Array.constructor | ds/arrays.go:44-47 | the zero Array: a nil (empty) backing slice and no elements |
| Arrays.Array.Len | ds/arrays.go:51 | the number of elements |
| Arrays.Array.Get | ds/arrays.go:57-62 | returns a value exactly when 0 <= i < Len, and then it is element i; the array is not changed |
| Arrays.Array.Set | ds/arrays.go:68-75 | in range: returns the old element i and replaces it with v, leaving everything else alone; out of range: fails and changes nothing |
| Arrays.Array.Add | ds/arrays.go:84-95 | as written: accepted exactly when 0 <= i <= Len. The capacity follows CapacityAfterAdd and Len grows by one. Elements before i stay, v is at i, and the elements after i are shifted down. `Add(Len, v)` appends v |
| Arrays.Array.Insert | ds/arrays.go:84-95 | the corrected Add: same guard and capacity; the contents become old[..i] + [v] + old[i..] |
| Arrays.Array.Remove | ds/arrays.go:104-115 | guard corrected to that of Get/Set. It succeeds exactly when 0 <= i < Len and returns element i. The later elements close up, the capacity follows CapacityAfterRemove, and a failed call changes nothing |
| Arrays.Array.Resize | ds/arrays.go:117-121 | a fresh slice of length max(2n, 1) with the same elements |
| Arrays.RemoveAsWrittenInRange | ds/arrays.go:104-115 | for 0 <= i < Len, the as-written Remove returns element i and closes up the rest, like the corrected one |
| Arrays.RemoveAsWrittenPanicsOnEmpty | ds/arrays.go:105-108 | on the zero Array, `Remove(0)` passes the guard and indexes the nil slice |
| Arrays.RemoveAsWrittenCountGoesNegative | ds/arrays.go:105-110 | on a drained Array with one slot, `Remove(0)` succeeds and leaves the element count at -1 |
| Arrays.RemoveAsWrittenAtLen | ds/arrays.go:105-110 | `Remove(Len)` on a non-full Array succeeds, returns the stale slot after the last element and decrements Len |
| Arrays.RemoveAsWritten | ds/arrays.go:104-115 | `Remove` with the source's guard: refused exactly when i < 0 or i > Len; it indexes past the slice exactly when i == Len == capacity; otherwise it returns slot i, keeps the slots below i and decrements the count, even to -1. The capacity never grows: it drops to max(2·(Len-1), 1) once it is at least three times the new count, and is kept otherwise |
| Arrays.ZeroArrayRefuses | ds/arrays_test.go:13-32 | on the zero Array, Get, Set and Remove at 0 and at -1 all fail |
| Arrays.FilledArray | ds/arrays_test.go:34-44 | appending 0..64 leaves exactly 0..64 in a slice of length 128 |
| Arrays.SquaredArray | ds/arrays_test.go:46-53 | after Get(i) and Set(i, v*v) for every index of the filled Array, element i is i*i, still 65 elements in 128 slots |
| Arrays.ArrayScenario | ds/arrays_test.go:99-115 | removing at 64, 62, ..., 0 returns (64-2k)^2 at the k-th removal, and leaves 32 elements in a slice of length 84 |
| Arrays.AddBelowLenOverwrites | ds/arrays.go:91-92 | after appending 1, 2, 3, the as-written `Add(0, 9)` leaves 3 at index 1 |
| Arrays.InsertBelowLen | ds/arrays.go:91-92 | the corrected Insert on the same input leaves 1 at index 1 and four elements |
| Stacks.Stack.Len | ds/arrays.go:38 | the number of elements |
| Stacks.Stack.Push | ds/arrays.go:27 | v goes on top of the old contents; the capacity follows CapacityAfterAdd |
| Stacks.Stack.Pop | ds/arrays.go:34 | fails exactly on an empty stack, changing nothing. Otherwise it returns the top, removes it, and the capacity follows CapacityAfterRemove |
| Stacks.FilledStack | ds/arrays_test.go:118-130 | pushing 0..64 gives contents 0..64 in a slice of length 128 |
| Stacks.StackScenario | ds/arrays_test.go:132-148 | the 65 pops return 64 down to 0, a further Pop fails, and the slice shrinks to length 1 |
| Queues.ModBelowTwice | ds/arrays.go:142 | Go's `%` on a non-negative sum below twice the modulus subtracts the modulus at most once |
| Queues.Slot | ds/arrays.go:142 | the slot k places after the read index wraps around the ring and stays inside it |
| Queues.Queue.constructor | ds/arrays.go:127-131 | the zero Queue: an empty slice, read index 0 |
| Queues.Queue.Len | ds/arrays_test.go:157-159 | the number of elements |
| Queues.Queue.Enqueue | ds/arrays.go:138-144 | v is added after the newest element; the capacity follows CapacityAfterAdd |
| Queues.Queue.Dequeue | ds/arrays.go:151-162 | fails exactly on an empty queue, changing nothing. Otherwise it returns the oldest element, the rest stay in order, and the capacity follows CapacityAfterRemove |
| Queues.Queue.Resize | ds/arrays.go:164-171 | copies the n live elements in circular order from r into slots 0..n-1 of a slice of length max(2n, 1), sets r to 0 and keeps the contents |
| Queues.FilledQueue | ds/arrays_test.go:151-163 | 65 enqueues give contents 0..64 in a slice of length 128 |
| Queues.QueueScenario | ds/arrays_test.go:165-184 | the i-th Dequeue returns i and leaves Len 64 - i; a further Dequeue fails, and the slice shrinks to length 1 |
| Lists.SNode.constructor | ds/lists.go:11-14 | a node with the given value and next pointer |
| Lists.SList.constructor | ds/lists.go:19-22 | the zero SList: no head, no tail, no elements |
| Lists.SList.Len | ds/lists.go:73 | the number of elements |
| Lists.SList.Push | ds/lists.go:27-33 | v becomes the head in front of the old contents; on an empty list the tail is the new node too |
| Lists.SList.Pop | ds/lists.go:39-49 | fails exactly on an empty list, changing nothing. Otherwise it returns the head value and the rest remain |
| Lists.SList.Enqueue | ds/lists.go:55-64 | v is appended after the old contents |
| Lists.SList.Dequeue | ds/lists.go:70 | the same as Pop |
| Lists.PushedList | ds/lists_test.go:13-15 | pushing 0..64 on the zero SList gives 64, 63, ..., 0 from the head |
| Lists.StackScenario | ds/lists_test.go:16-36 | Len is 65; the pops return 64 down to 0; Len is then 0 and a further Pop fails |
| Lists.EnqueuedList | ds/lists_test.go:43-48 | enqueueing 0..64 on the zero SList gives 0..64 from the head; the returned lengths show Len i + 1 after the i-th Enqueue |
| Lists.QueueScenario | ds/lists_test.go:53-72 | the i-th Dequeue returns i and leaves Len 64 - i; a further Dequeue fails |
| SccSearch.Min | scc/scc.go:100-105 | the result is at most both arguments and is one of them |
| SccSearch.VisitKeepsInv | scc/scc.go:60-62 | numbering an unvisited node with the counter and pushing it keeps the search invariant and removes exactly that node from the unvisited set |
| SccSearch.LowerKeepsInv | scc/scc.go:66-68 | lowering the lowlink of a node on the stack to a value no lower than the stack bottom's index keeps the invariant |
| SccSearch.PopKeepsInv | scc/scc.go:93-98 | popping a node whose successors are all visited keeps the invariant |
| SccSearch.OnStackAboveBottom | scc/scc.go:67-68 | a node flagged onstack is on the stack, with an index no lower than the bottom's |
| SccSearch.VisitedStays | scc/scc.go:64-65 | while the search goes on, the unvisited set only shrinks |
| SccSearch.FinishedStays | scc/scc.go:63-70 | a node whose successors are all visited stays so |
| SccSearch.ScanStarts | scc/scc.go:60-63 | after the visit the scan of v's successors starts, with v just above the old stack |
| SccSearch.ScanSkips | scc/scc.go:67-69 | an already visited successor leaves the scan going |
| SccSearch.ChildReturned | scc/scc.go:64-66 | after the recursive call on an unvisited successor m, the scan goes on and v is still on the stack. m's lowlink is no lower than the bottom's index, so v's lowlink may take it |
| SccSearch.RootEmitted | scc/scc.go:71-80 | when v is a root, popping down to the old stack and appending the component completes the call |
| SccSearch.NotRootStays | scc/scc.go:71 | when v is not a root, v stays on the stack just above the old stack with lowlink < index |
| SccSearch.TopLevelIsRoot | scc/scc.go:45-48 | a call started from an empty stack is a root and leaves the stack empty |
| SccSearch.PartitionVisit | scc/scc.go:62 | pushing a newly visited node keeps "components + stack = visited nodes, each once" |
| SccSearch.PartitionPop | scc/scc.go:74-75 | moving the top of the stack into the component being built keeps that partition |
| SccSearch.PartitionEmit | scc/scc.go:80 | appending the built component keeps that partition |
| SccSearch.SingleNodeComponents | scc/scc.go:71-80 | non-empty components that hold only u, with u in exactly one of them once, are the single component [u] |
| SccSearch.RootedCompose | scc/scc.go:63-70 | components rooted since the state before a child call stay rooted since an earlier state, and none ends with v, when the child keeps visited indices and every visited lowlink but v's |
| SccSearch.RootedAppend | scc/scc.go:71-80 | appending a component that ends with a newly visited node whose lowlink equals its index keeps every component rooted |
| SccSearch.ExactlyOneComponent | scc/scc.go:80 | when the components hold exactly the visited nodes, each visited node lies in exactly one component, once |
| SccSearch.ClosedContainsReachable | scc/scc.go:40-51 | if every visited node has only visited successors, every node reachable from a visited node is visited |
| SccSearch.SearchDone | scc/scc.go:43-51 | at the end of Find no node is on a stack, and earlier indices are kept. Each newly visited node is in exactly one component, and components hold only newly visited nodes. Closedness is kept |
| Scc.Graph.NewNode | scc/scc.go:22-28 | a new node with the given value and successors, index -1 and not on a stack; existing nodes are unchanged |
| Scc.Graph.AddSuccs | scc/scc.go:37-38 | the node's successor list gains the new successors at its end; nothing else changes |
| Scc.Find | scc/scc.go:40-51 | every root is visited and no node is left on a stack. Nodes visited before keep their index. The components hold exactly the newly visited nodes, each in one component once. Every component is non-empty and ends with its root: a newly visited node whose lowlink equals its index. A closed set of visited nodes stays closed |
| Scc.SelfLoopComponents | scc/scc.go:40-80 | on a one-node graph whose node is its own successor, Find returns exactly one component, holding that node once |
| Scc.SelfLoop | scc/scc.go:22-38 | NewNode then AddSuccs of the node itself gives one unvisited node whose only successor is itself |
| Scc.Collector.constructor | scc/scc.go:44 | the zero collector: no components, an empty stack, counter 0 |
| Scc.Collector.StrongConnect | scc/scc.go:59-82 | keeps the invariant and the partition and visits v. Either v is a root whose component was emitted and the stack is as before, or v stays on the stack with lowlink < index. Values and successors are unchanged, and nodes visited before the call keep their index and lowlink. Earlier components are kept; each component emitted during the call is non-empty and ends with a root newly visited by the call whose lowlink equals its index |
| Scc.Collector.Visit | scc/scc.go:60-62 | the search state becomes VisitStep of the old one |
| Scc.Collector.ScanSucc | scc/scc.go:63-70 | one turn of the successor loop for successor w, and the scan advances by one. If w was unvisited, v's lowlink becomes min(old lowlink, w's lowlink after the recursive call). If w was on the stack, it becomes min(old lowlink, w's index). Otherwise it is unchanged. Nodes visited before keep their index, and all of them except v keep their lowlink. Earlier components are kept, and every component the recursive call emits is non-empty and ends with a newly visited root whose lowlink equals its index |
| Scc.Collector.ScanSuccs | scc/scc.go:63-70 | the successor loop: every successor of v is scanned in order, so the scan ends complete. Nodes visited on entry keep their index and, except v, their lowlink. Earlier components are kept, and each component a child emits is non-empty and ends with a newly visited root, never v, whose lowlink equals its index |
| Scc.Collector.LowerLowlink | scc/scc.go:66-68 | the search state becomes LowerStep of the old one |
| Scc.Collector.EmitIfRoot | scc/scc.go:71-81 | a component is emitted exactly when lowlink == index on entry. It is then the nodes above the stack below v, in pop order, and the stack is cut back to that point. The emitted component is non-empty and ends with v. Otherwise the components and the stack are unchanged. Lowlinks and indices are unchanged either way |
| Scc.Collector.EmitComponent | scc/scc.go:71-80 | exactly one component is appended to the earlier ones: the nodes from v to the top of the stack, in pop order (top first, v last), so it is non-empty and ends with v. The stack is left as it was when v was visited, and indices and lowlinks are unchanged |
| Scc.Collector.PopComponent | scc/scc.go:72-79 | pops until v is popped: the stack is cut back to its length below v, and the component is the popped segment in pop order, ending with v |
| Scc.Collector.PopOne | scc/scc.go:74-78 | one turn of the pop loop: the top node is popped and returned, and the loop stops exactly when it is v |
| Scc.Collector.Push | scc/scc.go:88-91 | v is appended to the stack and flagged onstack |
| Scc.Collector.Pop | scc/scc.go:93-98 | the top is removed and its onstack flag cleared; the search state becomes PopStep of the old one |
| MapReduce.Shuffle | mr/mr.go:34-44 | the keys of the result are exactly the keys in the stream, and each key's slice is ValuesOf the stream for that key |
| MapReduce.KeyAbsentNoValues | mr/mr.go:38-41 | a key that never arrived has no values, so the first occurrence starts an empty slice |
| MapReduce.ValuesOfAppend | mr/mr.go:35-44 | grouping two streams one after the other gives, per key, the first's values followed by the second's |
| MapReduce.KeysHaveValues | mr/mr.go:38-43 | a key has values exactly when it occurs in the stream; no key maps to an empty slice |
| MapReduce.ValuesOfMembers | mr/mr.go:36-43 | x is filed under k exactly when the tuple (k, x) arrived; nothing is dropped or misfiled |
| MapReduce.ValueAt | mr/mr.go:42 | the tuple at position i lands in its key's slice after the values of that key that arrived before it |
| MapReduce.ValuesKeepOrder | mr/mr.go:42 | two values of one key keep their order of arrival |
| MapReduce.SumLensSnoc | mr/mr.go:42-43 | one more tuple adds exactly one value, under its own key |
| MapReduce.TotalValues | mr/mr.go:35-44 | over the distinct keys, the slices hold as many values as tuples arrived |
| MapReduce.Itoa | mr/mr.go:25 | the name is a non-empty string of decimal digits, with no leading zero except for 0 |
| MapReduce.AtoiItoa | mr/mr.go:25 | reading the name back as a decimal number gives the position |
| MapReduce.ItoaInjective | mr/mr.go:25-26 | two positions get the same name exactly when they are equal |
| MapReduce.NameIsNew | mr/mr.go:25-26 | the name of mapper i is not taken by an earlier mapper |
| MapReduce.SpawnMapper | mr/mr.go:25-31 | one turn of the mapper loop: record i gets its own mapper under Itoa(i) |
| MapReduce.SpawnMappers | mr/mr.go:24-31 | exactly one mapper per input record: record i is mapped with key Itoa(i) and its value, and there are as many mappers as records |
| MapReduce.SpawnReducers | mr/mr.go:46-53 | exactly one reducer per key of the grouped data, given that key's values, whatever order the keys are visited in |
| MapReduce.GroupAndReduce | mr/mr.go:34-53 | one reducer per key that occurs in the stream, given that key's values in arrival order, never an empty list |

## Left out

- Goroutines, channels, `fanIn` and its buffer of 100 (mr/mr.go:28-31, 49-52, 55-76) are concurrency. The merged stream is a parameter (any interleaving), and a mapper or reducer is represented by the arguments it is started with.
- `Job.Map` and `Job.Reduce` are user code that is not shown. The model does not say what they emit.
- `Node.Value` and `Node.String` (scc/scc.go:32-35): a getter, and a call into `fmt.Sprintf`.
- `ds/ds.go` only declares the value type `V`. It is the type parameter `T`, with a default value (`T(0)`) standing for the nil in unused slots.
- The test helpers `reverse`, `addAll` and `sub`, and the types `Dequeue`, `RootishStack` and `DualDequeue` used by ds/arrays_test.go, are not part of this model: their source is not available.
- `Queue.Len` is called by ds/arrays_test.go but not defined in ds/arrays.go. The model gives it the evident meaning, the element count `n`.
- Go's `int` is 64-bit. Element counts, indices and the SCC counter are unbounded integers here, since overflow needs sizes no machine can allocate: the doubling `a.n*2` (ds/arrays.go:118, 165) first overflows at a count of 2^62, and `3*a.n` (ds/arrays.go:111, 158) above about 3.07·10^18.
- The amortised-cost claims in the doc comments are not functional behaviour.
- A `*Node` is an id into one `Graph`, so nodes of different graphs cannot be mixed. Node identity (`m == n`) is id equality.
- Arrays.Array.Add: for an index i below Len the contract states the elements before i, v at i, and the shifted elements at new positions i+1 to old Len - 2. It does not state the new positions old Len - 1 and old Len (only old Len when i == Len - 1): the shift fills both from spare capacity slots beyond the old Len, whose stale contents the model does not track. Appending 1, 2, 3 with capacity 4 and then calling Add(0, 9) leaves [9, 3, stale, stale].
- Arrays.Array.Remove: the class method uses the guard `i > n-1` of Get and Set. The as-written guard can make the count negative, which no valid Array allows. So the as-written behaviour is the value-level `RemoveAsWritten` (see Findings). `Stack.Pop` only calls it with Len - 1, where both guards agree.
- Scc.Find: the contract proves that the components partition the newly visited nodes, and that everything reachable from the roots is visited when the graph starts unvisited. It also proves that each component is non-empty and ends with its root, whose lowlink equals its index. It does not prove that each component is a maximal strongly connected set, or that the components come in reverse topological order.
- The example graph of scc/example_test.go and its printed components are not modelled: the contracts do not fix the order of the components or of the nodes inside one.
- mr/wc/wc.go (the word-count job, its flag parsing, file reading and profiling) is I/O and library calls around `Run`.

## Findings

| source | as written | input that shows it | evidently intended | confidence | as-written member | corrected member |
|---|---|---|---|---|---|---|
| ds/arrays.go:91 | `copy(a.s[i:], a.s[i+1:])` moves the elements after i one place down, so `Add(i, v)` with i < Len overwrites element i and drops element i+1 | append 1, 2, 3, then `Add(0, 9)`: index 1 holds 3 | `copy(a.s[i+1:], a.s[i:])`, inserting v before element i | high; not executed | Arrays.AddBelowLenOverwrites | Arrays.Array.Insert |
| ds/arrays.go:105 | the guard `i > a.n` accepts i == Len | `Remove(0)` on the zero Array indexes a nil slice; on a drained Array with one slot it succeeds and leaves n == -1 | `i > a.n-1`, the guard of Get and Set, which ds/arrays_test.go:27-32 expects | high; not executed | Arrays.RemoveAsWrittenPanicsOnEmpty | Arrays.Array.Remove |
