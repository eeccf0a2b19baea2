# deepscatter regl renderer: a Dafny model of its bookkeeping

deepscatter draws millions of points with WebGL. Its regl renderer
(`src/regl_rendering.js`) wraps that drawing in sequential bookkeeping, and
this project models that bookkeeping and proves properties of it. There are
five pieces:

- **Arena** (`arena.dfy`): `MultipurposeBufferSet`, a bump allocator over
  fixed-size device buffers.
  - The newest buffer is kept first.
  - A request that does not fit starts a new buffer.
  - Nothing is ever freed.
  - It is modelled twice: a class with the source's fields, and a pure
    `ArenaState` model that the class is proved against.
- **Slots** (`slots.dfy`): `allocate_aesthetic_buffers`. It maps channel
  bindings to attribute buffer slots.
  - (aesthetic, time) pairs are collected in priority order.
  - The pairs are sorted: `current` before `last`, then by priority.
  - Slots are handed out: `ix` is slot 0, a field that already has a slot
    reuses it, and the fresh slots are bounded.
- **Uniforms** (`uniforms.dfy`): the pure uniform helpers.
  - The transform-name code.
  - The `-1` buffer number of a channel without a buffer.
  - The `-2` default of `u_only_color`.
- **Rendering** (`rendering.dfy`):
  - `TileBufferManager`, the per-tile state machine of a tile's element map.
    An entry goes from absent to claimed (`null` in the source) to a built
    buffer descriptor.
  - The renderer's deferred task queue, and the drain of that queue in
    `tick` under a 10 ms budget.
  - The batching of ready tiles in `render_points`.
  - The scale history kept by `apply_webgl_scale`.

Several things are left abstract:

- WebGL is abstract. A device buffer is an opaque object; a built buffer is
  the slice the arena hands out; a draw call is recorded as the batch of
  tiles it received.
- The clock is a parameter `clock: nat -> int`. Reading 0 is the drain's
  start. Reading j + 1 is the one taken by the drain's (j+1)-th time check.
- Visible tiles, fields required by the aesthetic set, transforms, scales
  and the tile contents are inputs. A tile's readiness, table and
  dictionary lookups are fixed for the model's lifetime; only its element
  map changes.
- `tick` reads the props before anything else, and the props getter reads
  the scale history, so a tick before the tile set has loaded throws
  (`PropsUnavailable`) and changes nothing.

## Model

| member | source | states |
|---|---|---|
| Arena.Initial | src/regl_rendering.js:1141-1149 | The allocator starts with one buffer, pointer 0 and no retired offsets. |
| Arena.NewBuffer | src/regl_rendering.js:1151-1162 | Starting a buffer adds a generation, resets the pointer and records a nonzero old pointer at the front of the retired offsets. |
| Arena.Allocate | src/regl_rendering.js:1164-1180 | The extent has size items*bytesPerItem and ends at the new pointer. It lies in the newest buffer. On overflow it starts at offset 0 of a new buffer, otherwise at the old pointer. |
| Arena.InitialInv | src/regl_rendering.js:1141-1149 | The fresh allocator satisfies the invariant: extents in existing buffers, newest-buffer extents below the pointer, pairwise disjoint. |
| Arena.AllocatePreservesInv | src/regl_rendering.js:1164-1180 | One allocation keeps that invariant, with its extent appended to the log. |
| Arena.AllocateAll | src/regl_rendering.js:1164-1180 | A run of allocations hands out one extent per request and never lowers the generation count. |
| Arena.AllocateAllPreservesInv | src/regl_rendering.js:1164-1180 | Any run of allocations keeps the invariant. |
| Arena.AllocateAllSnoc | src/regl_rendering.js:1164-1180 | One more request after a run of allocations is one more Allocate step: the extents gain exactly its extent at the end. |
| Arena.AllocationsDisjoint | src/regl_rendering.js:1166-1179 | Any two slices handed out from the same buffer do not overlap. |
| Arena.RetiredBuffersReceiveNothing | src/regl_rendering.js:1151-1175 | Every extent lies in the buffer that was newest at the start or a later one, and generations handed out never decrease. |
| Arena.AllocationsWithinCapacity | src/regl_rendering.js:1167-1171 | When every request fits in a buffer, every extent ends within the buffer size. |
| Arena.OversizedRequestOverruns | src/regl_rendering.js:1167-1179 | With no size check, an oversized request gets offset 0 of a new buffer and runs past its end. The next request then starts another buffer. |
| Arena.DeviceBuffer.constructor | src/regl_rendering.js:1155-1161 | A device buffer has the requested length. |
| Arena.MultipurposeBufferSet.constructor | src/regl_rendering.js:1141-1149 | The set holds one fresh buffer, its state is the initial state and the invariant holds. |
| Arena.MultipurposeBufferSet.GenerateNewBuffer | src/regl_rendering.js:1151-1162 | A fresh buffer of the configured length is prepended, the state becomes NewBuffer of the old one, and the allocator invariant is kept. |
| Arena.MultipurposeBufferSet.AllocateBlock | src/regl_rendering.js:1164-1180 | The slice is at the pre-call pointer of buffers[0] (after rolling over if needed) with stride bytesPerItem. The new state is Allocate of the old one. Buffers only grow by prepending, so every existing generation keeps its buffer. The invariant is kept. |
| Arena.MultipurposeBufferSet.IssuedSlicesDisjoint | src/regl_rendering.js:1164-1180 | Two issued slices naming the same device buffer do not overlap. |
| Slots.Priority | src/regl_rendering.js:953-954 | Every aesthetic has a position in the priority list. |
| Slots.PriorityIndex | src/regl_rendering.js:953-954 | The position of the i-th priority is i, so priorities are distinct. |
| Slots.CollectPairs | src/regl_rendering.js:956-964 | The collecting loop yields exactly the collected pairs, in priority order, current before last. |
| Slots.CollectedPriorityMajor | src/regl_rendering.js:956-964 | Collected pairs are ordered by priority, with current before last for the same aesthetic. |
| Slots.CollectedMembers | src/regl_rendering.js:956-964 | A pair is collected iff its aesthetic exists and its field is bound (set and non-empty) at that time. |
| Slots.OrderedPairsMembers | src/regl_rendering.js:956-971 | The sorted pairs are exactly the bound (aesthetic, time, field) triples. |
| Slots.OrderedPairsSorted | src/regl_rendering.js:966-971 | The sorted pairs satisfy the comparator (every current before every last, each group by priority) and are a permutation of the collected pairs. |
| Slots.SortedPairs | src/regl_rendering.js:966-971 | The sorted list is a permutation of the collected list, with every current pair before every last pair. |
| Slots.WithTimeGrouped | src/regl_rendering.js:966-971 | Putting the current pairs first leaves no last pair before a current one. |
| Slots.WithTimeMembers | src/regl_rendering.js:966-971 | Selecting one time keeps exactly the pairs with that time. |
| Slots.WithTimeSorted | src/regl_rendering.js:966-971 | Within one time, pairs come in strictly increasing priority. |
| Slots.WithTimeMultiset | src/regl_rendering.js:966-971 | Splitting by time loses and invents no pair. |
| Slots.CurrentsAtMostEleven | src/regl_rendering.js:956-964 | There are at most as many current pairs as aesthetics (eleven). |
| Slots.StepEffect | src/regl_rendering.js:979-991 | One turn keeps every slot already given. A field seen before shares its slot and changes neither counter nor order. A new field takes slot num+1 (appended to buffer_num_to_variable) while slots remain, and otherwise gets none, with the counter past the bound. No other channel key changes. |
| Slots.RunKeepsIx | src/regl_rendering.js:975-991 | Starting from ix alone at slot 0 (line 976), ix keeps slot 0 and heads buffer_num_to_variable after any walk. The counter grows by at most one per pair. |
| Slots.RunWellFormed | src/regl_rendering.js:976-993 | After any walk, ix is slot 0 and slots run from 0 to the number of keys. buffer_num_to_variable inverts variable_to_buffer_num, and every channel slot names an existing key. |
| Slots.NewFieldsMembers | src/regl_rendering.js:980-987 | The fields that need a fresh slot are the distinct non-ix fields, in first-seen order. |
| Slots.RunAssignsFirstNewFields | src/regl_rendering.js:976-993 | buffer_num_to_variable is ix followed by the first freshSlots distinct new fields, in walking order, so fresh slots are consecutive from 1. |
| Slots.OrderedPairsWalkable | src/regl_rendering.js:966-971 | The walking order repeats no (aesthetic, time) key and puts no current after a last. |
| Slots.RunSettlesEveryPair | src/regl_rendering.js:978-993 | Each pair reuses or gets its field's slot. If the field got none, a current pair has no slot and a last pair falls back to its current slot (none if that has none). |
| Slots.RunCounterBounded | src/regl_rendering.js:984 | The counter never exceeds the number of pairs walked. |
| Slots.RunSlotsPersist | src/regl_rendering.js:980-987 | A field's slot, once given, never changes. |
| Slots.EarlyPairsGetSlots | src/regl_rendering.js:984-987 | Each of the first freshSlots pairs has a slot for its field. |
| Slots.CurrentsAlwaysGetSlots | src/regl_rendering.js:978-993 | With at least eleven fresh slots, every bound current pair's field and key get a slot. |
| Slots.FewFieldsAllGetSlots | src/regl_rendering.js:975-993 | When the distinct bound fields other than ix are no more than the fresh slots, every bound (aesthetic, time) pair gets a slot: its field has one and its key reads it. |
| Slots.AllocationProperties | src/regl_rendering.js:947-995 | The allocation of the ordered pairs has all of the above properties at once. |
| Slots.AllocateAestheticBuffers | src/regl_rendering.js:947-995 | The three maps equal the left fold of one slot step over the sorted pairs. ix is 0; buffer_num_to_variable is ix plus the first new fields and inverts variable_to_buffer_num. Pairs sharing a field share its slot; with at least eleven fresh slots every current pair's field has one. |
| Slots.AssignSlots | src/regl_rendering.js:975-993 | The loop over the sorted pairs leaves exactly the maps and the slot order that the left fold of the slot step computes from the same pairs and fresh-slot bound. |
| Slots.AsWrittenSlotBeyondAttributes | src/regl_rendering.js:984 | With the bound as written (16), sixteen distinct new fields give some field slot 16. No `buffer_16` attribute reads that slot. |
| Slots.SixteenFieldsReachSlot16 | src/regl_rendering.js:984 | A concrete binding (five channels with distinct current and last fields, six more with distinct current fields) makes the allocation as written hand out slot 16. |
| Slots.CorrectedSlotsFitAttributes | src/regl_rendering.js:947-950 | With the intended bound of 15 fresh slots, every field and channel slot is below 16, the number of attribute buffers. |
| Slots.ThreeChannelPairs | src/regl_rendering.js:952-971 | Binding x, y and color (to year) yields the pairs x, y, color, all current, in that order. |
| Slots.ThreeChannelExample | src/regl_rendering.js:976-995 | That binding yields slots x:1, y:2, color:3 and buffer_num_to_variable [ix, x, y, year]. |
| Slots.ThreeChannelRun | src/regl_rendering.js:976-991 | Walking the pairs x, y, year gives the exact maps x:1, y:2, year:3 and the counter 3. |
| Uniforms.TransformCode | src/regl_rendering.js:919-926 | A name is accepted iff it is linear, sqrt, log or literal; its code lies in 1..4 and is the name's position. Anything else throws "Invalid transform". |
| Uniforms.TransformName | src/regl_rendering.js:919-926 | The shader code to name reading is defined exactly on 1..4. |
| Uniforms.TransformNameOfCode | src/regl_rendering.js:919-926 | Decoding the code of a valid name gives the name back. |
| Uniforms.TransformCodeOfName | src/regl_rendering.js:919-926 | Every code in 1..4 is the code of its name. |
| Uniforms.TransformCodeInjective | src/regl_rendering.js:919-926 | Different valid names have different codes. |
| Uniforms.BufferNumUniform | src/regl_rendering.js:935-939 | The buffer number is -1 exactly when the channel has no slot, else its slot. |
| Uniforms.CurrentChannelsReadAnAttribute | src/regl_rendering.js:935-939 | With the intended bound, every bound current channel's buffer number lies in 0..15, a real `buffer_<n>` attribute. |
| Uniforms.OnlyColorUniform | src/regl_rendering.js:814-822 | u_only_color is the requested filter, or -2 (no colour filtering, distinct from -1 "all") when none is requested. |
| Rendering.ColumnFor | src/regl_rendering.js:1089 | A key reads its `_dict_index` column when there is one, else the column of that name, else nothing. |
| Rendering.Tile.constructor | src/regl_rendering.js:1008-1014 | A tile starts with an empty element map of its own. That map is shared by all managers of the tile. |
| Rendering.TileBufferManager.constructor | src/regl_rendering.js:1008-1014 | A manager binds a tile and the renderer and changes nothing. |
| Rendering.TileBufferManager.CreateBufferData | src/regl_rendering.js:1084-1119 | Throws exactly when the tile is not ready, the column is missing, or a non-empty dictionary column has no lookup. A dictionary column gives a fresh table.length buffer, row i decoded local-then-global (NaN on a miss) and zero past the values. Another non-Float32 column gives a fresh copy with NaN past the values. A Float32 column is returned itself. |
| Rendering.TileBufferManager.CreateReglBuffer | src/regl_rendering.js:1121-1138 | If building the data throws, nothing changes. Otherwise data.length four-byte items are allocated in the arena (state = Allocate of the old state, issued log gains exactly that extent). The entry under the key becomes exactly that extent of its generation's buffer, and no other entry changes. Existing generations keep their buffers. |
| Rendering.TileBufferManager.Count | src/regl_rendering.js:1061-1070 | Returns the entry cached under `_count` if any. Otherwise caches and returns table.length on a ready tile, or returns nothing and changes nothing. |
| Rendering.TileBufferManager.Ready | src/regl_rendering.js:1017-1059 | True exactly when every required key (fields, then ix) ends up built, and never when a required key was claimed (in flight) on entry. When the walk meets a claimed key or an unready tile before any absent key, the answer is that of Poll and nothing changes. Entries only progress. Non-blocking it is Poll: at most one claimed key and one pushed task, arena untouched. Blocking, the answer and the keys built are exactly BlockingWalk of the entries on entry, nothing is queued, the arena makes one allocation per built key (each key holding its own extent), old entries keep their values, and a key left claimed is one whose build threw the returned error. |
| Rendering.TileBufferManager.ReadyBlocking | src/regl_rendering.js:1038-1058 | The loop over the keys computes exactly BlockingWalk of the entries it started from: the same answer and the same built keys. It allocates once per built key, in walking order, each entry holding its extent, and keeps old entries. A key it leaves claimed is a required key whose build threw the returned error, and an error always leaves one. When it meets a claimed key or an unready tile before any absent key it changes nothing. |
| Rendering.BlockingWalk | src/regl_rendering.js:1038-1058 | (reference definition) The blocking walk over a snapshot of the entries: claimed key or unready tile with an absent key gives false, a throwing build gives its error, a buildable absent key is built and the walk goes on, and past the end the answer is true. |
| Rendering.BuildErrors | src/regl_rendering.js:1086-1099 | The build error of every required key is known before the walk. |
| Rendering.BuildableWalkSucceeds | src/regl_rendering.js:1038-1058 | When every required key is built or absent and buildable on a ready tile, the blocking walk answers true. |
| Rendering.BuildableKept | src/regl_rendering.js:1038-1058 | Moving entries forward, and claiming a new key only when its build throws, keeps every key built or buildable. |
| Rendering.BlockingWalkStep | src/regl_rendering.js:1038-1056 | With only the keys built so far added to the starting entries, the entry of the current key decides the walk's next step exactly as the walk over the starting entries does. |
| Rendering.WalkNext | src/regl_rendering.js:1038-1056 | One key of the loop: stopping at a claimed key or an unready tile gives the walk's false, a throwing build gives its error, and building or passing a key keeps the loop aligned with the walk. |
| Rendering.WalkEnd | src/regl_rendering.js:1057-1058 | A loop that passed every key ends with the walk's true and exactly the walk's built keys. |
| Rendering.OkLeavesNoClaim | src/regl_rendering.js:1049-1051 | A walk that claimed nothing it left satisfies the claim rule for any non-error answer. |
| Rendering.ErrorLeavesClaim | src/regl_rendering.js:1049-1051 | A walk whose build of one key threw leaves exactly that key claimed among the new keys, with the error that key's build gives. |
| Rendering.TileBufferManager.ReadyDeferring | src/regl_rendering.js:1038-1058 | The non-blocking walk equals Poll of the entries: the claimed key is set to null-claimed and exactly one task for it is pushed. |
| Rendering.TileBufferManager.ClaimAndBuild | src/regl_rendering.js:1049-1051 | An absent key is claimed, then built or (on error) left claimed with the arena untouched. On success the arena state is exactly one Allocate further, the log gains that extent, and the entry holds it. Existing generations keep their buffers and queued tasks stay waiting. |
| Rendering.BuildError | src/regl_rendering.js:1086-1099 | Building fails with TileNotReady exactly when the tile is not ready, with MissingColumn exactly when no column exists, and otherwise only with a missing dictionary lookup. |
| Rendering.TileBufferManager.Claim | src/regl_rendering.js:1049 | Claiming sets exactly that absent key to null, keeps the queue invariant, and no queued task has that slot. |
| Rendering.TileBufferManager.Enqueue | src/regl_rendering.js:1053 | The task for the claimed key is appended to the deferred queue, nothing is shifted, and the queue invariant holds. |
| Rendering.TileBufferManager.BuildAbsent | src/regl_rendering.js:1049-1051 | One blocking build of an absent key extends the allocation bookkeeping by that key (built) or leaves it claimed (error), old entries kept. |
| Rendering.TileBufferManager.WalkAbsent | src/regl_rendering.js:1042-1056 | Building an absent key during the walk keeps the walk's bookkeeping, or on error leaves that key claimed as the only key outside the bookkeeping. |
| Rendering.Requests | src/regl_rendering.js:1126-1130 | The allocation requests of a run of builds: one (data.length, 4) per key, in order. |
| Rendering.BookedSnoc | src/regl_rendering.js:1126-1137 | Building one more key adds exactly its allocation and entry to the bookkeeping. |
| Rendering.BookedClaim | src/regl_rendering.js:1049-1051 | Leaving a new key claimed keeps the bookkeeping of the keys built so far. |
| Rendering.WalkPresent | src/regl_rendering.js:1038-1040 | Passing a built key moves the walk one key on. |
| Rendering.WalkBuilds | src/regl_rendering.js:1043-1051 | Building an absent key moves the walk on when it succeeds; either way Poll would have claimed something. |
| Rendering.DecodeRow | src/regl_rendering.js:1105-1106 | A row value is the global value of its local category when both lookups hit, and NaN otherwise. |
| Rendering.ElementMap.constructor | src/regl_rendering.js:1013 | A new element map is empty. |
| Rendering.Poll | src/regl_rendering.js:1038-1058 | A non-blocking ready answers true iff every required key is built. It then claims nothing; a claimed key is required, absent, and only claimed on a ready tile. |
| Rendering.PollAgainClaimsNothing | src/regl_rendering.js:1038-1058 | Polling again after the claim returns false and claims nothing, so no key is queued twice. |
| Rendering.PollClaimProgresses | src/regl_rendering.js:1049 | A claim moves only that key, from absent to claimed. |
| Rendering.ProgressedTransitive | src/regl_rendering.js:1038-1058 | Forward-only progress of entries composes. |
| Rendering.ProgressedKeepsDone | src/regl_rendering.js:1038-1058 | Keys that are built stay built under progress. |
| Rendering.ReglRenderer.Drain | src/regl_rendering.js:191-201 | Runs exactly DrainCount tasks from the front. The rest stay queued in order; the run tasks are shifted in FIFO order. Each run task's key is built, or left claimed when its build threw. In every element map a queued task names, entries only progress, and only keys of run tasks for that map change. The arena ends in exactly the state AllocationsOf the run tasks gives (one allocation per task whose build does not throw, in order), and the issued log gains exactly those extents. The queue invariant (queued keys claimed, no key queued twice) is kept. |
| Rendering.ReglRenderer.RunTask | src/regl_rendering.js:195-200 | Shifting and running one task keeps every still-queued task waiting and every earlier task finished, even when it throws. When the build succeeds, the arena is exactly one Allocate further, the log gains that extent and the entry under the task's key holds it, nothing else in its map changing. When it throws, the arena and the map are unchanged. |
| Rendering.TaskQueue.constructor | src/regl_rendering.js:191-201 | The deferred queue starts empty with nothing shifted. |
| Rendering.ReglRenderer.DrainLoop | src/regl_rendering.js:192-201 | The loop runs DrainCount tasks and keeps the draining invariant: queue suffix, shifted prefix, finished tasks, and entries moved only at run keys. |
| Rendering.ReglRenderer.RunRecorded | src/regl_rendering.js:195-200 | One turn of the loop extends the draining invariant by one task. |
| Rendering.AllocationsAfter | src/regl_rendering.js:1121-1137 | (reference definition) Running one task allocates data.length four-byte items exactly when its build does not throw, appending one extent; otherwise nothing changes. The buffer size is kept and generations never decrease. |
| Rendering.AllocationsOf | src/regl_rendering.js:191-201 | (reference definition) The arena state and extents after running a run of tasks in order: at most one extent per task, same buffer size, generations never decreasing. |
| Rendering.AllocationsStep | src/regl_rendering.js:195-200 | Running the next task on an arena holding the allocations of the tasks before it leaves it holding those of one task more. |
| Rendering.AllocationsOfSnoc | src/regl_rendering.js:195-200 | The allocations of a run one task longer are those of the run followed by that task's. |
| Rendering.AllocationsAfterLog | src/regl_rendering.js:1126-1137 | One task's allocation appended to a log with earlier extents in front is the earlier extents followed by the task's. |
| Rendering.MovedOnlyTransitive | src/regl_rendering.js:191-201 | Changes confined to two key sets compose to changes confined to their union. |
| Rendering.DrainCount | src/regl_rendering.js:191-201 | The number of tasks run is at most the queue length. Every check before it saw less than 10 ms, and it stops at the queue's end or at the first check that sees 10 ms or more. |
| Rendering.DrainFrom | src/regl_rendering.js:193 | The same stopping rule counted from check j. |
| Rendering.DrainRunsOneWhenOnTime | src/regl_rendering.js:193 | If the first check sees time left, a non-empty queue runs at least one task. |
| Rendering.DrainEmptiesWithinBudget | src/regl_rendering.js:193 | If every check sees time left, the whole queue runs. |
| Rendering.ReglRenderer.RenderPoints | src/regl_rendering.js:133-169 | The batch is the tiles whose ready returned true, in reverse visiting order, and each answer is true exactly when that tile's required keys were all built right after its visit. A tile whose keys were all built beforehand answers true and is in the batch. The batch is drawn exactly once when the draw command exists, not at all otherwise. Every tile in it has all required keys built; entries only progress. Blocking (the default with no flag), nothing is queued, each answer is BlockingWalk of that tile's entries at its visit, and a tile whose keys were all built or buildable at the start (and whose element map no other visible tile shares) answers true and is in the batch. The draw command, scale history and download mode are untouched. |
| Rendering.ReglRenderer.ReadyBatch | src/regl_rendering.js:135-167 | The loop and the reversal give the batch and answers RenderPoints promises, with the queue's shifted list untouched. |
| Rendering.ReglRenderer.CollectLoop | src/regl_rendering.js:135-160 | The loop visits every tile once. Each recorded answer is true exactly when that tile's keys were all built right after its visit; the kept list is exactly the tiles answering true, in visiting order, and they stay built. Blocking, nothing is queued and each answer is the blocking walk over the entries the tile was visited with. |
| Rendering.ReglRenderer.Visit | src/regl_rendering.js:139-148 | One tile's manager is asked once: the answer is true iff the tile's keys are all built; entries only progress; a walk meeting a claimed key or an unready tile first changes nothing. Blocking, the answer and built keys are exactly BlockingWalk of the entries before the visit, nothing is queued, the arena makes one allocation per built key and a key left claimed is one whose build threw the returned error. |
| Rendering.ReglRenderer.VisitAt | src/regl_rendering.js:139-148 | The same visit, seen over every visible tile: only tiles that share the visited element map change, and only forward; blocking, the answer is the walk over the visited tile's entries and only keys whose build throws are newly claimed. |
| Rendering.ReglRenderer.CollectOne | src/regl_rendering.js:137-159 | One turn of the loop extends what the loop has established by one tile. |
| Rendering.CollectedBlockingStep | src/regl_rendering.js:137-159 | One blocking visit keeps the blocking part of the loop's invariant: the answer is the walk over the tile's entries at its visit, and a tile holding its map alone whose keys were buildable at the start stays buildable. |
| Rendering.CollectedBlockingAll | src/regl_rendering.js:135-160 | After the last blocking visit, every tile holding its map alone whose keys were all built or buildable at the start answered true. |
| Rendering.RenderedFromCollected | src/regl_rendering.js:135-167 | The loop's invariants at the end, with the batch the reversal of the kept list, give everything RenderPoints promises. |
| Rendering.RenderedBlocking | src/regl_rendering.js:133-169 | A blocking render leaves the queue as it was, moves entries only forward, and puts every tile fully built at the start in the batch. |
| Rendering.EntriesOf | src/regl_rendering.js:135-160 | The entries of each tile, in order. |
| Rendering.CollectedStep | src/regl_rendering.js:137-159 | One visit that only moves entries forward keeps every earlier answer's meaning and the kept tiles built. |
| Rendering.CollectedAll | src/regl_rendering.js:135-160 | After the last tile, every answer matches its tile's entries after its visit and the kept list is Kept of all answers. |
| Rendering.Kept | src/regl_rendering.js:135-160 | Only tiles whose ready answered true are kept. |
| Rendering.KeptHasEveryReadyTile | src/regl_rendering.js:135-160 | Every tile whose ready answered true is kept. |
| Rendering.BatchHasEveryReadyTile | src/regl_rendering.js:135-167 | The reversed batch holds exactly the tiles that answered true. |
| Rendering.ReversedMembers | src/regl_rendering.js:167 | Reversal keeps exactly the same members. |
| Rendering.Reversed | src/regl_rendering.js:167 | The reversal has the same length, and element i is element n-1-i of the input. |
| Rendering.ReglRenderer.Tick | src/regl_rendering.js:171-204 | While the scale history is unset, the props read at line 174 (whose getter reads the history at line 105) throws PropsUnavailable and nothing changes. Otherwise the frame drains exactly DrainCount tasks (the rest stay queued, the run ones are shifted and finished), then renders blocking: answers, batch and walk equations as RenderPoints promises over the entries the drain left, every visible tile already built at the start in the batch, and every visible tile whose keys were all built or buildable at the start (and whose element map no other visible tile shares) in the batch, and one draw call when the draw command exists. The drain changes a visible tile's entries only at keys of tasks it ran, and only forward, adding no key; entries of queued element maps only progress; the draw command, scale history and download mode are untouched. |
| Rendering.ReglRenderer.Frame | src/regl_rendering.js:191-203 | The drain followed by the blocking render, with the drain's and the render's promises composed: visible entries move only at run tasks' keys and add no key across the drain, so a visible tile holding its map alone whose keys were all built or buildable at the frame's start is in the batch. |
| Rendering.ReglRenderer.DrainBefore | src/regl_rendering.js:191-201 | The drain, with the entries of each run task's map and of every visible tile as it leaves them: each run task finished there, every queued map only moved forward, and each visible tile's entries moved only at keys its run tasks build, forward, with the same keys. |
| Rendering.ReglRenderer.RenderAfter | src/regl_rendering.js:203 | The blocking render of the frame, keeping the queue and moving the queued element maps only forward. |
| Rendering.TaskEntries | src/regl_rendering.js:191-201 | The entries of each task's element map, one per task, in order. |
| Rendering.ReglRenderer.ApplyWebglScale | src/regl_rendering.js:63-85 | A semantic x or y transform pushes the semantic scale and stops download by corners; otherwise the default scale is pushed (creating the history if needed). Pushing a semantic scale onto a missing history is the error case. |
| Rendering.ReglRenderer.constructor | src/regl_rendering.js:16-53 | A renderer starts with a fresh 64 MB-buffer arena, an empty queue, no draw command and no scale history. |
| Rendering.ReglRenderer.OnTileSetLoaded | src/regl_rendering.js:36-45 | Once the tile set loads, the draw command exists and the scale history is [default, default]. |

## Left out

- WebGL and regl calls are not modelled: buffer creation internals, the `subdata` write
  of a built buffer (src/regl_rendering.js:1137), framebuffers, textures,
  shaders, clears and the composition pass of `render_all`. `Tick` calls
  `RenderPoints` directly where the source goes through `render_all`.
- The readback passes (`count_colors`, `n_visible`, `color_pick`,
  `draw_contour_buffer`, blurs), `spritesheet_setter`, image loading and
  `plot_as_grid` depend on GPU output or on code that is not part of this
  model.
- The `props` getter is left out apart from the one way it throws: JSON
  cloning, times and zoom matrices are not modelled. Only the default of
  `block_for_buffers` is used: `props` never sets it, so `render_points`
  calls `ready` in blocking mode (the default `true`).
- Rendering.ReglRenderer.Tick: the props read throws only while the scale
  history is unset (`PropsUnavailable`); an empty history reads as
  `undefined` without a throw and is treated like a set one. The tick
  counter, the download call (lines 179-184), the clear (lines 186-189) and
  the composition in `render_all` are not modelled. Tick states nothing
  about the arena; `Drain` and `RenderPoints` state it separately.
- Rendering.ReglRenderer.Drain: the arena state and the issued log are tied
  to the run tasks as a whole (`AllocationsOf`); which extent a run task's
  entry holds is stated per task by `RunTask`, not across the whole drain.
- Rendering.ReglRenderer.RenderPoints: a tile whose keys are all buildable
  is promised to be in the batch only when no other visible tile shares its
  element map; a shared map can be changed by another tile's visit first
  (a build that throws leaves a key claimed, and the later visit then
  answers false).
- Tiles: a tile's readiness, table and lookups do not change while the
  model runs; loading a tile is not part of this model.
- The tile set (`visible_tiles`, downloads), `AestheticSet`,
  `aesthetic_variables` and `window_transform` are not part of this model.
  - The visible tiles are an input.
  - So are the fields `ready` walks (the bound fields of the aesthetic set in its entry order).
  - So are the transforms and the semantic scale.
  - The `is_aesthetic_set` check that throws is not modelled.
- Float32 conversion and precision are not modelled: a copied value is the value itself. A
  column of BigInt values, which a Float32Array refuses, is not modelled.
- Rendering.TileBufferManager.constructor: the tile's element map exists
  from the tile's construction rather than being created by the first
  manager; no one reads it before that.
- Rendering.ReglRenderer.constructor: the arena is created with the renderer rather than on the first use of the lazy `buffers` getter. The promise that loads the tile set is the separate `OnTileSetLoaded`.
- JavaScript key-ordering quirks (integer-like field names in `Object.keys`)
  are not modelled: keys keep insertion order.
- Rendering.ReglRenderer.RenderPoints: stopping the zoom timer when no draw
  command exists is not modelled.
- Rendering.ReglRenderer.ApplyWebglScale: the error of pushing onto a missing history is a value. A throw from `window_transform` itself is not modelled.
- Rendering.ReglRenderer.Drain: a failing task's error is dropped, as
  the source drops it after logging; the logging is not modelled.
- Rendering.ReglRenderer.Drain: `deferred_functions` is created by the base `Renderer` class, which is not part of this model. The queue starts empty with the renderer.
- Constant-colour uniforms and per-channel domain, range and constant uniforms
  are not modelled.
- No capacity error is modelled: the code has no size check, so a request
  larger than a buffer raises no error, and the model follows the code
  (`Arena.OversizedRequestOverruns`).
- Slots.Step: field names are taken to be plain keys. A field named after a
  property every JavaScript object inherits (`constructor`, `toString`,
  `valueOf`, `hasOwnProperty`, `__proto__`) already looks present to the
  lookup at src/regl_rendering.js:980, so the code copies that inherited
  member into `aes_to_buffer_num` instead of a slot number, and the copy
  the draw call receives has no slot for that channel. The model hands such
  a field a fresh slot like any other name.

## Findings

| source | as written | input that shows it | evidently intended | confidence | as-written member | corrected member |
|---|---|---|---|---|---|---|
| src/regl_rendering.js:984 | `if (num++ < 16)` hands out fresh slots 1..16. Only attributes `buffer_0`..`buffer_15` exist (src/regl_rendering.js:884), and the comment at src/regl_rendering.js:948 says 15 buffers are usable once `ix` takes one. | Five aesthetics with distinct current and last fields plus six more with distinct current fields (`Slots.SixteenDistinctFields`): sixteen new fields, and the sixteenth gets slot 16, which no attribute reads. | At most 15 fresh slots (`num++ < 15`), so every slot is below 16. | not executed | Slots.SixteenFieldsReachSlot16 | Slots.CorrectedSlotsFitAttributes |
