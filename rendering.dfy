/** Per-tile buffer materialisation, the deferred-work queue drained by each
    tick, the per-frame batching of ready tiles and the webgl scale history
    of the regl renderer.  WebGL itself is abstract: a built buffer is the
    slice the arena hands out, and a draw call is recorded as the batch of
    tiles it was given. */
module Rendering {
  import opened Wrappers
  import Arena

  /** A column value as the Float32 buffers hold it. */
  datatype Number = Finite(value: real) | NaN

  /** A freshly created Float32Array is filled with zeros. */
  const Zero: Number := Finite(0.0)

  /** A table column: whether it is dictionary encoded, whether its values
      are already a Float32Array, and the values themselves. */
  datatype Column = Column(dictionary: bool, float32: bool, values: array<Number>)

  datatype Table = Table(length: nat, columns: map<string, Column>)

  /** An entry of a tile's element map: claimed but not built yet (the
      `null` of the source), a built buffer descriptor, or the cached row
      count kept under `_count`.  A key without an entry is absent. */
  datatype Element = Claimed | Built(desc: Arena.Slice) | RowCount(n: nat)

  /** Why `tick` throws before doing anything: the props getter reads the
      scale history, which is unset until the tile set has loaded. */
  datatype TickError = PropsUnavailable

  /** Why building a buffer throws. */
  datatype Error = TileNotReady | MissingColumn(key: string) | MissingLookup(key: string)

  /** The key-to-element map a tile shares with every manager made for it. */
  class ElementMap {
    var entries: map<string, Element>

    constructor ()
      ensures entries == map[]
    {
      entries := map[];
    }
  }

  /** The parts of a tile the buffer manager reads.  The tile set fills them
      in; nothing in this model changes them. */
  class Tile {
    const ready: bool
    const table: Table
    /** Per key: dictionary index to category string, local to this tile. */
    const localDictionaryLookups: map<string, map<Number, string>>
    /** Per key: category string to the value shared by all tiles. */
    const dictionaryLookups: map<string, map<string, Number>>
    const elements: ElementMap

    constructor (ready: bool, table: Table, localDictionaryLookups: map<string, map<Number, string>>,
                 dictionaryLookups: map<string, map<string, Number>>)
      ensures this.ready == ready && this.table == table
      ensures this.localDictionaryLookups == localDictionaryLookups
      ensures this.dictionaryLookups == dictionaryLookups
      ensures fresh(elements) && elements.entries == map[]
    {
      this.ready := ready;
      this.table := table;
      this.localDictionaryLookups := localDictionaryLookups;
      this.dictionaryLookups := dictionaryLookups;
      elements := new ElementMap();
    }
  }

  /** The column a key reads: its dictionary index column when there is
      one, otherwise the column of that name. */
  function ColumnFor(t: Table, key: string): (r: Option<Column>)
    ensures r.Some? <==> key + "_dict_index" in t.columns || key in t.columns
    ensures key + "_dict_index" in t.columns ==> r == Some(t.columns[key + "_dict_index"])
    ensures key + "_dict_index" !in t.columns && key in t.columns ==> r == Some(t.columns[key])
  {
    if key + "_dict_index" in t.columns then Some(t.columns[key + "_dict_index"])
    else if key in t.columns then Some(t.columns[key])
    else None
  }

  /** A dictionary index decoded through the tile-local and then the global
      lookup; a miss on either side leaves the Float32 slot NaN. */
  function DecodeRow(v: Number, local: map<Number, string>, global: map<string, Number>): (r: Number)
    ensures r == NaN || r in global.Values
    ensures v in local && local[v] in global ==> r == global[local[v]]
    ensures !(v in local && local[v] in global) ==> r == NaN
  {
    if v in local && local[v] in global then global[local[v]] else NaN
  }

  datatype Status = Absent | Pending | Done

  function StatusOf(m: map<string, Element>, k: string): Status
  {
    if k !in m then Absent else if m[k] == Claimed then Pending else Done
  }

  predicate AllDone(m: map<string, Element>, keys: seq<string>)
  {
    forall i :: 0 <= i < |keys| ==> StatusOf(m, keys[i]) == Done
  }

  /** Entries only move forward: no key disappears, a claimed key stays
      claimed or gets built, and anything else stays as it was. */
  ghost predicate Progressed(before: map<string, Element>, after: map<string, Element>)
  {
    forall k :: k in before ==>
      && k in after
      && (before[k] == Claimed ==> after[k] == Claimed || after[k].Built?)
      && (before[k] != Claimed ==> after[k] == before[k])
  }

  lemma ProgressedTransitive(a: map<string, Element>, b: map<string, Element>, c: map<string, Element>)
    requires Progressed(a, b) && Progressed(b, c)
    ensures Progressed(a, c)
  {
  }

  lemma ProgressedKeepsDone(before: map<string, Element>, after: map<string, Element>, keys: seq<string>)
    requires Progressed(before, after) && AllDone(before, keys)
    ensures AllDone(after, keys)
  {
    forall i | 0 <= i < |keys|
      ensures StatusOf(after, keys[i]) == Done
    {
      assert keys[i] in before;
    }
  }

  /** One non-blocking `ready` call on the entries `m`: whether every key is
      already built, and which key (if any) it claims and queues. */
  function Poll(m: map<string, Element>, keys: seq<string>, tileReady: bool): (r: (bool, Option<string>))
    ensures r.0 <==> AllDone(m, keys)
    ensures r.0 ==> r.1.None?
    ensures r.1.Some? ==> tileReady && r.1.value in keys && r.1.value !in m
  {
    if |keys| == 0 then (true, None)
    else match StatusOf(m, keys[0])
      case Pending => (false, None)
      case Absent => (false, if tileReady then Some(keys[0]) else None)
      case Done =>
        var r := Poll(m, keys[1..], tileReady);
        assert AllDone(m, keys) <==> AllDone(m, keys[1..]) by {
          assert forall i :: 1 <= i < |keys| ==> keys[i] == keys[1..][i - 1];
        }
        r
  }

  /** Polling again after the claim of the previous poll claims nothing: a
      key is queued at most once, however often the tile is polled. */
  lemma {:induction false} PollAgainClaimsNothing(m: map<string, Element>, keys: seq<string>, tileReady: bool)
    requires Poll(m, keys, tileReady).1.Some?
    ensures Poll(m[Poll(m, keys, tileReady).1.value := Claimed], keys, tileReady) == (false, None)
  {
    var k := Poll(m, keys, tileReady).1.value;
    var m' := m[k := Claimed];
    match StatusOf(m, keys[0])
    case Pending =>
    case Absent =>
      assert keys[0] == k;
      assert StatusOf(m', keys[0]) == Pending;
    case Done =>
      assert StatusOf(m', keys[0]) == Done;
      PollAgainClaimsNothing(m, keys[1..], tileReady);
  }

  /** A polled key's claim does not disturb the other keys' entries. */
  lemma PollClaimProgresses(m: map<string, Element>, keys: seq<string>, tileReady: bool)
    requires Poll(m, keys, tileReady).1.Some?
    ensures Progressed(m, m[Poll(m, keys, tileReady).1.value := Claimed])
  {
  }

  /** A deferred call of `create_regl_buffer(key)` on a manager. */
  datatype Task = Task(manager: TileBufferManager, key: string)

  /** The element map a task writes to. */
  function ElementsOfTask(t: Task): ElementMap
  {
    t.manager.tile.elements
  }

  function ElementsOf(q: seq<Task>): set<ElementMap>
  {
    set i | 0 <= i < |q| :: ElementsOfTask(q[i])
  }

  /** Two tasks that would build the same key of the same tile. */
  predicate SameSlot(a: Task, b: Task)
  {
    ElementsOfTask(a) == ElementsOfTask(b) && a.key == b.key
  }

  /** A queued task's key is claimed and waiting for it. */
  ghost predicate Queued(t: Task)
    reads ElementsOfTask(t)
  {
    t.key in ElementsOfTask(t).entries && ElementsOfTask(t).entries[t.key] == Claimed
  }

  /** The entries `m` of a task that has run: its key is built, or, when
      building threw, still claimed (and so never retried). */
  ghost predicate FinishedIn(t: Task, m: map<string, Element>)
  {
    && t.key in m
    && (if BuildError(t.manager.tile, t.key).None? then m[t.key].Built? else m[t.key] == Claimed)
  }

  /** A task that has run, in the current entries of its tile. */
  ghost predicate Finished(t: Task)
    reads ElementsOfTask(t)
  {
    FinishedIn(t, ElementsOfTask(t).entries)
  }

  /** The first `n` tasks of `q` have run. */
  ghost predicate FinishedUpTo(q: seq<Task>, n: nat)
    reads ElementsOf(q)
  {
    forall i :: 0 <= i < n && i < |q| ==> Finished(q[i])
  }

  /** The arena state and the extents handed out after the task `t` runs
      with the arena in state `a.0` and `a.1` handed out before: one
      allocation of `data.length` four-byte items, unless building throws. */
  ghost function AllocationsAfter(a: (Arena.ArenaState, seq<Arena.Extent>), t: Task)
    : (r: (Arena.ArenaState, seq<Arena.Extent>))
    requires a.0.generations >= 1
    ensures r.0.generations >= a.0.generations && r.0.bufferSize == a.0.bufferSize
    ensures BuildError(t.manager.tile, t.key).Some? <==> r == a
    ensures BuildError(t.manager.tile, t.key).None? ==> |r.1| == |a.1| + 1 && r.1[..|a.1|] == a.1
  {
    if BuildError(t.manager.tile, t.key).Some? then a
    else
      var s := Arena.Allocate(a.0, DataLength(t.manager.tile, t.key), 4);
      (s.0, a.1 + [s.1])
  }

  /** The arena state and the extents handed out when the tasks of `q` run
      in order from the arena state `a`. */
  ghost function AllocationsOf(a: Arena.ArenaState, q: seq<Task>): (r: (Arena.ArenaState, seq<Arena.Extent>))
    requires a.generations >= 1
    ensures r.0.generations >= a.generations && r.0.bufferSize == a.bufferSize && |r.1| <= |q|
  {
    if q == [] then (a, []) else AllocationsAfter(AllocationsOf(a, q[..|q| - 1]), q[|q| - 1])
  }

  /** Running the task `q[n]` on the arena holding the allocations of the
      tasks before it leaves it holding those of the first `n + 1`. */
  lemma AllocationsStep(a0: Arena.ArenaState, l0: seq<Arena.Extent>, q: seq<Task>, n: nat,
                        m0: Arena.ArenaState, i0: seq<Arena.Extent>, m1: Arena.ArenaState, i1: seq<Arena.Extent>)
    requires a0.generations >= 1 && n < |q|
    requires m0 == AllocationsOf(a0, q[..n]).0 && i0 == l0 + AllocationsOf(a0, q[..n]).1
    requires BuildError(q[n].manager.tile, q[n].key).None? ==>
      && m1 == Arena.Allocate(m0, DataLength(q[n].manager.tile, q[n].key), 4).0
      && i1 == i0 + [Arena.Allocate(m0, DataLength(q[n].manager.tile, q[n].key), 4).1]
    requires BuildError(q[n].manager.tile, q[n].key).Some? ==> m1 == m0 && i1 == i0
    ensures m1 == AllocationsOf(a0, q[..n + 1]).0 && i1 == l0 + AllocationsOf(a0, q[..n + 1]).1
  {
    AllocationsOfSnoc(a0, q, n);
    AllocationsAfterLog(l0, AllocationsOf(a0, q[..n]), q[n], m1, i1);
  }

  lemma AllocationsOfSnoc(a0: Arena.ArenaState, q: seq<Task>, n: nat)
    requires a0.generations >= 1 && n < |q|
    ensures AllocationsOf(a0, q[..n + 1]) == AllocationsAfter(AllocationsOf(a0, q[..n]), q[n])
  {
    assert q[..n + 1][..n] == q[..n];
  }

  /** `AllocationsAfter` with the extents handed out before `a` prefixed. */
  lemma AllocationsAfterLog(l0: seq<Arena.Extent>, a: (Arena.ArenaState, seq<Arena.Extent>), t: Task,
                            m1: Arena.ArenaState, i1: seq<Arena.Extent>)
    requires a.0.generations >= 1
    requires BuildError(t.manager.tile, t.key).None? ==>
      && m1 == Arena.Allocate(a.0, DataLength(t.manager.tile, t.key), 4).0
      && i1 == (l0 + a.1) + [Arena.Allocate(a.0, DataLength(t.manager.tile, t.key), 4).1]
    requires BuildError(t.manager.tile, t.key).Some? ==> m1 == a.0 && i1 == l0 + a.1
    ensures m1 == AllocationsAfter(a, t).0 && i1 == l0 + AllocationsAfter(a, t).1
  {
    if BuildError(t.manager.tile, t.key).None? {
      ConcatAssociates(l0, a.1, [Arena.Allocate(a.0, DataLength(t.manager.tile, t.key), 4).1]);
    }
  }

  /** Kept apart so that the sequence step it states is not proved inside
      the heap-heavy context of the drain. */
  lemma TakeSnoc<T>(q: seq<T>, n: nat)
    requires n < |q|
    ensures q[..n] + [q[n]] == q[..n + 1] && q[..n + 1][..n] == q[..n]
  {
  }

  /** Kept apart for the same reason as `TakeSnoc`. */
  lemma ConcatAssociates<T>(a: seq<T>, b: seq<T>, c: seq<T>)
    ensures (a + b) + c == a + (b + c)
  {
  }

  /** The keys the tasks of `q` build in the element map `e`. */
  ghost function KeysBuiltIn(q: seq<Task>, e: ElementMap): set<string>
  {
    if q == [] then {}
    else KeysBuiltIn(q[..|q| - 1], e) + (if ElementsOfTask(q[|q| - 1]) == e then {q[|q| - 1].key} else {})
  }

  /** From `before` to `after` entries only moved forward, no key appeared,
      and only the keys in `keys` may have moved at all. */
  ghost predicate MovedOnly(before: map<string, Element>, after: map<string, Element>, keys: set<string>)
  {
    && Progressed(before, after)
    && after.Keys == before.Keys
    && forall k :: k in before && k !in keys ==> after[k] == before[k]
  }

  /** Every element map the tasks of `q` write to has, since the snapshot
      `snap`, moved only at the keys of the first `n` tasks. */
  ghost predicate MovedSince(snap: map<ElementMap, map<string, Element>>, q: seq<Task>, n: nat)
    reads ElementsOf(q)
    requires n <= |q|
  {
    forall e :: e in ElementsOf(q) ==> e in snap && MovedOnly(snap[e], e.entries, KeysBuiltIn(q[..n], e))
  }

  lemma MovedOnlyTransitive(a: map<string, Element>, b: map<string, Element>, c: map<string, Element>,
                            ka: set<string>, kb: set<string>)
    requires MovedOnly(a, b, ka) && MovedOnly(b, c, kb)
    ensures MovedOnly(a, c, ka + kb)
  {
  }

  /** The renderer's `deferred_functions` array. */
  class TaskQueue {
    var tasks: seq<Task>
    /** Every task shifted off the front so far, in order. */
    ghost var shifted: seq<Task>

    constructor ()
      ensures tasks == [] && shifted == []
    {
      tasks := [];
      shifted := [];
    }
  }

  /** A flattened 3x3 webgl transform. */
  type Scale = seq<real>

  /** A transform that makes the webgl scale semantic (computed from the x
      and y scales) rather than literal.  An unset or empty transform
      counts as literal. */
  predicate Semantic(transform: Option<string>)
  {
    transform.Some? && transform.value != "" && transform.value != "literal"
  }

  /** `deepscatter` keeps its points in 64 MB device buffers. */
  const BufferSize: nat := 1024 * 1024 * 64

  class ReglRenderer {
    const arena: Arena.MultipurposeBufferSet
    const queue: TaskQueue
    /** Whether `_renderer` (the compiled draw command) exists yet. */
    var rendererDefined: bool
    /** Every batch handed to the draw command, in order. */
    var drawCalls: seq<seq<Tile>>
    var webglScaleHistory: Option<seq<Scale>>
    var useScaleToDownloadTiles: bool
    /** The scale of the coordinates the tile tree was built in. */
    const defaultWebglScale: Scale

    ghost predicate Valid()
      reads arena, queue, ElementsOf(queue.tasks)
    {
      && arena.Valid()
      && (forall i :: 0 <= i < |queue.tasks| ==> queue.tasks[i].manager.renderer == this)
      && (forall i :: 0 <= i < |queue.tasks| ==> Queued(queue.tasks[i]))
      && (forall i, j :: 0 <= i < j < |queue.tasks| ==> !SameSlot(queue.tasks[i], queue.tasks[j]))
    }

    constructor (defaultWebglScale: Scale)
      ensures Valid() && fresh(arena) && fresh(queue)
      ensures arena.Model() == Arena.Initial(BufferSize) && arena.issued == []
      ensures queue.tasks == [] && queue.shifted == []
      ensures !rendererDefined && drawCalls == [] && webglScaleHistory.None?
      ensures this.defaultWebglScale == defaultWebglScale
    {
      arena := new Arena.MultipurposeBufferSet(BufferSize);
      queue := new TaskQueue();
      rendererDefined := false;
      drawCalls := [];
      webglScaleHistory := None;
      useScaleToDownloadTiles := false;
      this.defaultWebglScale := defaultWebglScale;
    }

    /** What the renderer does once its tile set has loaded: it compiles the
        draw command and seeds the scale history with the default scale. */
    method OnTileSetLoaded()
      modifies this
      ensures rendererDefined
      ensures webglScaleHistory == Some([defaultWebglScale, defaultWebglScale])
      ensures drawCalls == old(drawCalls) && useScaleToDownloadTiles == old(useScaleToDownloadTiles)
    {
      rendererDefined := true;
      webglScaleHistory := Some([defaultWebglScale, defaultWebglScale]);
    }

    /** `apply_webgl_scale`: pushes the scale of this frame onto the front of
        the history (semantic when either transform is, else the default)
        and says whether tiles are downloaded by screen corners.  Pushing a
        semantic scale onto a history that was never created throws. */
    method ApplyWebglScale(xTransform: Option<string>, yTransform: Option<string>, semanticScale: Scale)
      returns (r: Result<(), string>)
      modifies this
      ensures drawCalls == old(drawCalls) && rendererDefined == old(rendererDefined)
      ensures r.Err? <==> (Semantic(xTransform) || Semantic(yTransform)) && old(webglScaleHistory).None?
      ensures r.Err? ==> useScaleToDownloadTiles && webglScaleHistory == old(webglScaleHistory)
      ensures r.Ok? ==> webglScaleHistory.Some? && |webglScaleHistory.value| >= 1
      ensures r.Ok? && (Semantic(xTransform) || Semantic(yTransform)) ==>
        && webglScaleHistory.value == [semanticScale] + old(webglScaleHistory).value
        && !useScaleToDownloadTiles
      ensures r.Ok? && !(Semantic(xTransform) || Semantic(yTransform)) ==>
        && webglScaleHistory.value[0] == defaultWebglScale
        && webglScaleHistory.value[1..] == (if old(webglScaleHistory).Some? then old(webglScaleHistory).value else [])
        && useScaleToDownloadTiles
    {
      useScaleToDownloadTiles := true;
      if Semantic(xTransform) || Semantic(yTransform) {
        if webglScaleHistory.None? {
          return Err("Cannot read properties of undefined");
        }
        webglScaleHistory := Some([semanticScale] + webglScaleHistory.value);
        useScaleToDownloadTiles := false;
      } else {
        if webglScaleHistory.None? {
          webglScaleHistory := Some([]);
        }
        webglScaleHistory := Some([defaultWebglScale] + webglScaleHistory.value);
      }
      r := Ok(());
    }

    /** The tasks of `q` belong to this renderer and build distinct keys. */
    ghost predicate Drainable(q: seq<Task>)
    {
      && (forall i :: 0 <= i < |q| ==> q[i].manager.renderer == this)
      && (forall i, j :: 0 <= i < j < |q| ==> !SameSlot(q[i], q[j]))
    }

    /** The state of the drain after `n` of the tasks `q` it started with:
        the rest still queued and valid, the first `n` shifted and finished,
        the element maps moved since `snap` only at the keys built, and the
        arena, which was in state `a0` with log `l0`, holding the allocations
        of the first `n` tasks. */
    ghost predicate Draining(q: seq<Task>, n: nat, snap: map<ElementMap, map<string, Element>>, shifted0: seq<Task>,
                             a0: Arena.ArenaState, l0: seq<Arena.Extent>)
      reads this, arena, queue, ElementsOf(queue.tasks), ElementsOf(q)
      requires n <= |q| && a0.generations >= 1
    {
      && queue.tasks == q[n..] && queue.shifted == shifted0 + q[..n]
      && Valid() && Drainable(q) && FinishedUpTo(q, n) && MovedSince(snap, q, n)
      && arena.Model() == AllocationsOf(a0, q[..n]).0 && arena.issued == l0 + AllocationsOf(a0, q[..n]).1
    }

    /** The drain in `tick`: runs queued tasks front first until the queue
        is empty or a clock reading shows 10 ms since the start.  A task
        that throws is dropped and the next one runs. */
    method Drain(clock: nat -> int) returns (ran: nat)
      requires Valid()
      modifies queue, arena, ElementsOf(queue.tasks)
      ensures Valid()
      ensures ran == DrainCount(clock, |old(queue.tasks)|)
      ensures queue.tasks == old(queue.tasks)[ran..]
      ensures queue.shifted == old(queue.shifted) + old(queue.tasks)[..ran]
      ensures forall i :: 0 <= i < ran ==> Finished(old(queue.tasks)[i])
      ensures forall e :: e in old(ElementsOf(queue.tasks)) ==>
        MovedOnly(old(e.entries), e.entries, KeysBuiltIn(old(queue.tasks)[..ran], e))
      ensures arena.Model() == AllocationsOf(old(arena.Model()), old(queue.tasks)[..ran]).0
      ensures arena.issued == old(arena.issued) + AllocationsOf(old(arena.Model()), old(queue.tasks)[..ran]).1
    {
      ghost var q := queue.tasks;
      ghost var snap := map e | e in ElementsOf(q) :: e.entries;
      assert q[..0] == [];
      assert Draining(q, 0, snap, queue.shifted, arena.Model(), arena.issued);
      ran := DrainLoop(clock, q, snap, queue.shifted, arena.Model(), arena.issued);
      forall e | e in old(ElementsOf(queue.tasks))
        ensures MovedOnly(old(e.entries), e.entries, KeysBuiltIn(old(queue.tasks)[..ran], e))
      {
        assert e in snap;
      }
    }

    /** The loop of the drain, started in the state `Draining(q, 0, ..)`. */
    method DrainLoop(clock: nat -> int, ghost q: seq<Task>, ghost snap: map<ElementMap, map<string, Element>>,
                     ghost shifted0: seq<Task>, ghost a0: Arena.ArenaState, ghost l0: seq<Arena.Extent>)
      returns (ran: nat)
      requires a0.generations >= 1 && Draining(q, 0, snap, shifted0, a0, l0)
      modifies queue, arena, ElementsOf(q)
      ensures ran <= |q| && ran == DrainCount(clock, |q|) && Draining(q, ran, snap, shifted0, a0, l0)
    {
      var start := clock(0);
      ran := 0;
      while clock(ran + 1) - start < 10 && |queue.tasks| > 0
        invariant ran <= |q|
        invariant Draining(q, ran, snap, shifted0, a0, l0)
        invariant DrainFrom(clock, ran, |q|) == DrainCount(clock, |q|)
        decreases |q| - ran
      {
        assert ran < |q| && Elapsed(clock, ran) < 10;
        assert DrainFrom(clock, ran, |q|) == DrainFrom(clock, ran + 1, |q|);
        RunRecorded(q, ran, snap, shifted0, a0, l0);
        ran := ran + 1;
      }
    }

    /** `RunTask`, with the element maps of the whole queue followed from
        the snapshot `snap` taken when the drain began. */
    method RunRecorded(ghost q: seq<Task>, n: nat, ghost snap: map<ElementMap, map<string, Element>>,
                       ghost shifted0: seq<Task>, ghost a0: Arena.ArenaState, ghost l0: seq<Arena.Extent>)
      requires n < |q| && a0.generations >= 1 && Draining(q, n, snap, shifted0, a0, l0)
      modifies queue, arena, ElementsOf(q)
      ensures Draining(q, n + 1, snap, shifted0, a0, l0)
    {
      assert ElementsOfTask(q[n]) in ElementsOf(q);
      RunTask(q, n);
      TakeSnoc(q, n);
      AllocationsStep(a0, l0, q, n, old(arena.Model()), old(arena.issued), arena.Model(), arena.issued);
      forall e | e in ElementsOf(q)
        ensures e in snap && MovedOnly(snap[e], e.entries, KeysBuiltIn(q[..n + 1], e))
      {
        if e == ElementsOfTask(q[n]) {
          MovedOnlyTransitive(snap[e], old(e.entries), e.entries, KeysBuiltIn(q[..n], e), {q[n].key});
        }
      }
    }

    /** Shifts `q[n]` off the front of the queue and runs it, keeping the
        tasks still queued waiting and the tasks already run finished. */
    method RunTask(ghost q: seq<Task>, n: nat)
      requires Valid()
      requires n < |q| && queue.tasks == q[n..]
      requires Drainable(q) && FinishedUpTo(q, n)
      modifies queue, arena, ElementsOfTask(q[n])
      ensures Valid()
      ensures queue.tasks == q[n + 1..]
      ensures queue.shifted == old(queue.shifted) + [q[n]]
      ensures FinishedUpTo(q, n + 1)
      ensures MovedOnly(old(ElementsOfTask(q[n]).entries), ElementsOfTask(q[n]).entries, {q[n].key})
      ensures BuildError(q[n].manager.tile, q[n].key).None? ==>
        && arena.Model() == Arena.Allocate(old(arena.Model()), DataLength(q[n].manager.tile, q[n].key), 4).0
        && arena.issued ==
             old(arena.issued) + [Arena.Allocate(old(arena.Model()), DataLength(q[n].manager.tile, q[n].key), 4).1]
        && ElementsOfTask(q[n]).entries ==
             old(ElementsOfTask(q[n]).entries)[q[n].key := Built(q[n].manager.Placed(old(arena.Model()), q[n].key))]
      ensures BuildError(q[n].manager.tile, q[n].key).Some? ==> unchanged(arena) && unchanged(ElementsOfTask(q[n]))
    {
      var task := queue.tasks[0];
      assert Queued(task);
      queue.tasks := queue.tasks[1..];
      queue.shifted := queue.shifted + [task];
      label Shifted:
      forall i | n < i < |q|
        ensures Queued(q[i])
      {
        assert q[i] == old(queue.tasks)[i - n];
      }
      var _ := task.manager.CreateReglBuffer(task.key);
      forall i | n < i < |q|
        ensures Queued(q[i])
      {
        assert old@Shifted(Queued(q[i]));
        assert !SameSlot(q[n], q[i]);
      }
      forall i | 0 <= i < n
        ensures Finished(q[i])
      {
        assert old@Shifted(Finished(q[i]));
        assert !SameSlot(q[i], q[n]);
      }
      forall i | 0 <= i < |queue.tasks|
        ensures Queued(queue.tasks[i]) && queue.tasks[i].manager.renderer == this
      {
        assert queue.tasks[i] == q[n + 1 + i];
      }
      forall i, j | 0 <= i < j < |queue.tasks|
        ensures !SameSlot(queue.tasks[i], queue.tasks[j])
      {
        assert queue.tasks[i] == q[n + 1 + i] && queue.tasks[j] == q[n + 1 + j];
      }
    }

    /** `render_points`: asks each visible tile's manager whether its
        buffers are ready, keeps the tiles that answered true (a tile whose
        manager threw is skipped) and, when the draw command exists, draws
        the kept tiles in reverse order in one call.  `after[i]` are the
        entries of tile i right after its own `ready` call, `before[i]`
        those right before it. */
    method RenderPoints(visible: seq<Tile>, fields: seq<string>, blockForBuffers: Option<bool>)
      returns (results: seq<Result<bool, Error>>, batch: seq<Tile>, ghost after: seq<map<string, Element>>,
               ghost before: seq<map<string, Element>>)
      requires Valid()
      modifies this, queue, arena, set t | t in visible :: t.elements
      ensures Valid()
      ensures drawCalls == if old(rendererDefined) then old(drawCalls) + [batch] else old(drawCalls)
      ensures rendererDefined == old(rendererDefined) && webglScaleHistory == old(webglScaleHistory)
      ensures useScaleToDownloadTiles == old(useScaleToDownloadTiles) && queue.shifted == old(queue.shifted)
      ensures Rendered(visible, fields, blockForBuffers.None? || blockForBuffers.value,
                       old(EntriesOf(visible)), EntriesOf(visible), old(queue.tasks), queue.tasks,
                       results, batch, before, after)
    {
      results, batch, after, before := ReadyBatch(visible, fields, blockForBuffers);
      if rendererDefined {
        drawCalls := drawCalls + [batch];
      }
    }

    /** The part of `render_points` before the draw call: the answers and
        the batch of kept tiles in drawing order. */
    method ReadyBatch(visible: seq<Tile>, fields: seq<string>, blockForBuffers: Option<bool>)
      returns (results: seq<Result<bool, Error>>, batch: seq<Tile>, ghost after: seq<map<string, Element>>,
               ghost before: seq<map<string, Element>>)
      requires Valid()
      modifies queue, arena, set t | t in visible :: t.elements
      ensures Valid() && queue.shifted == old(queue.shifted)
      ensures Rendered(visible, fields, blockForBuffers.None? || blockForBuffers.value,
                       old(EntriesOf(visible)), EntriesOf(visible), old(queue.tasks), queue.tasks,
                       results, batch, before, after)
    {
      var block := if blockForBuffers.Some? then blockForBuffers.value else true;
      ghost var start := EntriesOf(visible);
      var propList;
      ghost var now;
      results, propList, after, before, now := CollectLoop(visible, fields, block, start);
      batch := Reversed(propList);
      RenderedFromCollected(visible, fields, block, start, now, old(queue.tasks), queue.tasks,
                            results, propList, batch, before, after);
    }

    /** The loop itself, with every tile's entries before it given as
        `start`; `now` are every tile's entries after it. */
    method CollectLoop(visible: seq<Tile>, fields: seq<string>, block: bool, ghost start: seq<map<string, Element>>)
      returns (results: seq<Result<bool, Error>>, propList: seq<Tile>, ghost after: seq<map<string, Element>>,
               ghost before: seq<map<string, Element>>, ghost now: seq<map<string, Element>>)
      requires Valid() && start == EntriesOf(visible)
      modifies queue, arena, set t | t in visible :: t.elements
      ensures Valid() && |before| == |visible| && now == EntriesOf(visible)
      ensures Collected(visible, fields, |visible|, start, now, results, after, propList)
      ensures block ==> queue.tasks == old(queue.tasks)
      ensures queue.shifted == old(queue.shifted)
      ensures block ==> CollectedBlocking(visible, fields + ["ix"], |visible|, start, now, results, before, after)
    {
      propList := [];
      results := [];
      after := [];
      before := [];
      now := start;
      var n := 0;
      while n < |visible|
        invariant n <= |visible| && Valid() && |before| == n && now == EntriesOf(visible)
        invariant Collected(visible, fields, n, start, now, results, after, propList)
        invariant block ==> queue.tasks == old(queue.tasks)
        invariant queue.shifted == old(queue.shifted)
        invariant block ==> CollectedBlocking(visible, fields + ["ix"], n, start, now, results, before, after)
      {
        results, propList, after, before, now := CollectOne(visible, fields, block, n, start, now, results, after,
                                                            propList, before);
        n := n + 1;
      }
    }

    /** One turn of the loop of `render_points`. */
    method CollectOne(visible: seq<Tile>, fields: seq<string>, block: bool, n: nat, ghost start: seq<map<string, Element>>,
                      ghost now: seq<map<string, Element>>, results: seq<Result<bool, Error>>,
                      ghost after: seq<map<string, Element>>, propList: seq<Tile>, ghost visits: seq<map<string, Element>>)
      returns (results': seq<Result<bool, Error>>, propList': seq<Tile>, ghost after': seq<map<string, Element>>,
               ghost visits': seq<map<string, Element>>, ghost now': seq<map<string, Element>>)
      requires Valid() && n < |visible| && now == EntriesOf(visible)
      requires Collected(visible, fields, n, start, now, results, after, propList)
      requires block ==> CollectedBlocking(visible, fields + ["ix"], n, start, now, results, visits, after)
      modifies queue, arena, visible[n].elements
      ensures Valid() && now' == EntriesOf(visible)
      ensures Collected(visible, fields, n + 1, start, now', results', after', propList')
      ensures block ==> queue.tasks == old(queue.tasks)
      ensures queue.shifted == old(queue.shifted)
      ensures block ==> CollectedBlocking(visible, fields + ["ix"], n + 1, start, now', results', visits', after')
      ensures |visits'| == |visits| + 1
    {
      var r;
      r, now' := VisitAt(visible, fields, block, n, now);
      results' := results + [r];
      after' := after + [now'[n]];
      propList' := if r == Ok(true) then propList + [visible[n]] else propList;
      visits' := visits + [now[n]];
      CollectedStep(visible, fields, n, start, now, now', results, after, propList, r);
      if block {
        CollectedBlockingStep(visible, fields + ["ix"], n, start, now, now', results, visits, after, r);
      }
    }

    /** The visit of tile `n` of `visible`, seen as values: `before` and
        `now` are every tile's entries around it.  Only the tiles that hold
        the visited map see a change. */
    method VisitAt(visible: seq<Tile>, fields: seq<string>, block: bool, n: nat, ghost before: seq<map<string, Element>>)
      returns (r: Result<bool, Error>, ghost now: seq<map<string, Element>>)
      requires Valid() && n < |visible| && before == EntriesOf(visible)
      modifies queue, arena, visible[n].elements
      ensures Valid()
      ensures now == EntriesOf(visible)
      ensures forall i :: 0 <= i < |visible| && visible[i].elements != visible[n].elements ==> now[i] == before[i]
      ensures forall i :: 0 <= i < |visible| && visible[i].elements == visible[n].elements ==>
        now[i] == now[n] && before[i] == before[n]
      ensures forall i :: 0 <= i < |visible| ==> Progressed(before[i], now[i])
      ensures r == Ok(true) <==> AllDone(now[n], fields + ["ix"])
      ensures block ==> queue.tasks == old(queue.tasks)
      ensures queue.shifted == old(queue.shifted)
      ensures block ==> r == BlockingWalk(before[n], fields + ["ix"], visible[n].ready,
                                          BuildErrors(visible[n], fields + ["ix"]), 0, {}).0
      ensures block ==> forall k :: k in now[n] && k !in before[n] && now[n][k] == Claimed ==>
        k in fields + ["ix"] && BuildError(visible[n], k).Some?
    {
      var tile := visible[n];
      ghost var built;
      r, built := Visit(tile, fields, block);
      now := EntriesOf(visible);
      forall i | 0 <= i < |visible|
        ensures Progressed(before[i], now[i])
      {
        if visible[i].elements != tile.elements {
          assert now[i] == before[i];
        }
      }
    }

    /** One visit of `render_points`: a fresh manager for the tile and its
        `ready` answer. */
    method Visit(tile: Tile, fields: seq<string>, block: bool) returns (r: Result<bool, Error>, ghost built: seq<string>)
      requires Valid()
      modifies queue, arena, tile.elements
      ensures Valid()
      ensures Progressed(old(tile.elements.entries), tile.elements.entries)
      ensures r == Ok(true) <==> AllDone(tile.elements.entries, fields + ["ix"])
      ensures Poll(old(tile.elements.entries), fields + ["ix"], tile.ready).1.None? ==>
        && r == Ok(Poll(old(tile.elements.entries), fields + ["ix"], tile.ready).0)
        && unchanged(tile.elements) && unchanged(queue) && unchanged(arena)
      ensures block ==> unchanged(queue)
      ensures block ==>
        && (r, built) == BlockingWalk(old(tile.elements.entries), fields + ["ix"], tile.ready,
                                      BuildErrors(tile, fields + ["ix"]), 0, {})
        && ClaimedOnError(fields + ["ix"], BuildErrors(tile, fields + ["ix"]), old(tile.elements.entries),
                          tile.elements.entries, r)
        && Bookkept(tile, arena, old(tile.elements.entries), old(arena.Model()), old(arena.issued), built)
      ensures !block ==> unchanged(arena) && built == []
      ensures queue.shifted == old(queue.shifted)
    {
      var manager := new TileBufferManager(tile, this);
      r, built := manager.Ready(fields, block);
    }

    /** `tick`: reads the props first, which throws while the scale
        history is unset and then leaves everything as it was; otherwise
        runs the frame. */
    method Tick(clock: nat -> int, visible: seq<Tile>, fields: seq<string>)
      returns (r: Result<nat, TickError>, batch: seq<Tile>, results: seq<Result<bool, Error>>,
               ghost drained: seq<map<string, Element>>, ghost shown: seq<map<string, Element>>,
               ghost before: seq<map<string, Element>>, ghost after: seq<map<string, Element>>)
      requires Valid()
      modifies this, queue, arena, ElementsOf(queue.tasks), set t | t in visible :: t.elements
      ensures Valid()
      ensures r.Err? <==> old(webglScaleHistory).None?
      ensures r.Err? ==> && batch == [] && results == []
                         && unchanged(this, queue, arena) && unchanged(ElementsOf(queue.tasks))
                         && unchanged(set t | t in visible :: t.elements)
      ensures rendererDefined == old(rendererDefined) && webglScaleHistory == old(webglScaleHistory)
      ensures useScaleToDownloadTiles == old(useScaleToDownloadTiles)
      ensures r.Ok? ==> r.value == DrainCount(clock, |old(queue.tasks)|)
      ensures r.Ok? ==> queue.tasks == old(queue.tasks)[r.value..]
      ensures r.Ok? ==> queue.shifted == old(queue.shifted) + old(queue.tasks)[..r.value]
      ensures r.Ok? ==> |drained| == r.value && forall i :: 0 <= i < r.value ==>
        FinishedIn(old(queue.tasks)[i], drained[i]) && Progressed(drained[i], ElementsOfTask(old(queue.tasks)[i]).entries)
      ensures r.Ok? ==> Rendered(visible, fields, true, shown, EntriesOf(visible), queue.tasks, queue.tasks,
                                 results, batch, before, after)
      ensures r.Ok? ==> forall i :: 0 <= i < |visible| ==>
        MovedOnly(old(visible[i].elements.entries), shown[i], KeysBuiltIn(old(queue.tasks)[..r.value], visible[i].elements))
      ensures r.Ok? ==> forall i :: 0 <= i < |visible| && AllDone(old(visible[i].elements.entries), fields + ["ix"]) ==>
        visible[i] in batch
      ensures r.Ok? ==> forall i :: 0 <= i < |visible| && OwnMap(visible, i) &&
                                     Buildable(old(visible[i].elements.entries), fields + ["ix"], visible[i].ready,
                                               BuildErrors(visible[i], fields + ["ix"])) ==>
        visible[i] in batch
      ensures forall e :: e in old(ElementsOf(queue.tasks)) ==> Progressed(old(e.entries), e.entries)
      ensures drawCalls == if r.Ok? && old(rendererDefined) then old(drawCalls) + [batch] else old(drawCalls)
    {
      if webglScaleHistory.None? {
        return Err(PropsUnavailable), [], [], [], [], [], [];
      }
      var ran;
      ran, batch, results, drained, shown, before, after := Frame(clock, visible, fields);
      r := Ok(ran);
    }

    /** The frame `tick` runs once the props are read: drain the deferred
        queue under the time budget, then batch and draw the points whose
        buffers are ready, blocking on their builds.  `drained[i]` are the
        entries of the i-th task run, as the drain left them; `shown` those
        of every visible tile when drawing began. */
    method Frame(clock: nat -> int, visible: seq<Tile>, fields: seq<string>)
      returns (ran: nat, batch: seq<Tile>, results: seq<Result<bool, Error>>,
               ghost drained: seq<map<string, Element>>, ghost shown: seq<map<string, Element>>,
               ghost before: seq<map<string, Element>>, ghost after: seq<map<string, Element>>)
      requires Valid()
      modifies this, queue, arena, ElementsOf(queue.tasks), set t | t in visible :: t.elements
      ensures Valid()
      ensures rendererDefined == old(rendererDefined) && webglScaleHistory == old(webglScaleHistory)
      ensures useScaleToDownloadTiles == old(useScaleToDownloadTiles)
      ensures ran == DrainCount(clock, |old(queue.tasks)|)
      ensures queue.tasks == old(queue.tasks)[ran..]
      ensures queue.shifted == old(queue.shifted) + old(queue.tasks)[..ran]
      ensures |drained| == ran && forall i :: 0 <= i < ran ==>
        FinishedIn(old(queue.tasks)[i], drained[i]) && Progressed(drained[i], ElementsOfTask(old(queue.tasks)[i]).entries)
      ensures Rendered(visible, fields, true, shown, EntriesOf(visible), queue.tasks, queue.tasks,
                       results, batch, before, after)
      ensures forall i :: 0 <= i < |visible| ==>
        MovedOnly(old(visible[i].elements.entries), shown[i], KeysBuiltIn(old(queue.tasks)[..ran], visible[i].elements))
      ensures forall i :: 0 <= i < |visible| && AllDone(old(visible[i].elements.entries), fields + ["ix"]) ==>
        visible[i] in batch
      ensures forall i :: 0 <= i < |visible| && OwnMap(visible, i) &&
                          Buildable(old(visible[i].elements.entries), fields + ["ix"], visible[i].ready,
                                    BuildErrors(visible[i], fields + ["ix"])) ==>
        visible[i] in batch
      ensures forall e :: e in old(ElementsOf(queue.tasks)) ==> Progressed(old(e.entries), e.entries)
      ensures drawCalls == if old(rendererDefined) then old(drawCalls) + [batch] else old(drawCalls)
    {
      ghost var q := queue.tasks;
      ghost var queued := ElementsOf(queue.tasks);
      ran, drained, shown := DrainBefore(clock, visible);
      label Drained:
      results, batch, after, before := RenderAfter(visible, fields, queued);
      forall i | 0 <= i < ran
        ensures Progressed(drained[i], ElementsOfTask(q[i]).entries)
      {
        assert ElementsOfTask(q[i]) in queued;
      }
      forall e | e in queued
        ensures Progressed(old(e.entries), e.entries)
      {
        ProgressedTransitive(old(e.entries), old@Drained(e.entries), e.entries);
      }
      forall i | 0 <= i < |visible| && AllDone(old(visible[i].elements.entries), fields + ["ix"])
        ensures visible[i] in batch
      {
        ProgressedKeepsDone(old(visible[i].elements.entries), shown[i], fields + ["ix"]);
      }
      forall i | 0 <= i < |visible| && OwnMap(visible, i) &&
                 Buildable(old(visible[i].elements.entries), fields + ["ix"], visible[i].ready,
                           BuildErrors(visible[i], fields + ["ix"]))
        ensures visible[i] in batch
      {
        BuildableKept(old(visible[i].elements.entries), shown[i], fields + ["ix"], visible[i].ready,
                      BuildErrors(visible[i], fields + ["ix"]));
      }
    }

    /** The drain of `tick`, with the entries of the tasks run (`drained`)
        and of the visible tiles (`shown`) as it leaves them. */
    method DrainBefore(clock: nat -> int, visible: seq<Tile>)
      returns (ran: nat, ghost drained: seq<map<string, Element>>, ghost shown: seq<map<string, Element>>)
      requires Valid()
      modifies queue, arena, ElementsOf(queue.tasks)
      ensures Valid()
      ensures ran == DrainCount(clock, |old(queue.tasks)|) && ran <= |old(queue.tasks)|
      ensures queue.tasks == old(queue.tasks)[ran..]
      ensures queue.shifted == old(queue.shifted) + old(queue.tasks)[..ran]
      ensures |drained| == ran && forall i :: 0 <= i < ran ==>
        FinishedIn(old(queue.tasks)[i], drained[i]) && drained[i] == ElementsOfTask(old(queue.tasks)[i]).entries
      ensures shown == EntriesOf(visible)
      ensures forall i :: 0 <= i < |visible| ==>
        MovedOnly(old(visible[i].elements.entries), shown[i], KeysBuiltIn(old(queue.tasks)[..ran], visible[i].elements))
      ensures forall e :: e in old(ElementsOf(queue.tasks)) ==> Progressed(old(e.entries), e.entries)
    {
      ghost var q := queue.tasks;
      ghost var queued := ElementsOf(queue.tasks);
      ran := Drain(clock);
      assert ran <= |q| by {
        assert queue.tasks == q[ran..];
      }
      drained := TaskEntries(q[..ran]);
      shown := EntriesOf(visible);
      forall i | 0 <= i < |visible|
        ensures MovedOnly(old(visible[i].elements.entries), shown[i], KeysBuiltIn(q[..ran], visible[i].elements))
      {
        if visible[i].elements in queued {
          assert MovedOnly(old(visible[i].elements.entries), shown[i], KeysBuiltIn(q[..ran], visible[i].elements));
        }
      }
    }

    /** The blocking `render_points` of `tick`, with every element map of
        `others` only moving forward across it. */
    method RenderAfter(visible: seq<Tile>, fields: seq<string>, ghost others: set<ElementMap>)
      returns (results: seq<Result<bool, Error>>, batch: seq<Tile>, ghost after: seq<map<string, Element>>,
               ghost before: seq<map<string, Element>>)
      requires Valid()
      modifies this, queue, arena, set t | t in visible :: t.elements
      ensures Valid()
      ensures rendererDefined == old(rendererDefined) && webglScaleHistory == old(webglScaleHistory)
      ensures useScaleToDownloadTiles == old(useScaleToDownloadTiles)
      ensures queue.tasks == old(queue.tasks) && queue.shifted == old(queue.shifted)
      ensures Rendered(visible, fields, true, old(EntriesOf(visible)), EntriesOf(visible), queue.tasks, queue.tasks,
                       results, batch, before, after)
      ensures forall i :: 0 <= i < |visible| && AllDone(old(visible[i].elements.entries), fields + ["ix"]) ==>
        visible[i] in batch
      ensures forall e :: e in others ==> Progressed(old(e.entries), e.entries)
      ensures drawCalls == if old(rendererDefined) then old(drawCalls) + [batch] else old(drawCalls)
    {
      ghost var start := EntriesOf(visible);
      results, batch, after, before := RenderPoints(visible, fields, None);
      ghost var now := EntriesOf(visible);
      RenderedBlocking(visible, fields, start, now, old(queue.tasks), queue.tasks, results, batch, before, after);
      forall e | e in others
        ensures Progressed(old(e.entries), e.entries)
      {
        if j :| 0 <= j < |visible| && visible[j].elements == e {
          assert Progressed(start[j], now[j]);
        }
      }
    }
  }

  /** The error `create_buffer_data(key)` throws on `tile`, if any.  Only a
      dictionary column with at least one value consults the lookups. */
  ghost function BuildError(tile: Tile, key: string): (r: Option<Error>)
    ensures r == Some(TileNotReady) <==> !tile.ready
    ensures r == Some(MissingColumn(key)) <==> tile.ready && ColumnFor(tile.table, key).None?
    ensures r.None? ==> tile.ready && ColumnFor(tile.table, key).Some?
    ensures r.Some? ==> r.value == TileNotReady || r.value == MissingColumn(key) || r.value == MissingLookup(key)
  {
    if !tile.ready then Some(TileNotReady)
    else match ColumnFor(tile.table, key)
      case None => Some(MissingColumn(key))
      case Some(c) =>
        if c.dictionary && c.values.Length > 0
           && (key !in tile.localDictionaryLookups || key !in tile.dictionaryLookups)
        then Some(MissingLookup(key))
        else None
  }

  /** The number of Float32 items `create_buffer_data(key)` returns: one per
      table row, except for a Float32 column, which is returned whole. */
  ghost function DataLength(tile: Tile, key: string): nat
    requires BuildError(tile, key).None?
  {
    var c := ColumnFor(tile.table, key).value;
    if !c.dictionary && c.float32 then c.values.Length else tile.table.length
  }

  /** The `(items, bytesPerItem)` requests that building `keys` of `tile` in
      order makes of the arena. */
  ghost function Requests(tile: Tile, keys: seq<string>): (r: seq<(nat, nat)>)
    requires forall i :: 0 <= i < |keys| ==> BuildError(tile, keys[i]).None?
    ensures |r| == |keys|
    ensures forall i :: 0 <= i < |keys| ==> r[i] == (DataLength(tile, keys[i]), 4)
  {
    if keys == [] then [] else Requests(tile, keys[..|keys| - 1]) + [(DataLength(tile, keys[|keys| - 1]), 4)]
  }

  /** Since the entries `m0` of `tile` and the state `a0` with log `l0` of
      `arena`, the keys `built` (distinct and all absent from `m0`) were
      built in this order: the arena made exactly one allocation for each,
      each key holds the slice of its own extent, and every entry of `m0`
      is untouched. */
  ghost predicate Bookkept(tile: Tile, arena: Arena.MultipurposeBufferSet, m0: map<string, Element>,
                           a0: Arena.ArenaState, l0: seq<Arena.Extent>, built: seq<string>)
    reads tile.elements, arena
  {
    && (forall i :: 0 <= i < |built| ==> BuildError(tile, built[i]).None?)
    && Booked(m0, a0, l0, built, Requests(tile, built), tile.elements.entries,
              arena.Model(), arena.issued, arena.buffers)
  }

  /** What building each of `keys` on `tile` would throw, if anything. */
  ghost function BuildErrors(tile: Tile, keys: seq<string>): (r: map<string, Option<Error>>)
    ensures forall k :: k in keys ==> k in r
  {
    map k | k in keys :: BuildError(tile, k)
  }

  /** The blocking walk of `ready`, from key `i` on, over the entries `m`
      the walk began with, on a tile that is `ready` or not and whose keys
      would fail to build as `errs` says, having built the keys in `done`:
      a claimed key, or an absent key on a tile that is not ready, ends it
      with false; an absent key whose build throws ends it with that error
      (the key left claimed); any other absent key is built and the walk
      goes on; past the last key the answer is true.  The second part is the
      keys it builds from here on, in order. */
  ghost function BlockingWalk(m: map<string, Element>, keys: seq<string>, ready: bool,
                              errs: map<string, Option<Error>>, i: nat, done: set<string>)
    : (r: (Result<bool, Error>, seq<string>))
    requires i <= |keys| && forall k :: k in keys ==> k in errs
    decreases |keys| - i
  {
    if i == |keys| then (Ok(true), [])
    else
      var k := keys[i];
      if k in done then BlockingWalk(m, keys, ready, errs, i + 1, done)
      else match StatusOf(m, k)
        case Pending => (Ok(false), [])
        case Done => BlockingWalk(m, keys, ready, errs, i + 1, done)
        case Absent =>
          if !ready then (Ok(false), [])
          else if errs[k].Some? then (Err(errs[k].value), [])
          else
            var rest := BlockingWalk(m, keys, ready, errs, i + 1, done + {k});
            (rest.0, [k] + rest.1)
  }

  /** Every key of `keys` is built already or absent and buildable: no
      build is under way and none would throw. */
  ghost predicate Buildable(m: map<string, Element>, keys: seq<string>, ready: bool, errs: map<string, Option<Error>>)
    requires forall k :: k in keys ==> k in errs
  {
    forall j :: 0 <= j < |keys| ==>
      StatusOf(m, keys[j]) == Done || (StatusOf(m, keys[j]) == Absent && ready && errs[keys[j]].None?)
  }

  /** On entries where every key is built or buildable the blocking walk
      answers true. */
  lemma {:induction false} BuildableWalkSucceeds(m: map<string, Element>, keys: seq<string>, ready: bool,
                                                 errs: map<string, Option<Error>>, i: nat, done: set<string>)
    requires i <= |keys| && (forall k :: k in keys ==> k in errs) && Buildable(m, keys, ready, errs)
    ensures BlockingWalk(m, keys, ready, errs, i, done).0 == Ok(true)
    decreases |keys| - i
  {
    if i < |keys| {
      var k := keys[i];
      if k in done || StatusOf(m, k) == Done {
        BuildableWalkSucceeds(m, keys, ready, errs, i + 1, done);
      } else {
        BuildableWalkSucceeds(m, keys, ready, errs, i + 1, done + {k});
      }
    }
  }

  /** A change that only moves entries forward and claims a new key only
      when its build throws keeps the keys buildable. */
  lemma BuildableKept(before: map<string, Element>, after: map<string, Element>, keys: seq<string>, ready: bool,
                      errs: map<string, Option<Error>>)
    requires (forall k :: k in keys ==> k in errs) && Buildable(before, keys, ready, errs) && Progressed(before, after)
    requires forall k :: k in after && k !in before && after[k] == Claimed ==> k in keys && errs[k].Some?
    ensures Buildable(after, keys, ready, errs)
  {
    forall j | 0 <= j < |keys|
      ensures StatusOf(after, keys[j]) == Done
        || (StatusOf(after, keys[j]) == Absent && ready && errs[keys[j]].None?)
    {
      if keys[j] in before {
        assert StatusOf(before, keys[j]) == Done;
      }
    }
  }

  /** Where the blocking walk stands at key `i`: since the entries `m0`, the
      keys `done` were built and nothing else changed, so the entries now
      decide the next step as the walk over `m0` does. */
  lemma BlockingWalkStep(m0: map<string, Element>, keys: seq<string>, ready: bool, errs: map<string, Option<Error>>,
                         i: nat, done: set<string>, entries: map<string, Element>)
    requires i < |keys| && forall k :: k in keys ==> k in errs
    requires forall k :: k in m0 ==> k in entries && entries[k] == m0[k]
    requires forall k :: k in entries && k !in m0 ==> k in done
    requires forall k :: k in done ==> k !in m0 && k in entries && entries[k].Built?
    ensures var k := keys[i];
      var w := BlockingWalk(m0, keys, ready, errs, i, done);
      && (k in entries && entries[k] == Claimed ==> w == (Ok(false), []))
      && (k !in entries && !ready ==> w == (Ok(false), []))
      && (k !in entries && ready && errs[k].Some? ==> w == (Err(errs[k].value), []))
      && (k !in entries && ready && errs[k].None? ==>
            w == (BlockingWalk(m0, keys, ready, errs, i + 1, done + {k}).0,
                  [k] + BlockingWalk(m0, keys, ready, errs, i + 1, done + {k}).1))
      && (k in entries && entries[k] != Claimed ==> w == BlockingWalk(m0, keys, ready, errs, i + 1, done))
  {
  }

  /** The blocking walk from `m0`, having passed the first `i` keys and
      built `built` (the set `done`), still ends where the whole walk does. */
  ghost predicate WalkPrefix(m0: map<string, Element>, keys: seq<string>, ready: bool, errs: map<string, Option<Error>>,
                             i: nat, done: set<string>, built: seq<string>)
    requires i <= |keys| && forall k :: k in keys ==> k in errs
  {
    BlockingWalk(m0, keys, ready, errs, 0, {})
      == (BlockingWalk(m0, keys, ready, errs, i, done).0, built + BlockingWalk(m0, keys, ready, errs, i, done).1)
  }

  /** A key the walk from `m0` to `entries` left claimed is one of `keys`
      whose build failed with the walk's error, and an error leaves such a
      key behind. */
  ghost predicate ClaimedOnError(keys: seq<string>, errs: map<string, Option<Error>>, m0: map<string, Element>,
                                 entries: map<string, Element>, r: Result<bool, Error>)
    requires forall k :: k in keys ==> k in errs
  {
    && (forall k :: k in entries && k !in m0 && entries[k] == Claimed ==>
          k in keys && r.Err? && errs[k] == Some(r.error))
    && (r.Err? ==> exists k :: (k in keys && k !in m0 && k in entries && entries[k] == Claimed &&
                               errs[k] == Some(r.error)))
  }

  /** A walk that answers without an error has claimed nothing it left. */
  lemma OkLeavesNoClaim(keys: seq<string>, errs: map<string, Option<Error>>, m0: map<string, Element>,
                        entries: map<string, Element>, b: bool)
    requires forall k :: k in keys ==> k in errs
    requires forall k :: k in entries && k !in m0 ==> entries[k] != Claimed
    ensures ClaimedOnError(keys, errs, m0, entries, Ok(b))
  {
  }

  /** A walk whose build of `k0` failed with `e` leaves `k0` claimed, and
      every other key it added built. */
  lemma ErrorLeavesClaim(keys: seq<string>, errs: map<string, Option<Error>>, m0: map<string, Element>,
                         entries: map<string, Element>, built: seq<string>, k0: string, e: Error)
    requires forall k :: k in keys ==> k in errs
    requires forall j :: 0 <= j < |built| ==> built[j] in entries && entries[built[j]].Built?
    requires forall k :: k in entries && k !in m0 ==> k in built || k == k0
    requires k0 in keys && k0 !in m0 && k0 in entries && entries[k0] == Claimed && errs[k0] == Some(e)
    ensures ClaimedOnError(keys, errs, m0, entries, Err(e))
  {
    forall k | k in entries && k !in m0 && entries[k] == Claimed
      ensures k == k0
    {
      if k in built {
        assert false;
      }
    }
  }

  /** One key of the blocking walk, read against the entries it has
      reached: where the walk stops, and what it has passed when it goes on. */
  lemma WalkNext(m0: map<string, Element>, keys: seq<string>, ready: bool, errs: map<string, Option<Error>>,
                 i: nat, done: set<string>, built: seq<string>, entries: map<string, Element>)
    requires i < |keys| && (forall k :: k in keys ==> k in errs) && WalkPrefix(m0, keys, ready, errs, i, done, built)
    requires forall k :: k in m0 ==> k in entries && entries[k] == m0[k]
    requires forall k :: k in entries && k !in m0 ==> k in done
    requires forall k :: k in done ==> k !in m0 && k in entries && entries[k].Built?
    ensures var k := keys[i];
      var w := BlockingWalk(m0, keys, ready, errs, 0, {});
      && (k in entries && entries[k] == Claimed ==> w == (Ok(false), built))
      && (k !in entries && !ready ==> w == (Ok(false), built))
      && (k !in entries && ready && errs[k].Some? ==> w == (Err(errs[k].value), built))
      && (k !in entries && ready && errs[k].None? ==> WalkPrefix(m0, keys, ready, errs, i + 1, done + {k}, built + [k]))
      && (k in entries && entries[k] != Claimed ==> WalkPrefix(m0, keys, ready, errs, i + 1, done, built))
  {
    var k := keys[i];
    BlockingWalkStep(m0, keys, ready, errs, i, done, entries);
    assert built + [] == built;
    if k !in entries && ready && errs[k].None? {
      var rest := BlockingWalk(m0, keys, ready, errs, i + 1, done + {k});
      assert built + ([k] + rest.1) == (built + [k]) + rest.1;
    }
  }

  /** The blocking walk that passed every key succeeds, having built `built`. */
  lemma WalkEnd(m0: map<string, Element>, keys: seq<string>, ready: bool, errs: map<string, Option<Error>>,
                done: set<string>, built: seq<string>)
    requires (forall k :: k in keys ==> k in errs) && WalkPrefix(m0, keys, ready, errs, |keys|, done, built)
    ensures BlockingWalk(m0, keys, ready, errs, 0, {}) == (Ok(true), built)
  {
    assert built + [] == built;
  }

  /** `TileBufferManager`: builds a tile's buffers through the renderer's
      arena and queue. */
  class TileBufferManager {
    const tile: Tile
    const renderer: ReglRenderer

    constructor (tile: Tile, renderer: ReglRenderer)
      ensures this.tile == tile && this.renderer == renderer
    {
      this.tile := tile;
      this.renderer := renderer;
    }

    /** `create_buffer_data`: the Float32 contents of the buffer for `key`. */
    method CreateBufferData(key: string) returns (r: Result<array<Number>, Error>)
      ensures r.Err? <==> BuildError(tile, key).Some?
      ensures r.Err? ==> r.error == BuildError(tile, key).value
      ensures r.Ok? ==> r.value.Length == DataLength(tile, key)
      ensures r.Ok? && ColumnFor(tile.table, key).value.dictionary ==>
        && fresh(r.value)
        && forall i :: 0 <= i < r.value.Length ==>
             r.value[i] == if i < ColumnFor(tile.table, key).value.values.Length
                           then DecodeRow(ColumnFor(tile.table, key).value.values[i],
                                          tile.localDictionaryLookups[key], tile.dictionaryLookups[key])
                           else Zero
      ensures r.Ok? && !ColumnFor(tile.table, key).value.dictionary && !ColumnFor(tile.table, key).value.float32 ==>
        && fresh(r.value)
        && forall i :: 0 <= i < r.value.Length ==>
             r.value[i] == if i < ColumnFor(tile.table, key).value.values.Length
                           then ColumnFor(tile.table, key).value.values[i]
                           else NaN
      ensures r.Ok? && !ColumnFor(tile.table, key).value.dictionary && ColumnFor(tile.table, key).value.float32 ==>
        r.value == ColumnFor(tile.table, key).value.values
    {
      if !tile.ready {
        return Err(TileNotReady);
      }
      var column := ColumnFor(tile.table, key);
      if column.None? {
        return Err(MissingColumn(key));
      }
      var c := column.value;
      var n := tile.table.length;
      if c.dictionary {
        var buffer := new Number[n](_ => Zero);
        var row := 0;
        while row < c.values.Length
          invariant 0 <= row <= c.values.Length
          invariant row > 0 ==> key in tile.localDictionaryLookups && key in tile.dictionaryLookups
          invariant forall i :: 0 <= i < n ==>
            buffer[i] == if i < row then DecodeRow(c.values[i], tile.localDictionaryLookups[key], tile.dictionaryLookups[key])
                         else Zero
        {
          if key !in tile.localDictionaryLookups || key !in tile.dictionaryLookups {
            return Err(MissingLookup(key));
          }
          var decoded := DecodeRow(c.values[row], tile.localDictionaryLookups[key], tile.dictionaryLookups[key]);
          if row < n {
            buffer[row] := decoded;
          }
          row := row + 1;
        }
        return Ok(buffer);
      }
      if !c.float32 {
        var buffer := new Number[n](_ => Zero);
        for i := 0 to n
          invariant forall j :: 0 <= j < i ==>
            buffer[j] == if j < c.values.Length then c.values[j] else NaN
        {
          buffer[i] := if i < c.values.Length then c.values[i] else NaN;
        }
        return Ok(buffer);
      }
      return Ok(c.values);
    }

    /** The descriptor `create_regl_buffer(key)` stores when the arena is in
        state `s`: the slice of the extent `Allocate` hands out. */
    ghost function Placed(s: Arena.ArenaState, key: string): Arena.Slice
      reads renderer.arena
      requires s.generations >= 1 && BuildError(tile, key).None?
      requires Arena.Allocate(s, DataLength(tile, key), 4).1.generation < |renderer.arena.buffers|
    {
      var e := Arena.Allocate(s, DataLength(tile, key), 4).1;
      Arena.Slice(Arena.Generation(renderer.arena.buffers, e.generation), e.offset, 4)
    }

    /** `create_regl_buffer`: allocates `data.length` four-byte items in the
        arena and stores the slice under `key`.  When building the data
        throws, nothing changes. */
    method CreateReglBuffer(key: string) returns (err: Option<Error>)
      requires renderer.arena.Valid()
      modifies tile.elements, renderer.arena
      ensures renderer.arena.Valid()
      ensures err == BuildError(tile, key)
      ensures err.Some? ==> unchanged(tile.elements) && unchanged(renderer.arena)
      ensures err.None? ==>
        && renderer.arena.Model() == Arena.Allocate(old(renderer.arena.Model()), DataLength(tile, key), 4).0
        && renderer.arena.issued == old(renderer.arena.issued) + [Arena.Allocate(old(renderer.arena.Model()), DataLength(tile, key), 4).1]
        && tile.elements.entries == old(tile.elements.entries)[key := Built(Placed(old(renderer.arena.Model()), key))]
      ensures |old(renderer.arena.buffers)| <= |renderer.arena.buffers|
      ensures forall g :: 0 <= g < |old(renderer.arena.buffers)| ==>
        Arena.Generation(renderer.arena.buffers, g) == Arena.Generation(old(renderer.arena.buffers), g)
    {
      var data := CreateBufferData(key);
      if data.Err? {
        return Some(data.error);
      }
      var desc := renderer.arena.AllocateBlock(data.value.Length, 4);
      tile.elements.entries := tile.elements.entries[key := Built(desc)];
      return None;
    }

    /** `get count`: the row count cached under `_count`, stored on the first
        call on a ready tile; nothing for a tile that is not ready. */
    method Count() returns (r: Option<Element>)
      modifies tile.elements
      ensures "_count" in old(tile.elements.entries) ==>
        r == Some(old(tile.elements.entries)["_count"]) && unchanged(tile.elements)
      ensures "_count" !in old(tile.elements.entries) && tile.ready ==>
        && r == Some(RowCount(tile.table.length))
        && tile.elements.entries == old(tile.elements.entries)["_count" := RowCount(tile.table.length)]
      ensures "_count" !in old(tile.elements.entries) && !tile.ready ==> r.None? && unchanged(tile.elements)
      ensures Progressed(old(tile.elements.entries), tile.elements.entries)
    {
      if "_count" in tile.elements.entries {
        return Some(tile.elements.entries["_count"]);
      }
      if tile.ready {
        tile.elements.entries := tile.elements.entries["_count" := RowCount(tile.table.length)];
        return Some(tile.elements.entries["_count"]);
      }
      return None;
    }

    /** `ready`: walks the bound fields and then `ix`.  A claimed key means a
        build is under way (false); an absent key on a tile that is not
        ready cannot be built (false).  Otherwise an absent key is claimed
        and then built at once (blocking) or queued, ending the walk with
        false (non-blocking).  True exactly when every key is built. */
    method Ready(fields: seq<string>, blockForBuffers: bool) returns (r: Result<bool, Error>, ghost built: seq<string>)
      requires renderer.Valid()
      modifies tile.elements, renderer.queue, renderer.arena
      ensures renderer.Valid()
      ensures Progressed(old(tile.elements.entries), tile.elements.entries)
      ensures r == Ok(true) <==> AllDone(tile.elements.entries, fields + ["ix"])
      ensures forall k :: k in fields + ["ix"] && StatusOf(old(tile.elements.entries), k) == Pending ==> r != Ok(true)
      ensures Poll(old(tile.elements.entries), fields + ["ix"], tile.ready).1.None? ==>
        && r == Ok(Poll(old(tile.elements.entries), fields + ["ix"], tile.ready).0)
        && unchanged(tile.elements) && unchanged(renderer.queue) && unchanged(renderer.arena)
      ensures !tile.ready ==> unchanged(tile.elements) && unchanged(renderer.queue) && unchanged(renderer.arena)
      ensures !blockForBuffers ==>
        && r == Ok(Poll(old(tile.elements.entries), fields + ["ix"], tile.ready).0)
        && unchanged(renderer.arena)
        && renderer.queue.shifted == old(renderer.queue.shifted)
        && match Poll(old(tile.elements.entries), fields + ["ix"], tile.ready).1
           case None => unchanged(tile.elements) && unchanged(renderer.queue)
           case Some(k) =>
             && tile.elements.entries == old(tile.elements.entries)[k := Claimed]
             && renderer.queue.tasks == old(renderer.queue.tasks) + [Task(this, k)]
      ensures !blockForBuffers ==> built == []
      ensures blockForBuffers ==> unchanged(renderer.queue)
      ensures blockForBuffers ==>
        && Bookkept(tile, renderer.arena, old(tile.elements.entries), old(renderer.arena.Model()), old(renderer.arena.issued), built)
        && (forall i :: 0 <= i < |built| ==> built[i] in fields + ["ix"])
        && (forall k :: k in tile.elements.entries && k !in old(tile.elements.entries) ==>
              k in built || (r.Err? && tile.elements.entries[k] == Claimed))
      ensures blockForBuffers ==>
        && (r, built) == BlockingWalk(old(tile.elements.entries), fields + ["ix"], tile.ready,
                                      BuildErrors(tile, fields + ["ix"]), 0, {})
        && ClaimedOnError(fields + ["ix"], BuildErrors(tile, fields + ["ix"]), old(tile.elements.entries),
                          tile.elements.entries, r)
      ensures r.Err? ==> exists k :: k in fields + ["ix"] && BuildError(tile, k) == Some(r.error)
    {
      var keys := fields + ["ix"];
      if blockForBuffers {
        r, built := ReadyBlocking(keys);
      } else {
        var done := ReadyDeferring(keys);
        r, built := Ok(done), [];
      }
      forall k | k in keys && StatusOf(old(tile.elements.entries), k) == Pending
        ensures r != Ok(true)
      {
        var i :| 0 <= i < |keys| && keys[i] == k;
        assert StatusOf(tile.elements.entries, keys[i]) == Pending;
      }
    }

    /** The blocking walk of `ready`: each absent key is claimed and built
        before the walk goes on.  `built` lists the keys it built. */
    method ReadyBlocking(keys: seq<string>) returns (r: Result<bool, Error>, ghost built: seq<string>)
      requires renderer.Valid()
      modifies tile.elements, renderer.arena
      ensures renderer.Valid()
      ensures r == Ok(true) <==> AllDone(tile.elements.entries, keys)
      ensures Bookkept(tile, renderer.arena, old(tile.elements.entries), old(renderer.arena.Model()), old(renderer.arena.issued), built)
      ensures forall i :: 0 <= i < |built| ==> built[i] in keys
      ensures forall k :: k in tile.elements.entries && k !in old(tile.elements.entries) ==>
        k in built || (r.Err? && tile.elements.entries[k] == Claimed)
      ensures Poll(old(tile.elements.entries), keys, tile.ready).1.None? ==>
        && r == Ok(Poll(old(tile.elements.entries), keys, tile.ready).0)
        && unchanged(tile.elements) && unchanged(renderer.arena)
      ensures (r, built) == BlockingWalk(old(tile.elements.entries), keys, tile.ready, BuildErrors(tile, keys), 0, {})
      ensures ClaimedOnError(keys, BuildErrors(tile, keys), old(tile.elements.entries), tile.elements.entries, r)
    {
      ghost var m0 := tile.elements.entries;
      ghost var a0 := renderer.arena.Model();
      ghost var l0 := renderer.arena.issued;
      built := [];
      ghost var done: set<string> := {};
      ghost var errs := BuildErrors(tile, keys);
      assert WalkPrefix(m0, keys, tile.ready, errs, 0, done, built) by {
        assert built + BlockingWalk(m0, keys, tile.ready, errs, 0, {}).1 == BlockingWalk(m0, keys, tile.ready, errs, 0, {}).1;
      }
      assert l0 + Arena.AllocateAll(a0, Requests(tile, built)).1 == l0;
      var i := 0;
      while i < |keys|
        invariant renderer.Valid()
        invariant Walking(keys, i, m0, a0, l0, built, done, errs)
        invariant built == [] ==> unchanged(tile.elements) && unchanged(renderer.arena)
      {
        var key := keys[i];
        var current := tile.elements.entries;
        if (key in current && current[key] == Claimed) || (key !in current && !tile.ready) {
          HaltAt(keys, i, m0, a0, l0, built, done, errs);
          return Ok(false), built;
        }
        if key !in current {
          var err := WalkBuild(keys, i, m0, a0, l0, built, done, errs);
          if err.Some? {
            return Err(err.value), built;
          }
          built, done := built + [key], done + {key};
        } else {
          PassPresent(keys, i, m0, a0, l0, built, done, errs);
        }
        i := i + 1;
      }
      HaltAtEnd(keys, m0, a0, l0, built, done, errs);
      r := Ok(true);
    }

    /** The blocking walk from `m0` (arena state `a0`, log `l0`) has passed
        the first `i` keys, building `built` (the set `done`) on the way, and
        still ends where the whole walk does. */
    ghost predicate Walking(keys: seq<string>, i: nat, m0: map<string, Element>, a0: Arena.ArenaState,
                            l0: seq<Arena.Extent>, built: seq<string>, done: set<string>,
                            errs: map<string, Option<Error>>)
      reads tile.elements, renderer.arena
      requires forall k :: k in keys ==> k in errs
    {
      && i <= |keys| && Walked(keys, i, m0, a0, l0, built) && (forall k :: k in done <==> k in built)
      && WalkPrefix(m0, keys, tile.ready, errs, i, done, built)
    }

    /** The blocking walk from `m0` has ended with `r`, having built `built`. */
    ghost predicate Halted(keys: seq<string>, m0: map<string, Element>, a0: Arena.ArenaState,
                           l0: seq<Arena.Extent>, built: seq<string>, errs: map<string, Option<Error>>,
                           r: Result<bool, Error>)
      reads tile.elements, renderer.arena
      requires forall k :: k in keys ==> k in errs
    {
      && BlockingWalk(m0, keys, tile.ready, errs, 0, {}) == (r, built)
      && (r == Ok(true) <==> AllDone(tile.elements.entries, keys))
      && Bookkept(tile, renderer.arena, m0, a0, l0, built)
      && (forall j :: 0 <= j < |built| ==> built[j] in keys)
      && (forall k :: k in tile.elements.entries && k !in m0 ==> k in built || (r.Err? && tile.elements.entries[k] == Claimed))
      && ClaimedOnError(keys, errs, m0, tile.elements.entries, r)
      && (Poll(m0, keys, tile.ready).1.None? ==> r == Ok(Poll(m0, keys, tile.ready).0) && built == [])
    }

    /** The walk stops with false at a claimed key, and at an absent key of
        a tile that is not ready. */
    lemma HaltAt(keys: seq<string>, i: nat, m0: map<string, Element>, a0: Arena.ArenaState,
                 l0: seq<Arena.Extent>, built: seq<string>, done: set<string>, errs: map<string, Option<Error>>)
      requires (forall k :: k in keys ==> k in errs) && i < |keys| && Walking(keys, i, m0, a0, l0, built, done, errs)
      requires var e := tile.elements.entries;
        (keys[i] in e && e[keys[i]] == Claimed) || (keys[i] !in e && !tile.ready)
      ensures Halted(keys, m0, a0, l0, built, errs, Ok(false))
    {
      var e := tile.elements.entries;
      WalkFacts(m0, a0, l0, built, Requests(tile, built), e, renderer.arena.Model(), renderer.arena.issued,
                renderer.arena.buffers, keys, i, tile.ready, done);
      WalkNext(m0, keys, tile.ready, errs, i, done, built, e);
      OkLeavesNoClaim(keys, errs, m0, e, false);
      if built == [] {
        assert Poll(m0, keys[i..], tile.ready) == (false, None);
      }
    }

    /** The walk passes a key that is built already. */
    lemma PassPresent(keys: seq<string>, i: nat, m0: map<string, Element>, a0: Arena.ArenaState,
                      l0: seq<Arena.Extent>, built: seq<string>, done: set<string>, errs: map<string, Option<Error>>)
      requires (forall k :: k in keys ==> k in errs) && i < |keys| && Walking(keys, i, m0, a0, l0, built, done, errs)
      requires keys[i] in tile.elements.entries && tile.elements.entries[keys[i]] != Claimed
      ensures Walking(keys, i + 1, m0, a0, l0, built, done, errs)
    {
      var e := tile.elements.entries;
      WalkFacts(m0, a0, l0, built, Requests(tile, built), e, renderer.arena.Model(), renderer.arena.issued,
                renderer.arena.buffers, keys, i, tile.ready, done);
      WalkNext(m0, keys, tile.ready, errs, i, done, built, e);
      WalkPresent(keys, i, m0, built, e, tile.ready);
    }

    /** The walk past the last key answers true. */
    lemma HaltAtEnd(keys: seq<string>, m0: map<string, Element>, a0: Arena.ArenaState,
                    l0: seq<Arena.Extent>, built: seq<string>, done: set<string>, errs: map<string, Option<Error>>)
      requires (forall k :: k in keys ==> k in errs) && Walking(keys, |keys|, m0, a0, l0, built, done, errs)
      ensures Halted(keys, m0, a0, l0, built, errs, Ok(true))
    {
      var e := tile.elements.entries;
      AllDoneOfPrefix(e, keys);
      WalkFacts(m0, a0, l0, built, Requests(tile, built), e, renderer.arena.Model(), renderer.arena.issued,
                renderer.arena.buffers, keys, |keys|, tile.ready, done);
      WalkEnd(m0, keys, tile.ready, errs, done, built);
      OkLeavesNoClaim(keys, errs, m0, e, true);
      if built == [] {
        assert keys[|keys|..] == [];
      }
    }

    /** The walk at an absent key `keys[i]` of a ready tile: the key is
        built and the walk goes on, or its build fails and the walk stops. */
    method WalkBuild(keys: seq<string>, i: nat, ghost m0: map<string, Element>, ghost a0: Arena.ArenaState,
                     ghost l0: seq<Arena.Extent>, ghost built: seq<string>, ghost done: set<string>,
                     ghost errs: map<string, Option<Error>>) returns (err: Option<Error>)
      requires renderer.Valid() && (forall k :: k in keys ==> k in errs) && i < |keys|
      requires Walking(keys, i, m0, a0, l0, built, done, errs) && errs[keys[i]] == BuildError(tile, keys[i])
      requires keys[i] !in tile.elements.entries && tile.ready
      modifies tile.elements, renderer.arena
      ensures renderer.Valid()
      ensures err.None? ==> Walking(keys, i + 1, m0, a0, l0, built + [keys[i]], done + {keys[i]}, errs)
      ensures err.Some? ==> Halted(keys, m0, a0, l0, built, errs, Err(err.value))
    {
      ghost var before := tile.elements.entries;
      WalkFacts(m0, a0, l0, built, Requests(tile, built), before, renderer.arena.Model(), renderer.arena.issued,
                renderer.arena.buffers, keys, i, tile.ready, done);
      WalkNext(m0, keys, tile.ready, errs, i, done, built, before);
      err := WalkAbsent(keys, i, m0, a0, l0, built);
      if err.Some? {
        ErrorLeavesClaim(keys, errs, m0, tile.elements.entries, built, keys[i], err.value);
      }
    }

    /** The blocking walk has passed the first `i` keys, which are all
        built now; `built` are the keys it built on the way. */
    ghost predicate Walked(keys: seq<string>, i: nat, m0: map<string, Element>, a0: Arena.ArenaState,
                           l0: seq<Arena.Extent>, built: seq<string>)
      reads tile.elements, renderer.arena
    {
      Bookkept(tile, renderer.arena, m0, a0, l0, built) && WalkedIn(keys, i, m0, built, tile.elements.entries, tile.ready)
    }

    /** The blocking walk at an absent key `keys[i]`: claim and build it. */
    method WalkAbsent(keys: seq<string>, i: nat, ghost m0: map<string, Element>, ghost a0: Arena.ArenaState,
                      ghost l0: seq<Arena.Extent>, ghost built: seq<string>) returns (err: Option<Error>)
      requires renderer.Valid() && Walked(keys, i, m0, a0, l0, built)
      requires i < |keys| && keys[i] !in tile.elements.entries && tile.ready
      modifies tile.elements, renderer.arena
      ensures renderer.Valid()
      ensures err == BuildError(tile, keys[i])
      ensures err.None? ==> Walked(keys, i + 1, m0, a0, l0, built + [keys[i]])
      ensures err.Some? ==>
        && Bookkept(tile, renderer.arena, m0, a0, l0, built) && Poll(m0, keys, tile.ready).1.Some?
        && keys[i] in tile.elements.entries && tile.elements.entries[keys[i]] == Claimed
        && forall k :: k in tile.elements.entries && k !in m0 ==> k in built || k == keys[i]
    {
      ghost var before := tile.elements.entries;
      err := BuildAbsent(keys[i], m0, a0, l0, built);
      WalkBuilds(keys, i, m0, built, before, tile.elements.entries, tile.ready);
    }

    /** One absent key of the blocking walk, claimed and built at once and
        booked after the keys `built` before it. */
    method BuildAbsent(key: string, ghost m0: map<string, Element>, ghost a0: Arena.ArenaState,
                       ghost l0: seq<Arena.Extent>, ghost built: seq<string>) returns (err: Option<Error>)
      requires renderer.Valid() && key !in tile.elements.entries && Bookkept(tile, renderer.arena, m0, a0, l0, built)
      modifies tile.elements, renderer.arena
      ensures renderer.Valid()
      ensures err == BuildError(tile, key)
      ensures forall k :: k in old(tile.elements.entries) ==>
        k in tile.elements.entries && tile.elements.entries[k] == old(tile.elements.entries)[k]
      ensures forall k :: k in tile.elements.entries ==> k in old(tile.elements.entries) || k == key
      ensures err.Some? ==>
        Bookkept(tile, renderer.arena, m0, a0, l0, built) && key in tile.elements.entries && tile.elements.entries[key] == Claimed
      ensures err.None? ==>
        Bookkept(tile, renderer.arena, m0, a0, l0, built + [key]) && key in tile.elements.entries && tile.elements.entries[key].Built?
    {
      ghost var entries0, model0 := tile.elements.entries, renderer.arena.Model();
      ghost var issued0, buffers0 := renderer.arena.issued, renderer.arena.buffers;
      err := ClaimAndBuild(key);
      if err.Some? {
        BookedClaim(m0, a0, l0, built, Requests(tile, built), entries0, model0, issued0, buffers0, key);
      } else {
        assert (built + [key])[..|built|] == built;
        assert Requests(tile, built + [key]) == Requests(tile, built) + [(DataLength(tile, key), 4)];
        BookedSnoc(m0, a0, l0, built, Requests(tile, built), entries0, model0, issued0, buffers0,
                   key, DataLength(tile, key), renderer.arena.buffers);
      }
    }

    /** The non-blocking walk of `ready`: the first absent key is claimed and
        its build queued, which ends the walk. */
    method ReadyDeferring(keys: seq<string>) returns (done: bool)
      requires renderer.Valid()
      modifies tile.elements, renderer.queue
      ensures renderer.Valid()
      ensures done == Poll(old(tile.elements.entries), keys, tile.ready).0
      ensures renderer.queue.shifted == old(renderer.queue.shifted)
      ensures match Poll(old(tile.elements.entries), keys, tile.ready).1
        case None => unchanged(tile.elements) && unchanged(renderer.queue)
        case Some(k) =>
          && tile.elements.entries == old(tile.elements.entries)[k := Claimed]
          && renderer.queue.tasks == old(renderer.queue.tasks) + [Task(this, k)]
    {
      ghost var m0 := tile.elements.entries;
      var i := 0;
      while i < |keys|
        invariant 0 <= i <= |keys|
        invariant unchanged(tile.elements) && unchanged(renderer.queue)
        invariant Poll(m0, keys, tile.ready) == Poll(m0, keys[i..], tile.ready)
      {
        var key := keys[i];
        var current := tile.elements.entries;
        if key in current && current[key] == Claimed {
          return false;
        }
        if key !in current {
          if !tile.ready {
            return false;
          }
          Claim(key);
          Enqueue(key);
          return false;
        }
        i := i + 1;
      }
      return true;
    }

    /** Claims an absent key and builds its buffer at once.  A build that
        throws leaves the key claimed. */
    method ClaimAndBuild(key: string) returns (err: Option<Error>)
      requires renderer.Valid() && key !in tile.elements.entries
      modifies tile.elements, renderer.arena
      ensures renderer.Valid()
      ensures err == BuildError(tile, key)
      ensures err.Some? ==>
        tile.elements.entries == old(tile.elements.entries)[key := Claimed] && unchanged(renderer.arena)
      ensures err.None? ==>
        && renderer.arena.Model() == Arena.Allocate(old(renderer.arena.Model()), DataLength(tile, key), 4).0
        && renderer.arena.issued == old(renderer.arena.issued) + [Arena.Allocate(old(renderer.arena.Model()), DataLength(tile, key), 4).1]
        && tile.elements.entries == old(tile.elements.entries)[key := Built(Placed(old(renderer.arena.Model()), key))]
      ensures |old(renderer.arena.buffers)| <= |renderer.arena.buffers|
      ensures forall g :: 0 <= g < |old(renderer.arena.buffers)| ==>
        Arena.Generation(renderer.arena.buffers, g) == Arena.Generation(old(renderer.arena.buffers), g)
    {
      Claim(key);
      label Claimed:
      err := CreateReglBuffer(key);
      forall j | 0 <= j < |renderer.queue.tasks|
        ensures Queued(renderer.queue.tasks[j])
      {
        assert old@Claimed(Queued(renderer.queue.tasks[j]));
        assert !SameSlot(renderer.queue.tasks[j], Task(this, key));
      }
    }

    /** Marks an absent key as claimed; every queued task stays waiting. */
    method Claim(key: string)
      requires renderer.Valid() && key !in tile.elements.entries
      modifies tile.elements
      ensures tile.elements.entries == old(tile.elements.entries)[key := Claimed]
      ensures renderer.Valid()
      ensures forall i :: 0 <= i < |renderer.queue.tasks| ==> !SameSlot(renderer.queue.tasks[i], Task(this, key))
    {
      forall i | 0 <= i < |renderer.queue.tasks|
        ensures !SameSlot(renderer.queue.tasks[i], Task(this, key))
      {
        assert Queued(renderer.queue.tasks[i]);
      }
      tile.elements.entries := tile.elements.entries[key := Claimed];
      forall i | 0 <= i < |renderer.queue.tasks|
        ensures Queued(renderer.queue.tasks[i])
      {
        assert old(Queued(renderer.queue.tasks[i]));
      }
    }

    /** Pushes the deferred build of a just-claimed key. */
    method Enqueue(key: string)
      requires renderer.arena.Valid()
      requires forall i :: 0 <= i < |renderer.queue.tasks| ==> renderer.queue.tasks[i].manager.renderer == renderer
      requires forall i :: 0 <= i < |renderer.queue.tasks| ==> Queued(renderer.queue.tasks[i])
      requires forall i, j :: 0 <= i < j < |renderer.queue.tasks| ==>
        !SameSlot(renderer.queue.tasks[i], renderer.queue.tasks[j])
      requires forall i :: 0 <= i < |renderer.queue.tasks| ==> !SameSlot(renderer.queue.tasks[i], Task(this, key))
      requires key in tile.elements.entries && tile.elements.entries[key] == Claimed
      modifies renderer.queue
      ensures renderer.queue.tasks == old(renderer.queue.tasks) + [Task(this, key)]
      ensures renderer.queue.shifted == old(renderer.queue.shifted)
      ensures renderer.Valid()
    {
      renderer.queue.tasks := renderer.queue.tasks + [Task(this, key)];
    }
  }

  /** Since the entries `m0` and the arena state `a0` with log `l0`, the
      keys `built` (distinct, all absent from `m0`) were built in order by
      the allocation requests `reqs`: the arena, now in state `model` with
      log `issued` and buffers `buffers`, made exactly one allocation per
      key, each key holds the slice of its own extent, and every entry of
      `m0` is untouched in `entries`. */
  ghost predicate Booked(m0: map<string, Element>, a0: Arena.ArenaState, l0: seq<Arena.Extent>,
                         built: seq<string>, reqs: seq<(nat, nat)>, entries: map<string, Element>,
                         model: Arena.ArenaState, issued: seq<Arena.Extent>, buffers: seq<Arena.DeviceBuffer>)
  {
    && a0.generations >= 1 && |reqs| == |built| && model.generations == |buffers|
    && (forall i, j :: 0 <= i < j < |built| ==> built[i] != built[j])
    && model == Arena.AllocateAll(a0, reqs).0
    && issued == l0 + Arena.AllocateAll(a0, reqs).1
    && (forall k :: k in m0 ==> k in entries && entries[k] == m0[k])
    && (forall i :: 0 <= i < |built| ==>
          var e := Arena.AllocateAll(a0, reqs).1[i];
          && built[i] !in m0 && built[i] in entries && e.generation < |buffers|
          && entries[built[i]] == Built(Arena.Slice(Arena.Generation(buffers, e.generation), e.offset, 4)))
  }

  /** Building one more absent key through one more allocation extends the
      booking by that key. */
  lemma BookedSnoc(m0: map<string, Element>, a0: Arena.ArenaState, l0: seq<Arena.Extent>,
                   built: seq<string>, reqs: seq<(nat, nat)>, entries: map<string, Element>,
                   model: Arena.ArenaState, issued: seq<Arena.Extent>, buffers: seq<Arena.DeviceBuffer>,
                   key: string, items: nat, buffers': seq<Arena.DeviceBuffer>)
    requires Booked(m0, a0, l0, built, reqs, entries, model, issued, buffers)
    requires key !in entries
    requires Arena.Allocate(model, items, 4).0.generations == |buffers'|
    requires |buffers| <= |buffers'|
    requires forall g :: 0 <= g < |buffers| ==> Arena.Generation(buffers', g) == Arena.Generation(buffers, g)
    ensures var (model', e) := Arena.Allocate(model, items, 4);
      Booked(m0, a0, l0, built + [key], reqs + [(items, 4)],
             entries[key := Built(Arena.Slice(Arena.Generation(buffers', e.generation), e.offset, 4))],
             model', issued + [e], buffers')
  {
    Arena.AllocateAllSnoc(a0, reqs, (items, 4));
    var es := Arena.AllocateAll(a0, reqs).1;
    var e := Arena.Allocate(model, items, 4).1;
    assert Arena.AllocateAll(a0, reqs + [(items, 4)]).1 == es + [e];
    assert l0 + (es + [e]) == l0 + es + [e];
  }

  /** Claiming one more absent key without building it keeps the booking. */
  lemma BookedClaim(m0: map<string, Element>, a0: Arena.ArenaState, l0: seq<Arena.Extent>,
                    built: seq<string>, reqs: seq<(nat, nat)>, entries: map<string, Element>,
                    model: Arena.ArenaState, issued: seq<Arena.Extent>, buffers: seq<Arena.DeviceBuffer>, key: string)
    requires Booked(m0, a0, l0, built, reqs, entries, model, issued, buffers)
    requires key !in entries
    ensures Booked(m0, a0, l0, built, reqs, entries[key := Claimed], model, issued, buffers)
  {
  }

  /** The entries `entries` are where the blocking walk stands after the
      first `i` keys, from the entries `m0`, having built `built`. */
  ghost predicate WalkedIn(keys: seq<string>, i: nat, m0: map<string, Element>, built: seq<string>,
                           entries: map<string, Element>, tileReady: bool)
  {
    && i <= |keys|
    && (forall j :: 0 <= j < |built| ==> built[j] in keys)
    && (forall k :: k in entries && k !in m0 ==> k in built)
    && (forall j :: 0 <= j < i ==> StatusOf(entries, keys[j]) == Done)
    && (built == [] ==> entries == m0 && Poll(m0, keys, tileReady) == Poll(m0, keys[i..], tileReady))
    && (built != [] ==> Poll(m0, keys, tileReady).1.Some?)
  }

  /** The blocking walk past a key that is already built. */
  lemma WalkPresent(keys: seq<string>, i: nat, m0: map<string, Element>, built: seq<string>,
                    entries: map<string, Element>, tileReady: bool)
    requires WalkedIn(keys, i, m0, built, entries, tileReady)
    requires i < |keys| && StatusOf(entries, keys[i]) == Done
    ensures WalkedIn(keys, i + 1, m0, built, entries, tileReady)
  {
    if built == [] {
      assert keys[i..][1..] == keys[i + 1..];
    }
  }

  /** The blocking walk at the absent key `keys[i]` of a ready tile: it is
      built (and the walk goes on) or left claimed (and the walk stops). */
  lemma WalkBuilds(keys: seq<string>, i: nat, m0: map<string, Element>, built: seq<string>,
                   before: map<string, Element>, after: map<string, Element>, tileReady: bool)
    requires WalkedIn(keys, i, m0, built, before, tileReady)
    requires i < |keys| && keys[i] !in before && tileReady
    requires forall k :: k in before ==> k in after && after[k] == before[k]
    requires forall k :: k in after ==> k in before || k == keys[i]
    requires keys[i] in after
    ensures after[keys[i]].Built? ==> WalkedIn(keys, i + 1, m0, built + [keys[i]], after, tileReady)
    ensures Poll(m0, keys, tileReady).1.Some?
    ensures forall k :: k in after && k !in m0 ==> k in built || k == keys[i]
  {
    if built == [] {
      assert Poll(m0, keys[i..], tileReady).1 == Some(keys[i]);
    }
  }

  /** What the bookkeeping of the blocking walk says about the entries:
      the entries of `m0` are untouched, the only new keys are the built
      ones (`done`), and those are built. */
  lemma WalkFacts(m0: map<string, Element>, a0: Arena.ArenaState, l0: seq<Arena.Extent>,
                  built: seq<string>, reqs: seq<(nat, nat)>, entries: map<string, Element>,
                  model: Arena.ArenaState, issued: seq<Arena.Extent>, buffers: seq<Arena.DeviceBuffer>,
                  keys: seq<string>, i: nat, tileReady: bool, done: set<string>)
    requires Booked(m0, a0, l0, built, reqs, entries, model, issued, buffers)
    requires WalkedIn(keys, i, m0, built, entries, tileReady)
    requires forall k :: k in done <==> k in built
    ensures forall k :: k in m0 ==> k in entries && entries[k] == m0[k]
    ensures forall k :: k in entries && k !in m0 ==> k in done
    ensures forall k :: k in done ==> k !in m0 && k in entries && entries[k].Built?
    ensures forall k :: k in entries && k !in m0 ==> entries[k] != Claimed
  {
    forall k | k in done
      ensures k !in m0 && k in entries && entries[k].Built?
    {
      var j :| 0 <= j < |built| && built[j] == k;
    }
  }

  lemma AllDoneOfPrefix(m: map<string, Element>, keys: seq<string>)
    requires forall j :: 0 <= j < |keys| ==> StatusOf(m, keys[j]) == Done
    ensures AllDone(m, keys)
  {
  }

  /** How many tasks the drain runs when `queued` tasks are waiting: check
      number `j` reads the clock once more and stops the drain once the
      queue is exhausted or 10 ms have passed. */
  function DrainCount(clock: nat -> int, queued: nat): (k: nat)
    ensures k <= queued
    ensures forall j :: 0 <= j < k ==> Elapsed(clock, j) < 10
    ensures k == queued || Elapsed(clock, k) >= 10
  {
    DrainFrom(clock, 0, queued)
  }

  /** The time check number `j` of the drain sees since its start. */
  function Elapsed(clock: nat -> int, j: nat): int
  {
    clock(j + 1) - clock(0)
  }

  function DrainFrom(clock: nat -> int, j: nat, queued: nat): (k: nat)
    requires j <= queued
    ensures j <= k <= queued
    ensures forall i :: j <= i < k ==> Elapsed(clock, i) < 10
    ensures k == queued || Elapsed(clock, k) >= 10
    decreases queued - j
  {
    if j == queued || Elapsed(clock, j) >= 10 then j else DrainFrom(clock, j + 1, queued)
  }

  /** When the first check finds time left, a non-empty queue makes
      progress: at least one task runs per tick. */
  lemma DrainRunsOneWhenOnTime(clock: nat -> int, queued: nat)
    requires queued > 0 && Elapsed(clock, 0) < 10
    ensures DrainCount(clock, queued) >= 1
  {
  }

  /** With a clock that never passes the budget, the whole queue runs. */
  lemma DrainEmptiesWithinBudget(clock: nat -> int, queued: nat)
    requires forall j :: 0 <= j <= queued ==> Elapsed(clock, j) < 10
    ensures DrainCount(clock, queued) == queued
  {
  }

  /** Every tile's entries, in the order of `tiles`. */
  ghost function EntriesOf(tiles: seq<Tile>): (r: seq<map<string, Element>>)
    reads set t | t in tiles :: t.elements
    ensures |r| == |tiles| && forall i :: 0 <= i < |tiles| ==> r[i] == tiles[i].elements.entries
  {
    if |tiles| == 0 then [] else EntriesOf(tiles[..|tiles| - 1]) + [tiles[|tiles| - 1].elements.entries]
  }

  /** The entries of every task's tile, in the order of `q`. */
  ghost function TaskEntries(q: seq<Task>): (r: seq<map<string, Element>>)
    reads ElementsOf(q)
    ensures |r| == |q| && forall i :: 0 <= i < |q| ==> r[i] == ElementsOfTask(q[i]).entries
  {
    if |q| == 0 then [] else TaskEntries(q[..|q| - 1]) + [ElementsOfTask(q[|q| - 1]).entries]
  }

  /** Tile i is the only tile of `visible` that holds its element map: no
      other tile's visit can change its entries. */
  predicate OwnMap(visible: seq<Tile>, i: int)
  {
    0 <= i < |visible| && forall j :: 0 <= j < |visible| && visible[j].elements == visible[i].elements ==> visible[j] == visible[i]
  }

  /** What the loop of `render_points` has established, when it blocks,
      after visiting the first `n` tiles: `before[i]` are the entries tile i
      was visited with, its answer is the blocking walk over them, and a
      tile that holds its map alone and began with every key buildable
      still has them buildable (so its walk succeeds). */
  ghost predicate CollectedBlocking(visible: seq<Tile>, keys: seq<string>, n: nat, start: seq<map<string, Element>>,
                                    now: seq<map<string, Element>>, results: seq<Result<bool, Error>>,
                                    before: seq<map<string, Element>>, after: seq<map<string, Element>>)
  {
    && n <= |visible| && |start| == |visible| && |now| == |visible|
    && |results| == n && |before| == n && |after| == n
    && (forall i :: 0 <= i < n ==>
          && Progressed(start[i], before[i]) && Progressed(before[i], after[i])
          && results[i] == BlockingWalk(before[i], keys, visible[i].ready, BuildErrors(visible[i], keys), 0, {}).0)
    && (forall i :: 0 <= i < |visible| && OwnMap(visible, i) &&
                    Buildable(start[i], keys, visible[i].ready, BuildErrors(visible[i], keys)) ==>
          Buildable(now[i], keys, visible[i].ready, BuildErrors(visible[i], keys)))
    && (forall i :: 0 <= i < n && OwnMap(visible, i) &&
                    Buildable(start[i], keys, visible[i].ready, BuildErrors(visible[i], keys)) ==>
          Buildable(before[i], keys, visible[i].ready, BuildErrors(visible[i], keys)))
  }

  /** One blocking visit keeps what the loop has established: it moves the
      visited map forward, leaves every other map alone, claims a key only
      when its build throws, and answers with the blocking walk. */
  lemma CollectedBlockingStep(visible: seq<Tile>, keys: seq<string>, n: nat, start: seq<map<string, Element>>,
                              now0: seq<map<string, Element>>, now: seq<map<string, Element>>,
                              results: seq<Result<bool, Error>>, before: seq<map<string, Element>>,
                              after: seq<map<string, Element>>, r: Result<bool, Error>)
    requires n < |visible| && CollectedBlocking(visible, keys, n, start, now0, results, before, after)
    requires |now| == |visible|
    requires forall i :: 0 <= i < |visible| && visible[i].elements != visible[n].elements ==> now[i] == now0[i]
    requires forall i :: 0 <= i < |visible| && visible[i].elements == visible[n].elements ==>
      now[i] == now[n] && now0[i] == now0[n]
    requires Progressed(start[n], now0[n]) && Progressed(now0[n], now[n])
    requires r == BlockingWalk(now0[n], keys, visible[n].ready, BuildErrors(visible[n], keys), 0, {}).0
    requires forall k :: k in now[n] && k !in now0[n] && now[n][k] == Claimed ==> k in keys && BuildError(visible[n], k).Some?
    ensures CollectedBlocking(visible, keys, n + 1, start, now, results + [r], before + [now0[n]], after + [now[n]])
  {
    var results', before', after' := results + [r], before + [now0[n]], after + [now[n]];
    var errs := BuildErrors(visible[n], keys);
    forall i | 0 <= i < |visible| && OwnMap(visible, i) &&
               Buildable(start[i], keys, visible[i].ready, BuildErrors(visible[i], keys))
      ensures Buildable(now[i], keys, visible[i].ready, BuildErrors(visible[i], keys))
    {
      if visible[i].elements == visible[n].elements {
        assert visible[n] == visible[i];
        BuildableKept(now0[i], now[i], keys, visible[i].ready, errs);
      }
    }
    forall i | 0 <= i <= n
      ensures Progressed(start[i], before'[i]) && Progressed(before'[i], after'[i])
      ensures results'[i] == BlockingWalk(before'[i], keys, visible[i].ready, BuildErrors(visible[i], keys), 0, {}).0
      ensures OwnMap(visible, i) && Buildable(start[i], keys, visible[i].ready, BuildErrors(visible[i], keys)) ==>
        Buildable(before'[i], keys, visible[i].ready, BuildErrors(visible[i], keys))
    {
      if i < n {
        assert results'[i] == results[i] && before'[i] == before[i] && after'[i] == after[i];
      } else {
        assert results'[i] == r && before'[i] == now0[n] && after'[i] == now[n];
      }
    }
  }

  /** Once every tile is visited, a tile that holds its map alone and began
      with every key buildable answered true. */
  lemma CollectedBlockingAll(visible: seq<Tile>, keys: seq<string>, start: seq<map<string, Element>>,
                             now: seq<map<string, Element>>, results: seq<Result<bool, Error>>,
                             before: seq<map<string, Element>>, after: seq<map<string, Element>>)
    requires CollectedBlocking(visible, keys, |visible|, start, now, results, before, after)
    ensures forall i :: (0 <= i < |visible| && OwnMap(visible, i) &&
                         Buildable(start[i], keys, visible[i].ready, BuildErrors(visible[i], keys)) ==>
                         results[i] == Ok(true))
  {
    forall i | 0 <= i < |visible| && OwnMap(visible, i) &&
               Buildable(start[i], keys, visible[i].ready, BuildErrors(visible[i], keys))
      ensures results[i] == Ok(true)
    {
      BuildableWalkSucceeds(before[i], keys, visible[i].ready, BuildErrors(visible[i], keys), 0, {});
    }
  }

  /** What `render_points` promises about its loop, on values: `start` and
      `now` are every visible tile's entries before and after the loop, `q0`
      and `q` the build queue before and after it, `before[i]` and
      `after[i]` the entries of tile i right before and right after its own
      `ready` call.  Each answer is true exactly when the tile's keys were
      all built right after its call; the batch is the tiles that answered
      true, in reverse visiting order, and all of them are fully built at
      the end; a tile fully built at the start answers true; entries only
      move forward.  When `ready` blocks, nothing is queued, each answer is
      the blocking walk over the tile's entries at its call, and a tile
      whose keys can all be built at the start (and whose entries no other
      visible tile shares) makes it into the batch. */
  ghost predicate Rendered(visible: seq<Tile>, fields: seq<string>, block: bool, start: seq<map<string, Element>>,
                           now: seq<map<string, Element>>, q0: seq<Task>, q: seq<Task>,
                           results: seq<Result<bool, Error>>, batch: seq<Tile>,
                           before: seq<map<string, Element>>, after: seq<map<string, Element>>)
  {
    var keys := fields + ["ix"];
    && |start| == |visible| && |now| == |visible|
    && |results| == |visible| && |before| == |visible| && |after| == |visible|
    && batch == Reversed(Kept(visible, results))
    && (forall i :: 0 <= i < |visible| ==> (results[i] == Ok(true) <==> AllDone(after[i], keys)))
    && (forall i :: 0 <= i < |visible| ==> Progressed(start[i], after[i]) && Progressed(after[i], now[i]))
    && (forall i :: 0 <= i < |visible| ==> Progressed(start[i], now[i]))
    && (forall i :: 0 <= i < |visible| && results[i] == Ok(true) ==> visible[i] in batch && AllDone(now[i], keys))
    && (forall i :: 0 <= i < |visible| && AllDone(start[i], keys) ==> results[i] == Ok(true))
    && (forall t :: t in batch ==> exists i :: 0 <= i < |visible| && visible[i] == t && results[i] == Ok(true))
    && (block ==> q == q0)
    && (block ==> forall i :: 0 <= i < |visible| ==>
          && Progressed(start[i], before[i]) && Progressed(before[i], after[i])
          && results[i] == BlockingWalk(before[i], keys, visible[i].ready, BuildErrors(visible[i], keys), 0, {}).0)
    && (block ==> forall i ::
          (0 <= i < |visible| && OwnMap(visible, i) && Buildable(start[i], keys, visible[i].ready, BuildErrors(visible[i], keys))
           ==> results[i] == Ok(true) && visible[i] in batch))
  }

  /** What a blocking `render_points` leaves in place: the queue, entries
      that only moved forward, and every tile fully built at the start in
      the batch. */
  lemma RenderedBlocking(visible: seq<Tile>, fields: seq<string>, start: seq<map<string, Element>>,
                         now: seq<map<string, Element>>, q0: seq<Task>, q: seq<Task>,
                         results: seq<Result<bool, Error>>, batch: seq<Tile>,
                         before: seq<map<string, Element>>, after: seq<map<string, Element>>)
    requires Rendered(visible, fields, true, start, now, q0, q, results, batch, before, after)
    ensures q == q0 && |start| == |visible| && |now| == |visible|
    ensures Rendered(visible, fields, true, start, now, q, q, results, batch, before, after)
    ensures forall i :: 0 <= i < |visible| ==> Progressed(start[i], now[i])
    ensures forall i :: 0 <= i < |visible| && AllDone(start[i], fields + ["ix"]) ==> visible[i] in batch
  {
  }

  /** The loop's invariants, once every tile is visited, give what
      `render_points` promises. */
  lemma RenderedFromCollected(visible: seq<Tile>, fields: seq<string>, block: bool, start: seq<map<string, Element>>,
                              now: seq<map<string, Element>>, q0: seq<Task>, q: seq<Task>,
                              results: seq<Result<bool, Error>>, propList: seq<Tile>, batch: seq<Tile>,
                              before: seq<map<string, Element>>, after: seq<map<string, Element>>)
    requires Collected(visible, fields, |visible|, start, now, results, after, propList)
    requires batch == Reversed(propList) && |before| == |visible|
    requires block ==> q == q0
    requires block ==> CollectedBlocking(visible, fields + ["ix"], |visible|, start, now, results, before, after)
    ensures Rendered(visible, fields, block, start, now, q0, q, results, batch, before, after)
  {
    var keys := fields + ["ix"];
    CollectedAll(visible, fields, start, now, results, after, propList);
    BatchHasEveryReadyTile(visible, results);
    forall i | 0 <= i < |visible| && AllDone(start[i], keys)
      ensures results[i] == Ok(true)
    {
      ProgressedKeepsDone(start[i], after[i], keys);
    }
    forall i | 0 <= i < |visible|
      ensures Progressed(start[i], now[i])
    {
      ProgressedTransitive(start[i], after[i], now[i]);
    }
    if block {
      CollectedBlockingAll(visible, keys, start, now, results, before, after);
    }
  }

  /** What the loop of `render_points` has established after visiting the
      first `n` tiles: `start` and `now` are every tile's entries before the
      loop and at this point, `after[i]` those of tile i right after its
      own visit. */
  ghost predicate Collected(visible: seq<Tile>, fields: seq<string>, n: nat, start: seq<map<string, Element>>,
                            now: seq<map<string, Element>>, results: seq<Result<bool, Error>>,
                            after: seq<map<string, Element>>, propList: seq<Tile>)
  {
    && n <= |visible| && |start| == |visible| && |now| == |visible| && |results| == n && |after| == n
    && propList == Kept(visible[..n], results)
    && (forall i :: 0 <= i < n ==> (results[i] == Ok(true) <==> AllDone(after[i], fields + ["ix"])))
    && (forall i :: 0 <= i < n ==> Progressed(start[i], after[i]) && Progressed(after[i], now[i]))
    && (forall i :: 0 <= i < |visible| ==> Progressed(start[i], now[i]))
    && (forall i :: 0 <= i < n && results[i] == Ok(true) ==> AllDone(now[i], fields + ["ix"]))
  }

  /** Once every tile is visited, what the loop established holds of all
      of them. */
  lemma CollectedAll(visible: seq<Tile>, fields: seq<string>, start: seq<map<string, Element>>,
                     now: seq<map<string, Element>>, results: seq<Result<bool, Error>>,
                     after: seq<map<string, Element>>, propList: seq<Tile>)
    requires Collected(visible, fields, |visible|, start, now, results, after, propList)
    ensures |results| == |visible| && |after| == |visible| && propList == Kept(visible, results)
    ensures forall i :: 0 <= i < |visible| ==> (results[i] == Ok(true) <==> AllDone(after[i], fields + ["ix"]))
    ensures forall i :: 0 <= i < |visible| ==> Progressed(start[i], after[i]) && Progressed(after[i], now[i])
    ensures forall i :: 0 <= i < |visible| && results[i] == Ok(true) ==> AllDone(now[i], fields + ["ix"])
  {
    assert visible[..|visible|] == visible;
  }

  /** One visit keeps what the loop has established, given that it only
      moves entries forward and that the visited tile's answer matches its
      entries right after the visit. */
  lemma CollectedStep(visible: seq<Tile>, fields: seq<string>, n: nat, start: seq<map<string, Element>>,
                      before: seq<map<string, Element>>, now: seq<map<string, Element>>,
                      results: seq<Result<bool, Error>>, after: seq<map<string, Element>>, propList: seq<Tile>,
                      r: Result<bool, Error>)
    requires n < |visible| && Collected(visible, fields, n, start, before, results, after, propList)
    requires |now| == |visible| && forall i :: 0 <= i < |visible| ==> Progressed(before[i], now[i])
    requires r == Ok(true) <==> AllDone(now[n], fields + ["ix"])
    ensures Collected(visible, fields, n + 1, start, now, results + [r], after + [now[n]],
                      if r == Ok(true) then propList + [visible[n]] else propList)
  {
    var keys := fields + ["ix"];
    forall i | 0 <= i < |visible|
      ensures Progressed(start[i], now[i])
    {
      ProgressedTransitive(start[i], before[i], now[i]);
    }
    forall i | 0 <= i < n
      ensures Progressed(after[i], now[i])
    {
      ProgressedTransitive(after[i], before[i], now[i]);
    }
    forall i | 0 <= i < n && results[i] == Ok(true)
      ensures AllDone(now[i], keys)
    {
      ProgressedKeepsDone(before[i], now[i], keys);
    }
    var results', after' := results + [r], after + [now[n]];
    forall i | 0 <= i <= n
      ensures results'[i] == Ok(true) <==> AllDone(after'[i], keys)
      ensures Progressed(start[i], after'[i]) && Progressed(after'[i], now[i])
      ensures results'[i] == Ok(true) ==> AllDone(now[i], keys)
    {
      if i == n {
        ProgressedTransitive(start[n], before[n], now[n]);
      }
    }
    assert visible[..n + 1][..n] == visible[..n];
    assert results'[..n] == results;
    assert Kept(visible[..n + 1], results') == if r == Ok(true) then propList + [visible[n]] else propList;
  }

  /** The tiles whose `ready` answered true, in visiting order. */
  function Kept(tiles: seq<Tile>, results: seq<Result<bool, Error>>): (r: seq<Tile>)
    requires |tiles| == |results|
    ensures |r| <= |tiles|
    ensures forall t :: t in r ==> exists i :: 0 <= i < |tiles| && tiles[i] == t && results[i] == Ok(true)
  {
    if |tiles| == 0 then []
    else
      var rest := Kept(tiles[..|tiles| - 1], results[..|results| - 1]);
      if results[|results| - 1] == Ok(true) then rest + [tiles[|tiles| - 1]] else rest
  }

  /** Every tile whose `ready` answered true is in the batch. */
  lemma {:induction false} KeptHasEveryReadyTile(tiles: seq<Tile>, results: seq<Result<bool, Error>>, i: nat)
    requires |tiles| == |results| && i < |tiles| && results[i] == Ok(true)
    ensures tiles[i] in Kept(tiles, results)
  {
    var n := |tiles| - 1;
    if i < n {
      KeptHasEveryReadyTile(tiles[..n], results[..n], i);
    }
  }

  /** The draw batch holds exactly the tiles that answered true. */
  lemma BatchHasEveryReadyTile(tiles: seq<Tile>, results: seq<Result<bool, Error>>)
    requires |tiles| == |results|
    ensures forall i :: 0 <= i < |tiles| && results[i] == Ok(true) ==> tiles[i] in Reversed(Kept(tiles, results))
    ensures forall t :: t in Reversed(Kept(tiles, results)) <==> t in Kept(tiles, results)
  {
    var kept := Kept(tiles, results);
    ReversedMembers(kept);
    forall i | 0 <= i < |tiles| && results[i] == Ok(true)
      ensures tiles[i] in kept
    {
      KeptHasEveryReadyTile(tiles, results, i);
    }
  }

  lemma ReversedMembers<T>(s: seq<T>)
    ensures forall x :: x in Reversed(s) <==> x in s
  {
    var r := Reversed(s);
    forall x | x in r
      ensures x in s
    {
      var j :| 0 <= j < |r| && r[j] == x;
      assert s[|s| - 1 - j] == x;
    }
    forall x | x in s
      ensures x in r
    {
      var j :| 0 <= j < |s| && s[j] == x;
      assert r[|s| - 1 - j] == x;
    }
  }

  function Reversed<T>(s: seq<T>): (r: seq<T>)
    ensures |r| == |s|
    ensures forall i :: 0 <= i < |s| ==> r[i] == s[|s| - 1 - i]
  {
    if |s| == 0 then [] else Reversed(s[1..]) + [s[0]]
  }
}
