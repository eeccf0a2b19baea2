/** The bump allocator over fixed-size device buffers (`MultipurposeBufferSet`).

    Device buffers are numbered by generation: generation 0 is the buffer the
    constructor creates, generation g + 1 the one created after it.  The newest
    buffer (the only one that receives slices) is generation `generations - 1`,
    which the class keeps at index 0 of `buffers`. */
module Arena {

  /** What one `allocate_block` call hands out: the bytes
      [offset, offset + size) of the buffer of generation `generation`. */
  datatype Extent = Extent(generation: nat, offset: nat, size: nat)

  /** The allocator's scalar state: the number of buffers created so far, the
      write pointer into the newest one and the retired end-offsets
      (`buffer_offsets`, newest first). */
  datatype ArenaState = ArenaState(bufferSize: nat, generations: nat, pointer: nat, bufferOffsets: seq<nat>)

  /** State right after the constructor: one empty buffer. */
  function Initial(bufferSize: nat): (s: ArenaState)
    ensures s.generations == 1 && s.pointer == 0 && s.bufferOffsets == [] && s.bufferSize == bufferSize
  {
    ArenaState(bufferSize, 1, 0, [])
  }

  /** `generate_new_buffer`: a nonzero pointer is retired into the offsets
      list, the pointer is reset and one more buffer exists. */
  function NewBuffer(s: ArenaState): (t: ArenaState)
    ensures t.generations == s.generations + 1 && t.pointer == 0 && t.bufferSize == s.bufferSize
    ensures t.bufferOffsets == if s.pointer != 0 then [s.pointer] + s.bufferOffsets else s.bufferOffsets
  {
    ArenaState(s.bufferSize, s.generations + 1, 0,
               if s.pointer != 0 then [s.pointer] + s.bufferOffsets else s.bufferOffsets)
  }

  /** True when a request of `size` bytes does not fit behind the pointer. */
  predicate Overflows(s: ArenaState, size: nat)
  {
    s.pointer + size > s.bufferSize
  }

  /** `allocate_block(items, bytesPerItem)`: roll over to a new buffer if the
      request does not fit, then hand out the bytes at the pointer and advance
      it.  There is no size check: a request larger than a whole buffer is
      placed at offset 0 of a fresh buffer all the same. */
  function Allocate(s: ArenaState, items: nat, bytesPerItem: nat): (r: (ArenaState, Extent))
    requires s.generations >= 1
    ensures var (t, e) := r;
      && e.size == items * bytesPerItem
      && t.bufferSize == s.bufferSize
      && t.pointer == e.offset + e.size
      && e.generation + 1 == t.generations
      && (Overflows(s, e.size) ==>
            t.generations == s.generations + 1 && e.offset == 0 && t.bufferOffsets == NewBuffer(s).bufferOffsets)
      && (!Overflows(s, e.size) ==>
            t.generations == s.generations && e.offset == s.pointer && t.bufferOffsets == s.bufferOffsets)
  {
    var size := items * bytesPerItem;
    var base := if Overflows(s, size) then NewBuffer(s) else s;
    (base.(pointer := base.pointer + size), Extent(base.generations - 1, base.pointer, size))
  }

  /** Two extents of the same buffer do not share a byte. */
  predicate Disjoint(a: Extent, b: Extent)
  {
    a.generation != b.generation || a.offset + a.size <= b.offset || b.offset + b.size <= a.offset
  }

  /** The allocator invariant over the log of everything handed out so far:
      every extent lies in an existing buffer, extents of the newest buffer end
      at or before the pointer, and no two extents overlap. */
  ghost predicate Inv(s: ArenaState, log: seq<Extent>)
  {
    && s.generations >= 1
    && (forall i :: 0 <= i < |log| ==> log[i].generation < s.generations)
    && (forall i :: 0 <= i < |log| && log[i].generation == s.generations - 1 ==>
          log[i].offset + log[i].size <= s.pointer)
    && (forall i, j :: 0 <= i < j < |log| ==> Disjoint(log[i], log[j]))
  }

  lemma InitialInv(bufferSize: nat)
    ensures Inv(Initial(bufferSize), [])
  {
  }

  /** One allocation keeps the invariant: the new extent overlaps nothing
      handed out before. */
  lemma AllocatePreservesInv(s: ArenaState, log: seq<Extent>, items: nat, bytesPerItem: nat)
    requires Inv(s, log)
    ensures Inv(Allocate(s, items, bytesPerItem).0, log + [Allocate(s, items, bytesPerItem).1])
  {
    var (t, e) := Allocate(s, items, bytesPerItem);
    var log' := log + [e];
    forall i, j | 0 <= i < j < |log'| ensures Disjoint(log'[i], log'[j]) {
      if j == |log| {
        assert log'[i] == log[i];
        if log[i].generation == e.generation {
          assert !Overflows(s, e.size) && log[i].generation == s.generations - 1;
        }
      }
    }
  }

  /** A sequence of `allocate_block` calls, in order; the result is the final
      state and the extents handed out. */
  function AllocateAll(s: ArenaState, requests: seq<(nat, nat)>): (r: (ArenaState, seq<Extent>))
    requires s.generations >= 1
    ensures |r.1| == |requests|
    ensures r.0.bufferSize == s.bufferSize && r.0.generations >= s.generations
    decreases |requests|
  {
    if requests == [] then (s, [])
    else
      var (t, e) := Allocate(s, requests[0].0, requests[0].1);
      var (u, es) := AllocateAll(t, requests[1..]);
      (u, [e] + es)
  }

  /** Any run of allocations from an arena satisfying the invariant keeps the
      invariant; in particular slices handed out from one buffer never overlap. */
  lemma {:induction false} AllocateAllPreservesInv(s: ArenaState, log: seq<Extent>, requests: seq<(nat, nat)>)
    requires Inv(s, log)
    ensures Inv(AllocateAll(s, requests).0, log + AllocateAll(s, requests).1)
    decreases |requests|
  {
    if requests != [] {
      var (t, e) := Allocate(s, requests[0].0, requests[0].1);
      AllocatePreservesInv(s, log, requests[0].0, requests[0].1);
      AllocateAllPreservesInv(t, log + [e], requests[1..]);
      assert log + [e] + AllocateAll(t, requests[1..]).1 == log + AllocateAll(s, requests).1;
    }
  }

  /** A run of allocations followed by one more is the run over the longer
      list of requests: the allocator can be followed one call at a time. */
  lemma {:induction false} AllocateAllSnoc(s: ArenaState, requests: seq<(nat, nat)>, last: (nat, nat))
    requires s.generations >= 1
    ensures var (t, es) := AllocateAll(s, requests);
      var (u, e) := Allocate(t, last.0, last.1);
      AllocateAll(s, requests + [last]) == (u, es + [e])
    decreases |requests|
  {
    if requests == [] {
      assert requests + [last] == [last];
      assert [last][1..] == [];
      var (u, e) := Allocate(s, last.0, last.1);
      assert AllocateAll(u, [last][1..]) == (u, []);
      assert AllocateAll(s, [last]) == (u, [e] + []);
      assert AllocateAll(s, requests) == (s, []);
      assert [] + [e] == [e] + [];
    } else {
      var (t, e) := Allocate(s, requests[0].0, requests[0].1);
      assert (requests + [last])[0] == requests[0];
      assert (requests + [last])[1..] == requests[1..] + [last];
      AllocateAllSnoc(t, requests[1..], last);
      var (v, rest) := AllocateAll(t, requests[1..]);
      assert AllocateAll(s, requests) == (v, [e] + rest);
      var (u, e') := Allocate(v, last.0, last.1);
      assert AllocateAll(s, requests + [last]) == (u, [e] + (rest + [e']));
      assert [e] + (rest + [e']) == [e] + rest + [e'];
    }
  }

  /** From a fresh arena, no two extents of any run of allocations overlap. */
  lemma AllocationsDisjoint(bufferSize: nat, requests: seq<(nat, nat)>, i: nat, j: nat)
    requires i < j < |requests|
    ensures Disjoint(AllocateAll(Initial(bufferSize), requests).1[i], AllocateAll(Initial(bufferSize), requests).1[j])
  {
    AllocateAllPreservesInv(Initial(bufferSize), [], requests);
    assert [] + AllocateAll(Initial(bufferSize), requests).1 == AllocateAll(Initial(bufferSize), requests).1;
  }

  /** Retired buffers receive nothing: every extent of a run of allocations
      lies in the buffer that was newest when the run began or a later one,
      and the generations handed out never go down. */
  lemma {:induction false} RetiredBuffersReceiveNothing(s: ArenaState, requests: seq<(nat, nat)>)
    requires s.generations >= 1
    ensures var es := AllocateAll(s, requests).1;
      && (forall i :: 0 <= i < |es| ==> s.generations - 1 <= es[i].generation < AllocateAll(s, requests).0.generations)
      && (forall i, j :: 0 <= i < j < |es| ==> es[i].generation <= es[j].generation)
    decreases |requests|
  {
    if requests != [] {
      var (t, e) := Allocate(s, requests[0].0, requests[0].1);
      RetiredBuffersReceiveNothing(t, requests[1..]);
      var es := AllocateAll(s, requests).1;
      assert es == [e] + AllocateAll(t, requests[1..]).1;
    }
  }

  /** A request that fits in one buffer lies within that buffer. */
  lemma {:induction false} AllocationsWithinCapacity(s: ArenaState, requests: seq<(nat, nat)>)
    requires s.generations >= 1
    requires s.pointer <= s.bufferSize
    requires forall k :: 0 <= k < |requests| ==> requests[k].0 * requests[k].1 <= s.bufferSize
    ensures AllocateAll(s, requests).0.pointer <= s.bufferSize
    ensures forall i :: 0 <= i < |requests| ==>
      AllocateAll(s, requests).1[i].offset + AllocateAll(s, requests).1[i].size <= s.bufferSize
    decreases |requests|
  {
    if requests != [] {
      var (t, e) := Allocate(s, requests[0].0, requests[0].1);
      AllocationsWithinCapacity(t, requests[1..]);
      assert AllocateAll(s, requests).1 == [e] + AllocateAll(t, requests[1..]).1;
    }
  }

  /** The code has no capacity check: a request larger than a buffer is
      placed at offset 0 of a new buffer and runs past its end, and the next
      request after it always starts yet another buffer. */
  lemma OversizedRequestOverruns(s: ArenaState, items: nat, bytesPerItem: nat, items2: nat, bytesPerItem2: nat)
    requires s.generations >= 1
    requires items * bytesPerItem > s.bufferSize
    ensures var (t, e) := Allocate(s, items, bytesPerItem);
      && e.offset == 0 && e.offset + e.size > s.bufferSize && t.generations == s.generations + 1
      && Allocate(t, items2, bytesPerItem2).1.generation == t.generations
  {
  }

  /** An opaque device buffer of fixed length (`regl.buffer({length})`). */
  class DeviceBuffer {
    const length: nat

    constructor (length: nat)
      ensures this.length == length
    {
      this.length := length;
    }
  }

  /** The device buffer of generation `g` in a newest-first list. */
  function Generation(buffers: seq<DeviceBuffer>, g: nat): DeviceBuffer
    requires g < |buffers|
  {
    buffers[|buffers| - 1 - g]
  }

  /** The `{buffer, offset, stride}` descriptor `allocate_block` returns. */
  datatype Slice = Slice(buffer: DeviceBuffer, offset: nat, stride: nat)

  class MultipurposeBufferSet {
    const bufferSize: nat
    /** Newest first; `buffers[0]` receives every new slice. */
    var buffers: seq<DeviceBuffer>
    var bufferOffsets: seq<nat>
    var pointer: nat
    /** Every extent handed out so far, oldest first. */
    ghost var issued: seq<Extent>

    ghost function Model(): ArenaState
      reads this
    {
      ArenaState(bufferSize, |buffers|, pointer, bufferOffsets)
    }

    /** The device buffer of generation `g`. */
    ghost function BufferOf(g: nat): DeviceBuffer
      reads this
      requires g < |buffers|
    {
      Generation(buffers, g)
    }

    ghost predicate Valid()
      reads this
    {
      && Inv(Model(), issued)
      && (forall i, j :: 0 <= i < j < |buffers| ==> buffers[i] != buffers[j])
      && (forall i :: 0 <= i < |buffers| ==> buffers[i].length == bufferSize)
    }

    /** Two issued slices that name the same device buffer do not overlap. */
    lemma IssuedSlicesDisjoint(i: nat, j: nat)
      requires Valid() && i < j < |issued|
      requires BufferOf(issued[i].generation) == BufferOf(issued[j].generation)
      ensures issued[i].offset + issued[i].size <= issued[j].offset
           || issued[j].offset + issued[j].size <= issued[i].offset
    {
      assert Disjoint(issued[i], issued[j]);
    }

    constructor (bufferSize: nat)
      ensures Valid() && Model() == Initial(bufferSize) && issued == []
      ensures |buffers| == 1 && fresh(buffers[0])
    {
      this.bufferSize := bufferSize;
      var b := new DeviceBuffer(bufferSize);
      buffers := [b];
      bufferOffsets := [];
      pointer := 0;
      issued := [];
    }

    method GenerateNewBuffer()
      requires Valid()
      modifies this
      ensures Valid()
      ensures Model() == NewBuffer(old(Model())) && issued == old(issued)
      ensures |buffers| == |old(buffers)| + 1 && buffers[1..] == old(buffers) && fresh(buffers[0])
      ensures buffers[0].length == bufferSize
      ensures forall i, j :: 0 <= i < j < |buffers| ==> buffers[i] != buffers[j]
      ensures forall i :: 0 <= i < |buffers| ==> buffers[i].length == bufferSize
    {
      if pointer != 0 {
        bufferOffsets := [pointer] + bufferOffsets;
      }
      pointer := 0;
      var b := new DeviceBuffer(bufferSize);
      buffers := [b] + buffers;
    }

    /** `allocate_block`: the slice is at the pre-call pointer of the newest
        buffer (after rolling over if needed), with stride `bytesPerItem`. */
    method AllocateBlock(items: nat, bytesPerItem: nat) returns (slice: Slice)
      requires Valid()
      modifies this
      ensures Valid()
      ensures Model() == Allocate(old(Model()), items, bytesPerItem).0
      ensures issued == old(issued) + [Allocate(old(Model()), items, bytesPerItem).1]
      ensures slice == Slice(buffers[0], Allocate(old(Model()), items, bytesPerItem).1.offset, bytesPerItem)
      ensures slice.buffer == BufferOf(issued[|issued| - 1].generation)
      ensures if Overflows(old(Model()), items * bytesPerItem)
              then buffers[1..] == old(buffers) && fresh(buffers[0])
              else buffers == old(buffers)
      ensures |old(buffers)| <= |buffers|
      ensures forall g :: 0 <= g < |old(buffers)| ==> Generation(buffers, g) == Generation(old(buffers), g)
    {
      if pointer + items * bytesPerItem > bufferSize {
        GenerateNewBuffer();
      }
      slice := Slice(buffers[0], pointer, bytesPerItem);
      ghost var e := Extent(|buffers| - 1, pointer, items * bytesPerItem);
      AllocatePreservesInv(old(Model()), issued, items, bytesPerItem);
      pointer := pointer + items * bytesPerItem;
      issued := issued + [e];
    }
  }
}
