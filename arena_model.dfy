/** The bump allocator of `src/arena.rs` as a state machine on values.

    An arena is a list of chunks, a cursor (current chunk index and bump
    offset) and the fixed chunk size.  A chunk is a growable byte vector with
    a reserved capacity.  An allocation returns a handle to the bytes it
    copied instead of a raw slice pointer; `Read` turns a handle back into
    bytes.  The imperative `Arena` class (module `ArenaImpl`) is proved
    against the functions of this module.

    `reset` takes `&mut self`, so in Rust the borrow checker lets no slice
    handed out before a reset outlive it.  A handle is a plain value here,
    so the model enforces the same rule with a generation count: every
    state records how many resets it has been through, every slice records
    the generation it was handed out in, and only slices of the current
    generation are valid. */
module ArenaModel {
  import opened Utf8
  import opened Fragments

  /** 64 KiB, the chunk size of `Arena::new`. */
  const DefaultChunkSize: nat := 64 * 1024

  /** A `Vec<u8>`: its initialised bytes and its reserved capacity. */
  datatype Chunk = Chunk(bytes: seq<byte>, capacity: nat)

  /** What an allocation hands back: the static empty slice, or the range
      `[start, start + len)` of chunk number `chunk`, handed out in the
      given generation. */
  datatype View = Empty | Slice(chunk: nat, start: nat, len: nat, generation: nat)

  /** The fields of `Arena`, plus the number of resets it has been through. */
  datatype ArenaState = ArenaState(
    chunks: seq<Chunk>,
    currentIdx: nat,
    currentOffset: nat,
    chunkSize: nat,
    generation: nat)

  datatype Allocation = Allocation(state: ArenaState, view: View)

  datatype Allocations = Allocations(state: ArenaState, views: seq<View>)

  function Max(a: nat, b: nat): nat {
    if a < b then b else a
  }

  /** Sum of the reserved capacities (`bytes_allocated`). */
  function Capacities(cs: seq<Chunk>): nat {
    if |cs| == 0 then 0 else Capacities(cs[..|cs| - 1]) + cs[|cs| - 1].capacity
  }

  /** Sum of the initialised lengths (`bytes_used`). */
  function Lengths(cs: seq<Chunk>): nat {
    if |cs| == 0 then 0 else Lengths(cs[..|cs| - 1]) + |cs[|cs| - 1].bytes|
  }

  // ---------------------------------------------------------------------
  // Well-formedness and the arena invariant

  /** What `alloc_bytes` needs to run without panicking: the cursor names a
      chunk, and the offset does not exceed that chunk's capacity (the
      `capacity() - current_offset` subtraction does not underflow). */
  predicate Wf(s: ArenaState) {
    s.currentIdx < |s.chunks| && s.currentOffset <= s.chunks[s.currentIdx].capacity
  }

  /** A chunk is either a regular chunk of the arena's chunk size, or a
      dedicated large chunk that is exactly full. */
  predicate ChunkOk(c: Chunk, chunkSize: nat) {
    |c.bytes| <= c.capacity &&
    (c.capacity == chunkSize || (c.capacity > chunkSize && |c.bytes| == c.capacity))
  }

  /** The invariant every operation of `Arena` keeps. */
  predicate Inv(s: ArenaState) {
    0 < |s.chunks| && s.currentIdx < |s.chunks| &&
    s.chunks[0].capacity == s.chunkSize &&
    s.chunks[s.currentIdx].capacity == s.chunkSize &&
    |s.chunks[s.currentIdx].bytes| == s.currentOffset &&
    forall i :: 0 <= i < |s.chunks| ==> ChunkOk(s.chunks[i], s.chunkSize)
  }

  /** `t` is `s` with chunks possibly appended and bytes possibly appended to
      existing chunks: no byte of `s` has been rewritten or dropped. */
  predicate Extends(s: ArenaState, t: ArenaState) {
    t.generation == s.generation && |s.chunks| <= |t.chunks| &&
    forall i :: 0 <= i < |s.chunks| ==>
      t.chunks[i].capacity == s.chunks[i].capacity && s.chunks[i].bytes <= t.chunks[i].bytes
  }

  // ---------------------------------------------------------------------
  // Views

  predicate ValidView(s: ArenaState, v: View) {
    match v
    case Empty => true
    case Slice(c, start, len, g) =>
      g == s.generation && c < |s.chunks| && start + len <= |s.chunks[c].bytes|
  }

  function Read(s: ArenaState, v: View): (r: seq<byte>)
    requires ValidView(s, v)
  {
    match v
    case Empty => []
    case Slice(c, start, len, _) => s.chunks[c].bytes[start..start + len]
  }

  predicate ViewsValid(s: ArenaState, vs: seq<View>) {
    forall i :: 0 <= i < |vs| ==> ValidView(s, vs[i])
  }

  /** The bytes behind each of the views, in order. */
  function ReadAll(s: ArenaState, vs: seq<View>): (r: seq<seq<byte>>)
    requires ViewsValid(s, vs)
  {
    seq(|vs|, i requires 0 <= i < |vs| => Read(s, vs[i]))
  }

  // ---------------------------------------------------------------------
  // Operations

  /** `Arena::with_chunk_size`: one empty chunk of capacity `chunkSize`,
      cursor at chunk 0, offset 0.  A fresh arena keeps the invariant,
      reserves exactly `chunkSize` bytes and uses none. */
  function Init(chunkSize: nat): (s: ArenaState)
    ensures Inv(s) && |s.chunks| == 1 && s.generation == 0
    ensures Capacities(s.chunks) == chunkSize && Lengths(s.chunks) == 0
  {
    var cs := [Chunk([], chunkSize)];
    assert cs[..0] == [];
    ArenaState(cs, 0, 0, chunkSize, 0)
  }

  /** `n` zero bytes, what `Vec::resize(_, 0)` appends. */
  function Zeros(n: nat): (z: seq<byte>)
    ensures |z| == n && forall i :: 0 <= i < n ==> z[i] == 0
  {
    seq(n, _ => 0)
  }

  /** The chunk bytes after `alloc_in_current_chunk` wrote `bytes` at `start`:
      first grown with zeros to cover the end if it is too short, then the
      range overwritten. Only `[start, start + |bytes|)` changes. */
  function WriteAt(data: seq<byte>, start: nat, bytes: seq<byte>): (r: seq<byte>)
    ensures |r| == Max(|data|, start + |bytes|)
    ensures r[start..start + |bytes|] == bytes
    ensures forall i :: 0 <= i < |data| && !(start <= i < start + |bytes|) ==> r[i] == data[i]
    ensures forall i :: |data| <= i < start ==> r[i] == 0
  {
    var end := start + |bytes|;
    var padded := if |data| < end then data + Zeros(end - |data|) else data;
    padded[..start] + bytes + padded[end..]
  }

  /** `alloc_in_current_chunk`: copy into chunk `idx` at `offset` and move the
      bump offset to the end of the copy.  It is only reached when the copy
      ends within the chunk's capacity, so `resize` never grows the reserved
      capacity.  The view reads back the input, no other chunk changes, the
      chunk stays within its capacity, and when the offset is at or past the
      chunk's end its old bytes are kept as a prefix. */
  function AllocInCurrentChunk(s: ArenaState, bytes: seq<byte>, idx: nat, offset: nat): (a: Allocation)
    requires idx < |s.chunks| && offset + |bytes| <= s.chunks[idx].capacity
    ensures ValidView(a.state, a.view) && Read(a.state, a.view) == bytes
    ensures |a.state.chunks| == |s.chunks| && a.state.currentOffset == offset + |bytes|
    ensures forall j :: 0 <= j < |s.chunks| && j != idx ==> a.state.chunks[j] == s.chunks[j]
    ensures a.state.chunks[idx].capacity == s.chunks[idx].capacity
    ensures |s.chunks[idx].bytes| <= s.chunks[idx].capacity ==>
      |a.state.chunks[idx].bytes| <= a.state.chunks[idx].capacity
    ensures |s.chunks[idx].bytes| <= offset ==> s.chunks[idx].bytes <= a.state.chunks[idx].bytes
  {
    var c := s.chunks[idx];
    Allocation(
      s.(chunks := s.chunks[idx := Chunk(WriteAt(c.bytes, offset, bytes), c.capacity)],
         currentOffset := offset + |bytes|),
      Slice(idx, offset, |bytes|, s.generation))
  }

  /** `alloc_new_chunk`: append a chunk of the arena's chunk size holding the
      bytes and make it current. Only reached with `|bytes| <= chunkSize`, so
      `extend_from_slice` does not grow the reserved capacity.  The earlier
      chunks are untouched and the new one is a regular chunk whose length
      is the new bump offset. */
  function AllocNewChunk(s: ArenaState, bytes: seq<byte>): (a: Allocation)
    requires |bytes| <= s.chunkSize
    ensures ValidView(a.state, a.view) && Read(a.state, a.view) == bytes
    ensures |a.state.chunks| == |s.chunks| + 1 && a.state.chunks[..|s.chunks|] == s.chunks
    ensures a.state.currentIdx == |s.chunks|
    ensures var c := a.state.chunks[a.state.currentIdx];
      ChunkOk(c, s.chunkSize) && c.capacity == s.chunkSize && |c.bytes| == a.state.currentOffset
  {
    Allocation(
      s.(chunks := s.chunks + [Chunk(bytes, s.chunkSize)],
         currentIdx := |s.chunks|,
         currentOffset := |bytes|),
      Slice(|s.chunks|, 0, |bytes|, s.generation))
  }

  /** `alloc_large`: append a chunk sized exactly to the bytes; the cursor
      stays where it was.  The earlier chunks are untouched, and for input
      larger than the chunk size the new chunk is a full large chunk. */
  function AllocLarge(s: ArenaState, bytes: seq<byte>): (a: Allocation)
    ensures ValidView(a.state, a.view) && Read(a.state, a.view) == bytes
    ensures |a.state.chunks| == |s.chunks| + 1 && a.state.chunks[..|s.chunks|] == s.chunks
    ensures a.state.currentIdx == s.currentIdx && a.state.currentOffset == s.currentOffset
    ensures |bytes| > s.chunkSize ==> ChunkOk(a.state.chunks[|s.chunks|], s.chunkSize)
  {
    Allocation(
      s.(chunks := s.chunks + [Chunk(bytes, |bytes|)]),
      Slice(|s.chunks|, 0, |bytes|, s.generation))
  }

  /** `alloc_bytes`: the view it returns reads back exactly the input, on
      every path, whatever state the arena is in. */
  function AllocBytes(s: ArenaState, bytes: seq<byte>): (a: Allocation)
    requires Wf(s)
    ensures ValidView(a.state, a.view) && Read(a.state, a.view) == bytes
    ensures a.state.chunkSize == s.chunkSize && a.state.generation == s.generation
  {
    if |bytes| == 0 then Allocation(s, Empty)
    else if |bytes| > s.chunkSize then AllocLarge(s, bytes)
    else if s.chunks[s.currentIdx].capacity - s.currentOffset >= |bytes| then
      AllocInCurrentChunk(s, bytes, s.currentIdx, s.currentOffset)
    else AllocNewChunk(s, bytes)
  }

  /** A run of `alloc_bytes` calls, one per string, in order: the final
      state and the views handed back. The invariant holds throughout. */
  function AllocAll(s: ArenaState, strs: seq<seq<byte>>): (r: Allocations)
    requires Inv(s)
    ensures Inv(r.state) && r.state.chunkSize == s.chunkSize && |r.views| == |strs|
    decreases |strs|
  {
    if |strs| == 0 then Allocations(s, [])
    else
      AllocPreservesInv(s, strs[0]);
      var a := AllocBytes(s, strs[0]);
      var rest := AllocAll(a.state, strs[1..]);
      Allocations(rest.state, [a.view] + rest.views)
  }

  /** `reset`: keep only the first chunk, emptied but with its capacity, and
      put the cursor back at chunk 0, offset 0; a new generation begins.
      Whatever state it starts from, nothing is in use afterwards. */
  function Reset(s: ArenaState): (t: ArenaState)
    ensures t.currentIdx == 0 && t.currentOffset == 0
    ensures t.chunkSize == s.chunkSize && t.generation == s.generation + 1
    ensures |t.chunks| <= 1 && Lengths(t.chunks) == 0
    ensures |s.chunks| > 0 ==> |t.chunks| == 1 && t.chunks[0].capacity == s.chunks[0].capacity
  {
    if |s.chunks| == 0 then s.(currentIdx := 0, currentOffset := 0, generation := s.generation + 1)
    else
      var first := [Chunk([], s.chunks[0].capacity)];
      assert first[..0] == [];
      ArenaState(first, 0, 0, s.chunkSize, s.generation + 1)
  }

  // ---------------------------------------------------------------------
  // Sums

  lemma {:induction false} CapacitiesAppend(cs: seq<Chunk>, c: Chunk)
    ensures Capacities(cs + [c]) == Capacities(cs) + c.capacity
  {
    assert (cs + [c])[..|cs|] == cs;
  }

  lemma {:induction false} LengthsAppend(cs: seq<Chunk>, c: Chunk)
    ensures Lengths(cs + [c]) == Lengths(cs) + |c.bytes|
  {
    assert (cs + [c])[..|cs|] == cs;
  }

  /** Replacing one chunk changes `bytes_used` by the change in that chunk's length. */
  lemma {:induction false} LengthsUpdate(cs: seq<Chunk>, i: nat, c: Chunk)
    requires i < |cs|
    ensures Lengths(cs[i := c]) + |cs[i].bytes| == Lengths(cs) + |c.bytes|
    decreases |cs|
  {
    var n := |cs| - 1;
    if i == n {
      assert cs[i := c][..n] == cs[..n];
    } else {
      LengthsUpdate(cs[..n], i, c);
      assert cs[i := c][..n] == cs[..n][i := c];
    }
  }

  /** Replacing one chunk by one of the same capacity leaves `bytes_allocated` alone. */
  lemma {:induction false} CapacitiesUpdate(cs: seq<Chunk>, i: nat, c: Chunk)
    requires i < |cs| && c.capacity == cs[i].capacity
    ensures Capacities(cs[i := c]) == Capacities(cs)
    decreases |cs|
  {
    var n := |cs| - 1;
    if i == n {
      assert cs[i := c][..n] == cs[..n];
    } else {
      CapacitiesUpdate(cs[..n], i, c);
      assert cs[i := c][..n] == cs[..n][i := c];
    }
  }

  /** `bytes_used <= bytes_allocated` whenever no chunk is over-full. */
  lemma {:induction false} UsedWithinFootprint(cs: seq<Chunk>)
    ensures (forall i :: 0 <= i < |cs| ==> |cs[i].bytes| <= cs[i].capacity) ==>
      Lengths(cs) <= Capacities(cs)
    decreases |cs|
  {
    if |cs| > 0 {
      UsedWithinFootprint(cs[..|cs| - 1]);
    }
  }

  /** Nothing is in use exactly when every chunk is empty. */
  lemma {:induction false} LengthsZero(cs: seq<Chunk>)
    ensures Lengths(cs) == 0 <==> forall i :: 0 <= i < |cs| ==> |cs[i].bytes| == 0
    decreases |cs|
  {
    if |cs| > 0 {
      var init := cs[..|cs| - 1];
      LengthsZero(init);
      assert forall i :: 0 <= i < |init| ==> init[i] == cs[i];
    }
  }

  // ---------------------------------------------------------------------
  // Construction and reset

  /** `reset` of an arena that keeps the invariant: the invariant still
      holds, and exactly one chunk's worth of bytes stays reserved. */
  lemma ResetProperties(s: ArenaState)
    requires Inv(s)
    ensures Inv(Reset(s)) && Capacities(Reset(s).chunks) == s.chunkSize
  {
    var t := Reset(s);
    assert t.chunks[..0] == [];
  }

  /** `reset` retires every slice handed out before it: such a view is not
      valid after the reset, nor after any allocation that follows, even one
      that writes the same bytes to the same place in the first chunk. */
  lemma ResetRetiresViews(s: ArenaState, v: View, bytes: seq<byte>)
    requires Inv(s) && v.Slice? && ValidView(s, v)
    ensures !ValidView(Reset(s), v)
    ensures Wf(Reset(s)) && !ValidView(AllocBytes(Reset(s), bytes).state, v)
  {
    ResetProperties(s);
  }

  /** Allocating after `reset` still reads back exactly what was stored,
      and uses exactly that many bytes. */
  lemma ResetThenAlloc(s: ArenaState, bytes: seq<byte>)
    requires Inv(s)
    ensures Wf(Reset(s))
    ensures var a := AllocBytes(Reset(s), bytes);
      Read(a.state, a.view) == bytes && Lengths(a.state.chunks) == |bytes|
  {
    ResetProperties(s);
    AllocUsed(Reset(s), bytes);
  }

  // ---------------------------------------------------------------------
  // Allocation: invariant, paths, accounting, frame

  /** Every allocation keeps the arena invariant. */
  lemma AllocPreservesInv(s: ArenaState, bytes: seq<byte>)
    requires Inv(s)
    ensures Inv(AllocBytes(s, bytes).state)
  {
    var t := AllocBytes(s, bytes).state;
    if 0 < |bytes| <= s.chunkSize && s.chunks[s.currentIdx].capacity - s.currentOffset >= |bytes| {
      var i := s.currentIdx;
      assert t.chunks[i].bytes == s.chunks[i].bytes + bytes;
      forall j | 0 <= j < |t.chunks|
        ensures ChunkOk(t.chunks[j], t.chunkSize)
      {
        if j != i {
          assert t.chunks[j] == s.chunks[j];
        }
      }
    } else if |bytes| > 0 {
      forall j | 0 <= j < |t.chunks|
        ensures ChunkOk(t.chunks[j], t.chunkSize)
      {
        if j < |s.chunks| {
          assert t.chunks[j] == s.chunks[j];
        }
      }
    }
  }

  /** Empty input: the empty view, and the arena is untouched. */
  lemma AllocEmpty(s: ArenaState)
    requires Wf(s)
    ensures AllocBytes(s, []) == Allocation(s, Empty)
  {
  }

  /** Large path: exactly one chunk of capacity `|bytes|` is appended and the
      cursor does not move. */
  lemma AllocLargePath(s: ArenaState, bytes: seq<byte>)
    requires Wf(s) && |bytes| > s.chunkSize
    ensures var t := AllocBytes(s, bytes).state;
      t.chunks == s.chunks + [Chunk(bytes, |bytes|)] &&
      t.currentIdx == s.currentIdx && t.currentOffset == s.currentOffset &&
      AllocBytes(s, bytes).view == Slice(|s.chunks|, 0, |bytes|, s.generation)
  {
  }

  /** Fast path: when the current chunk has room, the chunk count is
      unchanged, the bytes are appended to the current chunk, the offset
      advances by `|bytes|` and every other chunk is untouched. */
  lemma AllocFastPath(s: ArenaState, bytes: seq<byte>)
    requires Inv(s)
    requires 0 < |bytes| <= s.chunkSize
    requires s.chunks[s.currentIdx].capacity - s.currentOffset >= |bytes|
    ensures var a := AllocBytes(s, bytes);
      |a.state.chunks| == |s.chunks| &&
      a.state.currentIdx == s.currentIdx &&
      a.state.currentOffset == s.currentOffset + |bytes| &&
      a.state.chunks[s.currentIdx] == Chunk(s.chunks[s.currentIdx].bytes + bytes, s.chunkSize) &&
      a.view == Slice(s.currentIdx, s.currentOffset, |bytes|, s.generation) &&
      forall j :: 0 <= j < |s.chunks| && j != s.currentIdx ==> a.state.chunks[j] == s.chunks[j]
  {
  }

  /** New-chunk path: when the current chunk lacks room, one chunk of the
      arena's chunk size is appended, holds the bytes, and becomes current
      with the offset set to `|bytes|`. */
  lemma AllocNewChunkPath(s: ArenaState, bytes: seq<byte>)
    requires Wf(s)
    requires 0 < |bytes| <= s.chunkSize
    requires s.chunks[s.currentIdx].capacity - s.currentOffset < |bytes|
    ensures var a := AllocBytes(s, bytes);
      a.state.chunks == s.chunks + [Chunk(bytes, s.chunkSize)] &&
      a.state.currentIdx == |s.chunks| &&
      a.state.currentOffset == |bytes| &&
      a.view == Slice(|s.chunks|, 0, |bytes|, s.generation)
  {
  }

  /** `bytes_used` grows by exactly the allocated length. */
  lemma AllocUsed(s: ArenaState, bytes: seq<byte>)
    requires Inv(s)
    ensures Lengths(AllocBytes(s, bytes).state.chunks) == Lengths(s.chunks) + |bytes|
  {
    var t := AllocBytes(s, bytes).state;
    if |bytes| == 0 {
    } else if |bytes| > s.chunkSize {
      LengthsAppend(s.chunks, Chunk(bytes, |bytes|));
    } else if s.chunks[s.currentIdx].capacity - s.currentOffset >= |bytes| {
      var i := s.currentIdx;
      LengthsUpdate(s.chunks, i, t.chunks[i]);
      assert t.chunks == s.chunks[i := t.chunks[i]];
    } else {
      LengthsAppend(s.chunks, Chunk(bytes, s.chunkSize));
    }
  }

  /** `bytes_allocated` is unchanged on the fast path and on empty input,
      grows by the chunk size on the new-chunk path and by `|bytes|` on the
      large path. */
  lemma AllocFootprint(s: ArenaState, bytes: seq<byte>)
    requires Wf(s)
    ensures var f := Capacities(AllocBytes(s, bytes).state.chunks);
      f == Capacities(s.chunks) +
        (if |bytes| == 0 then 0
         else if |bytes| > s.chunkSize then |bytes|
         else if s.chunks[s.currentIdx].capacity - s.currentOffset >= |bytes| then 0
         else s.chunkSize)
  {
    var t := AllocBytes(s, bytes).state;
    if |bytes| == 0 {
    } else if |bytes| > s.chunkSize {
      CapacitiesAppend(s.chunks, Chunk(bytes, |bytes|));
    } else if s.chunks[s.currentIdx].capacity - s.currentOffset >= |bytes| {
      var i := s.currentIdx;
      CapacitiesUpdate(s.chunks, i, t.chunks[i]);
      assert t.chunks == s.chunks[i := t.chunks[i]];
    } else {
      CapacitiesAppend(s.chunks, Chunk(bytes, s.chunkSize));
    }
  }

  /** Append-then-freeze: an allocation never rewrites or drops a byte that
      was already in the arena, and never changes a chunk's capacity. */
  lemma AllocExtends(s: ArenaState, bytes: seq<byte>)
    requires Inv(s)
    ensures Extends(s, AllocBytes(s, bytes).state)
  {
    var t := AllocBytes(s, bytes).state;
    if 0 < |bytes| <= s.chunkSize && s.chunks[s.currentIdx].capacity - s.currentOffset >= |bytes| {
      AllocFastPath(s, bytes);
    }
  }

  /** Anything an `Extends` step does to the arena leaves every view that
      was valid before valid, and reading the same bytes. */
  lemma {:induction false} ExtendsKeepsViews(s: ArenaState, t: ArenaState, vs: seq<View>)
    requires Extends(s, t) && ViewsValid(s, vs)
    ensures ViewsValid(t, vs) && ReadAll(t, vs) == ReadAll(s, vs)
  {
    forall i | 0 <= i < |vs|
      ensures ValidView(t, vs[i]) && Read(t, vs[i]) == Read(s, vs[i])
    {
      match vs[i]
      case Empty =>
      case Slice(c, start, len, _) =>
        assert s.chunks[c].bytes <= t.chunks[c].bytes;
        assert t.chunks[c].bytes[start..start + len] == s.chunks[c].bytes[start..start + len];
    }
  }

  /** Reading one more view appends its bytes to what the others read. */
  lemma ReadAllAppend(s: ArenaState, vs: seq<View>, v: View)
    requires ViewsValid(s, vs) && ValidView(s, v)
    ensures ViewsValid(s, vs + [v]) && ReadAll(s, vs + [v]) == ReadAll(s, vs) + [Read(s, v)]
  {
  }

  /** Reading one view and then the others. */
  lemma ReadAllPrepend(s: ArenaState, v: View, vs: seq<View>)
    requires ValidView(s, v) && ViewsValid(s, vs)
    ensures ViewsValid(s, [v] + vs) && ReadAll(s, [v] + vs) == [Read(s, v)] + ReadAll(s, vs)
  {
  }

  /** An allocation leaves every previously issued view reading the same
      bytes, whichever path it takes. */
  lemma AllocKeepsViews(s: ArenaState, bytes: seq<byte>, vs: seq<View>)
    requires Inv(s) && ViewsValid(s, vs)
    ensures var t := AllocBytes(s, bytes).state;
      ViewsValid(t, vs) && ReadAll(t, vs) == ReadAll(s, vs)
  {
    AllocExtends(s, bytes);
    ExtendsKeepsViews(s, AllocBytes(s, bytes).state, vs);
  }

  /** A large allocation does not disturb the cursor: a following small
      allocation that fits in the previously current chunk lands there,
      right after the bytes already in it. */
  lemma LargeThenSmall(s: ArenaState, large: seq<byte>, small: seq<byte>)
    requires Inv(s)
    requires |large| > s.chunkSize
    requires 0 < |small| <= s.chunks[s.currentIdx].capacity - s.currentOffset
    ensures var t := AllocBytes(s, large).state;
      Wf(t) && AllocBytes(t, small).view == Slice(s.currentIdx, s.currentOffset, |small|, s.generation)
  {
    AllocLargePath(s, large);
  }

  /** Once more than one chunk's worth of bytes is in use, the arena must
      have opened a second chunk. */
  lemma UsedBeyondOneChunk(s: ArenaState)
    requires Inv(s) && Lengths(s.chunks) > s.chunkSize
    ensures |s.chunks| > 1
  {
    var n := |s.chunks| - 1;
    assert Lengths(s.chunks) == Lengths(s.chunks[..n]) + |s.chunks[n].bytes|;
    assert ChunkOk(s.chunks[n], s.chunkSize);
  }

  lemma ExtendsTransitive(a: ArenaState, b: ArenaState, c: ArenaState)
    requires Extends(a, b) && Extends(b, c)
    ensures Extends(a, c)
  {
    forall i | 0 <= i < |a.chunks|
      ensures a.chunks[i].bytes <= c.chunks[i].bytes
    {
      assert a.chunks[i].bytes <= b.chunks[i].bytes;
      assert b.chunks[i].bytes <= c.chunks[i].bytes;
    }
  }

  /** One `push_str` of a non-empty text, on values: the arena is extended,
      the new view reads back the text, the earlier views read back what
      they did, and the parts are still non-empty texts. */
  lemma PushKeepsParts(st: ArenaState, parts: seq<View>, s: seq<byte>)
    requires Inv(st) && ViewsValid(st, parts) && TextParts(ReadAll(st, parts))
    requires |s| > 0 && ValidUtf8(s)
    ensures var a := AllocBytes(st, s);
      Inv(a.state) && Extends(st, a.state) &&
      ViewsValid(a.state, parts + [a.view]) &&
      ReadAll(a.state, parts + [a.view]) == ReadAll(st, parts) + [s] &&
      TextParts(ReadAll(a.state, parts + [a.view]))
  {
    var a := AllocBytes(st, s);
    AllocPreservesInv(st, s);
    AllocExtends(st, s);
    ExtendsKeepsViews(st, a.state, parts);
    ReadAllAppend(a.state, parts, a.view);
    assert Push(ReadAll(st, parts), s) == ReadAll(st, parts) + [s];
  }

  /** A run of allocations never rewrites a byte already in the arena. */
  lemma {:induction false} AllocAllExtends(s: ArenaState, strs: seq<seq<byte>>)
    requires Inv(s)
    ensures Extends(s, AllocAll(s, strs).state)
    decreases |strs|
  {
    if |strs| == 0 {
      assert AllocAll(s, strs).state == s;
    } else {
      var a := AllocBytes(s, strs[0]);
      AllocPreservesInv(s, strs[0]);
      AllocExtends(s, strs[0]);
      AllocAllExtends(a.state, strs[1..]);
      ExtendsTransitive(s, a.state, AllocAll(a.state, strs[1..]).state);
    }
  }

  /** A run of allocations grows `bytes_used` by the total length stored. */
  lemma {:induction false} AllocAllUsed(s: ArenaState, strs: seq<seq<byte>>)
    requires Inv(s)
    ensures Lengths(AllocAll(s, strs).state.chunks) == Lengths(s.chunks) + TotalLen(strs)
    decreases |strs|
  {
    if |strs| > 0 {
      AllocPreservesInv(s, strs[0]);
      AllocUsed(s, strs[0]);
      AllocAllUsed(AllocBytes(s, strs[0]).state, strs[1..]);
    }
  }

  /** A run of allocations: every view reads back its own string, so later
      allocations do not disturb earlier views. */
  lemma {:induction false} AllocAllReadsBack(s: ArenaState, strs: seq<seq<byte>>)
    requires Inv(s)
    ensures var r := AllocAll(s, strs);
      ViewsValid(r.state, r.views) && ReadAll(r.state, r.views) == strs
    decreases |strs|
  {
    if |strs| > 0 {
      var a := AllocBytes(s, strs[0]);
      AllocPreservesInv(s, strs[0]);
      var rest := AllocAll(a.state, strs[1..]);
      AllocAllReadsBack(a.state, strs[1..]);
      AllocAllExtends(a.state, strs[1..]);
      ExtendsKeepsViews(a.state, rest.state, [a.view]);
      assert Read(rest.state, a.view) == strs[0] by {
        assert ReadAll(rest.state, [a.view])[0] == Read(rest.state, a.view);
        assert ReadAll(a.state, [a.view])[0] == Read(a.state, a.view);
      }
      ReadAllPrepend(rest.state, a.view, rest.views);
      assert [strs[0]] + strs[1..] == strs;
    }
  }

  /** Storing more bytes than one chunk holds, starting from a fresh arena,
      opens more than one chunk, and every view still reads back its string. */
  lemma SpillsIntoNewChunk(chunkSize: nat, strs: seq<seq<byte>>)
    requires TotalLen(strs) > chunkSize
    ensures Inv(Init(chunkSize))
    ensures var r := AllocAll(Init(chunkSize), strs);
      |r.state.chunks| > 1 && ViewsValid(r.state, r.views) && ReadAll(r.state, r.views) == strs
  {
    AllocAllReadsBack(Init(chunkSize), strs);
    AllocAllUsed(Init(chunkSize), strs);
    UsedBeyondOneChunk(AllocAll(Init(chunkSize), strs).state);
  }
}
