/** `Arena` and `ResponseBuffer` of `src/arena.rs` as classes whose fields
    the methods update in place.  Every method is proved against the
    functions of `ArenaModel` and `Fragments`; the properties of those
    functions are the lemmas there. */
module ArenaImpl {
  import opened Utf8
  import opened ArenaModel
  import opened Fragments

  /** A bump allocator over a growing list of chunks. */
  class Arena {
    var chunks: seq<Chunk>
    var currentIdx: nat
    var currentOffset: nat
    const chunkSize: nat
    /** How many times `reset` has run.  The Rust struct has no such field:
        it stands for the borrow checker, which lets no slice handed out
        before a `reset` outlive it. */
    var generation: nat

    /** The arena as a value of `ArenaModel`. */
    function State(): ArenaState
      reads this
    {
      ArenaState(chunks, currentIdx, currentOffset, chunkSize, generation)
    }

    predicate Valid()
      reads this
    {
      Inv(State())
    }

    /** `Arena::new`: one chunk of 64 KiB. */
    constructor New()
      ensures Valid() && State() == Init(DefaultChunkSize)
      ensures BytesAllocated() == DefaultChunkSize && BytesUsed() == 0 && ChunkCount() == 1
    {
      chunks := [Chunk([], DefaultChunkSize)];
      currentIdx := 0;
      currentOffset := 0;
      chunkSize := DefaultChunkSize;
      generation := 0;
    }

    /** `Arena::with_chunk_size`: one empty chunk reserving `size` bytes. */
    constructor WithChunkSize(size: nat)
      ensures Valid() && State() == Init(size)
      ensures BytesAllocated() == size && BytesUsed() == 0 && ChunkCount() == 1
    {
      chunks := [Chunk([], size)];
      currentIdx := 0;
      currentOffset := 0;
      chunkSize := size;
      generation := 0;
    }

    /** `alloc_bytes`: copy `bytes` into the arena and hand back a view of the copy. */
    method AllocBytes(bytes: seq<byte>) returns (v: View)
      requires Valid()
      modifies this
      ensures Valid()
      ensures State() == ArenaModel.AllocBytes(old(State()), bytes).state
      ensures v == ArenaModel.AllocBytes(old(State()), bytes).view
      ensures ValidView(State(), v) && Read(State(), v) == bytes
      ensures BytesUsed() == old(BytesUsed()) + |bytes|
      ensures Extends(old(State()), State())
    {
      ghost var s := State();
      AllocPreservesInv(s, bytes);
      AllocUsed(s, bytes);
      AllocExtends(s, bytes);
      var len := |bytes|;
      if len == 0 {
        return Empty;
      }
      if len > chunkSize {
        v := AllocLarge(bytes);
        return;
      }
      var idx := currentIdx;
      var offset := currentOffset;
      var available := chunks[idx].capacity - offset;
      if available >= len {
        v := AllocInCurrentChunk(bytes, idx, offset);
      } else {
        v := AllocNewChunk(bytes);
      }
    }

    /** `alloc_str`: the same copy; the view reads back a text. */
    method AllocStr(s: Str) returns (v: View)
      requires Valid()
      modifies this
      ensures Valid()
      ensures State() == ArenaModel.AllocBytes(old(State()), s).state
      ensures v == ArenaModel.AllocBytes(old(State()), s).view
      ensures ValidView(State(), v) && Read(State(), v) == s && ValidUtf8(Read(State(), v))
      ensures BytesUsed() == old(BytesUsed()) + |s|
      ensures Extends(old(State()), State())
    {
      v := AllocBytes(s);
    }

    /** `alloc_in_current_chunk`: grow chunk `idx` with zeros to cover the
        end of the copy if needed, overwrite `[offset, offset + |bytes|)`,
        and move the bump offset there. */
    method AllocInCurrentChunk(bytes: seq<byte>, idx: nat, offset: nat) returns (v: View)
      requires idx < |chunks| && offset + |bytes| <= chunks[idx].capacity
      modifies this
      ensures State() == ArenaModel.AllocInCurrentChunk(old(State()), bytes, idx, offset).state
      ensures v == ArenaModel.AllocInCurrentChunk(old(State()), bytes, idx, offset).view
    {
      var chunk := chunks[idx].bytes;
      var start := offset;
      var end := offset + |bytes|;
      if |chunk| < end {
        chunk := chunk + Zeros(end - |chunk|);
      }
      chunk := chunk[..start] + bytes + chunk[end..];
      chunks := chunks[idx := Chunk(chunk, chunks[idx].capacity)];
      currentOffset := end;
      v := Slice(idx, start, |bytes|, generation);
    }

    /** `alloc_new_chunk`: open a chunk of `chunkSize` holding the bytes and
        make it current. */
    method AllocNewChunk(bytes: seq<byte>) returns (v: View)
      requires |bytes| <= chunkSize
      modifies this
      ensures State() == ArenaModel.AllocNewChunk(old(State()), bytes).state
      ensures v == ArenaModel.AllocNewChunk(old(State()), bytes).view
    {
      chunks := chunks + [Chunk(bytes, chunkSize)];
      var newIdx := |chunks| - 1;
      currentIdx := newIdx;
      currentOffset := |bytes|;
      v := Slice(newIdx, 0, |bytes|, generation);
    }

    /** `alloc_large`: a dedicated chunk sized to the bytes; the cursor stays. */
    method AllocLarge(bytes: seq<byte>) returns (v: View)
      modifies this
      ensures State() == ArenaModel.AllocLarge(old(State()), bytes).state
      ensures v == ArenaModel.AllocLarge(old(State()), bytes).view
    {
      chunks := chunks + [Chunk(bytes, |bytes|)];
      var idx := |chunks| - 1;
      v := Slice(idx, 0, |bytes|, generation);
    }

    /** `reset`: keep the first chunk, emptied, and drop the others; views
        handed out before it belong to an older generation. */
    method Reset()
      requires Valid()
      modifies this
      ensures Valid() && State() == ArenaModel.Reset(old(State()))
      ensures ChunkCount() == 1 && BytesUsed() == 0 && BytesAllocated() == chunkSize
      ensures currentIdx == 0 && currentOffset == 0
      ensures chunks[0].capacity == old(chunks[0].capacity)
    {
      ResetProperties(State());
      if |chunks| > 1 {
        chunks := chunks[..1];
      }
      if |chunks| > 0 {
        chunks := [Chunk([], chunks[0].capacity)];
      }
      currentIdx := 0;
      currentOffset := 0;
      generation := generation + 1;
    }

    /** `bytes_allocated`: reserved capacity over all chunks; never below
        `bytes_used`. */
    function BytesAllocated(): (n: nat)
      reads this
      ensures Valid() ==> BytesUsed() <= n
    {
      UsedWithinFootprint(chunks);
      Capacities(chunks)
    }

    /** `bytes_used`: initialised bytes over all chunks; zero exactly when
        every chunk is empty. */
    function BytesUsed(): (n: nat)
      reads this
      ensures n == 0 <==> forall i :: 0 <= i < |chunks| ==> |chunks[i].bytes| == 0
    {
      LengthsZero(chunks);
      Lengths(chunks)
    }

    /** `chunk_count`: there is always a first chunk. */
    function ChunkCount(): (n: nat)
      reads this
      ensures Valid() ==> n >= 1
    {
      |chunks|
    }
  }

  /** An ordered list of views into one arena, joined on demand. */
  class ResponseBuffer {
    const arena: Arena
    var parts: seq<View>

    /** Every part is a live, non-empty text in the arena. */
    ghost predicate Valid()
      reads this, arena
    {
      arena.Valid() && ViewsValid(arena.State(), parts) && TextParts(ReadAll(arena.State(), parts))
    }

    /** The texts the parts read back, in push order. */
    function Parts(): seq<seq<byte>>
      reads this, arena
      requires ViewsValid(arena.State(), parts)
    {
      ReadAll(arena.State(), parts)
    }

    /** `ResponseBuffer::new`. */
    constructor New(arena: Arena)
      requires arena.Valid()
      ensures Valid() && this.arena == arena && parts == [] && Parts() == []
    {
      this.arena := arena;
      parts := [];
    }

    /** `ResponseBuffer::with_capacity`: the capacity only pre-reserves the
        parts list, so it is not observable here. */
    constructor WithCapacity(arena: Arena, capacity: nat)
      requires arena.Valid()
      ensures Valid() && this.arena == arena && parts == [] && Parts() == []
    {
      this.arena := arena;
      parts := [];
    }

    /** `push_str`: skip an empty string, otherwise allocate it in the arena
        and append the view. */
    method PushStr(s: Str)
      requires Valid()
      modifies this, arena
      ensures Valid()
      ensures Parts() == Push(old(Parts()), s)
      ensures AsStr() == old(AsStr()) + s
      ensures Len() == old(Len()) + |s|
      ensures PartCount() == old(PartCount()) + (if |s| == 0 then 0 else 1)
      ensures arena.State() ==
        if |s| == 0 then old(arena.State()) else ArenaModel.AllocBytes(old(arena.State()), s).state
      ensures Extends(old(arena.State()), arena.State())
    {
      PushEffect(Parts(), s);
      if |s| != 0 {
        PushKeepsParts(arena.State(), parts, s);
        var v := arena.AllocStr(s);
        parts := parts + [v];
      }
    }

    /** `push_bytes`: the bytes must be valid UTF-8 (the source panics
        otherwise); then as `push_str`. */
    method PushBytes(bytes: seq<byte>)
      requires Valid()
      requires ValidUtf8(bytes)
      modifies this, arena
      ensures Valid()
      ensures Parts() == Push(old(Parts()), bytes)
      ensures AsStr() == old(AsStr()) + bytes
      ensures Len() == old(Len()) + |bytes|
      ensures PartCount() == old(PartCount()) + (if |bytes| == 0 then 0 else 1)
      ensures arena.State() ==
        if |bytes| == 0 then old(arena.State()) else ArenaModel.AllocBytes(old(arena.State()), bytes).state
      ensures Extends(old(arena.State()), arena.State())
    {
      if |bytes| != 0 {
        PushStr(bytes);
      } else {
        PushEffect(Parts(), bytes);
      }
    }

    /** `as_str`: the parts joined in order, a text again. */
    function AsStr(): (r: Str)
      reads this, arena
      requires Valid()
      ensures |r| == Len()
    {
      ConcatIsUtf8(Parts());
      Concat(Parts())
    }

    /** `len`: total byte length of the parts; as no part is empty, at
        least the number of parts. */
    function Len(): (n: nat)
      reads this, arena
      requires Valid()
      ensures PartCount() <= n
    {
      TotalLen(Parts())
    }

    /** `is_empty`: no parts; since no part is empty, exactly when the joined
        string is empty. */
    function IsEmpty(): (b: bool)
      reads this, arena
      requires Valid()
      ensures b <==> AsStr() == []
      ensures b <==> Len() == 0
    {
      EmptyIffNoParts(Parts());
      |parts| == 0
    }

    /** `part_count`: one part per view, so one per text read back. */
    function PartCount(): (n: nat)
      reads this, arena
      requires Valid()
      ensures n == |Parts()|
    {
      |parts|
    }

    /** `clear`: drop the parts; the arena keeps its allocations. */
    method Clear()
      requires Valid()
      modifies this
      ensures Valid() && parts == [] && Parts() == [] && PartCount() == 0
      ensures arena.State() == old(arena.State())
    {
      parts := [];
    }
  }
}
