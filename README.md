# Arena allocator and response buffer, modelled in Dafny

This project models the per-request bump allocator `Arena` and the fragment
accumulator `ResponseBuffer` of `src/arena.rs`.

- An `Arena` owns a list of byte chunks, a cursor (current chunk index and bump
  offset) and a fixed chunk size (64 KiB by default).
- `alloc_bytes` / `alloc_str` copy their input into arena memory along one of
  three paths:
  - the fast path: the current chunk has room;
  - the new-chunk path: a fresh chunk of the chunk size is opened and becomes current;
  - the large-object path: input longer than the chunk size gets its own
    exactly-sized chunk, and the cursor does not move.
- `reset` keeps only the first chunk, emptied.
- `ResponseBuffer` keeps an ordered list of views into one arena, skips empty
  strings, and joins the views in order on `as_str`.

Files:

- `utf8.dfy` (module `Utf8`): bytes (an integer newtype `byte`, 0 to 255), UTF-8 well-formedness as RFC 3629
  section 4 defines it (what `std::str::from_utf8` checks), the `Str` type of
  texts, and the proof that joining two texts gives a text.
- `arena_model.dfy` (module `ArenaModel`): the arena as a state machine on
  values. It defines `ArenaState`, the `View` handle and one function per
  allocation path, `AllocBytes`, `Reset`, the sums behind `bytes_allocated` and
  `bytes_used`, the invariant `Inv`, and the lemmas about them.
- `fragments.dfy` (module `Fragments`): the texts a buffer's parts read back,
  and what `push_str`, `as_str`, `len` and `is_empty` make of them.
- `arena.dfy` (module `ArenaImpl`): the classes `Arena` and `ResponseBuffer`. Their
  fields are updated in place, and every method is proved against the
  functions of `ArenaModel` and `Fragments`.
- `scenarios.dfy` (module `Scenarios`): uses of the two classes, proved from
  their contracts (three of them also call a lemma of `ArenaModel`:
  `AllocLargePath` or `ExtendsKeepsViews`).
  - Eleven of the twelve unit tests at the end of `src/arena.rs` are replayed,
    for all inputs of the shape each test uses.
  - `test_arena_multiple_chunks` loops over ten strings. It is stated on
    values instead, as `ArenaModel.SpillsIntoNewChunk`.
  - `PushThroughOther` and `StaleAfterReset` replay no test: they are further
    properties of the design (buffers sharing an arena, views retired by `reset`).

A returned slice is a handle `Slice(chunk, start, len, generation)`. Empty
input gets the handle `Empty`, which stands for the static `&[]` and points
into no chunk.
`Read` turns a handle back into bytes. A chunk is a value `Chunk(bytes,
capacity)`: `bytes` is the vector's initialised contents and `capacity` is
its reserved size.

`reset` takes `&mut self`, so in Rust no slice handed out before a reset can
outlive it. The model keeps the same rule with a generation count. The arena
state counts its resets, each slice records the generation it was handed out
in, and only slices of the current generation are valid. The `Arena` class
holds this count as a field `generation` that the Rust struct does not have.

`push_bytes` panics on invalid UTF-8 (`expect` at src/arena.rs:284). It
returns no error, so `ResponseBuffer.PushBytes` requires valid UTF-8 input.

## Model

| member | source | states |
|---|---|---|
| Utf8.ConcatUtf8 | src/arena.rs:289-295 | Joining two well-formed UTF-8 byte strings gives a well-formed one, so the `String` built by `concat` is valid text |
| ArenaModel.WriteAt | src/arena.rs:130-139 | After growing the chunk with zeros up to the end of the copy (only if it is shorter) and copying, the range `[start, start+len)` holds the input, every other old byte is unchanged, the gap is zeros, and the length is the larger of the old length and the end |
| ArenaModel.AllocBytes | src/arena.rs:96-123 | On every path (empty, large, fast, new chunk), whatever the arena state, the returned view is valid and reads back exactly the input; the chunk size and the generation never change |
| ArenaModel.AllocAll | src/arena.rs:352-366 | A run of allocations keeps the arena invariant after every step and hands back one view per string |
| ArenaModel.UsedWithinFootprint | src/arena.rs:214-224 | `bytes_used <= bytes_allocated` whenever no chunk holds more than its capacity |
| ArenaModel.LengthsZero | src/arena.rs:220-224 | The sum of chunk lengths is zero exactly when every chunk is empty |
| ArenaModel.Init | src/arena.rs:72-82 | `with_chunk_size(n)` gives an arena that keeps the invariant, with one chunk and generation 0, `bytes_allocated == n` and `bytes_used == 0` |
| ArenaModel.Reset | src/arena.rs:197-212 | From any state: the cursor is at 0/0, at most one chunk is left (exactly one, with the first chunk's capacity, if there was one), `bytes_used == 0`, the chunk size is kept and a new generation begins |
| ArenaModel.ResetProperties | src/arena.rs:197-212 | After `reset` of an arena that keeps the invariant, the invariant still holds and `bytes_allocated` equals the chunk size |
| ArenaModel.ResetRetiresViews | src/arena.rs:194-197 | `reset` invalidates every slice handed out before it: such a view is not valid after the reset, nor after any later allocation, even one that writes where the view pointed |
| ArenaModel.ResetThenAlloc | src/arena.rs:388-406 | An allocation after `reset` reads back its input, and `bytes_used` then equals its length |
| ArenaModel.AllocPreservesInv | src/arena.rs:96-192 | Every allocation keeps the invariant. The invariant: at least one chunk; the cursor names a chunk; the first and the current chunk have the chunk size as capacity; the current chunk's length equals the offset; every chunk is within capacity and is either a regular chunk or a full large chunk |
| ArenaModel.AllocInCurrentChunk | src/arena.rs:126-149 | With the copy ending within the chunk's capacity: the view reads back the input, no other chunk changes, the chunk keeps its capacity and stays within it, the offset moves to the end of the copy, and when the offset is at or past the chunk's end the old bytes stay a prefix |
| ArenaModel.AllocNewChunk | src/arena.rs:152-171 | For input that fits in one chunk: the view reads back the input, the old chunks are kept, and the appended chunk becomes current as a regular chunk whose length is the new offset |
| ArenaModel.AllocLarge | src/arena.rs:174-192 | The view reads back the input, the old chunks are kept, the cursor does not move, and for input larger than the chunk size the appended chunk is exactly full |
| ArenaModel.AllocEmpty | src/arena.rs:97-100 | Empty input returns the empty view and leaves the arena state unchanged |
| ArenaModel.AllocLargePath | src/arena.rs:102-105 | Input longer than the chunk size appends exactly one chunk `Chunk(bytes, len)` and leaves the current chunk index and offset unchanged |
| ArenaModel.AllocFastPath | src/arena.rs:110-117 | If `capacity - offset >= len`, the chunk count and current index stay the same, the offset grows by `len`, the current chunk becomes its old bytes followed by the input, and every other chunk is unchanged |
| ArenaModel.AllocNewChunkPath | src/arena.rs:118-122 | Otherwise one chunk of the chunk size holding the input is appended and becomes current, with the offset set to `len` |
| ArenaModel.AllocUsed | src/arena.rs:96-192 | `bytes_used` grows by exactly the allocated length on every path |
| ArenaModel.AllocFootprint | src/arena.rs:102-122 | `bytes_allocated` grows by 0 on empty input and on the fast path, by `len` on the large path, and by the chunk size on the new-chunk path |
| ArenaModel.AllocExtends | src/arena.rs:126-192 | An allocation never rewrites or drops a byte already in the arena and never changes a chunk's capacity: every old chunk's bytes are a prefix of its new bytes |
| ArenaModel.ExtendsKeepsViews | src/arena.rs:143-148 | Under such an extension every previously valid view stays valid and reads the same bytes |
| ArenaModel.AllocKeepsViews | src/arena.rs:96-192 | After any allocation, every earlier view still reads back the same bytes |
| ArenaModel.LargeThenSmall | src/arena.rs:184 | After a large allocation, a small allocation that fits in the previously current chunk lands there, right after the bytes already in it |
| ArenaModel.UsedBeyondOneChunk | src/arena.rs:363 | If more bytes are in use than one chunk holds, the arena has more than one chunk |
| ArenaModel.PushKeepsParts | src/arena.rs:270-275 | Allocating a non-empty text for a buffer keeps the invariant, extends the arena, leaves the earlier parts reading the same texts, and appends exactly the new text to the parts |
| ArenaModel.AllocAllExtends | src/arena.rs:126-192 | A run of allocations never rewrites a byte that was already in the arena |
| ArenaModel.AllocAllUsed | src/arena.rs:352-366 | A run of allocations grows `bytes_used` by the total length stored |
| ArenaModel.AllocAllReadsBack | src/arena.rs:352-366 | After a run of allocations every view reads back its own string, so later allocations never disturb earlier views |
| ArenaModel.SpillsIntoNewChunk | src/arena.rs:352-366 | From a fresh arena, storing more bytes in total than one chunk holds opens more than one chunk, and all views still read back their strings |
| Fragments.Concat | src/arena.rs:293-301 | The joined string's length is the sum of the part lengths that `len` computes |
| Fragments.TotalLen | src/arena.rs:297-313 | When no part is empty, the sum of the part lengths is at least the part count |
| Fragments.Push | src/arena.rs:270-275 | A push keeps the earlier parts in order and adds at most one part; pushing a text onto non-empty texts leaves non-empty texts |
| Fragments.ConcatIsUtf8 | src/arena.rs:293-295 | Joining any number of texts gives a text |
| Fragments.EmptyIffNoParts | src/arena.rs:303-307 | When no part is empty: no parts exactly when the joined string is empty, and exactly when the total length is zero |
| Fragments.PushEffect | src/arena.rs:270-275 | One push adds exactly the pushed string to the joined string, and adds one part unless the string is empty |
| Fragments.PushAllEffect | src/arena.rs:269-295 | After a sequence of pushes, the part count equals the earlier count plus the number of non-empty strings, and the joined string is the earlier one followed by all pushed strings in push order |
| Fragments.PushAllNoEmptyPart | src/arena.rs:270-275 | Pushes never create an empty part |
| Fragments.HelloEmptyWorld | src/arena.rs:424-435 | Pushing "hello", "", "world" into an empty buffer gives two parts, joined "helloworld" (for any two non-empty strings) |
| ArenaImpl.Arena.New | src/arena.rs:66-68 | A fresh arena with the 64 KiB default: one chunk, 65536 bytes reserved, none used |
| ArenaImpl.Arena.WithChunkSize | src/arena.rs:72-82 | A fresh arena with one empty chunk of the given capacity, cursor at 0/0; `bytes_allocated` is the size, `bytes_used` is 0 and `chunk_count` is 1 |
| ArenaImpl.Arena.AllocBytes | src/arena.rs:96-123 | The new state is `ArenaModel.AllocBytes` of the old state, the invariant is kept, the view reads back the input, `bytes_used` grows by its length, and no existing byte is rewritten |
| ArenaImpl.Arena.AllocStr | src/arena.rs:87-91 | Same as `alloc_bytes`; in addition the view reads back valid UTF-8 |
| ArenaImpl.Arena.AllocInCurrentChunk | src/arena.rs:126-149 | Pads chunk `idx` with zeros when needed, copies the input at the offset, and sets the offset to the end of the copy, as `ArenaModel.AllocInCurrentChunk` |
| ArenaImpl.Arena.AllocNewChunk | src/arena.rs:152-171 | Appends a chunk of the chunk size holding the input and makes it current with offset `len`, as `ArenaModel.AllocNewChunk` |
| ArenaImpl.Arena.AllocLarge | src/arena.rs:174-192 | Appends an exactly sized chunk holding the input and leaves the cursor alone, as `ArenaModel.AllocLarge` |
| ArenaImpl.Arena.Reset | src/arena.rs:197-212 | The state becomes `ArenaModel.Reset` of the old one: one emptied chunk with its old capacity, cursor at 0/0, `bytes_used == 0`, a new generation |
| ArenaImpl.Arena.BytesAllocated | src/arena.rs:216-218 | Sum of the chunk capacities, never below `bytes_used` while the invariant holds |
| ArenaImpl.Arena.BytesUsed | src/arena.rs:222-224 | Sum of the chunk lengths, zero exactly when every chunk is empty |
| ArenaImpl.Arena.ChunkCount | src/arena.rs:228-230 | The number of chunks, at least one while the invariant holds |
| ArenaImpl.ResponseBuffer.New | src/arena.rs:253-258 | A buffer on the given arena with no parts |
| ArenaImpl.ResponseBuffer.WithCapacity | src/arena.rs:262-267 | A buffer on the given arena with no parts, whatever capacity is asked for |
| ArenaImpl.ResponseBuffer.PushStr | src/arena.rs:270-275 | An empty string changes nothing. Any other string is allocated in the arena (the state is `ArenaModel.AllocBytes` of the old one) and its view is appended. `as_str` grows by exactly the string, `len` by its length, `part_count` by one unless it is empty, and the arena is only extended |
| ArenaImpl.ResponseBuffer.PushBytes | src/arena.rs:282-287 | For valid UTF-8 input, the same effect as `push_str` |
| ArenaImpl.ResponseBuffer.AsStr | src/arena.rs:293-295 | The parts joined in order; valid UTF-8, and its length is `len()` |
| ArenaImpl.ResponseBuffer.Len | src/arena.rs:299-301 | The sum of the part lengths, at least the part count |
| ArenaImpl.ResponseBuffer.IsEmpty | src/arena.rs:305-307 | True exactly when `as_str()` is empty and exactly when `len() == 0` |
| ArenaImpl.ResponseBuffer.PartCount | src/arena.rs:311-313 | For a valid buffer, the number of views, equal to the number of texts they read back |
| ArenaImpl.ResponseBuffer.Clear | src/arena.rs:316-318 | No parts are left, the buffer stays valid, and the arena state is unchanged |
| Scenarios.ArenaBasic | src/arena.rs:325-333 | `test_arena_basic`: two strings allocated in turn each read back as themselves, the first one after the second allocation |
| Scenarios.ArenaEmpty | src/arena.rs:335-340 | `test_arena_empty`: the empty string gets the empty view, which reads back empty |
| Scenarios.ArenaBytes | src/arena.rs:368-375 | `test_arena_bytes`: any bytes read back as themselves |
| Scenarios.ArenaStats | src/arena.rs:377-386 | `test_arena_stats`: with 1024-byte chunks a fresh arena reserves 1024 bytes, and after one allocation exactly its length is in use (the test asserts at least 4 for "test") |
| Scenarios.ResetAndReuse | src/arena.rs:388-406 | Two allocations, then `reset`: bytes were in use before, none after, one chunk is left, and a later allocation reads back its input |
| Scenarios.LargeAllocation | src/arena.rs:343-350 | With 1024-byte chunks, a fresh arena reserves exactly 1024 bytes; a longer string then gets a second chunk and reads back whole |
| Scenarios.BufferBasic | src/arena.rs:408-422 | `test_response_buffer_basic`: four non-empty pushes give 4 parts, and `as_str` is the four strings joined in order (the test checks that two of them occur) |
| Scenarios.PushSkipsEmpty | src/arena.rs:424-435 | Pushes of a non-empty string, "" and another non-empty string give 2 parts joined in order |
| Scenarios.FreshBufferEmpty | src/arena.rs:437-443 | A new buffer has `len() == 0` and `is_empty()` holds |
| Scenarios.LengthAsPushed | src/arena.rs:437-451 | After one non-empty push, `len` is its length and the buffer is not empty; after a second push, `len` is the sum of both lengths |
| Scenarios.ClearThenPush | src/arena.rs:453-469 | Two non-empty pushes into a new buffer give 2 parts; after `clear` there are 0 parts and the buffer is empty; a new push is then all that `as_str` returns |
| Scenarios.BufferCapacity | src/arena.rs:471-478 | `test_response_buffer_capacity`: a buffer made with a capacity of 10 has 0 parts |
| Scenarios.StaleAfterReset | src/arena.rs:194-212 | A buffer filled before `reset` is not valid afterwards, even after an allocation of the same length has refilled the place its part pointed to |
| Scenarios.PushThroughOther | src/arena.rs:245-248 | For two buffers on one arena, pushing through one leaves what the other reads back unchanged |

## Left out

- `RefCell`/`Cell` interior mutability (src/arena.rs:57-59): the arena's fields are ordinary mutable fields. Allocation methods have exclusive access (`modifies`).
- Raw-pointer slices and `from_raw_parts` (src/arena.rs:145-148, 166-170, 187-191): views are index handles read through the arena, so the model has no aliasing.
- The borrow checker (`reset` takes `&mut self`) is not modelled as such. The generation count stands for it: a view from before a reset is never valid again, so a buffer holding one loses `Valid()`, which every `ResponseBuffer` method and query (`push_str` through `part_count` and `clear`) requires.
- `Vec::with_capacity` may reserve more than asked. A chunk's capacity is modelled as exactly the requested size, as the assertion at src/arena.rs:382 expects.
- `ArenaModel.AllocNewChunk` and `ArenaImpl.Arena.AllocNewChunk` require the input to fit in one chunk. `alloc_bytes` only calls them then, so the growth policy of `extend_from_slice` past the capacity is not modelled.
- `ArenaModel.AllocInCurrentChunk` and `ArenaImpl.Arena.AllocInCurrentChunk` require the copy to end within the chunk's capacity. `alloc_bytes` only calls them then, so the growth of the capacity by `resize` past it is not modelled.
- `usize` arithmetic is unbounded here. Offsets stay within a chunk's capacity and cannot overflow, and the sums in `bytes_allocated`/`bytes_used` would need more memory than exists to wrap.
- Memory exhaustion aborts the process in Rust and is not modelled.
- ArenaImpl.ResponseBuffer.PushBytes: `push_bytes` panics on invalid UTF-8 (`expect` at src/arena.rs:284); the model makes valid UTF-8 a precondition instead of modelling the panic.
- The capacity argument of `ResponseBuffer::with_capacity` only pre-reserves the parts vector, so it has no observable effect.
- `impl Default for Arena` (src/arena.rs:233-237) is `Arena::new`, modelled by `ArenaImpl.Arena.New`.
- `src/fingerprint/autoupdate.rs`, `benches/arena_benchmark.rs`, `examples/arena_usage.rs` and the CLI tests under `tests/` are not part of this model. They do network and file I/O, timing and printing, or run the command-line binary.
