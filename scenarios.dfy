/** Uses of the `Arena` and `ResponseBuffer` classes, proved from their
    contracts.  Most replay one of the unit tests at the end of
    `src/arena.rs`, for all inputs of the shape the test uses rather than
    for its literal strings; `test_arena_multiple_chunks` needs a loop over
    ten strings and is stated on values as `ArenaModel.SpillsIntoNewChunk`.
    The last two, `PushThroughOther` and `StaleAfterReset`, replay no test:
    they are further properties of the source's design. */
module Scenarios {
  import opened Utf8
  import opened ArenaModel
  import opened Fragments
  import opened ArenaImpl

  /** `test_arena_basic`: two strings allocated one after the other each
      read back as themselves. */
  method ArenaBasic(s1: Str, s2: Str) returns (r1: seq<byte>, r2: seq<byte>)
    ensures r1 == s1 && r2 == s2
  {
    var arena := new Arena.New();
    var v1 := arena.AllocStr(s1);
    ghost var st := arena.State();
    var v2 := arena.AllocStr(s2);
    ExtendsKeepsViews(st, arena.State(), [v1]);
    assert ReadAll(arena.State(), [v1])[0] == Read(arena.State(), v1);
    assert ReadAll(st, [v1])[0] == Read(st, v1);
    r1 := Read(arena.State(), v1);
    r2 := Read(arena.State(), v2);
  }

  /** `test_arena_empty`: the empty string gets the empty view. */
  method ArenaEmpty() returns (v: View, r: seq<byte>)
    ensures v == Empty && r == []
  {
    var arena := new Arena.New();
    v := arena.AllocStr([]);
    r := Read(arena.State(), v);
  }

  /** `test_arena_bytes`: any bytes, text or not, read back as themselves. */
  method ArenaBytes(bytes: seq<byte>) returns (r: seq<byte>)
    ensures r == bytes
  {
    var arena := new Arena.New();
    var v := arena.AllocBytes(bytes);
    r := Read(arena.State(), v);
  }

  /** `test_arena_stats`: a fresh arena with 1024-byte chunks reserves 1024
      bytes; after one allocation exactly its length is in use. */
  method ArenaStats(s: Str) returns (initial: nat, used: nat)
    ensures initial == 1024 && used == |s|
  {
    var arena := new Arena.WithChunkSize(1024);
    initial := arena.BytesAllocated();
    var _ := arena.AllocStr(s);
    used := arena.BytesUsed();
  }

  /** `test_arena_reset`: two allocations, a reset, and an allocation after
      it: something was in use before, nothing after, one chunk is left,
      and the new view reads back its string. */
  method ResetAndReuse(t1: Str, t2: Str, s: Str)
    returns (usedBefore: nat, usedAfter: nat, count: nat, readBack: seq<byte>)
    requires |t1| > 0
    ensures usedBefore > 0 && usedAfter == 0 && count == 1
    ensures readBack == s
  {
    var arena := new Arena.New();
    var _ := arena.AllocStr(t1);
    var _ := arena.AllocStr(t2);
    usedBefore := arena.BytesUsed();
    arena.Reset();
    usedAfter := arena.BytesUsed();
    count := arena.ChunkCount();
    var v := arena.AllocStr(s);
    readBack := Read(arena.State(), v);
  }

  /** `test_arena_large_allocation`: a string longer than the 1024-byte
      chunk size gets its own chunk and reads back whole; a fresh arena
      reserves exactly 1024 bytes. */
  method LargeAllocation(large: Str) returns (initial: nat, count: nat, readBack: seq<byte>)
    requires |large| > 1024
    ensures initial == 1024 && count == 2 && readBack == large
  {
    var arena := new Arena.WithChunkSize(1024);
    initial := arena.BytesAllocated();
    var v := arena.AllocStr(large);
    AllocLargePath(Init(1024), large);
    count := arena.ChunkCount();
    readBack := Read(arena.State(), v);
  }

  /** `test_response_buffer_basic`: four non-empty pushes give four parts,
      joined in push order. */
  method BufferBasic(a: Str, b: Str, c: Str, d: Str) returns (count: nat, joined: seq<byte>)
    requires |a| > 0 && |b| > 0 && |c| > 0 && |d| > 0
    ensures count == 4 && joined == a + b + c + d
  {
    var arena := new Arena.New();
    var buffer := new ResponseBuffer.New(arena);
    assert buffer.AsStr() == [];
    buffer.PushStr(a);
    assert buffer.AsStr() == a;
    buffer.PushStr(b);
    assert buffer.AsStr() == a + b;
    buffer.PushStr(c);
    assert buffer.AsStr() == a + b + c;
    buffer.PushStr(d);
    count := buffer.PartCount();
    joined := buffer.AsStr();
  }

  /** `test_response_buffer_empty_strings`: "hello", "", "world" into one
      buffer give two parts, joined in order.  `Fragments.HelloEmptyWorld`
      proves the same on the parts as values, from the definition of `Push`
      alone; this method proves it through the class contracts. */
  method PushSkipsEmpty(hello: Str, world: Str) returns (count: nat, joined: seq<byte>)
    requires |hello| > 0 && |world| > 0
    ensures count == 2 && joined == hello + world
  {
    var arena := new Arena.New();
    var buffer := new ResponseBuffer.New(arena);
    assert buffer.AsStr() == [];
    buffer.PushStr(hello);
    assert buffer.AsStr() == hello;
    buffer.PushStr([]);
    assert buffer.AsStr() == hello;
    buffer.PushStr(world);
    count := buffer.PartCount();
    joined := buffer.AsStr();
  }

  /** The first assertions of `test_response_buffer_len`: a fresh buffer has
      length 0 and is empty. */
  method FreshBufferEmpty() returns (len: nat, empty: bool)
    ensures len == 0 && empty
  {
    var arena := new Arena.New();
    var buffer := new ResponseBuffer.New(arena);
    len := buffer.Len();
    empty := buffer.IsEmpty();
  }

  /** `test_response_buffer_len`: `len` and `is_empty` as "test" and then
      " data" are pushed: the
      first length and not empty, then the sum. */
  method LengthAsPushed(a: Str, b: Str) returns (len1: nat, empty1: bool, len2: nat)
    requires |a| > 0
    ensures len1 == |a| && !empty1
    ensures len2 == |a| + |b|
  {
    var arena := new Arena.New();
    var buffer := new ResponseBuffer.New(arena);
    buffer.PushStr(a);
    len1 := buffer.Len();
    empty1 := buffer.IsEmpty();
    buffer.PushStr(b);
    len2 := buffer.Len();
  }

  /** `test_response_buffer_clear`: two non-empty pushes give two parts;
      after `clear` the buffer is empty and stays usable: a new push is all
      it holds. */
  method ClearThenPush(old1: Str, old2: Str, next: Str)
    returns (before: nat, count: nat, cleared: bool, again: seq<byte>)
    requires |old1| > 0 && |old2| > 0
    ensures before == 2 && count == 0 && cleared && again == next
  {
    var arena := new Arena.New();
    var buffer := new ResponseBuffer.New(arena);
    buffer.PushStr(old1);
    assert buffer.Parts() == [old1];
    buffer.PushStr(old2);
    before := buffer.PartCount();
    buffer.Clear();
    count := buffer.PartCount();
    cleared := buffer.IsEmpty();
    buffer.PushStr(next);
    again := buffer.AsStr();
  }

  /** `test_response_buffer_capacity`: a buffer made with a capacity has no
      parts. */
  method BufferCapacity() returns (count: nat)
    ensures count == 0
  {
    var arena := new Arena.New();
    var buffer := new ResponseBuffer.WithCapacity(arena, 10);
    count := buffer.PartCount();
  }

  /** Two buffers on one arena: pushing through one leaves what the other
      reads back untouched. */
  method PushThroughOther(one: ResponseBuffer, two: ResponseBuffer, b: Str)
    requires one.Valid() && two.Valid() && one.arena == two.arena && one != two
    modifies two, two.arena
    ensures one.Valid() && two.Valid()
    ensures one.AsStr() == old(one.AsStr()) && two.AsStr() == old(two.AsStr()) + b
  {
    ghost var st := one.arena.State();
    two.PushStr(b);
    ExtendsKeepsViews(st, one.arena.State(), one.parts);
  }

  /** A buffer filled before `reset` is not valid after it, even once a
      later allocation of the same length has put new bytes exactly where
      its part was. */
  method StaleAfterReset(a: Str, b: Str) returns (buffer: ResponseBuffer, readBack: seq<byte>)
    requires |a| > 0 && |b| == |a|
    ensures !buffer.Valid()
    ensures readBack == b
  {
    var arena := new Arena.New();
    buffer := new ResponseBuffer.New(arena);
    buffer.PushStr(a);
    assert buffer.parts[0].Slice? && buffer.parts[0].generation == 0 by {
      assert ValidView(arena.State(), buffer.parts[0]);
      assert Read(arena.State(), buffer.parts[0]) == buffer.Parts()[0] == a;
    }
    arena.Reset();
    var v := arena.AllocStr(b);
    readBack := Read(arena.State(), v);
    assert !ValidView(arena.State(), buffer.parts[0]);
  }
}
