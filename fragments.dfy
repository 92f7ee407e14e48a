/** The parts list of `ResponseBuffer` on values: the texts its views read
    back, in push order, and what `push_str`, `as_str` and `len` make of them. */
module Fragments {
  import opened Utf8

  /** `parts.concat()`: the parts joined in order; its length is the sum
      of the part lengths that `len` computes. */
  function Concat(ts: seq<seq<byte>>): (r: seq<byte>)
    ensures |r| == TotalLen(ts)
  {
    if |ts| == 0 then [] else ts[0] + Concat(ts[1..])
  }

  /** Sum of the part lengths, as `len` computes it; with no empty part it
      is at least the number of parts. */
  function TotalLen(ts: seq<seq<byte>>): (n: nat)
    ensures NoEmptyPart(ts) ==> |ts| <= n
  {
    if |ts| == 0 then 0 else |ts[0]| + TotalLen(ts[1..])
  }

  /** `push_str`: an empty string adds no part; any other is appended.  The
      earlier parts are kept in order, and a text pushed onto non-empty
      texts leaves non-empty texts. */
  function Push(parts: seq<seq<byte>>, s: seq<byte>): (r: seq<seq<byte>>)
    ensures parts <= r && |r| <= |parts| + 1
    ensures TextParts(parts) && ValidUtf8(s) ==> TextParts(r)
  {
    if |s| == 0 then parts else parts + [s]
  }

  /** The parts after pushing each of `strs` in turn. */
  function PushAll(parts: seq<seq<byte>>, strs: seq<seq<byte>>): seq<seq<byte>>
    decreases |strs|
  {
    if |strs| == 0 then parts else PushAll(Push(parts, strs[0]), strs[1..])
  }

  /** How many of `strs` are non-empty. */
  function NonEmptyCount(strs: seq<seq<byte>>): nat {
    if |strs| == 0 then 0
    else (if |strs[0]| == 0 then 0 else 1) + NonEmptyCount(strs[1..])
  }

  predicate NoEmptyPart(ts: seq<seq<byte>>) {
    forall i :: 0 <= i < |ts| ==> |ts[i]| > 0
  }

  predicate AllUtf8(ts: seq<seq<byte>>) {
    forall i :: 0 <= i < |ts| ==> ValidUtf8(ts[i])
  }

  /** What a buffer's parts always are: non-empty texts. */
  predicate TextParts(ts: seq<seq<byte>>) {
    NoEmptyPart(ts) && AllUtf8(ts)
  }

  lemma {:induction false} ConcatAppend(ts: seq<seq<byte>>, t: seq<byte>)
    ensures Concat(ts + [t]) == Concat(ts) + t
    decreases |ts|
  {
    if |ts| == 0 {
      assert ts + [t] == [t];
      assert Concat([t][1..]) == [];
    } else {
      assert (ts + [t])[1..] == ts[1..] + [t];
      ConcatAppend(ts[1..], t);
    }
  }

  /** Joining texts gives a text. */
  lemma {:induction false} ConcatIsUtf8(ts: seq<seq<byte>>)
    requires AllUtf8(ts)
    ensures ValidUtf8(Concat(ts))
    decreases |ts|
  {
    if |ts| > 0 {
      ConcatIsUtf8(ts[1..]);
      ConcatUtf8(ts[0], Concat(ts[1..]));
    }
  }

  /** With no empty part, the joined string is empty exactly when there are
      no parts, which is what `is_empty` tests. */
  lemma {:induction false} EmptyIffNoParts(ts: seq<seq<byte>>)
    requires NoEmptyPart(ts)
    ensures |ts| == 0 <==> Concat(ts) == []
    ensures |ts| == 0 <==> TotalLen(ts) == 0
  {
    if |ts| > 0 {
      assert |Concat(ts)| >= |ts[0]| > 0;
    }
  }

  /** One push: the joined string gains exactly `s`, and the part count grows
      by one unless `s` is empty. */
  lemma PushEffect(parts: seq<seq<byte>>, s: seq<byte>)
    ensures Concat(Push(parts, s)) == Concat(parts) + s
    ensures |Push(parts, s)| == |parts| + (if |s| == 0 then 0 else 1)
  {
    if |s| > 0 {
      ConcatAppend(parts, s);
    } else {
      assert Concat(parts) + s == Concat(parts);
    }
  }

  /** A sequence of pushes: the part count grows by the number of non-empty
      strings pushed, and the joined string grows by all of them joined in
      push order (empty ones contribute nothing). */
  lemma {:induction false} PushAllEffect(parts: seq<seq<byte>>, strs: seq<seq<byte>>)
    ensures |PushAll(parts, strs)| == |parts| + NonEmptyCount(strs)
    ensures Concat(PushAll(parts, strs)) == Concat(parts) + Concat(strs)
    decreases |strs|
  {
    if |strs| > 0 {
      PushEffect(parts, strs[0]);
      PushAllEffect(Push(parts, strs[0]), strs[1..]);
    }
  }

  /** Pushes never create an empty part. */
  lemma {:induction false} PushAllNoEmptyPart(parts: seq<seq<byte>>, strs: seq<seq<byte>>)
    requires NoEmptyPart(parts)
    ensures NoEmptyPart(PushAll(parts, strs))
    decreases |strs|
  {
    if |strs| > 0 {
      PushAllNoEmptyPart(Push(parts, strs[0]), strs[1..]);
    }
  }

  /** "hello", "", "world" pushed into an empty buffer: two parts, joined
      "helloworld".  This is `test_response_buffer_empty_strings` on the
      parts as values, proved from `PushAllEffect`; `Scenarios.PushSkipsEmpty`
      replays the same test through the `ResponseBuffer` class. */
  lemma HelloEmptyWorld(hello: seq<byte>, world: seq<byte>)
    requires |hello| > 0 && |world| > 0
    ensures |PushAll([], [hello, [], world])| == 2
    ensures Concat(PushAll([], [hello, [], world])) == hello + world
  {
    var strs := [hello, [], world];
    PushAllEffect([], strs);
    assert strs[1..] == [[], world] && strs[1..][1..] == [world];
    assert Concat([world]) == world && NonEmptyCount([world]) == 1 by {
      assert [world][1..] == [];
    }
  }
}
