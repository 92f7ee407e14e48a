/** Bytes and UTF-8 well-formedness.

    Rust's `&str` and `String` are byte sequences that are guaranteed to be
    well-formed UTF-8.  The arena stores and hands back raw bytes; text is a
    byte sequence satisfying `ValidUtf8`, the well-formedness rule of
    RFC 3629 section 4 (the rule `std::str::from_utf8` checks: no overlong
    forms, no surrogates, nothing above U+10FFFF). */
module Utf8 {

  newtype byte = x: int | 0 <= x < 256

  /** A continuation byte: 10xxxxxx. */
  predicate IsTail(b: byte) {
    0x80 <= b <= 0xBF
  }

  /** The admissible second byte of a three-byte sequence led by `b0`. */
  predicate SecondOfThree(b0: byte, b1: byte) {
    if b0 == 0xE0 then 0xA0 <= b1 <= 0xBF
    else if b0 == 0xED then 0x80 <= b1 <= 0x9F
    else IsTail(b1)
  }

  /** The admissible second byte of a four-byte sequence led by `b0`. */
  predicate SecondOfFour(b0: byte, b1: byte) {
    if b0 == 0xF0 then 0x90 <= b1 <= 0xBF
    else if b0 == 0xF4 then 0x80 <= b1 <= 0x8F
    else IsTail(b1)
  }

  /** Number of bytes of the well-formed character at the head of `s`,
      or 0 when `s` is empty or does not start with a well-formed character. */
  function LeadWidth(s: seq<byte>): (w: nat)
    ensures w <= |s| && w <= 4
  {
    if |s| == 0 then 0
    else if s[0] <= 0x7F then 1
    else if 0xC2 <= s[0] <= 0xDF then
      (if |s| >= 2 && IsTail(s[1]) then 2 else 0)
    else if 0xE0 <= s[0] <= 0xEF then
      (if |s| >= 3 && SecondOfThree(s[0], s[1]) && IsTail(s[2]) then 3 else 0)
    else if 0xF0 <= s[0] <= 0xF4 then
      (if |s| >= 4 && SecondOfFour(s[0], s[1]) && IsTail(s[2]) && IsTail(s[3]) then 4 else 0)
    else 0
  }

  /** `s` is a concatenation of well-formed UTF-8 characters. */
  predicate ValidUtf8(s: seq<byte>)
    decreases |s|
  {
    |s| == 0 || (LeadWidth(s) > 0 && ValidUtf8(s[LeadWidth(s)..]))
  }

  /** Text: what a Rust `&str` holds. */
  type Str = s: seq<byte> | ValidUtf8(s)

  /** The head character of `a` is decided by `a`'s own bytes: appending more
      bytes does not change it. */
  lemma LeadWidthOfPrefix(a: seq<byte>, b: seq<byte>)
    requires LeadWidth(a) > 0
    ensures LeadWidth(a + b) == LeadWidth(a)
  {
    var w := LeadWidth(a);
    assert forall k :: 0 <= k < w ==> (a + b)[k] == a[k];
  }

  /** One step of joining: if what follows the head character of `a`,
      joined with `b`, is text, then `a` joined with `b` is text. */
  lemma ConcatStep(a: seq<byte>, b: seq<byte>)
    requires LeadWidth(a) > 0 && ValidUtf8(a[LeadWidth(a)..] + b)
    ensures ValidUtf8(a + b)
  {
    var w := LeadWidth(a);
    LeadWidthOfPrefix(a, b);
    assert (a + b)[w..] == a[w..] + b;
  }

  /** Joining two texts gives a text: what makes `concat` of `&str` parts a `String`. */
  lemma {:induction false} ConcatUtf8(a: seq<byte>, b: seq<byte>)
    requires ValidUtf8(a) && ValidUtf8(b)
    ensures ValidUtf8(a + b)
    decreases |a|
  {
    if |a| == 0 {
      assert a + b == b;
    } else {
      ConcatUtf8(a[LeadWidth(a)..], b);
      ConcatStep(a, b);
    }
  }
}
