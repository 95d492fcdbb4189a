/**
 * Well-formed UTF-8 as the Unicode Standard defines it (Table 3-7): the check
 * `String::from_utf8` performs before a received string is accepted.
 */
module Utf8 {
  import opened Wire

  predicate Continuation(b: Byte)
  {
    0x80 <= b <= 0xBF
  }

  /**
   * The length of the well-formed code unit sequence at the front of `s`, or 0
   * when there is none (a stray continuation byte, an overlong form, a
   * surrogate, a value past U+10FFFF, or a truncated sequence).
   */
  function SequenceLength(s: seq<Byte>): (n: nat)
    requires |s| > 0
    ensures n <= 4 && n <= |s|
  {
    var b := s[0];
    if b <= 0x7F then 1
    else if 0xC2 <= b <= 0xDF then
      if |s| >= 2 && Continuation(s[1]) then 2 else 0
    else if 0xE0 <= b <= 0xEF then
      var lo := if b == 0xE0 then 0xA0 else 0x80;
      var hi := if b == 0xED then 0x9F else 0xBF;
      if |s| >= 3 && lo <= s[1] <= hi && Continuation(s[2]) then 3 else 0
    else if 0xF0 <= b <= 0xF4 then
      var lo := if b == 0xF0 then 0x90 else 0x80;
      var hi := if b == 0xF4 then 0x8F else 0xBF;
      if |s| >= 4 && lo <= s[1] <= hi && Continuation(s[2]) && Continuation(s[3]) then 4 else 0
    else 0
  }

  predicate ValidUtf8(s: seq<Byte>)
    decreases |s|
  {
    s == [] || (SequenceLength(s) > 0 && ValidUtf8(s[SequenceLength(s)..]))
  }

  /** ASCII text is valid UTF-8. */
  lemma {:induction false} AsciiIsValid(s: seq<Byte>)
    requires forall k :: 0 <= k < |s| ==> s[k] < 0x80
    ensures ValidUtf8(s)
    decreases |s|
  {
    if s != [] {
      AsciiIsValid(s[1..]);
    }
  }

  /** Two valid strings written one after the other form a valid string. */
  lemma {:induction false} ValidConcat(s: seq<Byte>, t: seq<Byte>)
    requires ValidUtf8(s) && ValidUtf8(t)
    ensures ValidUtf8(s + t)
    decreases |s|
  {
    if s != [] {
      var n := SequenceLength(s);
      assert forall k :: 0 <= k < n ==> (s + t)[k] == s[k];
      assert SequenceLength(s + t) == n;
      assert (s + t)[n..] == s[n..] + t;
      ValidConcat(s[n..], t);
    } else {
      assert s + t == t;
    }
  }
}
