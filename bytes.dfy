/** Bytes, the ASCII constants the header scanner compares against, and the
    well-formedness rule `str::from_utf8` applies before a byte buffer may be
    used as a string (UTF-8 as restricted by RFC 3629: no overlong forms, no
    surrogates, nothing above U+10FFFF). */
module Bytes {

  newtype byte = x: int | 0 <= x < 256

  /** Rust's `u64`, the type of a file length. */
  type u64 = x: int | 0 <= x < 0x1_0000_0000_0000_0000

  const LF: byte := 10
  const CR: byte := 13
  const SP: byte := 32
  const QUOTE: byte := 34

  predicate IsAscii(s: string)
  {
    forall i :: 0 <= i < |s| ==> s[i] as int < 128
  }

  /** The bytes of an ASCII string literal (`"filename=".as_bytes()`). */
  function AsciiBytes(s: string): (r: seq<byte>)
    requires IsAscii(s)
    ensures |r| == |s|
    ensures forall i :: 0 <= i < |s| ==> r[i] as int == s[i] as int < 128
  {
    seq(|s|, i requires 0 <= i < |s| => s[i] as int as byte)
  }

  predicate IsContinuation(b: byte)
  {
    0x80 <= b <= 0xBF
  }

  /** Length of the well-formed UTF-8 sequence that starts `s`, or 0 when `s`
      does not start with one (Table 3-7 of the Unicode standard). */
  function LeadLength(s: seq<byte>): (n: nat)
    requires |s| > 0
    ensures n <= 4 && n <= |s|
  {
    var b := s[0];
    if b < 0x80 then 1
    else if 0xC2 <= b <= 0xDF then
      if |s| >= 2 && IsContinuation(s[1]) then 2 else 0
    else if 0xE0 <= b <= 0xEF then
      var lo: byte := if b == 0xE0 then 0xA0 else 0x80;
      var hi: byte := if b == 0xED then 0x9F else 0xBF;
      if |s| >= 3 && lo <= s[1] <= hi && IsContinuation(s[2]) then 3 else 0
    else if 0xF0 <= b <= 0xF4 then
      var lo: byte := if b == 0xF0 then 0x90 else 0x80;
      var hi: byte := if b == 0xF4 then 0x8F else 0xBF;
      if |s| >= 4 && lo <= s[1] <= hi && IsContinuation(s[2]) && IsContinuation(s[3]) then 4 else 0
    else 0
  }

  /** `str::from_utf8(s)` succeeds. */
  predicate ValidUtf8(s: seq<byte>)
    decreases |s|
  {
    s == [] || (LeadLength(s) > 0 && ValidUtf8(s[LeadLength(s)..]))
  }

  /** Every byte below 0x80 is a one-byte character, so ASCII is valid UTF-8. */
  lemma {:induction false} AsciiIsUtf8(s: seq<byte>)
    requires forall i :: 0 <= i < |s| ==> s[i] < 0x80
    ensures ValidUtf8(s)
    decreases |s|
  {
    if s != [] {
      AsciiIsUtf8(s[1..]);
    }
  }

  /** The bytes after the lead byte of a well-formed sequence are all 0x80 or above. */
  lemma TrailingBytesHigh(s: seq<byte>, j: nat)
    requires |s| > 0 && 1 <= j < LeadLength(s)
    ensures s[j] >= 0x80
  {
  }

  /** The length of the first character depends only on its own bytes. */
  lemma LeadLengthOfPrefix(s: seq<byte>, m: nat)
    requires |s| > 0 && 0 < LeadLength(s) <= m <= |s|
    ensures LeadLength(s[..m]) == LeadLength(s)
  {
    var t := s[..m];
    assert t[0] == s[0];
    assert LeadLength(s) >= 2 ==> t[1] == s[1];
    assert LeadLength(s) >= 3 ==> t[2] == s[2];
    assert LeadLength(s) >= 4 ==> t[3] == s[3];
  }

  /** Cutting valid UTF-8 around an ASCII byte leaves valid UTF-8 on both
      sides: an ASCII byte never sits inside a multi-byte character. */
  lemma {:induction false} Utf8CutAtAscii(s: seq<byte>, i: nat)
    requires ValidUtf8(s) && i < |s| && s[i] < 0x80
    ensures ValidUtf8(s[..i]) && ValidUtf8(s[i + 1..])
    decreases |s|
  {
    var n := LeadLength(s);
    if i == 0 {
      assert n == 1;
    } else {
      if i < n {
        TrailingBytesHigh(s, i);
      }
      Utf8CutAtAscii(s[n..], i - n);
      assert s[n..][..i - n] == s[n..i];
      assert s[n..][i - n + 1..] == s[i + 1..];
      var t := s[..i];
      LeadLengthOfPrefix(s, i);
      assert t[n..] == s[n..i];
    }
  }
}
