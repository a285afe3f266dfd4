/** Well-formedness of UTF-8, the check `String::from_utf8` performs before it wraps a
    byte vector as a `String` (the bytes themselves are kept unchanged). The accepted
    sequences are those of Table 3-7 of the Unicode Standard, chapter 3. */
module Utf8 {
  import opened Wire

  predicate IsCont(b: byte) {
    0x80 <= b <= 0xBF
  }

  /** Length of the well-formed sequence that starts `s`, or 0 when `s` does not
      start with one (stray continuation byte, overlong form, surrogate, or a code
      point above U+10FFFF, or a sequence cut short). */
  function LeadLen(s: seq<byte>): (n: nat)
    requires s != []
    ensures n <= |s| && n <= 4
  {
    var b0 := s[0];
    if b0 <= 0x7F then 1
    else if 0xC2 <= b0 <= 0xDF then
      if |s| >= 2 && IsCont(s[1]) then 2 else 0
    else if 0xE0 <= b0 <= 0xEF then
      var lo: byte := if b0 == 0xE0 then 0xA0 else 0x80;
      var hi: byte := if b0 == 0xED then 0x9F else 0xBF;
      if |s| >= 3 && lo <= s[1] <= hi && IsCont(s[2]) then 3 else 0
    else if 0xF0 <= b0 <= 0xF4 then
      var lo: byte := if b0 == 0xF0 then 0x90 else 0x80;
      var hi: byte := if b0 == 0xF4 then 0x8F else 0xBF;
      if |s| >= 4 && lo <= s[1] <= hi && IsCont(s[2]) && IsCont(s[3]) then 4 else 0
    else 0
  }

  /** `s` is a concatenation of well-formed UTF-8 sequences. */
  predicate Valid(s: seq<byte>)
    ensures Valid(s) && s != [] ==> !IsCont(s[0]) && s[0] != 0xC0 && s[0] != 0xC1 && s[0] < 0xF5
    decreases |s|
  {
    s == [] || (LeadLen(s) > 0 && Valid(s[LeadLen(s)..]))
  }

  predicate AllAscii(s: seq<byte>) {
    forall i :: 0 <= i < |s| ==> s[i] <= 0x7F
  }

  /** ASCII bytes are valid UTF-8. */
  lemma {:induction false} AsciiValid(s: seq<byte>)
    requires AllAscii(s)
    ensures Valid(s)
    decreases |s|
  {
    if s != [] {
      AsciiValid(s[1..]);
    }
  }

  /** Valid text stays valid when more valid text is appended. */
  lemma {:induction false} ValidConcat(a: seq<byte>, b: seq<byte>)
    requires Valid(a) && Valid(b)
    ensures Valid(a + b)
    decreases |a|
  {
    if a == [] {
      assert a + b == b;
    } else {
      var n, c := LeadLen(a), a + b;
      assert c[..n] == a[..n];
      LeadLenPrefix(a, c);
      ValidConcat(a[n..], b);
      assert c[n..] == a[n..] + b;
      ValidStep(c, n);
    }
  }

  /** A sequence that starts with a well-formed sequence of `n` bytes followed by valid
      text is valid. */
  lemma {:induction false} ValidStep(c: seq<byte>, n: nat)
    requires c != [] && n > 0 && LeadLen(c) == n && Valid(c[n..])
    ensures Valid(c)
  {
  }

  /** `LeadLen` looks only at the bytes of the sequence it accepts. */
  lemma {:induction false} LeadLenPrefix(a: seq<byte>, c: seq<byte>)
    requires a != [] && LeadLen(a) > 0
    requires |c| >= LeadLen(a) && c[..LeadLen(a)] == a[..LeadLen(a)]
    ensures LeadLen(c) == LeadLen(a)
  {
    var n := LeadLen(a);
    assert c[0] == a[0];
    assert n >= 2 ==> c[1] == a[1];
    assert n >= 3 ==> c[2] == a[2];
    assert n >= 4 ==> c[3] == a[3];
  }

  /** A continuation byte cannot start a character, so it is never valid text on
      its own. */
  lemma {:induction false} ContinuationInvalid(b: byte)
    requires IsCont(b)
    ensures !Valid([b])
  {
  }
}
