/** Plain decimal numerals: the `{n}` rendering used by `format!` and the `usize`
    parser (`str::parse::<usize>`) used on the Content-Length value. */
module Decimal {
  import opened Wire

  /** `usize::MAX` on the 64-bit targets the client is built for. */
  const USIZE_MAX: nat := 0xFFFF_FFFF_FFFF_FFFF

  const ZERO: byte := 48
  const PLUS: byte := 43
  const MINUS: byte := 45

  predicate IsDigit(b: byte) {
    ZERO <= b <= ZERO + 9
  }

  predicate AllDigits(s: seq<byte>) {
    forall i :: 0 <= i < |s| ==> IsDigit(s[i])
  }

  /** The value of a string of decimal digits, most significant first. */
  function DigitsValue(s: seq<byte>): nat
    requires AllDigits(s)
    decreases |s|
  {
    if s == [] then 0 else DigitsValue(s[..|s| - 1]) * 10 + (s[|s| - 1] - ZERO) as nat
  }

  /** `n` written in decimal without leading zeros (Rust's `Display` for integers). */
  function Dec(n: nat): (r: seq<byte>)
    ensures r != [] && AllDigits(r)
    ensures DigitsValue(r) == n
    ensures r[0] == ZERO ==> r == [ZERO]
    decreases n
  {
    if n < 10 then [ZERO + n as byte]
    else
      var r := Dec(n / 10) + [ZERO + (n % 10) as byte];
      assert r[..|r| - 1] == Dec(n / 10);
      r
  }

  /** `n` zero digits. */
  function Zeros(n: nat): (r: seq<byte>)
    ensures |r| == n && AllDigits(r)
  {
    seq(n, _ => ZERO)
  }

  /** `str::parse::<usize>`: an optional leading `+` and then one or more ASCII
      digits, nothing else (no `-`, no whitespace); fails on overflow. */
  function ParseUsize(s: seq<byte>): (r: Option<nat>)
    ensures r.Some? ==> r.value <= USIZE_MAX
  {
    if s == [] then None
    else if |s| == 1 && (s[0] == PLUS || s[0] == MINUS) then None
    else
      var digits := if s[0] == PLUS then s[1..] else s;
      if AllDigits(digits) && DigitsValue(digits) <= USIZE_MAX then Some(DigitsValue(digits))
      else None
  }

  /** Leading zeros do not change the value of a numeral. */
  lemma {:induction false} ZerosValue(k: nat, t: seq<byte>)
    requires AllDigits(t)
    ensures AllDigits(Zeros(k) + t) && DigitsValue(Zeros(k) + t) == DigitsValue(t)
    decreases |t|
  {
    if t == [] {
      ZerosValueAll(k);
      assert Zeros(k) + t == Zeros(k);
    } else {
      var u := t[..|t| - 1];
      ZerosValue(k, u);
      assert (Zeros(k) + t)[..|Zeros(k) + t| - 1] == Zeros(k) + u;
    }
  }

  lemma {:induction false} ZerosValueAll(k: nat)
    ensures DigitsValue(Zeros(k)) == 0
  {
    if k > 0 {
      assert Zeros(k)[..k - 1] == Zeros(k - 1);
      ZerosValueAll(k - 1);
    }
  }

  /** Every digit string is some leading zeros followed by the canonical numeral of its
      value: the converse of `Dec`'s contract. */
  lemma {:induction false} DigitsCanonical(t: seq<byte>)
    requires t != [] && AllDigits(t)
    ensures |Dec(DigitsValue(t))| <= |t|
    ensures t == Zeros(|t| - |Dec(DigitsValue(t))|) + Dec(DigitsValue(t))
    decreases |t|
  {
    var u, d := t[..|t| - 1], t[|t| - 1];
    assert t == u + [d];
    var dv := (d - ZERO) as nat;
    assert DigitsValue(t) == DigitsValue(u) * 10 + dv;
    if u == [] {
      assert DigitsValue(t) == dv && Dec(dv) == [d];
      assert t == Zeros(0) + Dec(dv);
    } else {
      DigitsCanonical(u);
      LastDigit(u, d);
    }
  }

  /** One more digit after a numeral already in canonical form. */
  lemma {:induction false} LastDigit(u: seq<byte>, d: byte)
    requires u != [] && AllDigits(u) && IsDigit(d)
    requires |Dec(DigitsValue(u))| <= |u|
    requires u == Zeros(|u| - |Dec(DigitsValue(u))|) + Dec(DigitsValue(u))
    ensures AllDigits(u + [d])
    ensures var v := DigitsValue(u + [d]);
      |Dec(v)| <= |u| + 1 && u + [d] == Zeros(|u| + 1 - |Dec(v)|) + Dec(v)
  {
    AppendDigit(u, d);
    if DigitsValue(u) == 0 {
      AfterZeros(u, d);
    } else {
      AfterNumeral(u, d);
    }
  }

  /** Appending a digit multiplies the value by ten and adds the digit. */
  lemma {:induction false} AppendDigit(u: seq<byte>, d: byte)
    requires AllDigits(u) && IsDigit(d)
    ensures AllDigits(u + [d])
    ensures DigitsValue(u + [d]) == DigitsValue(u) * 10 + (d - ZERO) as nat
  {
    assert (u + [d])[..|u|] == u;
  }

  lemma {:induction false} AfterZeros(u: seq<byte>, d: byte)
    requires u != [] && AllDigits(u) && IsDigit(d) && DigitsValue(u) == 0
    requires u == Zeros(|u| - |Dec(0)|) + Dec(0)
    requires AllDigits(u + [d]) && DigitsValue(u + [d]) == (d - ZERO) as nat
    ensures var v := DigitsValue(u + [d]);
      |Dec(v)| <= |u| + 1 && u + [d] == Zeros(|u| + 1 - |Dec(v)|) + Dec(v)
  {
    var k := |u| - 1;
    assert Dec(0) == [ZERO];
    assert Dec((d - ZERO) as nat) == [d];
    assert Zeros(k) + [ZERO] == Zeros(k + 1);
  }

  lemma {:induction false} AfterNumeral(u: seq<byte>, d: byte)
    requires u != [] && AllDigits(u) && IsDigit(d) && DigitsValue(u) > 0
    requires |Dec(DigitsValue(u))| <= |u|
    requires u == Zeros(|u| - |Dec(DigitsValue(u))|) + Dec(DigitsValue(u))
    requires AllDigits(u + [d]) && DigitsValue(u + [d]) == DigitsValue(u) * 10 + (d - ZERO) as nat
    ensures var v := DigitsValue(u + [d]);
      |Dec(v)| <= |u| + 1 && u + [d] == Zeros(|u| + 1 - |Dec(v)|) + Dec(v)
  {
    var v', dv := DigitsValue(u), (d - ZERO) as nat;
    var v := DigitsValue(u + [d]);
    var z := Zeros(|u| - |Dec(v')|);
    assert v == v' * 10 + dv;
    DecStep(v', dv);
    assert ZERO + dv as byte == d;
    assert Dec(v) == Dec(v') + [d];
    assert |u| + 1 - |Dec(v)| == |u| - |Dec(v')|;
    AppendAssoc(z, Dec(v'), [d]);
    assert u + [d] == z + Dec(v);
  }

  lemma {:induction false} DecStep(v': nat, dv: nat)
    requires v' > 0 && dv < 10
    ensures Dec(v' * 10 + dv) == Dec(v') + [ZERO + dv as byte]
  {
    var v := v' * 10 + dv;
    assert v / 10 == v' && v % 10 == dv;
  }

  /** Every numeral `str::parse::<usize>` accepts is an optional `+`, some zeros and the
      canonical numeral of its value. */
  lemma {:induction false} ParseUsizeSound(s: seq<byte>)
    requires ParseUsize(s).Some?
    ensures var v := ParseUsize(s).value;
      var sign := if s[0] == PLUS then [PLUS] else [];
      |sign| + |Dec(v)| <= |s| && s == sign + Zeros(|s| - |sign| - |Dec(v)|) + Dec(v)
  {
    var v := ParseUsize(s).value;
    var sign: seq<byte> := if s[0] == PLUS then [PLUS] else [];
    var digits := s[|sign|..];
    assert s == sign + digits;
    assert AllDigits(digits) && DigitsValue(digits) == v;
    DigitsCanonical(digits);
    AppendAssoc(sign, Zeros(|digits| - |Dec(v)|), Dec(v));
  }

  /** Conversely, every such numeral of a value that fits in a `usize` is accepted. */
  lemma {:induction false} ParseUsizeComplete(plus: bool, k: nat, v: nat)
    requires v <= USIZE_MAX
    ensures ParseUsize((if plus then [PLUS] else []) + Zeros(k) + Dec(v)) == Some(v)
  {
    var digits := Zeros(k) + Dec(v);
    ZerosValue(k, Dec(v));
    var s := (if plus then [PLUS] else []) + digits;
    assert s == (if plus then [PLUS] else []) + Zeros(k) + Dec(v);
    if plus {
      assert |s| > 1 && s[0] == PLUS && s[1..] == digits;
    } else {
      assert s == digits && IsDigit(s[0]);
    }
  }

  /** Parsing the decimal rendering of `n`, with or without a leading `+`, gives `n`
      back exactly when `n` fits in a `usize`. */
  lemma {:induction false} ParseDec(n: nat)
    ensures ParseUsize(Dec(n)) == if n <= USIZE_MAX then Some(n) else None
    ensures ParseUsize([PLUS] + Dec(n)) == if n <= USIZE_MAX then Some(n) else None
  {
    assert ([PLUS] + Dec(n))[1..] == Dec(n);
  }
}
