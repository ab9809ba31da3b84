/** Decimal and binary numerals: what `str::parse::<usize>` accepts and what the
    `{:015b}` format produces. */
module Numerals {
  import opened Wrappers

  /** `usize::MAX` on a 64-bit target. */
  const UsizeMax: nat := 0xFFFF_FFFF_FFFF_FFFF

  predicate IsDigit(c: char)
  {
    '0' <= c <= '9'
  }

  predicate AllDigits(s: string)
  {
    forall i :: 0 <= i < |s| ==> IsDigit(s[i])
  }

  function DigitChar(d: nat): (c: char)
    requires d < 10
    ensures IsDigit(c) && c as int - '0' as int == d
  {
    ('0' as int + d) as char
  }

  /** The number a string of decimal digits denotes, most significant digit first. */
  function DecimalValue(s: string): nat
    requires AllDigits(s)
    decreases |s|
  {
    if s == [] then 0 else DecimalValue(s[..|s| - 1]) * 10 + (s[|s| - 1] as int - '0' as int)
  }

  /** The shortest decimal numeral for `n`. */
  function Decimal(n: nat): (r: string)
    ensures |r| >= 1 && AllDigits(r) && DecimalValue(r) == n
    ensures r[0] == '0' ==> n == 0
    decreases n
  {
    if n < 10 then [DigitChar(n)]
    else
      var r := Decimal(n / 10) + [DigitChar(n % 10)];
      assert r[..|r| - 1] == Decimal(n / 10);
      r
  }

  /** `s` without one leading `+` sign, if it has one. */
  function Unsigned(s: string): (r: string)
    ensures r == s || (|s| >= 1 && s[0] == '+' && r == s[1..])
  {
    if |s| >= 1 && s[0] == '+' then s[1..] else s
  }

  /** `str::parse::<usize>`: an optional `+` sign followed by at least one ASCII digit
      (leading zeros allowed), whose value must fit in a `usize`; anything else (a `-`
      sign included) fails. */
  function ParseUsize(s: string): (r: Option<nat>)
    ensures r.Some? <==> Unsigned(s) != [] && AllDigits(Unsigned(s)) && DecimalValue(Unsigned(s)) <= UsizeMax
    ensures r.Some? ==> r.value == DecimalValue(Unsigned(s)) && r.value <= UsizeMax
    ensures r.Some? ==> |s| >= 1 && (IsDigit(s[0]) || (s[0] == '+' && |s| >= 2)) && AllDigits(s[1..])
  {
    var digits := Unsigned(s);
    if digits == [] || !AllDigits(digits) then None
    else if DecimalValue(digits) > UsizeMax then None
    else Some(DecimalValue(digits))
  }

  /** Leading zeros do not change the value of a numeral. */
  lemma {:induction false} LeadingZerosValue(k: nat, d: string)
    requires AllDigits(d)
    ensures AllDigits(Zeros(k) + d) && DecimalValue(Zeros(k) + d) == DecimalValue(d)
    decreases |d|
  {
    if d == [] {
      assert Zeros(k) + d == Zeros(k);
      ZerosDecimal(k);
    } else {
      var z := Zeros(k) + d;
      assert z[..|z| - 1] == Zeros(k) + d[..|d| - 1];
      LeadingZerosValue(k, d[..|d| - 1]);
    }
  }

  lemma {:induction false} ZerosDecimal(k: nat)
    ensures AllDigits(Zeros(k)) && DecimalValue(Zeros(k)) == 0
  {
    if k > 0 {
      assert Zeros(k)[..k - 1] == Zeros(k - 1);
      ZerosDecimal(k - 1);
    }
  }

  /** A numeral with leading zeros, such as `007`, parses to the value of its digits. */
  lemma ParseUsizeLeadingZeros(k: nat, n: nat)
    ensures ParseUsize(Zeros(k) + Decimal(n)) == if n <= UsizeMax then Some(n) else None
  {
    LeadingZerosValue(k, Decimal(n));
    var s := Zeros(k) + Decimal(n);
    assert s[0] != '+' by { if k > 0 { assert s[0] == Zeros(k)[0]; } }
  }

  /** Every decimal numeral, signed with `+` or not, parses back to its value when that
      value fits in a `usize`, and is rejected when it does not. */
  lemma ParseUsizeDecimal(n: nat)
    ensures ParseUsize(Decimal(n)) == if n <= UsizeMax then Some(n) else None
    ensures ParseUsize("+" + Decimal(n)) == if n <= UsizeMax then Some(n) else None
  {
    var d := Decimal(n);
    assert ("+" + d)[1..] == d;
  }

  predicate IsBit(c: char)
  {
    c == '0' || c == '1'
  }

  predicate AllBits(s: string)
  {
    forall i :: 0 <= i < |s| ==> IsBit(s[i])
  }

  /** The number a string of binary digits denotes, most significant bit first. */
  function BitsValue(s: string): nat
    requires AllBits(s)
    decreases |s|
  {
    if s == [] then 0 else BitsValue(s[..|s| - 1]) * 2 + (if s[|s| - 1] == '1' then 1 else 0)
  }

  function Pow2(k: nat): (p: nat)
    ensures p >= 1
  {
    if k == 0 then 1 else 2 * Pow2(k - 1)
  }

  /** `format!("{:b}", n)`: the shortest binary numeral for `n`. */
  function Binary(n: nat): (r: string)
    ensures |r| >= 1 && AllBits(r) && BitsValue(r) == n
    ensures r[0] == '0' ==> n == 0
    decreases n
  {
    if n < 2 then [if n == 0 then '0' else '1']
    else
      var r := Binary(n / 2) + [if n % 2 == 0 then '0' else '1'];
      assert r[..|r| - 1] == Binary(n / 2);
      r
  }

  /** The binary numeral of `n` has at most `k` digits exactly when `n < 2^k`. */
  lemma {:induction false} BinaryLength(n: nat, k: nat)
    requires k >= 1
    ensures |Binary(n)| <= k <==> n < Pow2(k)
    decreases n
  {
    if n >= 2 {
      assert |Binary(n)| == |Binary(n / 2)| + 1;
      if k > 1 {
        BinaryLength(n / 2, k - 1);
      }
    }
  }

  function Zeros(n: nat): (r: string)
    ensures |r| == n && forall i :: 0 <= i < n ==> r[i] == '0'
  {
    if n == 0 then "" else Zeros(n - 1) + "0"
  }

  /** The `0` fill and minimum width of a `{:0w}` format. */
  function PadLeft(s: string, width: nat): (r: string)
  {
    if |s| >= width then s else Zeros(width - |s|) + s
  }

  /** Leading zeros do not change the value of a binary numeral. */
  lemma {:induction false} LeadingZeros(z: nat, s: string)
    requires AllBits(s)
    ensures AllBits(Zeros(z) + s) && BitsValue(Zeros(z) + s) == BitsValue(s)
    decreases |s|
  {
    var t := Zeros(z) + s;
    if s == [] {
      assert t == Zeros(z);
      ZerosValue(z);
    } else {
      assert t[..|t| - 1] == Zeros(z) + s[..|s| - 1];
      LeadingZeros(z, s[..|s| - 1]);
    }
  }

  lemma {:induction false} ZerosValue(z: nat)
    ensures AllBits(Zeros(z)) && BitsValue(Zeros(z)) == 0
  {
    if z > 0 {
      assert Zeros(z)[..z - 1] == Zeros(z - 1);
      ZerosValue(z - 1);
    }
  }

  /** A binary numeral of `k` digits denotes a number below `2^k`. */
  lemma {:induction false} BitsValueBound(s: string)
    requires AllBits(s)
    ensures BitsValue(s) < Pow2(|s|)
    decreases |s|
  {
    if s != [] {
      BitsValueBound(s[..|s| - 1]);
    }
  }

  /** Two binary numerals of the same width and value are the same string: a
      fixed-width binary word is determined by its value. */
  lemma {:induction false} FixedWidthUnique(a: string, b: string)
    requires AllBits(a) && AllBits(b) && |a| == |b|
    requires BitsValue(a) == BitsValue(b)
    ensures a == b
    decreases |a|
  {
    if a != [] {
      var n := |a| - 1;
      assert a[n] == b[n];
      FixedWidthUnique(a[..n], b[..n]);
      assert a == a[..n] + [a[n]] && b == b[..n] + [b[n]];
    }
  }
}
