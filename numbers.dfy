/** Decimal conversions: strconv.Atoi on a 64-bit platform, and the `%d` verb of fmt. */
module Numbers {
  import opened Wrappers

  const MaxInt64: int := 0x7FFF_FFFF_FFFF_FFFF
  const MinInt64: int := -0x8000_0000_0000_0000

  predicate IsAsciiDigit(c: char) {
    '0' <= c <= '9'
  }

  predicate AllAsciiDigits(s: string) {
    forall k :: 0 <= k < |s| ==> IsAsciiDigit(s[k])
  }

  function DigitValue(c: char): nat
    requires IsAsciiDigit(c)
  {
    (c as int) - ('0' as int)
  }

  /** The value of a run of decimal digits, most significant first (leading zeros allowed). */
  function DigitsValue(ds: string): nat
    requires AllAsciiDigits(ds)
  {
    if ds == [] then 0 else 10 * DigitsValue(ds[..|ds| - 1]) + DigitValue(ds[|ds| - 1])
  }

  /**
   * strconv.Atoi with 64-bit `int`: an optional '+' or '-', then one or more
   * ASCII digits, whose value must fit in int64. Anything else is an error.
   */
  function Atoi(s: string): (r: Option<int>)
    ensures r.Some? ==> MinInt64 <= r.value <= MaxInt64
    ensures r.Some? ==> s != [] && (s[0] != '-' ==> r.value >= 0)
  {
    var negative := s != [] && s[0] == '-';
    var digits := if s != [] && (s[0] == '+' || s[0] == '-') then s[1..] else s;
    if digits == [] || !AllAsciiDigits(digits) then None
    else
      var magnitude: int := DigitsValue(digits);
      var v := if negative then -magnitude else magnitude;
      if MinInt64 <= v <= MaxInt64 then Some(v) else None
  }

  function DecimalDigit(d: nat): (c: char)
    requires d < 10
    ensures IsAsciiDigit(c) && DigitValue(c) == d
  {
    ('0' as int + d) as char
  }

  /** The decimal rendering of `n`, as fmt's `%d` writes it: no sign, no leading zeros. */
  function NatToString(n: nat): (s: string)
    ensures s != [] && AllAsciiDigits(s)
    decreases n
  {
    if n < 10 then [DecimalDigit(n)] else NatToString(n / 10) + [DecimalDigit(n % 10)]
  }

  lemma {:induction false} DigitsValueOfNatToString(n: nat)
    ensures DigitsValue(NatToString(n)) == n
    decreases n
  {
    if n >= 10 {
      DigitsValueOfNatToString(n / 10);
      var s := NatToString(n);
      assert s[..|s| - 1] == NatToString(n / 10);
    }
  }

  /** Round trip: Atoi reads back every rendering of an int64-sized natural number. */
  lemma AtoiNatToString(n: nat)
    requires n <= MaxInt64
    ensures Atoi(NatToString(n)) == Some(n)
  {
    DigitsValueOfNatToString(n);
  }

  /** Any run of ASCII digits is a valid Atoi input exactly when its value fits in int64. */
  lemma AtoiDigits(ds: string)
    requires ds != [] && AllAsciiDigits(ds)
    ensures Atoi(ds) == if DigitsValue(ds) <= MaxInt64 then Some(DigitsValue(ds)) else None
  {
  }
}
