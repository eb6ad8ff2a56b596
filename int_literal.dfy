/** Rust's `str::parse::<i64>()` and the decimal form of an `i64`. */
module IntLiteral {
  import opened Wrappers

  const I64_MIN: int := -0x8000_0000_0000_0000
  const I64_MAX: int := 0x7FFF_FFFF_FFFF_FFFF

  predicate IsDigit(c: char) {
    '0' <= c <= '9'
  }

  predicate AllDigits(s: string) {
    forall i :: 0 <= i < |s| ==> IsDigit(s[i])
  }

  function DigitValue(c: char): nat
    requires IsDigit(c)
  {
    c as int - '0' as int
  }

  function DigitChar(d: nat): char
    requires d < 10
  {
    ('0' as int + d) as char
  }

  /** The number a string of decimal digits denotes. */
  function DigitsValue(ds: string): nat
    requires AllDigits(ds)
  {
    if ds == [] then 0 else DigitsValue(ds[..|ds| - 1]) * 10 + DigitValue(ds[|ds| - 1])
  }

  /** `s` without one leading sign. */
  function Unsigned(s: string): (u: string)
    ensures |u| <= |s| && u == s[|s| - |u|..]
  {
    if s != [] && (s[0] == '-' || s[0] == '+') then s[1..] else s
  }

  /** The number a sign and decimal digits denote: negative exactly after `-`. */
  function Signed(s: string): int
    requires AllDigits(Unsigned(s))
  {
    if s != [] && s[0] == '-' then -(DigitsValue(Unsigned(s)) as int) else DigitsValue(Unsigned(s))
  }

  /** `s.parse::<i64>()`: an optional `+` or `-`, then at least one decimal
      digit and nothing else, denoting a number in the range of `i64`. */
  function ParseI64(s: string): (r: Option<int>)
    ensures r.Some? <==>
      s != [] && Unsigned(s) != [] && AllDigits(Unsigned(s)) && I64_MIN <= Signed(s) <= I64_MAX
    ensures r.Some? ==> r.value == Signed(s)
    ensures r.Some? ==> I64_MIN <= r.value <= I64_MAX
    ensures r.Some? ==> s != [] && (IsDigit(s[0]) || s[0] == '-' || s[0] == '+')
  {
    if s == [] then None
    else
      var digits := if s[0] == '-' || s[0] == '+' then s[1..] else s;
      if digits == [] || !AllDigits(digits) then None
      else
        var n: int := if s[0] == '-' then -(DigitsValue(digits) as int) else DigitsValue(digits);
        if I64_MIN <= n <= I64_MAX then Some(n) else None
  }

  /** The decimal digits of `n`, without leading zeros. */
  function ShowNat(n: nat): (s: string)
    ensures s != [] && AllDigits(s)
  {
    if n < 10 then [DigitChar(n)] else ShowNat(n / 10) + [DigitChar(n % 10)]
  }

  /** The decimal form of an integer, as `i64`'s `Display` writes it. */
  function ShowInt(n: int): (s: string)
    ensures s != [] && (IsDigit(s[0]) || s[0] == '-')
  {
    if n < 0 then "-" + ShowNat(-n) else ShowNat(n)
  }

  lemma {:induction false} ShowNatValue(n: nat)
    ensures DigitsValue(ShowNat(n)) == n
  {
    var s := ShowNat(n);
    if n >= 10 {
      ShowNatValue(n / 10);
      assert s[..|s| - 1] == ShowNat(n / 10);
    }
  }

  /** Parsing the decimal form of any `i64` gives the number back. */
  lemma ParseShowInt(n: int)
    requires I64_MIN <= n <= I64_MAX
    ensures ParseI64(ShowInt(n)) == Some(n)
  {
    var s := ShowInt(n);
    var m: nat := if n < 0 then -n else n;
    ShowNatValue(m);
    assert Unsigned(s) == ShowNat(m) by {
      if n < 0 {
        assert s[1..] == ShowNat(m);
      }
    }
    assert Signed(s) == n;
  }
}
