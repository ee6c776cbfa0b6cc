/**
 * Decimal text for unsigned integers: Rust's `to_string` / `format!("{n}")`
 * and `<u32 as FromStr>::from_str`.
 */
module Decimal {
  import opened Wrappers

  const U32Max: nat := 0xFFFF_FFFF

  /** Rust's `u32`. */
  type u32 = n: int | 0 <= n <= U32Max

  predicate IsDigit(c: char) {
    '0' <= c <= '9'
  }

  predicate AllDigits(s: string) {
    forall i :: 0 <= i < |s| ==> IsDigit(s[i])
  }

  function DigitValue(c: char): nat
    requires IsDigit(c)
  {
    c as int - '0' as int
  }

  function DigitChar(d: nat): (c: char)
    requires d < 10
    ensures IsDigit(c) && DigitValue(c) == d
  {
    ('0' as int + d) as char
  }

  /** The number a string of digits denotes. */
  function Value(s: string): nat
    requires AllDigits(s)
  {
    if s == [] then 0 else Value(s[..|s| - 1]) * 10 + DigitValue(s[|s| - 1])
  }

  /** The decimal digits of `n`, most significant first, without leading zeros. */
  function ToString(n: nat): (s: string)
    ensures |s| >= 1 && AllDigits(s)
    ensures s[0] == '0' ==> s == "0"
  {
    if n < 10 then [DigitChar(n)] else ToString(n / 10) + [DigitChar(n % 10)]
  }

  /** The digits of ToString denote the number they were made from. */
  lemma {:induction false} ValueOfToString(n: nat)
    ensures Value(ToString(n)) == n
  {
    if n >= 10 {
      var s := ToString(n);
      assert s[..|s| - 1] == ToString(n / 10);
      ValueOfToString(n / 10);
    }
  }

  /** Different numbers have different decimal texts. */
  lemma ToStringInjective(m: nat, n: nat)
    requires ToString(m) == ToString(n)
    ensures m == n
  {
    ValueOfToString(m);
    ValueOfToString(n);
  }

  /** The kinds of `std::num::ParseIntError` an unsigned parse can report. */
  datatype IntErrorKind = Empty | InvalidDigit | PosOverflow

  /**
   * The digit loop of `from_str_radix` for an unsigned type: left to right, a
   * non-digit is reported before an overflow caused by the same position.
   */
  function Accumulate(s: string, acc: u32): (r: Result<u32, IntErrorKind>)
    ensures r != Err(Empty)
  {
    if s == [] then Ok(acc)
    else if !IsDigit(s[0]) then Err(InvalidDigit)
    else if acc * 10 + DigitValue(s[0]) > U32Max then Err(PosOverflow)
    else Accumulate(s[1..], acc * 10 + DigitValue(s[0]))
  }

  /** `<u32 as FromStr>::from_str`: an optional `+` sign, then decimal digits. */
  function ParseU32(s: string): Result<u32, IntErrorKind>
  {
    if s == [] then Err(Empty)
    else if s[0] == '+' then (if |s| == 1 then Err(InvalidDigit) else Accumulate(s[1..], 0))
    else Accumulate(s, 0)
  }

  /** The text ParseU32 reads digits from: `s` without a leading `+`. */
  function Unsigned(s: string): string {
    if |s| > 0 && s[0] == '+' then s[1..] else s
  }

  /** Scanning a concatenation is scanning the first part, then the second. */
  lemma {:induction false} AccumulateAppend(a: string, b: string, acc: u32)
    ensures Accumulate(a + b, acc) ==
      match Accumulate(a, acc) case Err(e) => Err(e) case Ok(x) => Accumulate(b, x)
  {
    if a == [] {
      assert a + b == b;
    } else {
      assert (a + b)[0] == a[0] && (a + b)[1..] == a[1..] + b;
      if IsDigit(a[0]) && acc * 10 + DigitValue(a[0]) <= U32Max {
        AccumulateAppend(a[1..], b, acc * 10 + DigitValue(a[0]));
      }
    }
  }

  /** The digit loop accepts exactly the digit strings whose value fits in 32 bits. */
  lemma {:induction false} AccumulateFromZero(s: string)
    ensures Accumulate(s, 0).Ok? <==> AllDigits(s) && Value(s) <= U32Max
    ensures Accumulate(s, 0).Ok? ==> Accumulate(s, 0).value == Value(s)
  {
    if s != [] {
      var a, c := s[..|s| - 1], s[|s| - 1];
      assert s == a + [c];
      AccumulateFromZero(a);
      AccumulateAppend(a, [c], 0);
      assert AllDigits(s) <==> AllDigits(a) && IsDigit(c);
    }
  }

  /** Over digits only, the loop can fail only by overflowing. */
  lemma {:induction false} AccumulateDigits(s: string, acc: u32)
    requires AllDigits(s)
    ensures Accumulate(s, acc).Err? ==> Accumulate(s, acc).error == PosOverflow
  {
    if s != [] && acc * 10 + DigitValue(s[0]) <= U32Max {
      assert AllDigits(s[1..]) by {
        forall i | 0 <= i < |s[1..]| ensures IsDigit(s[1..][i]) {
          assert s[1..][i] == s[i + 1];
        }
      }
      AccumulateDigits(s[1..], acc * 10 + DigitValue(s[0]));
    }
  }

  /** A non-digit after digits that still fit in 32 bits stops the loop as an invalid digit. */
  lemma AccumulateStopsAt(s: string, i: nat)
    requires i < |s| && !IsDigit(s[i]) && AllDigits(s[..i]) && Value(s[..i]) <= U32Max
    ensures Accumulate(s, 0) == Err(InvalidDigit)
  {
    assert s == s[..i] + s[i..];
    AccumulateFromZero(s[..i]);
    AccumulateAppend(s[..i], s[i..], 0);
  }

  /** Digits that already exceed U32Max stop the loop as an overflow, whatever follows them. */
  lemma AccumulateOverflowsAt(s: string, i: nat)
    requires i <= |s| && AllDigits(s[..i]) && Value(s[..i]) > U32Max
    ensures Accumulate(s, 0) == Err(PosOverflow)
  {
    assert s == s[..i] + s[i..];
    AccumulateFromZero(s[..i]);
    AccumulateDigits(s[..i], 0);
    AccumulateAppend(s[..i], s[i..], 0);
  }

  /**
   * `from_str` succeeds exactly on an optional `+` and a non-empty digit
   * string of at most U32Max. It reports an empty text as `Empty`; a lone
   * `+`, or a non-digit reached while the digits before it still fit, as
   * `InvalidDigit`; and a run of leading digits worth more than U32Max, as
   * `PosOverflow`, whatever follows it.
   */
  lemma ParseU32Spec(s: string)
    ensures ParseU32(s).Ok? <==>
      |Unsigned(s)| > 0 && AllDigits(Unsigned(s)) && Value(Unsigned(s)) <= U32Max
    ensures ParseU32(s).Ok? ==> ParseU32(s).value == Value(Unsigned(s))
    ensures ParseU32(s) == Err(Empty) <==> s == []
    ensures s == "+" ==> ParseU32(s) == Err(InvalidDigit)
    ensures forall i ::
      (0 <= i < |Unsigned(s)| && !IsDigit(Unsigned(s)[i]) && AllDigits(Unsigned(s)[..i]) &&
       Value(Unsigned(s)[..i]) <= U32Max) ==> ParseU32(s) == Err(InvalidDigit)
    ensures |Unsigned(s)| > 0 && AllDigits(Unsigned(s)) && Value(Unsigned(s)) > U32Max ==>
      ParseU32(s) == Err(PosOverflow)
    ensures forall i ::
      (0 <= i <= |Unsigned(s)| && AllDigits(Unsigned(s)[..i]) &&
       Value(Unsigned(s)[..i]) > U32Max) ==> ParseU32(s) == Err(PosOverflow)
  {
    if s != [] {
      var u := Unsigned(s);
      AccumulateFromZero(u);
      assert ParseU32(s) == (if u == [] then Err(InvalidDigit) else Accumulate(u, 0));
      if AllDigits(u) {
        AccumulateDigits(u, 0);
      }
      forall i | 0 <= i < |u| && !IsDigit(u[i]) && AllDigits(u[..i]) && Value(u[..i]) <= U32Max
        ensures ParseU32(s) == Err(InvalidDigit)
      {
        AccumulateStopsAt(u, i);
      }
      forall i | 0 <= i <= |u| && AllDigits(u[..i]) && Value(u[..i]) > U32Max
        ensures ParseU32(s) == Err(PosOverflow)
      {
        assert u[..i] != [];
        AccumulateOverflowsAt(u, i);
      }
    }
  }

  /** Parsing the decimal text of a `u32` gives the number back. */
  lemma ParseToString(n: u32)
    ensures ParseU32(ToString(n)) == Ok(n)
  {
    ValueOfToString(n);
    ParseU32Spec(ToString(n));
  }
}
