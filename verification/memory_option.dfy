/** Memory sizes on the command line: decimal digits and an optional k, m or g. */
module MemoryOption {
  import opened Decimal

  const KB: nat := 0x400
  const MB: nat := 0x10_0000
  const GB: nat := 0x4000_0000

  /** The largest `size_t` of a 32-bit or a 64-bit build. */
  predicate IsSizeMax(max: nat) { max == 0xFFFF_FFFF || max == 0xFFFF_FFFF_FFFF_FFFF }

  // ---- What the text says ----

  /** The character at a position of a C string. */
  function At(s: string, i: nat): char { if i < |s| then s[i] else '\0' }

  /** Length of the run of digits from position `i`. */
  function DigitRun(s: string, i: nat): (n: nat)
    requires i <= |s|
    ensures i + n <= |s| && (forall j :: i <= j < i + n ==> IsDigit(s[j])) && !IsDigit(At(s, i + n))
    decreases |s| - i
  {
    if IsDigit(At(s, i)) then 1 + DigitRun(s, i + 1) else 0
  }

  /** The multiplier of a suffix, or 0 for any other character. */
  function Multiplier(c: char): nat {
    if c == 'k' || c == 'K' then KB
    else if c == 'm' || c == 'M' then MB
    else if c == 'g' || c == 'G' then GB
    else 0
  }

  /** A number, and nothing else or one multiplier after it. */
  predicate WellFormed(s: string) {
    var n := DigitRun(s, 0);
    n > 0 && (At(s, n) == '\0' || (Multiplier(At(s, n)) > 0 && At(s, n + 1) == '\0'))
  }

  function Unit(s: string): (u: nat)
    requires WellFormed(s)
    ensures u > 0
  {
    var n := DigitRun(s, 0);
    if At(s, n) == '\0' then 1 else Multiplier(At(s, n))
  }

  function Number(s: string): nat { Value(s[..DigitRun(s, 0)]) }

  /** The largest multiple of 1024. */
  function Clamp(max: nat): nat { max - max % KB }

  /** The size a text stands for, with the bounds of the machine. */
  function Size(s: string, max: nat): nat
    requires WellFormed(s)
  {
    var exact := Number(s) * Unit(s);
    if exact <= max then exact else if Unit(s) == 1 then max else Clamp(max)
  }

  // ---- The parser ----

  /** `strtoul`: the value is cut at the largest one. */
  method StrToUl(s: string, max: nat) returns (val: nat, end: nat)
    ensures end == DigitRun(s, 0) && val == if Number(s) <= max then Number(s) else max
  {
    val, end := 0, 0;
    while IsDigit(At(s, end))
      invariant end <= |s| && DigitRun(s, 0) == end + DigitRun(s, end)
      invariant forall c <- s[..end] :: IsDigit(c)
      invariant var v := Value(s[..end]); val == if v <= max then v else max
      decreases |s| - end
    {
      assert s[..end + 1][..end] == s[..end];
      var next := val * 10 + (s[end] as int - '0' as int);
      val := if next <= max then next else max;
      end := end + 1;
    }
  }

  lemma MulMonotone(a: nat, b: nat, m: nat)
    requires a <= b
    ensures a * m <= b * m
  {
  }

  lemma Quotient(max: nat, mul: nat)
    requires mul > 1 && max > 0
    ensures max / mul * mul <= max < (max / mul + 1) * mul && max / mul < max
  {
    var q := max / mul;
    assert max == q * mul + max % mul;
    assert (q + 1) * mul == q * mul + mul;
    MulMonotone(2, mul, q);
    assert mul * q == q * mul;
  }

  lemma SaturatedProduct(v: nat, max: nat, mul: nat)
    requires mul > 1 && max > 0
    ensures var val := if v <= max then v else max;
      (val <= max / mul <==> v * mul <= max) && (val <= max / mul ==> val == v && val * mul <= max)
  {
    var q := max / mul;
    Quotient(max, mul);
    if v <= q {
      MulMonotone(v, q, mul);
    } else {
      MulMonotone(q + 1, v, mul);
    }
  }

  lemma FirstDigit(s: string)
    ensures DigitRun(s, 0) > 0 <==> IsDigit(At(s, 0))
  {
  }

  /** The result is always a size the machine can hold and a multiple of the divisor, and a size
      that fits and is a multiple is the exact product. */
  lemma SizeIsBounded(s: string, max: nat)
    requires IsSizeMax(max) && WellFormed(s)
    ensures Size(s, max) <= max
    ensures Unit(s) > 1 ==> Size(s, max) % KB == 0
    ensures Number(s) * Unit(s) <= max ==> Size(s, max) == Number(s) * Unit(s)
    ensures Number(s) * Unit(s) > max ==> Size(s, max) + KB > max
  {
    hide DigitRun, Number;
    var n, u := Number(s), Unit(s);
    if u > 1 {
      assert u % KB == 0;
      assert n * u == KB * (n * (u / KB));
    }
  }

  method ParseMemoryOption(s: string, div: nat, max: nat) returns (size: nat)
    requires IsSizeMax(max) && div > 0
    ensures size == if WellFormed(s) && Size(s, max) % div == 0 then Size(s, max) else 0
    ensures size % div == 0 && size <= max
  {
    hide Value, DigitRun;
    FirstDigit(s);
    if WellFormed(s) {
      SizeIsBounded(s, max);
    }
    if IsDigit(At(s, 0)) {
      var val, s2 := StrToUl(s, max);
      if At(s, s2) != '\0' {
        var c := At(s, s2);
        s2 := s2 + 1;
        if At(s, s2) == '\0' {
          var mul;
          if c == 'k' || c == 'K' {
            mul := KB;
          } else if c == 'm' || c == 'M' {
            mul := MB;
          } else if c == 'g' || c == 'G' {
            mul := GB;
          } else {
            return 0;
          }
          SaturatedProduct(Number(s), max, mul);
          if val <= max / mul {
            assert val * mul <= max;
            val := val * mul;
          } else {
            val := Clamp(max);
          }
        } else {
          return 0;
        }
      }
      if val % div == 0 {
        return val;
      }
    }
    return 0;
  }

  // ---- Writing a size and reading it ----

  lemma {:induction false} RunOf(digits: string, rest: string, i: nat)
    requires i <= |digits| && (forall c <- digits :: IsDigit(c)) && !IsDigit(At(rest, 0))
    ensures DigitRun(digits + rest, i) == |digits| - i
    decreases |digits| - i
  {
    if i < |digits| {
      assert (digits + rest)[i] == digits[i];
      RunOf(digits, rest, i + 1);
    } else {
      assert At(digits + rest, i) == At(rest, 0);
    }
  }

  lemma AllDigits(s: string, n: nat)
    requires n <= |s| && forall j :: 0 <= j < n ==> '0' <= s[j] <= '9'
    ensures DigitRun(s, 0) >= n
  {
    if n > 0 {
      assert forall j :: 0 <= j < n ==> IsDigit(At(s, j));
    }
  }

  /** The texts that are accepted: digits, and at most one of the letters k, m and g after them. */
  lemma WellFormedExactly(s: string)
    requires '\0' !in s
    ensures WellFormed(s) <==>
      && |s| > 0 && '0' <= s[0] <= '9' && (forall j :: 0 <= j < |s| - 1 ==> '0' <= s[j] <= '9')
      && ('0' <= s[|s| - 1] <= '9' || s[|s| - 1] in "kKmMgG")
  {
    hide DigitRun;
    var n := DigitRun(s, 0);
    if |s| > 0 && forall j :: 0 <= j < |s| - 1 ==> '0' <= s[j] <= '9' {
      AllDigits(s, |s| - 1);
      if '0' <= s[|s| - 1] <= '9' {
        AllDigits(s, |s|);
      }
    }
  }

  /** A size written in decimal with a suffix stands for the product with 1024, 1024 squared or 1024
      cubed whenever that fits. Otherwise it is the largest size, or with a suffix the largest
      multiple of 1024. */
  lemma WrittenSize(n: nat, suffix: string, max: nat)
    requires IsSizeMax(max) && suffix in ["", "k", "K", "m", "M", "g", "G"]
    ensures var unit := if suffix == "" then 1 else if suffix == "k" || suffix == "K" then 1024
                        else if suffix == "m" || suffix == "M" then 1048576 else 1073741824;
      var s := Digits(n) + suffix;
      && WellFormed(s) && Number(s) == n && Unit(s) == unit
      && Size(s, max) == if n * unit <= max then n * unit else if suffix == "" then max else max - 1023
  {
    hide DigitRun, Value;
    var d := Digits(n);
    RunOf(d, suffix, 0);
    ValueOfDigits(n);
    assert (d + suffix)[..|d|] == d;
    FirstDigit(d + suffix);
    assert At(d + suffix, |d|) == At(suffix, 0) && At(d + suffix, |d| + 1) == At(suffix, 1);
  }

  /** The three letters, and that the digits are decimal. */
  lemma Suffixes(max: nat)
    requires IsSizeMax(max)
    ensures WellFormed("1k") && Size("1k", max) == 1024
    ensures WellFormed("1m") && Size("1m", max) == 1048576
    ensures WellFormed("1g") && Size("1g", max) == 1073741824
    ensures WellFormed("12") && Size("12", max) == 12
  {
    assert Digits(1) == "1" && Digits(12) == "12";
    assert "1" + "k" == "1k" && "1" + "m" == "1m" && "1" + "g" == "1g" && "12" + "" == "12";
    WrittenSize(1, "k", max);
    WrittenSize(1, "m", max);
    WrittenSize(1, "g", max);
    WrittenSize(12, "", max);
  }
}
