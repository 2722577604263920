/**
 * Character classes and the numeral `[0-9]+(?:\.[0-9]+)?` shared by the
 * rating and hours patterns of src/App.tsx, together with the exact value
 * `parseFloat` gives to such a numeral.
 *
 * Everything works on one fixed string `s` and indices into it, so that a
 * capture is a pair of positions, as in a regular-expression match result.
 */
module TextScan {

  /** `[0-9]`: ASCII digits only. */
  predicate IsDigit(c: char) {
    '0' <= c <= '9'
  }

  /**
   * JavaScript's `\s`: the WhiteSpace and LineTerminator code points of
   * ECMA-262 (tab, line tabulation, form feed, ZWNBSP, the Zs space
   * separators, LF, CR, LS, PS).
   */
  predicate IsSpace(c: char) {
    var n := c as int;
    n == 0x09 || n == 0x0A || n == 0x0B || n == 0x0C || n == 0x0D || n == 0x20 ||
    n == 0xA0 || n == 0x1680 || (0x2000 <= n <= 0x200A) || n == 0x2028 || n == 0x2029 ||
    n == 0x202F || n == 0x205F || n == 0x3000 || n == 0xFEFF
  }

  function DigitValue(c: char): (d: nat)
    requires IsDigit(c)
    ensures d < 10
  {
    c as int - '0' as int
  }

  function Pow10(n: nat): (p: nat)
    ensures p >= 1
  {
    if n == 0 then 1 else 10 * Pow10(n - 1)
  }

  /** Every character of `s[a..b]` is a digit (possibly none). */
  ghost predicate AllDigits(s: string, a: nat, b: nat) {
    a <= b <= |s| && forall q | a <= q < b :: IsDigit(s[q])
  }

  /** Every character of `s[a..b]` is white space (possibly none): `\s*`. */
  ghost predicate AllSpaces(s: string, a: nat, b: nat) {
    a <= b <= |s| && forall q | a <= q < b :: IsSpace(s[q])
  }

  /** `s[i..e]` is in the language of `[0-9]+(?:\.[0-9]+)?`. */
  ghost predicate Numeral(s: string, i: nat, e: nat) {
    (i < e && AllDigits(s, i, e)) ||
    exists k :: i < k && k + 1 < e <= |s| && s[k] == '.' && AllDigits(s, i, k) && AllDigits(s, k + 1, e)
  }

  /** The end of the run of digits that starts at `k` (greedy `[0-9]*`). */
  function DigitsEnd(s: string, k: nat): (r: nat)
    requires k <= |s|
    ensures k <= r <= |s| && AllDigits(s, k, r)
    ensures r == |s| || !IsDigit(s[r])
    decreases |s| - k
  {
    if k < |s| && IsDigit(s[k]) then DigitsEnd(s, k + 1) else k
  }

  /** The end of white space that starts at `k` (greedy `\s*`). */
  function SpacesEnd(s: string, k: nat): (r: nat)
    requires k <= |s|
    ensures k <= r <= |s| && AllSpaces(s, k, r)
    ensures r == |s| || !IsSpace(s[r])
    decreases |s| - k
  {
    if k < |s| && IsSpace(s[k]) then SpacesEnd(s, k + 1) else k
  }

  /** A run of spaces followed by a non-space can only end at that non-space. */
  lemma SpacesEndExact(s: string, a: nat, m: nat)
    requires AllSpaces(s, a, m) && m < |s| && !IsSpace(s[m])
    ensures SpacesEnd(s, a) == m
  {
  }

  /** Same for digits. */
  lemma DigitsEndExact(s: string, a: nat, m: nat)
    requires AllDigits(s, a, m) && (m == |s| || !IsDigit(s[m]))
    ensures DigitsEnd(s, a) == m
  {
  }

  /**
   * The greedy end of the numeral that starts at digit `s[i]`: the integer
   * digits, then `.` and the fraction digits if a digit follows the dot.
   */
  function NumeralEnd(s: string, i: nat): (e: nat)
    requires i < |s| && IsDigit(s[i])
    ensures i < e <= |s| && Numeral(s, i, e)
    ensures e == |s| || !IsDigit(s[e])
  {
    var j := DigitsEnd(s, i);
    if j + 1 < |s| && s[j] == '.' && IsDigit(s[j + 1]) then
      var e := DigitsEnd(s, j + 1);
      assert AllDigits(s, i, j) && AllDigits(s, j + 1, e);
      e
    else
      j
  }

  /**
   * A numeral followed by a character that is neither a digit nor a dot
   * (or by the end of the string) is the greedy one. So whatever order a
   * backtracking engine tries the alternatives in, a match starting at `i`
   * captures exactly `s[i..NumeralEnd(s, i)]`.
   */
  lemma NumeralIsGreedy(s: string, i: nat, e: nat)
    requires Numeral(s, i, e)
    requires e == |s| || (!IsDigit(s[e]) && s[e] != '.')
    ensures i < |s| && IsDigit(s[i]) && NumeralEnd(s, i) == e
  {
    if i < e && AllDigits(s, i, e) {
      DigitsEndExact(s, i, e);
    } else {
      var k :| i < k && k + 1 < e <= |s| && s[k] == '.' && AllDigits(s, i, k) && AllDigits(s, k + 1, e);
      DigitsEndExact(s, i, k);
      DigitsEndExact(s, k + 1, e);
    }
  }

  /** The number the digits `s[a..b]` spell in base ten (`parseInt(_, 10)`). */
  function DigitsValue(s: string, a: nat, b: nat): (v: nat)
    requires AllDigits(s, a, b)
    ensures v < Pow10(b - a)
    decreases b - a
  {
    if a == b then 0 else DigitsValue(s, a, b - 1) * 10 + DigitValue(s[b - 1])
  }

  /**
   * The exact value `parseFloat` reads from the numeral `s[i..e]`: the
   * integer digits plus the fraction digits scaled by ten to their count.
   * Its whole part is the value of the integer digits.
   */
  function DecimalValue(s: string, i: nat, e: nat): (v: real)
    requires Numeral(s, i, e)
    ensures 0.0 <= v
    ensures v.Floor == DigitsValue(s, i, if DigitsEnd(s, i) < e then DigitsEnd(s, i) else e)
  {
    var k := DigitsEnd(s, i);
    if e <= k then
      DigitsValue(s, i, e) as real
    else
      FractionAfterDot(s, i, e);
      var whole := DigitsValue(s, i, k);
      var frac := DigitsValue(s, k + 1, e);
      var scale := Pow10(e - k - 1);
      FractionBelowOne(frac, scale);
      whole as real + frac as real / scale as real
  }

  /** When the integer digits stop short of `e`, the numeral has a fraction. */
  lemma FractionAfterDot(s: string, i: nat, e: nat)
    requires Numeral(s, i, e) && DigitsEnd(s, i) < e
    ensures DigitsEnd(s, i) + 1 < e && s[DigitsEnd(s, i)] == '.'
    ensures AllDigits(s, DigitsEnd(s, i) + 1, e)
  {
    var k := DigitsEnd(s, i);
    assert !AllDigits(s, i, e) by {
      assert !IsDigit(s[k]);
    }
    var k' :| i < k' && k' + 1 < e <= |s| && s[k'] == '.' && AllDigits(s, i, k') && AllDigits(s, k' + 1, e);
    DigitsEndExact(s, i, k');
  }

  lemma FractionBelowOne(frac: nat, scale: nat)
    requires frac < scale
    ensures 0.0 <= frac as real / scale as real < 1.0
  {
    var q := frac as real / scale as real;
    assert q * scale as real == frac as real;
  }

  /** The value of a numeral with a fraction, read off its dot position `k`. */
  lemma DecimalValueWithFraction(s: string, i: nat, k: nat, e: nat)
    requires i < k && k + 1 < e <= |s| && s[k] == '.' && AllDigits(s, i, k) && AllDigits(s, k + 1, e)
    ensures Numeral(s, i, e)
    ensures DecimalValue(s, i, e) == DigitsValue(s, i, k) as real + DigitsValue(s, k + 1, e) as real / Pow10(e - k - 1) as real
  {
    DigitsEndExact(s, i, k);
  }

  /** A numeral of digits only is worth its integer value. */
  lemma DecimalValueOfDigits(s: string, i: nat, e: nat)
    requires i < e && AllDigits(s, i, e) && (e == |s| || !IsDigit(s[e]))
    ensures Numeral(s, i, e) && DecimalValue(s, i, e) == DigitsValue(s, i, e) as real
  {
    DigitsEndExact(s, i, e);
  }

  lemma OneDigit(s: string, i: nat)
    requires i < |s| && IsDigit(s[i])
    ensures AllDigits(s, i, i + 1) && DigitsValue(s, i, i + 1) == DigitValue(s[i])
  {
  }

  lemma TwoDigits(s: string, i: nat)
    requires i + 1 < |s| && IsDigit(s[i]) && IsDigit(s[i + 1])
    ensures AllDigits(s, i, i + 2) && DigitsValue(s, i, i + 2) == 10 * DigitValue(s[i]) + DigitValue(s[i + 1])
  {
    OneDigit(s, i);
  }

  // The values of the numeral shapes that occur in the site's texts,
  // read digit by digit.

  /** `d` */
  lemma ValueOfDigit(s: string, i: nat)
    requires i < |s| && IsDigit(s[i]) && (i + 1 == |s| || !IsDigit(s[i + 1]))
    ensures Numeral(s, i, i + 1) && DecimalValue(s, i, i + 1) == DigitValue(s[i]) as real
  {
    DecimalValueOfDigits(s, i, i + 1);
    OneDigit(s, i);
  }

  /** `d.d` */
  lemma ValueOfDigitDotDigit(s: string, i: nat)
    requires i + 2 < |s| && IsDigit(s[i]) && s[i + 1] == '.' && IsDigit(s[i + 2])
    ensures Numeral(s, i, i + 3)
    ensures DecimalValue(s, i, i + 3) == DigitValue(s[i]) as real + DigitValue(s[i + 2]) as real / 10.0
  {
    DecimalValueWithFraction(s, i, i + 1, i + 3);
    OneDigit(s, i);
    OneDigit(s, i + 2);
    assert Pow10(1) == 10;
  }

  /** `d.dd` */
  lemma ValueOfDigitDotTwoDigits(s: string, i: nat)
    requires i + 3 < |s| && IsDigit(s[i]) && s[i + 1] == '.' && IsDigit(s[i + 2]) && IsDigit(s[i + 3])
    ensures Numeral(s, i, i + 4)
    ensures DecimalValue(s, i, i + 4) == DigitValue(s[i]) as real + (10 * DigitValue(s[i + 2]) + DigitValue(s[i + 3])) as real / 100.0
  {
    DecimalValueWithFraction(s, i, i + 1, i + 4);
    OneDigit(s, i);
    TwoDigits(s, i + 2);
    assert Pow10(2) == 100;
  }

  /** `dd.d` */
  lemma ValueOfTwoDigitsDotDigit(s: string, i: nat)
    requires i + 3 < |s| && IsDigit(s[i]) && IsDigit(s[i + 1]) && s[i + 2] == '.' && IsDigit(s[i + 3])
    ensures Numeral(s, i, i + 4)
    ensures DecimalValue(s, i, i + 4) == (10 * DigitValue(s[i]) + DigitValue(s[i + 1])) as real + DigitValue(s[i + 3]) as real / 10.0
  {
    DecimalValueWithFraction(s, i, i + 2, i + 4);
    TwoDigits(s, i);
    OneDigit(s, i + 3);
    assert Pow10(1) == 10;
  }
}
