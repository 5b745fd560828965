/** The "sum" shown next to every mobile: the digits of the mobile are added
    up, and the decimal digits of that total are added up again while it
    exceeds 9 (src/lib/utils.ts). */
module DigitalRoot {

  /** `Number(c)` for one character of a mobile. Decimal digits give their
      value; every other character is counted as 0 (see README: letters are
      NaN in the source). */
  function DigitValue(c: char): nat {
    if '0' <= c <= '9' then (c as int - '0' as int) as nat else 0
  }

  /** The first pass: the characters' values added up from the left. */
  function CharSum(s: string): nat
    decreases |s|
  {
    if |s| == 0 then 0 else CharSum(s[..|s| - 1]) + DigitValue(s[|s| - 1])
  }

  /** `n.toString().split('').map(Number).reduce(+)`: the sum of the decimal
      digits of `n`. */
  function DecimalDigitSum(n: nat): nat
    decreases n
  {
    if n == 0 then 0 else n % 10 + DecimalDigitSum(n / 10)
  }

  lemma {:induction false} DecimalDigitSumAtMost(n: nat)
    ensures DecimalDigitSum(n) <= n
    ensures n > 0 ==> DecimalDigitSum(n) > 0
    decreases n
  {
    if n > 0 {
      DecimalDigitSumAtMost(n / 10);
    }
  }

  /** One loop iteration strictly decreases any sum above 9: the measure
      that makes the source's `while (sum > 9)` terminate. */
  lemma DecimalDigitSumDecreases(n: nat)
    requires n > 9
    ensures DecimalDigitSum(n) < n
  {
    DecimalDigitSumAtMost(n / 10);
    assert n == 10 * (n / 10) + n % 10;
  }

  /** A number exceeds its decimal digit sum by a multiple of 9. */
  lemma {:induction false} DecimalDigitSumGap(n: nat) returns (k: nat)
    ensures n == DecimalDigitSum(n) + 9 * k
    decreases n
  {
    if n == 0 {
      k := 0;
    } else {
      var q, r := n / 10, n % 10;
      var k' := DecimalDigitSumGap(q);
      assert n == 10 * q + r;
      k := q + k';
    }
  }

  lemma {:induction false} ModNineShift(a: nat, k: nat)
    ensures (a + 9 * k) % 9 == a % 9
    decreases k
  {
    if k > 0 {
      ModNineShift(a, k - 1);
      assert a + 9 * k == (a + 9 * (k - 1)) + 9;
    }
  }

  /** Adding up decimal digits keeps the residue modulo 9. */
  lemma DecimalDigitSumMod9(n: nat)
    ensures DecimalDigitSum(n) % 9 == n % 9
  {
    var k := DecimalDigitSumGap(n);
    ModNineShift(DecimalDigitSum(n), k);
  }

  /** What one iteration of the loop preserves and decreases. */
  lemma LoopStep(n: nat)
    requires n > 9
    ensures 0 < DecimalDigitSum(n) < n
    ensures DecimalDigitSum(n) % 9 == n % 9
  {
    DecimalDigitSumDecreases(n);
    DecimalDigitSumMod9(n);
    DecimalDigitSumAtMost(n);
  }

  /** The `while (sum > 9)` loop. */
  function Settle(n: nat): (r: nat)
    ensures r <= 9
    ensures n <= 9 ==> r == n
    ensures n > 0 ==> 1 <= r && r % 9 == n % 9
    decreases n
  {
    if n <= 9 then n
    else
      LoopStep(n);
      Settle(DecimalDigitSum(n))
  }

  /** `calculateDigitalRoot`: sum the digits, then keep summing the
      decimal digits of the total while it exceeds 9.  A mobile whose digits
      are all zero (or an empty string) gives 0. */
  function CalculateDigitalRoot(mobile: string): (r: nat)
    ensures r <= 9
    ensures CharSum(mobile) <= 9 ==> r == CharSum(mobile)
    ensures CharSum(mobile) > 0 ==> 1 <= r
  {
    Settle(CharSum(mobile))
  }

  /** For a positive first-pass sum `s` the result is `1 + (s - 1) % 9`. */
  lemma DigitalRootClosedForm(mobile: string)
    ensures CharSum(mobile) > 0 ==> CalculateDigitalRoot(mobile) == 1 + (CharSum(mobile) - 1) % 9
  {
    SettleClosedForm(CharSum(mobile));
  }

  /** The loop's result in closed form. */
  lemma SettleClosedForm(s: nat)
    ensures s > 0 ==> Settle(s) == 1 + (s - 1) % 9
  {
    if s > 0 {
      var r := Settle(s);
      var q, k := (s - 1) / 9, (s - 1) % 9;
      assert s == (k + 1) + 9 * q;
      ModNineShift(k + 1, q);
      ResidueDetermines(r, k + 1);
    }
  }

  /** Two values in 1..9 with the same residue modulo 9 are equal. */
  lemma ResidueDetermines(a: nat, b: nat)
    requires 1 <= a <= 9 && 1 <= b <= 9
    requires a % 9 == b % 9
    ensures a == b
  {
    if a == 9 || b == 9 {
      assert a % 9 == 0 && b % 9 == 0;
    }
  }

  /** A string made of one repeated character sums to length times value. */
  lemma {:induction false} RepeatedCharSum(mobile: string, c: char)
    requires forall i | 0 <= i < |mobile| :: mobile[i] == c
    ensures CharSum(mobile) == |mobile| * DigitValue(c)
    decreases |mobile|
  {
    if |mobile| > 0 {
      RepeatedCharSum(mobile[..|mobile| - 1], c);
    }
  }

  /** A string of zeros (or the empty string) has digital root 0. */
  lemma AllZerosGiveZero(mobile: string)
    requires forall i | 0 <= i < |mobile| :: mobile[i] == '0'
    ensures CalculateDigitalRoot(mobile) == 0
  {
    RepeatedCharSum(mobile, '0');
    assert DigitValue('0') == 0;
    assert CharSum(mobile) == 0;
  }

  /** Ten nines: first pass 90, second pass 9. */
  lemma TenNines()
    ensures CalculateDigitalRoot("9999999999") == 9
  {
    RepeatedCharSum("9999999999", '9');
    assert DecimalDigitSum(90) == 9 by {
      assert DecimalDigitSum(9) == 9 + DecimalDigitSum(0);
    }
  }
}
