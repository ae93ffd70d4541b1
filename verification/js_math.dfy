/** The `Math` operations the app applies to ratios, on exact rationals. */
module JsMath {

  /** `Math.round(num / den)`: the nearest integer, a half rounded up. */
  function Round(num: int, den: int): (r: int)
    requires den > 0
    ensures 2 * den * r - den <= 2 * num < 2 * den * r + den
  {
    var q := (2 * num + den) / (2 * den);
    DivBounds(2 * num + den, 2 * den);
    q
  }

  lemma DivBounds(a: int, d: int)
    requires d > 0
    ensures d * (a / d) <= a < d * (a / d) + d
  {
  }

  /** Two integers within half of the same ratio are the same integer. */
  lemma RoundUnique(num: int, den: int, k: int)
    requires den > 0
    requires 2 * den * k - den <= 2 * num < 2 * den * k + den
    ensures Round(num, den) == k
  {
    var r := Round(num, den);
    assert den * (2 * r - 2 * k) < 2 * den && den * (2 * k - 2 * r) < 2 * den;
    Below(den, 2 * r - 2 * k);
    Below(den, 2 * k - 2 * r);
  }

  lemma Below(d: int, x: int)
    requires d > 0 && d * x < 2 * d
    ensures x < 2
  {
  }

  /** `total > 0 ? Math.round((part / total) * 100) : 0`. */
  function Percent(part: int, total: int): (r: int)
    ensures total > 0 ==> 2 * total * r - total <= 200 * part < 2 * total * r + total
    ensures total <= 0 ==> r == 0
    ensures total > 0 && 0 <= part <= total ==> 0 <= r <= 100
  {
    if total > 0 then
      var r := Round(100 * part, total);
      PercentBounds(part, total, r);
      r
    else 0
  }

  lemma PercentBounds(part: int, total: int, r: int)
    requires total > 0
    requires 2 * total * r - total <= 200 * part < 2 * total * r + total
    ensures 0 <= part <= total ==> 0 <= r <= 100
  {
    if 0 <= part <= total {
      assert total * (2 * r - 201) <= 0;
      assert total * (2 * r + 1) > 0;
      Sign(total, 2 * r - 201);
      Positive(total, 2 * r + 1);
    }
  }

  lemma Sign(d: int, x: int)
    requires d > 0 && d * x <= 0
    ensures x <= 0
  {
  }

  lemma Positive(d: int, x: int)
    requires d > 0 && d * x > 0
    ensures x > 0
  {
  }
}
