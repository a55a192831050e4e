/** The client's progress figure: `Math.round(loaded * 100 / total)` for a
    transfer of `total` bytes of which `loaded` have gone through, computed
    here with integers only. */
module Progress {

  /** `q` is `100 * loaded / total` rounded half up, i.e. the integer with
      q <= 100 * loaded / total + 1/2 < q + 1 (all scaled by `2 * total`). */
  ghost predicate RoundsTo(loaded: int, total: int, q: int)
    requires total > 0
  {
    2 * total * q <= 200 * loaded + total < 2 * total * (q + 1)
  }

  /** The percentage shown for `loaded` of `total` bytes. */
  function Percent(loaded: int, total: int): (r: int)
    requires 0 < total && 0 <= loaded <= total
    ensures RoundsTo(loaded, total, r)
    ensures 0 <= r <= 100
    ensures r == 100 <==> 200 * loaded >= 199 * total
  {
    var r := (200 * loaded + total) / (2 * total);
    FloorDivision(200 * loaded + total, 2 * total);
    RoundedRange(loaded, total, r);
    r
  }

  /** Euclidean division by a positive divisor rounds down. */
  lemma FloorDivision(n: int, d: int)
    requires d > 0
    ensures d * (n / d) <= n < d * (n / d + 1)
  {
    var q := n / d;
    assert n == d * q + n % d;
    assert d * (q + 1) == d * q + d;
  }

  /** Any rounding of a ratio in 0..1 lies in 0..100, and is 100 exactly
      when at least 99.5% went through. */
  lemma RoundedRange(loaded: int, total: int, r: int)
    requires 0 < total && 0 <= loaded <= total
    requires RoundsTo(loaded, total, r)
    ensures 0 <= r <= 100
    ensures r == 100 <==> 200 * loaded >= 199 * total
  {
    var d := 2 * total;
    CancelFactor(d, -1, r);
    CancelFactor(d, r, 101);
    CancelFactor(d, 99, r);
  }

  /** Dividing both sides of `d * x < d * y` by a positive `d`. */
  lemma CancelFactor(d: int, x: int, y: int)
    requires d > 0
    ensures d * x < d * y <==> x < y
  {
    assert d * y - d * x == d * (y - x);
  }

  /** The rounding is unique: any integer that rounds the ratio is `Percent`. */
  lemma PercentUnique(loaded: int, total: int, q: int)
    requires 0 < total && 0 <= loaded <= total
    requires RoundsTo(loaded, total, q)
    ensures q == Percent(loaded, total)
  {
    var p := Percent(loaded, total);
    var d := 2 * total;
    CancelFactor(d, q, p + 1);
    CancelFactor(d, p, q + 1);
  }

  /** More bytes transferred never shows a smaller percentage. */
  lemma PercentMonotone(a: int, b: int, total: int)
    requires 0 < total && 0 <= a <= b <= total
    ensures Percent(a, total) <= Percent(b, total)
  {
    var p, q := Percent(a, total), Percent(b, total);
    CancelFactor(2 * total, p, q + 1);
  }

  /** Nothing sent shows 0%, everything sent shows 100%. */
  lemma PercentEnds(total: int)
    requires 0 < total
    ensures Percent(0, total) == 0 && Percent(total, total) == 100
  {
  }
}
