/** Powers of natural numbers. */
module Powers {

  function Power(b: nat, e: nat): nat {
    if e == 0 then 1 else b * Power(b, e - 1)
  }

  lemma {:induction false} PowerMonotone(b: nat, d: nat, e: nat)
    requires b > 0 && d <= e
    ensures 0 < Power(b, d) <= Power(b, e)
    decreases e
  {
    if d > 0 {
      PowerMonotone(b, d - 1, e - 1);
      assert b * Power(b, d - 1) <= b * Power(b, e - 1);
    } else if e > 0 {
      PowerMonotone(b, 0, e - 1);
      assert 1 * Power(b, e - 1) <= b * Power(b, e - 1);
    }
  }

  lemma MulMonotone(a: nat, b: nat, c: nat)
    requires a <= b
    ensures a * c <= b * c
  {
  }

  lemma QuotientIs(x: int, d: int, q: int, r: int)
    requires d > 0 && x == d * q + r && 0 <= r < d
    ensures x / d == q && x % d == r
  {
    var e := x / d - q;
    assert d * e == r - x % d;
    assert e >= 1 ==> d * e >= d;
    assert e <= -1 ==> d * e <= 0 - d;
  }

  lemma Expanded(a: int, b: int, q: int, s: int)
    ensures a * (b * q + s) == (a * b) * q + a * s
  {
    assert a * (b * q + s) == a * (b * q) + a * s;
  }

  lemma RestIsSmall(a: int, b: int, s: int, r: int)
    requires 0 <= r < a && 0 <= s < b
    ensures 0 <= a * s + r < a * b
  {
    MulMonotone(s, b - 1, a);
    assert (b - 1) * a == a * b - a;
  }

  lemma DivideTwice(n: nat, a: nat, b: nat)
    requires a > 0 && b > 0
    ensures a * b > 0 && n / a / b == n / (a * b)
  {
    var m, r := n / a, n % a;
    var q, s := m / b, m % b;
    Expanded(a, b, q, s);
    RestIsSmall(a, b, s, r);
    QuotientIs(n, a * b, q, a * s + r);
  }

  /** The digits of a number come out by dividing by powers of the base. */
  lemma NextDigit(n: nat, base: nat, k: nat)
    requires base > 0 && k > 0
    ensures Power(base, k - 1) > 0 && Power(base, k) > 0 && n / base / Power(base, k - 1) == n / Power(base, k)
  {
    PowerMonotone(base, 0, k - 1);
    PowerMonotone(base, 0, k);
    DivideTwice(n, base, Power(base, k - 1));
  }
}
