/** Powers and the Euclidean-division facts that the wheel arithmetic rests on. */
module Powers {

  function Pow(b: nat, e: nat): (p: nat)
    ensures b > 0 ==> p > 0
  {
    if e == 0 then 1 else MulPositive(b, Pow(b, e - 1)); b * Pow(b, e - 1)
  }

  lemma MulPositive(x: nat, y: nat)
    ensures x > 0 && y > 0 ==> x * y > 0
  {}

  /** Quotient and remainder are determined by the division identity. */
  lemma DivUnique(n: int, d: int, q: int, r: int)
    requires d > 0 && 0 <= r < d && n == q * d + r
    ensures n / d == q && n % d == r
  {
    var gap := q - n / d;
    assert gap * d == n % d - r;
    if gap != 0 {
      MulAtLeast(if gap > 0 then gap else -gap, d);
      assert false;
    }
  }

  lemma MulAtLeast(k: int, d: int)
    requires k >= 1 && d >= 0
    ensures k * d >= d
  {
    assert (k - 1) * d >= 0;
  }

  lemma MulMono(x: int, y: int, d: int)
    requires x <= y && d >= 0
    ensures x * d <= y * d
  {
    assert (y - x) * d >= 0;
  }

  /** Dividing twice is dividing by the product. */
  lemma DivDiv(n: int, p: nat, b: nat)
    requires p > 0 && b > 0
    ensures b * p > 0
    ensures n / (b * p) == (n / p) / b
    ensures n % (b * p) == (n / p) % b * p + n % p
  {
    var q := n / p;
    MulPositive(b, p);
    assert n == q * p + n % p;
    assert q == q / b * b + q % b;
    var r := q % b * p + n % p;
    assert n == q / b * (b * p) + r by {
      assert q * p == (q / b * b) * p + (q % b) * p;
      assert (q / b * b) * p == q / b * (b * p);
    }
    MulMono(q % b, b - 1, p);
    DivUnique(n, b * p, q / b, r);
  }

  lemma MultipleOfLower(t: nat, p: nat, b: nat)
    requires p > 0 && b > 0 && b * p > 0 && t % (b * p) == 0
    ensures t % p == 0 && t / p * p == t
  {
    DivDiv(t, p, b);
    MulMono(0, (t / p) % b, p);
  }

  /** A multiple of a power is one of every lower power. */
  lemma {:induction false} PowDivides(b: nat, i: nat, j: nat, t: nat)
    requires b > 0 && i <= j && t % Pow(b, j) == 0
    ensures t % Pow(b, i) == 0
  {
    if i < j {
      MultipleOfLower(t, Pow(b, j - 1), b);
      PowDivides(b, i, j - 1, t);
    }
  }
}
