/** Non-linear facts that the solver is better told than asked. */
module Arithmetic {

  lemma DivModUnique(a: int, b: int, q: int, r: int)
    requires b > 0 && 0 <= r < b && a == q * b + r
    ensures a / b == q && a % b == r
  {
    var q', r' := a / b, a % b;
    MulDistributes(q, q', b);
    if q > q' {
      MulAtLeast(q - q', b);
    } else if q < q' {
      MulDistributes(q', q, b);
      MulAtLeast(q' - q, b);
    }
  }

  lemma MulDistributes(p: int, q: int, b: int)
    ensures (p - q) * b == p * b - q * b
  {
  }

  lemma MulAtLeast(k: int, b: int)
    requires k >= 1 && b > 0
    ensures k * b >= b
  {
  }

  lemma MulMonotone(a: int, b: int, c: int)
    requires 0 <= a <= b && c >= 0
    ensures 0 <= a * c <= b * c
  {
  }

  lemma MulStep(count: nat, size: nat)
    requires count > 0
    ensures count * size == (count - 1) * size + size && (count - 1) * size >= 0
  {
  }
}
