/** Powers of two, for block orders, bit fields and offset widths. */
module Powers {

  function Pow2(n: nat): (p: nat)
    ensures p >= 1
  {
    if n == 0 then 1 else 2 * Pow2(n - 1)
  }

  lemma {:induction false} Pow2Add(a: nat, b: nat)
    ensures Pow2(a + b) == Pow2(a) * Pow2(b)
  {
    if a > 0 {
      Pow2Add(a - 1, b);
      assert Pow2(a + b) == 2 * Pow2(a - 1 + b);
    }
  }

  lemma {:induction false} Pow2Monotone(a: nat, b: nat)
    requires a <= b
    ensures Pow2(a) <= Pow2(b)
    decreases b - a
  {
    if a < b {
      Pow2Monotone(a, b - 1);
    }
  }

  /** The smallest order whose block holds `size` elements: the position of the top bit, plus one
      when a lower bit is set. */
  method SizeToOrder(size: nat) returns (order: nat)
    ensures size <= Pow2(order)
    ensures order == 0 || Pow2(order - 1) < size
  {
    var bits, rest, lowerBit := 0, size, false;
    while rest > 1
      invariant rest * Pow2(bits) <= size < (rest + 1) * Pow2(bits)
      invariant if size > 0 then rest > 0 else rest == bits == 0
      invariant lowerBit <==> rest * Pow2(bits) < size
    {
      HalveStep(size, rest, bits);
      lowerBit := lowerBit || rest % 2 == 1;
      bits := bits + 1;
      rest := rest / 2;
    }
    order := if lowerBit then bits + 1 else bits;
    assert size > 0 ==> rest * Pow2(bits) == Pow2(bits);
  }

  lemma HalveStep(size: nat, rest: nat, bits: nat)
    requires rest * Pow2(bits) <= size < (rest + 1) * Pow2(bits)
    ensures rest / 2 * Pow2(bits + 1) <= size < (rest / 2 + 1) * Pow2(bits + 1)
    ensures rest / 2 * Pow2(bits + 1) < size <==> rest * Pow2(bits) < size || rest % 2 == 1
  {
    var p, h := Pow2(bits), rest / 2;
    assert h * Pow2(bits + 1) == 2 * h * p;
    assert (h + 1) * Pow2(bits + 1) == (2 * h + 2) * p;
    assert 2 * h * p <= rest * p;
    assert (rest + 1) * p <= (2 * h + 2) * p;
  }
}
