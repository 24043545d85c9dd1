/** Natural-number powers, shared by the hexadecimal and base-256 views of a value. */
module Powers {

  /** b raised to the e-th power. */
  function Pow(b: nat, e: nat): nat
  {
    if e == 0 then 1 else b * Pow(b, e - 1)
  }

  lemma {:induction false} PowPositive(b: nat, e: nat)
    requires b > 0
    ensures Pow(b, e) > 0
  {
    if e > 0 {
      PowPositive(b, e - 1);
    }
  }

  lemma {:induction false} PowAdd(b: nat, x: nat, y: nat)
    ensures Pow(b, x + y) == Pow(b, x) * Pow(b, y)
  {
    if x > 0 {
      PowAdd(b, x - 1, y);
      assert Pow(b, x + y) == b * Pow(b, x - 1 + y);
    }
  }

  /** Two hexadecimal digits make one byte: 256^k == 16^(2k). */
  lemma {:induction false} Pow256IsPow16(k: nat)
    ensures Pow(256, k) == Pow(16, 2 * k)
  {
    if k > 0 {
      Pow256IsPow16(k - 1);
      assert Pow(16, 2 * k) == 16 * (16 * Pow(16, 2 * k - 2));
    }
  }

  lemma {:induction false} PowMonotonic(b: nat, x: nat, y: nat)
    requires b >= 1 && x <= y
    ensures Pow(b, x) <= Pow(b, y)
  {
    if x < y {
      PowMonotonic(b, x, y - 1);
      PowPositive(b, y - 1);
      assert Pow(b, y) == b * Pow(b, y - 1);
    }
  }

  lemma {:induction false} PowStrictlyMonotonic(b: nat, x: nat, y: nat)
    requires b >= 2 && x < y
    ensures Pow(b, x) < Pow(b, y)
  {
    PowMonotonic(b, x, y - 1);
    PowPositive(b, y - 1);
    assert Pow(b, y) == b * Pow(b, y - 1);
  }

  lemma MulMonotonic(a: nat, b: nat, p: nat)
    requires a <= b
    ensures a * p <= b * p
  {
  }
}
