/** contracts/constants/src/Math.sol: integer square root by Newton's iteration, in 256-bit arithmetic. */
module IntSqrt {

  const TWO_TO_THE_256: nat :=
    0x1_0000_0000_0000_0000_0000_0000_0000_0000_0000_0000_0000_0000_0000_0000_0000_0000

  // Every intermediate value is proved to be in range, so the checked arithmetic never reverts.
  type uint256 = x: nat | x < TWO_TO_THE_256

  /** The next iterate. */
  function Newton(x: nat, y: nat): nat
    requires y > 0
  {
    (x / y + y) / 2
  }

  /** m is at least the integer root of x. */
  predicate Above(x: nat, m: nat) {
    x < (m + 1) * (m + 1)
  }

  lemma SquareOfSum(a: int, b: int)
    ensures 4 * (a * b) <= (a + b) * (a + b)
  {
    assert (a + b) * (a + b) - 4 * (a * b) == (a - b) * (a - b);
    assert (a - b) * (a - b) >= 0;
  }

  lemma QuotientAbove(x: nat, y: nat)
    requires y > 0
    ensures x < (x / y + 1) * y
  {
    assert x == y * (x / y) + x % y;
    assert (x / y + 1) * y == y * (x / y) + y;
  }

  lemma SquareMonotone(a: nat, b: nat)
    requires a <= b
    ensures a * a <= b * b
  {
    assert a * a <= a * b <= b * b;
  }

  /** No iterate falls below the root, whatever it is computed from. */
  lemma NewtonStaysAbove(x: nat, y: nat)
    requires y > 0
    ensures Above(x, Newton(x, y))
  {
    var a, m := x / y + 1, Newton(x, y) + 1;
    QuotientAbove(x, y);
    SquareOfSum(a, y);
    assert a + y <= 2 * m;
    SquareMonotone(a + y, 2 * m);
    assert (2 * m) * (2 * m) == 4 * (m * m);
  }

  /** An iterate that does not get smaller is at most the root. */
  lemma NewtonStopsBelow(x: nat, z: nat)
    requires z > 0 && Newton(x, z) >= z
    ensures z * z <= x
  {
    var q := x / z;
    assert q >= z;
    assert x == z * q + x % z;
    assert z * q >= z * z;
  }

  lemma QuotientAtMostHalf(x: nat, y: nat)
    requires y >= 2
    ensures x / y <= x / 2
  {
    var q := x / y;
    assert x == y * q + x % y;
    assert y * q >= 2 * q;
  }

  lemma SumInRange(x: uint256, y: nat)
    requires x >= 4 && 2 <= y <= x / 2 + 1
    ensures x / y + y < TWO_TO_THE_256
  {
    QuotientAtMostHalf(x, y);
  }

  lemma AtLeastTwo(x: nat, m: nat)
    requires x >= 4 && Above(x, m)
    ensures m >= 2
  {
    if m < 2 {
      SquareMonotone(m + 1, 2);
    }
  }

  /** The largest integer whose square is at most x. */
  method IntSqrt(x: uint256) returns (root: uint256)
    ensures root * root <= x < (root + 1) * (root + 1)
  {
    if x == 0 {
      return 0;
    }
    if x < 4 {
      return 1;
    }
    root := Iterate(x);
  }

  // The loop of intSqrt; it ends because z strictly decreases.
  method Iterate(x: uint256) returns (z: uint256)
    requires x >= 4
    ensures z * z <= x && Above(x, z)
  {
    hide Above;
    z := x;
    var y: uint256 := x / 2 + 1;
    AboveHalf(x);
    while y < z
      invariant 2 <= y <= x / 2 + 1 && z > 0
      invariant Above(x, y) && Above(x, z)
      invariant y < z || y == Newton(x, z)
      decreases z
    {
      z := y;
      SumInRange(x, y);
      var sum: uint256 := x / y + y;
      y := sum / 2;
      NewtonStaysAbove(x, z);
      AtLeastTwo(x, y);
      NewtonBelow(x, z);
    }
    NewtonStopsBelow(x, z);
  }

  lemma AboveHalf(x: nat)
    requires x >= 4
    ensures Above(x, x / 2 + 1) && Above(x, x)
  {
    var h := x / 2;
    assert (h + 2) * (h + 2) == h * h + 4 * h + 4;
    assert (x + 1) * (x + 1) == x * x + 2 * x + 1;
  }

  lemma NewtonBelow(x: nat, z: nat)
    requires x >= 4 && 2 <= z <= x / 2 + 1
    ensures Newton(x, z) <= x / 2 + 1
  {
    QuotientAtMostHalf(x, z);
  }

  /** The specification has one solution. */
  lemma RootIsUnique(x: nat, r: nat, s: nat)
    requires r * r <= x < (r + 1) * (r + 1) && s * s <= x < (s + 1) * (s + 1)
    ensures r == s
  {
    if r < s {
      SquareMonotone(r + 1, s);
    } else if s < r {
      SquareMonotone(s + 1, r);
    }
  }
}
