/** go/galois/galois.go: arithmetic modulo the order q of the field, on unbounded integers. */
module Field {
  import opened ModularArithmetic
  import opened Divisibility
  import opened Results

  datatype Error =
    | NotPowerOfTwo   // the transform supports lengths 2^k only
    | RootIsOne       // the root of unity is the integer 1
    | NotRootOfUnity  // root^n is not 1
    | NoInverse       // the length is not invertible modulo q: the source dereferences a nil pointer
    | OddRoot         // roots of odd order are not supported
    | NoEntropy       // the random reader failed
    | ZeroOrder       // n == 0: the source divides by zero

  /** x^y mod q. */
  function Exp(x: int, y: nat, q: nat): int
    requires q > 0
  {
    Pow(x, y) % q
  }

  /** x*y mod q. */
  function Mul(x: int, y: int, q: nat): int
    requires q > 0
  {
    (x * y) % q
  }

  /** The inverse of x, when x is coprime to q. */
  function MultInverse(x: int, q: nat): Option<int>
    requires q > 1
  {
    ModInverse(x, q)
  }
}
