/** What all modules share: machine words, products and quotients of variables, and
    the guard that keeps definitions out of proofs. */
module Numbers {

  const WORD32: nat := 0x1_0000_0000

  type Byte = x: int | 0 <= x < 256
  type U16 = w: nat | w < 0x1_0000
  type U32 = w: nat | w < WORD32

  /** Always true. A definition of the form `forall z | Shown(z) :: P` means P, but its
      quantifier is instantiated only where a proof names Shown: elsewhere P, with the
      quantifiers inside it, stays folded. A proof that needs P asserts Shown(0). */
  predicate Shown(z: int) { true }

  lemma Regroup<T>(x: seq<T>, y: seq<T>, z: seq<T>)
    ensures x + (y + z) == x + y + z
  {
  }

  lemma MulMonotone(a: nat, b: nat, k: nat)
    requires a <= b
    ensures a * k <= b * k
  {
  }

  lemma SmallMultiple(k: int, d: int)
    requires -d < k * d < d
    ensures k == 0
  {
  }

  lemma DivModUnique(n: int, d: int, q: int, r: int)
    requires d > 0 && 0 <= r < d && n == q * d + r
    ensures n / d == q && n % d == r
  {
    var q' := n / d;
    assert n == q' * d + n % d;
    assert (q - q') * d == q * d - q' * d;
    SmallMultiple(q - q', d);
  }

  lemma Multiple(q: int, d: int)
    requires d > 0
    ensures q * d % d == 0
  {
    DivModUnique(q * d, d, q, 0);
  }

  /** The next multiple of d after the multiple n is n + d. */
  lemma NextMultiple(n: nat, d: nat)
    requires d > 0 && n % d == 0
    ensures (n + d) % d == 0
    ensures forall k | n < k < n + d :: k % d != 0
  {
    var q := n / d;
    assert n == q * d;
    assert n + d == (q + 1) * d;
    Multiple(q + 1, d);
    forall k | n < k < n + d ensures k % d != 0 {
      DivModUnique(k, d, q, k - n);
    }
  }
}
