/** Small facts about products and quotients of natural numbers that the
    index arithmetic of the grids and the shard boundaries rests on. The
    solver proves each one alone; stating them apart keeps the proofs that
    use them free of nonlinear search. */
module Products {
  /** A product bound grows with its first factor. */
  lemma MulMono(x: nat, y: nat, z: nat)
    requires x <= y
    ensures x * z <= y * z
  {
  }

  /** Raises a product bound by one factor: `(j + 1) * s <= n * s` for `j < n`. */
  lemma MulStep(j: nat, n: nat, s: nat)
    requires j < n
    ensures j * s + s <= n * s
  {
    assert (j + 1) * s <= n * s;
  }

  /** One more row of width `w`. */
  lemma MulSucc(n: nat, w: nat)
    ensures n * w + w == (n + 1) * w
  {
  }

  lemma MulNonNegative(a: nat, b: nat)
    ensures a * b >= 0
  {
  }

  /** Truncating division never overshoots. */
  lemma DivFloor(n: nat, t: nat)
    requires t > 0
    ensures t * (n / t) <= n
  {
  }
}
