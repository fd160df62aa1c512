/** Places in a ring of N descriptors, counted without end. */
module Ring {

  const N: int := 256   // 16-byte descriptors in one page

  /** Different places in a stretch of N have descriptors of their own. */
  lemma OwnSlot(i: int, j: int)
    requires i < j < i + N
    ensures i % N != j % N
  {
  }

  lemma Around(k: int)
    ensures (k % N + 1) % N == (k + 1) % N && (k + N) % N == k % N
  {
  }
}
