/** 64-bit `size_t` and addresses. */
module Words {
  const SPACE: nat := 0x1_0000_0000_0000_0000

  type Word = n: nat | n < SPACE

  // Unsigned arithmetic wraps: the result is the word congruent to the unbounded one.
  function Add(m: Word, n: Word): (r: Word)
    ensures (m + n - r) % SPACE == 0
  {
    if m + n < SPACE then m + n else m + n - SPACE
  }

  function Sub(m: Word, n: Word): (r: Word)
    ensures (m - n - r) % SPACE == 0
  {
    if n <= m then m - n else m - n + SPACE
  }
}
