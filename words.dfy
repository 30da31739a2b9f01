/** Machine words of the C runtime: `__word` (uint64_t), `__int` (int64_t) and
   `__char` (uint8_t).  Dafny's integers are unbounded, so the ranges are
   subset types and every conversion between them is written out. */
module Words {

  const Two64: int := 0x1_0000_0000_0000_0000

  /** `__word` */
  type Word = x: int | 0 <= x < 0x1_0000_0000_0000_0000

  /** `__int` */
  type I64 = x: int | -0x8000_0000_0000_0000 <= x < 0x8000_0000_0000_0000

  /** `__char` */
  type Byte = x: int | 0 <= x < 256

  /** The C conversion `(__word)v` of an `__int`: two's complement, i.e. the
      unique word congruent to `v` modulo 2^64. */
  function AsWord(v: I64): (w: Word)
    ensures (w - v) % Two64 == 0
    ensures v >= 0 ==> w == v
    ensures v < 0 ==> w >= 0x8000_0000_0000_0000
  {
    if v < 0 then v + Two64 else v
  }

  /** `(n + 1)` computed in `__word` arithmetic (wraps at 2^64). */
  function WordInc(n: Word): (r: Word)
    ensures (r - n - 1) % Two64 == 0
    ensures n < Two64 - 1 ==> r == n + 1
  {
    (n + 1) % Two64
  }

  /** 2 to the power `n`. */
  function Pow2(n: nat): (p: nat)
    ensures p >= 1
  {
    if n == 0 then 1 else 2 * Pow2(n - 1)
  }

  lemma {:induction false} Pow2Add(a: nat, b: nat)
    ensures Pow2(a + b) == Pow2(a) * Pow2(b)
    decreases a
  {
    if a > 0 {
      Pow2Add(a - 1, b);
      assert Pow2(a + b) == 2 * Pow2(a - 1 + b);
    }
  }

  lemma {:induction false} Pow2Monotone(a: nat, b: nat)
    requires a <= b
    ensures Pow2(a) <= Pow2(b)
    decreases b
  {
    if a < b {
      Pow2Monotone(a, b - 1);
    }
  }

  /** The words are exactly the numbers below 2^64. */
  lemma Pow2Word()
    ensures Pow2(64) == Two64
  {
    assert Pow2(4) == 16;
    Pow2Add(4, 4);
    assert Pow2(8) == 0x100;
    Pow2Add(8, 8);
    assert Pow2(16) == 0x1_0000;
    Pow2Add(16, 16);
    assert Pow2(32) == 0x1_0000_0000;
    Pow2Add(32, 32);
  }
}
