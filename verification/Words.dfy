/** Word-addressed memory and powers of two, shared by the allocator models. */
module Words {

  /** Memory at word granularity: `m[a]` is the word stored at byte address `a`.
      Addresses never written hold an arbitrary but fixed value, here 0. */
  type Mem = map<nat, nat>

  function Rd(m: Mem, a: nat): nat {
    if a in m then m[a] else 0
  }

  const WORD_LIMIT: nat := 0x1_0000_0000_0000_0000 // 2^64

  /** Subtraction of `size_t` values: it wraps modulo 2^64. */
  function SubWrap(a: nat, b: nat): (r: nat)
    requires a < WORD_LIMIT && b < WORD_LIMIT
    ensures r < WORD_LIMIT
    ensures b <= a ==> r == a - b
    ensures a < b ==> r == WORD_LIMIT - (b - a)
  {
    (a - b) % WORD_LIMIT
  }

  function Pow2(k: nat): (p: nat)
    ensures p > 0
  {
    if k == 0 then 1 else 2 * Pow2(k - 1)
  }

  lemma TwiceProduct(x: nat, y: nat)
    ensures 2 * (x * y) == (2 * x) * y
  {
  }

  lemma {:induction false} Pow2Add(a: nat, b: nat)
    ensures Pow2(a + b) == Pow2(a) * Pow2(b)
  {
    if a == 0 {
    } else {
      Pow2Add(a - 1, b);
      assert Pow2(a + b) == 2 * Pow2(a - 1 + b);
      TwiceProduct(Pow2(a - 1), Pow2(b));
    }
  }

  lemma {:induction false} Pow2Mono(a: nat, b: nat)
    requires a <= b
    ensures Pow2(a) <= Pow2(b)
    ensures a < b ==> 2 * Pow2(a) <= Pow2(b)
    decreases b
  {
    if a < b { Pow2Mono(a, b - 1); }
  }
}
