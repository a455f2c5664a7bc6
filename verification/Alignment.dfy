/** The alignment arithmetic of `internal_memalign` (hagen/src/malloc.c). */
module Alignment {
  import opened Words
  import opened Chunks
  import opened Policy
  import BinMaps

  /** `(a & (a - 1)) == 0`, for a > 0 */
  predicate PowerOfTwo(a: nat) {
    a == 1 || (a > 1 && a % 2 == 0 && PowerOfTwo(a / 2))
  }

  /** The doubling loop, from `a` on. */
  function Doubled(alignment: nat, a: nat): (d: nat)
    requires a > 0
    ensures d >= alignment && d >= a
    decreases alignment - a
  {
    if a < alignment then Doubled(alignment, 2 * a) else a
  }

  /** The alignment that is used for the one asked for. */
  function AlignmentFor(alignment: nat): (a: nat)
    ensures a >= MIN_CHUNK && a >= alignment
  {
    var a := if alignment < MIN_CHUNK then MIN_CHUNK else alignment;
    if PowerOfTwo(a) then a else Doubled(a, MIN_CHUNK)
  }

  /** `(x + a - 1) & -a` */
  function AlignUp(x: nat, a: nat): nat
    requires a > 0
  {
    x + a - 1 - (x + a - 1) % a
  }

  lemma {:induction false} DoubledPower(alignment: nat, a: nat)
    requires PowerOfTwo(a)
    ensures var d := Doubled(alignment, a); PowerOfTwo(d) && alignment <= d && a <= d && (d == a || d < 2 * alignment)
    decreases alignment - a
  {
    if a < alignment {
      assert 2 * a / 2 == a;
      DoubledPower(alignment, 2 * a);
    }
  }

  /** Of two different powers of two, one is at least twice the other. */
  lemma {:induction false} PowersApart(a: nat, b: nat)
    requires PowerOfTwo(a) && PowerOfTwo(b) && a < b
    ensures 2 * a <= b
  {
    if a > 1 { PowersApart(a / 2, b / 2); }
  }

  lemma Power32()
    ensures PowerOfTwo(32)
  {
    assert PowerOfTwo(2) && PowerOfTwo(4) && PowerOfTwo(8) && PowerOfTwo(16);
  }

  /** The alignment used is the least power of two that is at least the one asked for and at
      least a minimal chunk. */
  lemma AlignmentIsLeast(alignment: nat)
    ensures var a := AlignmentFor(alignment);
            && PowerOfTwo(a) && a >= MIN_CHUNK && a >= alignment
            && forall b: nat | PowerOfTwo(b) && b >= MIN_CHUNK && b >= alignment :: a <= b
  {
    var asked := if alignment < MIN_CHUNK then MIN_CHUNK else alignment;
    var a := AlignmentFor(alignment);
    Power32();
    if !PowerOfTwo(asked) {
      DoubledPower(asked, MIN_CHUNK);
      forall b: nat | PowerOfTwo(b) && b >= MIN_CHUNK && b >= alignment ensures a <= b {
        if b < a { PowersApart(b, a); }
      }
    }
  }

  lemma {:induction false} PowerAligned(a: nat)
    requires PowerOfTwo(a) && a >= 16
    ensures Aligned(a)
  {
    if a > 16 {
      PowersApart16(a);
      PowerAligned(a / 2);
    }
  }

  lemma PowersApart16(a: nat)
    requires PowerOfTwo(a) && a > 16
    ensures a >= 32
  {
    assert PowerOfTwo(2) && PowerOfTwo(4) && PowerOfTwo(8) && PowerOfTwo(16);
    PowersApart(16, a);
  }

  lemma ModZero(x: nat, a: nat)
    requires a > 0
    ensures (x - x % a) % a == 0 && (x - x % a + a) % a == 0 && x < x - x % a + a
  {
    var q := x / a;
    assert x == a * q + x % a;
    MultipleMod(q, a);
    MultipleMod(q + 1, a);
    assert a * (q + 1) == a * q + a;
  }

  lemma {:induction false} MultipleMod(q: nat, a: nat)
    requires a > 0
    ensures (a * q) % a == 0
  {
    if q > 0 {
      MultipleMod(q - 1, a);
      assert a * q == a * (q - 1) + a;
      AddMod(a * (q - 1), a);
    } else {
      assert a * q == 0;
    }
  }

  lemma AddMod(x: nat, a: nat)
    requires a > 0 && x % a == 0
    ensures (x + a) % a == 0
  {
    var q := x / a;
    assert x == a * q;
    assert x + a == a * (q + 1);
    DivUnique(x + a, a, q + 1);
  }

  lemma DivUnique(y: nat, a: nat, q: nat)
    requires a > 0 && y == a * q
    ensures y % a == 0
  {
    var d, r := y / a, y % a;
    assert y == a * d + r && 0 <= r < a;
    assert a * (q - d) == r;
    MulBounds(a, q - d);
  }

  lemma MulBounds(a: nat, k: int)
    ensures k >= 1 ==> a * k >= a
    ensures k <= -1 ==> a * k + a <= 0
  {
  }

  lemma {:induction false} MultipleOf16(k: nat, q: nat)
    ensures Aligned(16 * k * q)
  {
    assert 16 * k * q == 16 * (k * q);
  }

  lemma AlignUpFacts(x: nat, a: nat)
    requires a > 0 && Aligned(a)
    ensures var r := AlignUp(x, a);
            && x <= r < x + a && r % a == 0 && (r + a) % a == 0 && Aligned(r) && (x % a != 0 ==> x < r)
  {
    var y := x + a - 1;
    var r := AlignUp(x, a);
    ModZero(y, a);
    var k, q := a / 16, y / a;
    assert a == 16 * k && y == a * q + y % a;
    assert r == a * q == 16 * k * q;
    MultipleOf16(k, q);
  }

  /** The place for the aligned chunk in what malloc has returned at `p`: far enough from `p`
      for a leading chunk, and early enough for nb bytes. */
  lemma AlignedSpot(p: nat, size: nat, nb: nat, a: nat)
    requires Aligned(p) && Aligned(size) && Aligned(nb) && Aligned(a) && a >= MIN_CHUNK && nb >= MIN_CHUNK
    requires size >= nb + a + MIN_CHUNK && (p + 16) % a != 0
    ensures var br := AlignUp(p + 16, a) - 16;
            var pos := if br - p >= MIN_CHUNK then br else br + a;
            && pos >= p + MIN_CHUNK && Aligned(pos - p) && (pos + 16) % a == 0
            && size - (pos - p) >= nb && Aligned(size - (pos - p))
  {
    hide AlignUp, Aligned;
    AlignUpFacts(p + 16, a);
    SpotRoom(p, size, nb, a, AlignUp(p + 16, a));
  }

  lemma SpotRoom(p: nat, size: nat, nb: nat, a: nat, r: nat)
    requires Aligned(p) && Aligned(size) && Aligned(nb) && Aligned(a) && a >= MIN_CHUNK && nb >= MIN_CHUNK
    requires size >= nb + a + MIN_CHUNK && p + 16 < r < p + 16 + a && Aligned(r)
    ensures var br := r - 16;
            var pos := if br - p >= MIN_CHUNK then br else br + a;
            pos >= p + MIN_CHUNK && Aligned(pos - p) && size - (pos - p) >= nb && Aligned(size - (pos - p))
  {
    var i, j, k, l := p / 16, size / 16, a / 16, r / 16;
    assert p == 16 * i && size == 16 * j && a == 16 * k && r == 16 * l;
  }

  /** What is asked of malloc for an aligned block. */
  lemma AlignedRequest(bytes: nat, a: nat)
    requires Aligned(a) && MIN_CHUNK <= a <= 0x8000_0000_0000_0000 && bytes < MAX_REQUEST - a
    ensures var nb := RequestToSize(bytes);
            var req := nb + a + MIN_CHUNK - 8;
            req < WORD_LIMIT && RequestSize(req) >= nb + a + MIN_CHUNK && Aligned(nb) && nb >= MIN_CHUNK
  {
    var nb := RequestToSize(bytes);
    var req := nb + a + MIN_CHUNK - 8;
    assert req + 8 <= RequestToSize(req);
  }

  lemma {:induction false} Pow2IsPower(k: nat)
    ensures PowerOfTwo(Pow2(k))
  {
    if k > 0 {
      Pow2IsPower(k - 1);
      assert 2 * Pow2(k - 1) / 2 == Pow2(k - 1);
    }
  }

  lemma TwoTo63()
    ensures PowerOfTwo(0x8000_0000_0000_0000)
  {
    Pow2IsPower(63);
    BinMaps.Pow2At16();
    Pow2Add(16, 16);
    Pow2Add(32, 16);
    Pow2Add(48, 15);
  }

  /* ---------------- when the doubling loop ends ---------------- */

  /** The loop's variable after n rounds, in 64-bit arithmetic. */
  function AfterRounds(n: nat): nat {
    if n == 0 then MIN_CHUNK else 2 * AfterRounds(n - 1) % WORD_LIMIT
  }

  lemma {:induction false} RoundsArePowers(n: nat)
    ensures AfterRounds(n) == if n <= 58 then Pow2(n + 5) else 0
  {
    hide Pow2, AfterRounds;
    OneRound(n);
    if n == 0 {
      PowerFive();
    } else {
      RoundsArePowers(n - 1);
      PowerSixtyThree();
      if n <= 58 {
        PowerStep(n + 4);
        Pow2Mono(n + 4, 62);
        PowerStep(62);
      }
    }
  }

  lemma OneRound(n: nat)
    ensures n == 0 ==> AfterRounds(n) == 32
    ensures n > 0 && AfterRounds(n - 1) < 0x8000_0000_0000_0000 ==> AfterRounds(n) == 2 * AfterRounds(n - 1)
    ensures n > 0 && AfterRounds(n - 1) == 0x8000_0000_0000_0000 ==> AfterRounds(n) == 0
  {
  }

  lemma PowerStep(k: nat)
    ensures Pow2(k + 1) == 2 * Pow2(k)
  {
  }

  lemma PowerFive()
    ensures Pow2(5) == 32
  {
    assert Pow2(5) == 2 * Pow2(4) == 4 * Pow2(3) == 8 * Pow2(2) == 16 * Pow2(1);
  }

  lemma PowerSixtyThree()
    ensures Pow2(63) == 0x8000_0000_0000_0000
  {
    hide Pow2;
    PowerFive();
    PowerThree();
    Pow2Add(5, 5);
    Pow2Add(10, 10);
    Pow2Add(20, 20);
    Pow2Add(40, 20);
    Pow2Add(60, 3);
  }

  lemma PowerThree()
    ensures Pow2(3) == 8
  {
    assert Pow2(3) == 2 * Pow2(2) == 4 * Pow2(1);
  }

  /** The loop ends if and only if the alignment is at most 2^63: beyond that the variable wraps to 0
      and stays there. */
  lemma DoublingEndsIff(alignment: nat)
    requires alignment < WORD_LIMIT
    ensures (exists n :: AfterRounds(n) >= alignment) <==> alignment <= 0x8000_0000_0000_0000
  {
    hide Pow2, AfterRounds;
    PowerSixtyThree();
    RoundsArePowers(58);
    forall n: nat ensures AfterRounds(n) <= Pow2(63) {
      RoundsArePowers(n);
      if n <= 58 { Pow2Mono(n + 5, 63); }
    }
  }
}
