/** Copying and filling memory (src/klib.c:29-195): the copy works on whole 32-bit words, shifting
    them together when source and destination are aligned differently. */
module MemCpy {

  type Bytes = map<nat, nat>

  function B(m: Bytes, a: nat): nat { if a in m then m[a] else 0 }

  ghost predicate BytesOk(m: Bytes) { forall a | a in m :: m[a] < 256 }

  /** A little-endian 32-bit load. */
  function Load32(m: Bytes, a: nat): nat {
    B(m, a) + 0x100 * B(m, a + 1) + 0x1_0000 * B(m, a + 2) + 0x100_0000 * B(m, a + 3)
  }

  function Four(m: Bytes, a: nat, b0: nat, b1: nat, b2: nat, b3: nat): Bytes { m[a := b0][a + 1 := b1][a + 2 := b2][a + 3 := b3] }

  function Store32(m: Bytes, a: nat, v: nat): Bytes {
    Four(m, a, v % 0x100, v / 0x100 % 0x100, v / 0x1_0000 % 0x100, v / 0x100_0000 % 0x100)
  }

  /** `(w >> (32 - 8 * c)) | (x << (8 * c))`; the operands have no bits in common. */
  function Combine(w: nat, x: nat, c: nat): nat
    requires 1 <= c <= 3
  {
    if c == 1 then w / 0x100_0000 + x * 0x100 % 0x1_0000_0000
    else if c == 2 then w / 0x1_0000 + x * 0x1_0000 % 0x1_0000_0000
    else w / 0x100 + x * 0x100_0000 % 0x1_0000_0000
  }

  /** The simple form: the first k bytes have been copied, and nothing else has changed. */
  ghost predicate Copied(m0: Bytes, m: Bytes, dest: nat, src: nat, k: nat) {
    forall a: nat {:trigger B(m, a)} :: B(m, a) == if dest <= a < dest + k then B(m0, src + (a - dest)) else B(m0, a)
  }

  predicate Disjoint(dest: nat, src: nat, n: nat) { dest + n <= src || src + n <= dest }

  /** What lies ahead in the source has not been overwritten. */
  lemma SourceAhead(m0: Bytes, m: Bytes, dest: nat, src: nat, k: nat, n: nat, a: nat)
    requires Copied(m0, m, dest, src, k) && k <= n && Disjoint(dest, src, n) && src <= a < src + n
    ensures B(m, a) == B(m0, a)
  {
  }

  lemma WordAhead(m0: Bytes, m: Bytes, dest: nat, src: nat, k: nat, n: nat, a: nat)
    requires Copied(m0, m, dest, src, k) && k <= n && Disjoint(dest, src, n) && src <= a && a + 4 <= src + n
    ensures Load32(m, a) == Load32(m0, a)
  {
    hide Copied, B;
    SourceAhead(m0, m, dest, src, k, n, a);
    SourceAhead(m0, m, dest, src, k, n, a + 1);
    SourceAhead(m0, m, dest, src, k, n, a + 2);
    SourceAhead(m0, m, dest, src, k, n, a + 3);
  }

  lemma OneByte(m0: Bytes, m: Bytes, dest: nat, src: nat, k: nat, n: nat)
    requires Copied(m0, m, dest, src, k) && k < n && Disjoint(dest, src, n) && BytesOk(m0) && BytesOk(m)
    ensures var m' := m[dest + k := B(m, src + k)]; Copied(m0, m', dest, src, k + 1) && BytesOk(m')
  {
    SourceAhead(m0, m, dest, src, k, n, src + k);
    var m' := m[dest + k := B(m, src + k)];
    forall a: nat ensures B(m', a) == if dest <= a < dest + k + 1 then B(m0, src + (a - dest)) else B(m0, a) {
      if a != dest + k { assert B(m', a) == B(m, a); }
    }
  }

  /** The four bytes of a word. */
  predicate BytesOf(v: nat, b0: nat, b1: nat, b2: nat, b3: nat) {
    && b0 < 256 && b1 < 256 && b2 < 256 && b3 < 256
    && v == b0 + 0x100 * b1 + 0x1_0000 * b2 + 0x100_0000 * b3
  }

  lemma BytesBack(v: nat, b0: nat, b1: nat, b2: nat, b3: nat)
    requires BytesOf(v, b0, b1, b2, b3)
    ensures v % 0x100 == b0 && v / 0x100 % 0x100 == b1 && v / 0x1_0000 % 0x100 == b2 && v / 0x100_0000 % 0x100 == b3
    ensures v < 0x1_0000_0000
  {
    ShiftDown(v, b0, b1, b2, b3);
    Low(v, b0, b1 + 0x100 * b2 + 0x1_0000 * b3);
    Low(v / 0x100, b1, b2 + 0x100 * b3);
    Low(v / 0x1_0000, b2, b3);
  }

  lemma Low(v: nat, r: nat, q: nat)
    requires v == r + 0x100 * q && r < 0x100
    ensures v % 0x100 == r
  {
  }

  lemma ShiftDown(w: nat, b0: nat, b1: nat, b2: nat, b3: nat)
    requires BytesOf(w, b0, b1, b2, b3)
    ensures w / 0x100_0000 == b3 && w / 0x1_0000 == b2 + 0x100 * b3 && w / 0x100 == b1 + 0x100 * b2 + 0x1_0000 * b3
  {
  }

  lemma StoreIs(m: Bytes, d: nat, v: nat, b0: nat, b1: nat, b2: nat, b3: nat)
    requires BytesOf(v, b0, b1, b2, b3)
    ensures Store32(m, d, v) == Four(m, d, b0, b1, b2, b3)
  {
    BytesBack(v, b0, b1, b2, b3);
  }

  /** A word that holds the next four bytes of the source is stored. */
  lemma OneWord(m0: Bytes, m: Bytes, dest: nat, src: nat, k: nat, n: nat, v: nat)
    requires Copied(m0, m, dest, src, k) && k + 4 <= n && BytesOk(m0) && BytesOk(m)
    requires BytesOf(v, B(m0, src + k), B(m0, src + k + 1), B(m0, src + k + 2), B(m0, src + k + 3))
    ensures var m' := Store32(m, dest + k, v); Copied(m0, m', dest, src, k + 4) && BytesOk(m')
  {
    var b0, b1, b2, b3 := B(m0, src + k), B(m0, src + k + 1), B(m0, src + k + 2), B(m0, src + k + 3);
    hide Store32, Copied, BytesOk, Four;
    StoreIs(m, dest + k, v, b0, b1, b2, b3);
    assert b0 < 256 && b1 < 256 && b2 < 256 && b3 < 256;
    hide BytesOf;
    FourOk(m, dest + k, b0, b1, b2, b3);
    FourCopied(m0, m, dest, src, k, b0, b1, b2, b3);
  }

  lemma FourOk(m: Bytes, d: nat, b0: nat, b1: nat, b2: nat, b3: nat)
    requires BytesOk(m) && b0 < 256 && b1 < 256 && b2 < 256 && b3 < 256
    ensures BytesOk(Four(m, d, b0, b1, b2, b3))
  {
  }

  lemma FourCopied(m0: Bytes, m: Bytes, dest: nat, src: nat, k: nat, b0: nat, b1: nat, b2: nat, b3: nat)
    requires Copied(m0, m, dest, src, k)
    requires b0 == B(m0, src + k) && b1 == B(m0, src + k + 1) && b2 == B(m0, src + k + 2) && b3 == B(m0, src + k + 3)
    ensures Copied(m0, Four(m, dest + k, b0, b1, b2, b3), dest, src, k + 4)
  {
    var d := dest + k;
    var m' := Four(m, d, b0, b1, b2, b3);
    FourBytes(m, d, b0, b1, b2, b3);
    hide B;
    forall a: nat ensures B(m', a) == if dest <= a < dest + k + 4 then B(m0, src + (a - dest)) else B(m0, a) {
      if d <= a < d + 4 {
        assert a == d || a == d + 1 || a == d + 2 || a == d + 3;
      } else {
        assert B(m', a) == B(m, a);
      }
    }
  }

  lemma FourBytes(m: Bytes, d: nat, b0: nat, b1: nat, b2: nat, b3: nat)
    ensures var m' := Four(m, d, b0, b1, b2, b3);
            && B(m', d) == b0 && B(m', d + 1) == b1 && B(m', d + 2) == b2 && B(m', d + 3) == b3
            && forall a: nat | a < d || a >= d + 4 :: B(m', a) == B(m, a)
  {
  }

  lemma LoadBytes(m: Bytes, a: nat)
    requires BytesOk(m)
    ensures BytesOf(Load32(m, a), B(m, a), B(m, a + 1), B(m, a + 2), B(m, a + 3))
  {
  }

  /** Two loads shifted together hold the bytes from the first one's tail on. */
  lemma Shifted(m: Bytes, w: nat, x: nat, s: nat, c: nat)
    requires BytesOk(m) && 1 <= c <= 3 && s >= 4 - c && w == Load32(m, s - (4 - c)) && x == Load32(m, s + c)
    ensures BytesOf(Combine(w, x, c), B(m, s), B(m, s + 1), B(m, s + 2), B(m, s + 3))
  {
    hide Load32, B, Combine, BytesOf, BytesOk;
    LoadBytes(m, s - (4 - c));
    LoadBytes(m, s + c);
    if c == 1 {
      Together1(w, B(m, s - 3), B(m, s - 2), B(m, s - 1), B(m, s), x, B(m, s + 1), B(m, s + 2), B(m, s + 3), B(m, s + 4));
    } else if c == 2 {
      Together2(w, B(m, s - 2), B(m, s - 1), B(m, s), B(m, s + 1), x, B(m, s + 2), B(m, s + 3), B(m, s + 4), B(m, s + 5));
    } else {
      Together3(w, B(m, s - 1), B(m, s), B(m, s + 1), B(m, s + 2), x, B(m, s + 3), B(m, s + 4), B(m, s + 5), B(m, s + 6));
    }
  }

  lemma Together1(w: nat, a0: nat, a1: nat, a2: nat, a3: nat, x: nat, b0: nat, b1: nat, b2: nat, b3: nat)
    requires BytesOf(w, a0, a1, a2, a3) && BytesOf(x, b0, b1, b2, b3)
    ensures BytesOf(Combine(w, x, 1), a3, b0, b1, b2)
  {
    ShiftDown(w, a0, a1, a2, a3);
    ShiftUp(x, b0, b1, b2, b3);
  }

  lemma Together2(w: nat, a0: nat, a1: nat, a2: nat, a3: nat, x: nat, b0: nat, b1: nat, b2: nat, b3: nat)
    requires BytesOf(w, a0, a1, a2, a3) && BytesOf(x, b0, b1, b2, b3)
    ensures BytesOf(Combine(w, x, 2), a2, a3, b0, b1)
  {
    ShiftDown(w, a0, a1, a2, a3);
    ShiftUp(x, b0, b1, b2, b3);
  }

  lemma Together3(w: nat, a0: nat, a1: nat, a2: nat, a3: nat, x: nat, b0: nat, b1: nat, b2: nat, b3: nat)
    requires BytesOf(w, a0, a1, a2, a3) && BytesOf(x, b0, b1, b2, b3)
    ensures BytesOf(Combine(w, x, 3), a1, a2, a3, b0)
  {
    ShiftDown(w, a0, a1, a2, a3);
    ShiftUp(x, b0, b1, b2, b3);
  }

  lemma ShiftUp(x: nat, b0: nat, b1: nat, b2: nat, b3: nat)
    requires BytesOf(x, b0, b1, b2, b3)
    ensures x * 0x100 % 0x1_0000_0000 == 0x100 * b0 + 0x1_0000 * b1 + 0x100_0000 * b2
    ensures x * 0x1_0000 % 0x1_0000_0000 == 0x1_0000 * b0 + 0x100_0000 * b1
    ensures x * 0x100_0000 % 0x1_0000_0000 == 0x100_0000 * b0
  {
    Cut(x * 0x100, b3, 0x100 * b0 + 0x1_0000 * b1 + 0x100_0000 * b2);
    Cut(x * 0x1_0000, b2 + 0x100 * b3, 0x1_0000 * b0 + 0x100_0000 * b1);
    Cut(x * 0x100_0000, b1 + 0x100 * b2 + 0x1_0000 * b3, 0x100_0000 * b0);
  }

  lemma Cut(y: nat, q: nat, r: nat)
    requires y == 0x1_0000_0000 * q + r && r < 0x1_0000_0000
    ensures y % 0x1_0000_0000 == r
  {
  }

  /** A word may begin here. */
  predicate OnBorder(a: nat) { a % 4 == 0 }

  lemma PastBorder(a: nat)
    ensures !OnBorder(a) ==> 1 <= a % 4 <= 3
  {
  }

  class Ram {
    var mem: Bytes

    /** One step of the simple loop: `*d++ = *s++`, count times. */
    method CopyBytes(dest: nat, src: nat, k: nat, count: nat, ghost n: nat, ghost m0: Bytes)
      requires Copied(m0, mem, dest, src, k) && k + count <= n && Disjoint(dest, src, n) && BytesOk(m0) && BytesOk(mem)
      modifies this
      ensures Copied(m0, mem, dest, src, k + count) && BytesOk(mem)
    {
      hide Copied, BytesOk, B;
      var i := 0;
      while i < count
        invariant i <= count && Copied(m0, mem, dest, src, k + i) && BytesOk(mem)
      {
        OneByte(m0, mem, dest, src, k + i, n);
        mem := mem[dest + k + i := B(mem, src + k + i)];
        i := i + 1;
      }
    }

    /** `*(u32 *)d = *(u32 *)s`, aligned and inside both buffers. */
    method CopyWord(dest: nat, src: nat, k: nat, ghost n: nat, ghost m0: Bytes)
      requires Copied(m0, mem, dest, src, k) && k + 4 <= n && Disjoint(dest, src, n) && BytesOk(m0) && BytesOk(mem)
      requires OnBorder(dest + k) && OnBorder(src + k)
      modifies this
      ensures Copied(m0, mem, dest, src, k + 4) && BytesOk(mem) && OnBorder(dest + k + 4) && OnBorder(src + k + 4)
    {
      hide Copied, BytesOk, B, Load32, Store32;
      WordAhead(m0, mem, dest, src, k, n, src + k);
      LoadBytes(m0, src + k);
      OneWord(m0, mem, dest, src, k, n, Load32(mem, src + k));
      mem := Store32(mem, dest + k, Load32(mem, src + k));
    }

    /** The body of the loop over words: 16 bytes. */
    method CopyFourWords(dest: nat, src: nat, k: nat, ghost n: nat, ghost m0: Bytes)
      requires Copied(m0, mem, dest, src, k) && k + 16 <= n && Disjoint(dest, src, n) && BytesOk(m0) && BytesOk(mem)
      requires OnBorder(dest + k) && OnBorder(src + k)
      modifies this
      ensures Copied(m0, mem, dest, src, k + 16) && BytesOk(mem) && OnBorder(dest + k + 16) && OnBorder(src + k + 16)
    {
      hide Copied, BytesOk, B, Load32, OnBorder, Disjoint;
      CopyWord(dest, src, k, n, m0);
      CopyWord(dest, src, k + 4, n, m0);
      CopyWord(dest, src, k + 8, n, m0);
      CopyWord(dest, src, k + 12, n, m0);
    }

    /** An aligned load inside the source buffer. */
    method LoadSource(a: nat, ghost dest: nat, ghost src: nat, ghost k: nat, ghost n: nat, ghost m0: Bytes) returns (x: nat)
      requires Copied(m0, mem, dest, src, k) && k <= n && Disjoint(dest, src, n)
      requires a % 4 == 0 && src <= a && a + 4 <= src + n
      ensures x == Load32(m0, a)
    {
      WordAhead(m0, mem, dest, src, k, n, a);
      x := Load32(mem, a);
    }

    /** `*(u32 *)d = (w >> ..) | (x << ..)` with the word loaded before and a new one, which is
        returned for the next step. */
    method ShiftWord(dest: nat, src: nat, k: nat, c: nat, w: nat, ghost n: nat, ghost m0: Bytes) returns (x: nat)
      requires Copied(m0, mem, dest, src, k) && k + c + 4 <= n && Disjoint(dest, src, n) && BytesOk(m0) && BytesOk(mem)
      requires 1 <= c <= 3 && k >= 4 - c && w == Load32(m0, src + k - (4 - c)) && (dest + k) % 4 == 0 && (src + k + c) % 4 == 0
      modifies this
      ensures Copied(m0, mem, dest, src, k + 4) && BytesOk(mem) && x == Load32(m0, src + (k + 4) - (4 - c))
    {
      hide Copied, BytesOk, B, Load32, Store32, Combine;
      x := LoadSource(src + k + c, dest, src, k, n, m0);
      Shifted(m0, w, x, src + k, c);
      OneWord(m0, mem, dest, src, k, n, Combine(w, x, c));
      mem := Store32(mem, dest + k, Combine(w, x, c));
    }

    /** The body of the loop: 16 bytes. */
    method FourWords(dest: nat, src: nat, k: nat, c: nat, w0: nat, ghost n: nat, ghost m0: Bytes) returns (w: nat)
      requires Copied(m0, mem, dest, src, k) && k + 16 + c <= n && Disjoint(dest, src, n) && BytesOk(m0) && BytesOk(mem)
      requires 1 <= c <= 3 && k >= 4 - c && w0 == Load32(m0, src + k - (4 - c)) && (dest + k) % 4 == 0 && (src + k + c) % 4 == 0
      modifies this
      ensures Copied(m0, mem, dest, src, k + 16) && BytesOk(mem) && w == Load32(m0, src + (k + 16) - (4 - c))
    {
      hide Copied, BytesOk, B, Load32, Disjoint;
      var x := ShiftWord(dest, src, k, c, w0, n, m0);
      w := ShiftWord(dest, src, k + 4, c, x, n, m0);
      x := ShiftWord(dest, src, k + 8, c, w, n, m0);
      w := ShiftWord(dest, src, k + 12, c, x, n, m0);
    }

    /** The switch: `dest` is c past a word border, 1 to 3, and `src` is on one; 4 - c bytes bring
        `dest` to the next border.  The three cases differ only in c. */
    method ShiftedCopy(dest: nat, src: nat, k0: nat, c: nat, n: nat, ghost m0: Bytes) returns (k: nat)
      requires Copied(m0, mem, dest, src, k0) && k0 + 32 <= n && Disjoint(dest, src, n) && BytesOk(m0) && BytesOk(mem)
      requires 1 <= c <= 3 && (dest + k0) % 4 == c && OnBorder(src + k0)
      modifies this
      ensures Copied(m0, mem, dest, src, k) && BytesOk(mem) && k0 <= k <= n && n - k < 16 + c
    {
      hide Copied, BytesOk, B, Load32, Store32, Combine;
      k := k0;
      var w := LoadSource(src + k, dest, src, k, n, m0);
      CopyBytes(dest, src, k, 4 - c, n, m0);
      k := k + (4 - c);
      while n - k >= 16 + c
        invariant k0 + (4 - c) <= k <= n && Copied(m0, mem, dest, src, k) && BytesOk(mem)
        invariant (dest + k) % 4 == 0 && (src + k + c) % 4 == 0 && w == Load32(m0, src + k - (4 - c))
        decreases n - k
      {
        w := FourWords(dest, src, k, c, w, n, m0);
        k := k + 16;
      }
    }

    /** What is left after the word loop, both buffers on a word border: by the bits of the count. */
    method WordTail(dest: nat, src: nat, k0: nat, n: nat, ghost m0: Bytes)
      requires Copied(m0, mem, dest, src, k0) && k0 <= n < k0 + 16 && Disjoint(dest, src, n) && BytesOk(m0) && BytesOk(mem)
      requires OnBorder(dest + k0) && (k0 < n ==> OnBorder(src + k0))
      modifies this
      ensures Copied(m0, mem, dest, src, n) && BytesOk(mem)
    {
      hide Copied, BytesOk, B, Load32, Store32, OnBorder, Disjoint;
      var k, r := k0, n - k0;
      LowBits(r);
      if r / 8 % 2 == 1 {
        CopyWord(dest, src, k, n, m0);
        CopyWord(dest, src, k + 4, n, m0);
        k := k + 8;
      }
      if r / 4 % 2 == 1 {
        CopyWord(dest, src, k, n, m0);
        k := k + 4;
      }
      if r / 2 % 2 == 1 {
        CopyBytes(dest, src, k, 2, n, m0);
        k := k + 2;
      }
      if r % 2 == 1 {
        CopyBytes(dest, src, k, 1, n, m0);
        k := k + 1;
      }
    }

    /** What is left, fewer than 32 bytes, byte by byte by the bits of the count. */
    method ByteTail(dest: nat, src: nat, k0: nat, n: nat, ghost m0: Bytes)
      requires Copied(m0, mem, dest, src, k0) && k0 <= n < k0 + 32 && Disjoint(dest, src, n) && BytesOk(m0) && BytesOk(mem)
      modifies this
      ensures Copied(m0, mem, dest, src, n) && BytesOk(mem)
    {
      hide Copied, BytesOk, B;
      var k, r := k0, n - k0;
      LowBits(r);
      if r / 16 % 2 == 1 {
        CopyBytes(dest, src, k, 16, n, m0);
        k := k + 16;
      }
      if r / 8 % 2 == 1 {
        CopyBytes(dest, src, k, 8, n, m0);
        k := k + 8;
      }
      if r / 4 % 2 == 1 {
        CopyBytes(dest, src, k, 4, n, m0);
        k := k + 4;
      }
      if r / 2 % 2 == 1 {
        CopyBytes(dest, src, k, 2, n, m0);
        k := k + 2;
      }
      if r % 2 == 1 {
        CopyBytes(dest, src, k, 1, n, m0);
        k := k + 1;
      }
    }

    /** `mem_cpy` on buffers that do not overlap: exactly the byte-by-byte copy. */
    method MemCpy(dest: nat, src: nat, n: nat)
      requires Disjoint(dest, src, n) && BytesOk(mem)
      modifies this
      ensures Copied(old(mem), mem, dest, src, n) && BytesOk(mem)
    {
      hide Copied, BytesOk, B, Load32, Store32, OnBorder, Disjoint;
      ghost var m0 := mem;
      NothingCopied(m0, dest, src);
      var k := 0;
      while !OnBorder(src + k) && k < n
        invariant k <= n && Copied(m0, mem, dest, src, k) && BytesOk(mem)
        decreases n - k
      {
        CopyBytes(dest, src, k, 1, n, m0);
        k := k + 1;
      }
      if OnBorder(dest + k) {
        while n - k >= 16
          invariant k <= n && Copied(m0, mem, dest, src, k) && BytesOk(mem)
          invariant OnBorder(dest + k) && (k < n ==> OnBorder(src + k))
          decreases n - k
        {
          CopyFourWords(dest, src, k, n, m0);
          k := k + 16;
        }
        WordTail(dest, src, k, n, m0);
        return;
      }
      if n - k >= 32 {
        PastBorder(dest + k);
        k := ShiftedCopy(dest, src, k, (dest + k) % 4, n, m0);
      }
      ByteTail(dest, src, k, n, m0);
    }

    /** `mem_set`: the overlapping stores at both ends and the aligned middle fill the buffer. */
    method MemSet(dest: nat, c: nat, n: nat)
      modifies this
      ensures forall a: nat {:trigger B(mem, a)} :: B(mem, a) == if dest <= a < dest + n then c % 0x100 else old(B(mem, a))
    {
      var ch := c % 0x100;
      if n == 0 { return; }
      mem := mem[dest := ch][dest + n - 1 := ch];
      if n <= 2 { return; }
      mem := mem[dest + 1 := ch][dest + 2 := ch][dest + n - 2 := ch][dest + n - 3 := ch];
      if n <= 6 { return; }
      mem := mem[dest + 3 := ch][dest + n - 4 := ch];
      if n <= 8 { return; }
      var k := (4 - dest % 4) % 4;
      var s := dest + k;
      var m := (n - k) / 4 * 4;
      ghost var m1 := mem;
      assert forall a: nat | dest <= a < dest + 4 || dest + n - 4 <= a < dest + n :: B(m1, a) == ch;
      var i := 0;
      while i < m
        invariant i <= m
        invariant forall a: nat {:trigger B(mem, a)} :: B(mem, a) == if s <= a < s + i then ch else B(m1, a)
      {
        ghost var m2 := mem;
        mem := mem[s + i := ch];
        forall a: nat ensures B(mem, a) == if s <= a < s + i + 1 then ch else B(m1, a) {
          if a != s + i { assert B(mem, a) == B(m2, a); }
        }
        i := i + 1;
      }
    }
  }

  lemma NothingCopied(m: Bytes, dest: nat, src: nat)
    ensures Copied(m, m, dest, src, 0)
  {
  }

  lemma LowBits(r: nat)
    ensures r < 16 ==> r == 8 * (r / 8 % 2) + 4 * (r / 4 % 2) + 2 * (r / 2 % 2) + r % 2
    ensures r < 32 ==> r == 16 * (r / 16 % 2) + 8 * (r / 8 % 2) + 4 * (r / 4 % 2) + 2 * (r / 2 % 2) + r % 2
  {
    assert r / 4 == r / 2 / 2 && r / 8 == r / 4 / 2 && r / 16 == r / 8 / 2;
  }
}
