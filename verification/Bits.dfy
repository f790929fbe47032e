/** Single-bit reads and writes on words of any width; both bitmaps of the kernel use them. */
module Bits {

  function Pow2(n: nat): (r: nat)
    ensures r > 0
  {
    if n == 0 then 1 else 2 * Pow2(n - 1)
  }

  /** `w & (1 << j) != 0` */
  predicate Bit(w: nat, j: nat)
    decreases j
  {
    if j == 0 then w % 2 == 1 else Bit(w / 2, j - 1)
  }

  /** `w | (1 << j)` */
  function SetBit(w: nat, j: nat): nat
    decreases j
  {
    if j == 0 then w - w % 2 + 1 else w % 2 + 2 * SetBit(w / 2, j - 1)
  }

  /** `w & !(1 << j)` */
  function ClearBit(w: nat, j: nat): nat
    decreases j
  {
    if j == 0 then w - w % 2 else w % 2 + 2 * ClearBit(w / 2, j - 1)
  }

  /** Reading the two parts a word is built from. */
  lemma ConsReads(half: nat, low: nat, k: nat)
    requires low < 2
    ensures Bit(low + 2 * half, k) == if k == 0 then low == 1 else Bit(half, k - 1)
  {
    assert (low + 2 * half) / 2 == half && (low + 2 * half) % 2 == low;
  }

  lemma {:induction false} SetBitReads(w: nat, j: nat, k: nat)
    ensures Bit(SetBit(w, j), k) == (k == j || Bit(w, k))
    decreases j
  {
    ConsReads(w / 2, w % 2, k);
    if j == 0 {
      ConsReads(w / 2, 1, k);
    } else {
      ConsReads(SetBit(w / 2, j - 1), w % 2, k);
      if k != 0 { SetBitReads(w / 2, j - 1, k - 1); }
    }
  }

  lemma {:induction false} ClearBitReads(w: nat, j: nat, k: nat)
    ensures Bit(ClearBit(w, j), k) == (k != j && Bit(w, k))
    decreases j
  {
    ConsReads(w / 2, w % 2, k);
    if j == 0 {
      ConsReads(w / 2, 0, k);
    } else {
      ConsReads(ClearBit(w / 2, j - 1), w % 2, k);
      if k != 0 { ClearBitReads(w / 2, j - 1, k - 1); }
    }
  }

  lemma {:induction false} WritesStayInWidth(w: nat, j: nat, width: nat)
    requires w < Pow2(width) && j < width
    ensures SetBit(w, j) < Pow2(width) && ClearBit(w, j) < Pow2(width)
    decreases j
  {
    var half := Pow2(width - 1);
    assert w < 2 * half;
    if j != 0 {
      assert w / 2 < half;
      WritesStayInWidth(w / 2, j - 1, width - 1);
      assert SetBit(w, j) == w % 2 + 2 * SetBit(w / 2, j - 1);
      assert ClearBit(w, j) == w % 2 + 2 * ClearBit(w / 2, j - 1);
    }
  }

  lemma {:induction false} FullWordBits(width: nat, j: nat)
    requires j < width
    ensures Bit(Pow2(width) - 1, j)
    decreases width
  {
    var w := Pow2(width) - 1;
    assert w == 2 * Pow2(width - 1) - 1;
    if j == 0 {
      assert w % 2 == 1;
    } else {
      FullWordBits(width - 1, j - 1);
      assert w / 2 == Pow2(width - 1) - 1;
    }
  }

  ghost predicate AllSet(w: nat, width: nat) {
    forall j: nat | j < width :: Bit(w, j)
  }

  lemma {:induction false} AllBitsFullWord(w: nat, width: nat)
    requires w < Pow2(width) && AllSet(w, width)
    ensures w == Pow2(width) - 1
    decreases width
  {
    if width != 0 {
      forall j: nat | j < width - 1 ensures Bit(w / 2, j) {
        assert Bit(w, j + 1);
      }
      AllBitsFullWord(w / 2, width - 1);
      assert Bit(w, 0);
    }
  }

  /** The comparison with the all-ones word finds a clear bit exactly when there is one. */
  lemma AllOnesIffFull(w: nat, width: nat)
    requires w < Pow2(width)
    ensures w == Pow2(width) - 1 <==> AllSet(w, width)
  {
    if AllSet(w, width) {
      AllBitsFullWord(w, width);
    } else if w == Pow2(width) - 1 {
      forall j: nat | j < width ensures Bit(w, j) { FullWordBits(width, j); }
    }
  }

  lemma {:induction false} ZeroHasNoBits(j: nat)
    ensures !Bit(0, j)
    decreases j
  {
    if j != 0 { ZeroHasNoBits(j - 1); }
  }

  // ---------------------------------------------------------------- shifts and fields

  lemma SmallPowers()
    ensures Pow2(4) == 0x10 && Pow2(7) == 0x80
  {
  }

  lemma JoinPowers(a: nat, x: nat, b: nat, y: nat)
    requires Pow2(a) == x && Pow2(b) == y
    ensures Pow2(a + b) == x * y
  {
    Pow2Sum(a, b);
  }

  lemma {:induction false} Pow2Sum(a: nat, b: nat)
    ensures Pow2(a + b) == Pow2(a) * Pow2(b)
    decreases b
  {
    if b != 0 { Pow2Sum(a, b - 1); }
  }

  /** A word put together from a high and a low part has the bits of both. */
  lemma {:induction false} JoinedReads(high: nat, low: nat, n: nat, j: nat)
    requires low < Pow2(n)
    ensures Bit(high * Pow2(n) + low, j) == if j < n then Bit(low, j) else Bit(high, j - n)
    decreases n
  {
    if n != 0 {
      var p := Pow2(n - 1);
      var w := high * Pow2(n) + low;
      var half := high * p + low / 2;
      assert high * Pow2(n) == 2 * (high * p);
      assert w == low % 2 + 2 * half;
      ConsReads(half, low % 2, j);
      ConsReads(low / 2, low % 2, j);
      if j != 0 { JoinedReads(high, low / 2, n - 1, j - 1); }
    }
  }

  /** A word below 2^n has no bit at or above n. */
  lemma NoHighBits(w: nat, n: nat, j: nat)
    requires w < Pow2(n) && n <= j
    ensures !Bit(w, j)
  {
    JoinedReads(0, w, n, j);
    ZeroHasNoBits(j - n);
  }
}
