/** 32-bit words seen as 32 numbered bits, and the arithmetic of the C
    expressions that read and write one bit of a word. */
module Words {

  const WORD_MODULUS: nat := 0x1_0000_0000

  /** An unsigned machine word (`unsigned int`, `vm_offset_t`, `vm_size_t`). */
  type Word = w: nat | w < WORD_MODULUS

  function Pow2(n: nat): (r: nat)
    ensures r > 0
  {
    if n == 0 then 1 else 2 * Pow2(n - 1)
  }

  lemma TimesKeepsOrder(a: nat, b: nat, n: nat)
    requires a <= b
    ensures a * n <= b * n
  {
    assert b * n == a * n + (b - a) * n;
  }

  /** Only one multiple of n is the last up to x. */
  lemma OneQuotient(x: nat, n: nat, a: nat, b: nat)
    requires a * n <= x < (a + 1) * n && b * n <= x < (b + 1) * n
    ensures a == b
  {
    if a < b { TimesKeepsOrder(a + 1, b, n); }
    if b < a { TimesKeepsOrder(b + 1, a, n); }
  }

  /** Bit number b of w, the least significant bit being number 0. */
  predicate Bit(w: nat, b: nat) {
    if b == 0 then w % 2 == 1 else Bit(w / 2, b - 1)
  }

  function Join(high: nat, low: nat): (w: nat)
    requires low < 2
    ensures w / 2 == high && w % 2 == low
  {
    2 * high + low
  }

  /** `w | (1 << b)` */
  function SetBit(w: nat, b: nat): nat {
    if b == 0 then Join(w / 2, 1) else Join(SetBit(w / 2, b - 1), w % 2)
  }

  /** `w & ~(1 << b)` */
  function ClearBit(w: nat, b: nat): nat {
    if b == 0 then Join(w / 2, 0) else Join(ClearBit(w / 2, b - 1), w % 2)
  }

  lemma {:induction false} SetBitMeaning(w: nat, b: nat, c: nat)
    ensures Bit(SetBit(w, b), c) <==> c == b || Bit(w, c)
  {
    if b > 0 && c > 0 {
      SetBitMeaning(w / 2, b - 1, c - 1);
    }
  }

  lemma {:induction false} ClearBitMeaning(w: nat, b: nat, c: nat)
    ensures Bit(ClearBit(w, b), c) <==> c != b && Bit(w, c)
  {
    if b > 0 && c > 0 {
      ClearBitMeaning(w / 2, b - 1, c - 1);
    }
  }

  lemma JoinFits(high: nat, low: nat, n: nat)
    requires n > 0 && low < 2 && high < Pow2(n - 1)
    ensures Join(high, low) < Pow2(n)
  {}

  lemma {:induction false} SetBitFits(w: nat, b: nat, n: nat)
    requires w < Pow2(n) && b < n
    ensures SetBit(w, b) < Pow2(n)
  {
    assert w / 2 < Pow2(n - 1);
    if b == 0 {
      JoinFits(w / 2, 1, n);
    } else {
      SetBitFits(w / 2, b - 1, n - 1);
      JoinFits(SetBit(w / 2, b - 1), w % 2, n);
    }
  }

  lemma {:induction false} ClearBitFits(w: nat, b: nat)
    ensures ClearBit(w, b) <= w
  {
    if b > 0 {
      ClearBitFits(w / 2, b - 1);
    }
  }

  /** The word of all ones is the only word with no clear bit. */
  lemma {:induction false} FullWord(w: nat, n: nat)
    requires w < Pow2(n)
    ensures w == Pow2(n) - 1 ==> forall b: nat :: b < n ==> Bit(w, b)
    ensures w != Pow2(n) - 1 ==> exists b: nat :: b < n && !Bit(w, b)
  {
    if n > 0 {
      FullWord(w / 2, n - 1);
      if w == Pow2(n) - 1 {
        assert w / 2 == Pow2(n - 1) - 1;
        forall b: nat | b < n ensures Bit(w, b) {
          if b > 0 { assert Bit(w / 2, b - 1); }
        }
      } else if w / 2 == Pow2(n - 1) - 1 {
        assert !Bit(w, 0);
      } else {
        var b: nat :| b < n - 1 && !Bit(w / 2, b);
        assert !Bit(w, b + 1);
      }
    }
  }

  lemma {:induction false} ZeroWord(b: nat)
    ensures !Bit(0, b)
  {
    if b > 0 { ZeroWord(b - 1); }
  }

  lemma Pow2Of32()
    ensures Pow2(32) == WORD_MODULUS
  {
    assert Pow2(8) == 256;
    assert Pow2(16) == 65536;
    assert Pow2(24) == 0x100_0000;
  }
}
