/** 32-bit machine words: wrap-around, and the C operators `|`, `&`, `~`, `<<` on
    numbers. Every shift and mask the kernel uses is reduced here, once, to division,
    remainder and addition. */
module Words {

  type Word = x: int | 0 <= x < 0x1_0000_0000

  /** Unsigned 32-bit arithmetic keeps the low 32 bits of the exact result. */
  function Wrap(x: int): Word {
    x % 0x1_0000_0000
  }

  function Pow2(k: nat): (p: nat)
    ensures p > 0
  {
    if k == 0 then 1 else 2 * Pow2(k - 1)
  }

  predicate Bit(w: nat, k: nat) {
    if k == 0 then w % 2 == 1 else Bit(w / 2, k - 1)
  }

  function BitAnd(a: nat, b: nat): (r: nat)
    ensures r <= a
  {
    if a == 0 || b == 0 then 0
    else (if a % 2 == 1 && b % 2 == 1 then 1 else 0) + 2 * BitAnd(a / 2, b / 2)
  }

  function BitOr(a: nat, b: nat): nat {
    if a == 0 then b
    else if b == 0 then a
    else (if a % 2 == 1 || b % 2 == 1 then 1 else 0) + 2 * BitOr(a / 2, b / 2)
  }

  /** `~w` on 32 bits. */
  function BitNot(w: Word): Word {
    0xFFFF_FFFF - w
  }

  // ----- single bits

  lemma {:induction false} ZeroHasNoBits(k: nat)
    ensures !Bit(0, k)
  {
    if k > 0 { ZeroHasNoBits(k - 1); }
  }

  lemma {:induction false} BitOfAnd(a: nat, b: nat, k: nat)
    ensures Bit(BitAnd(a, b), k) == (Bit(a, k) && Bit(b, k))
  {
    if a == 0 || b == 0 {
      ZeroHasNoBits(k);
    } else if k > 0 {
      BitOfAnd(a / 2, b / 2, k - 1);
    }
  }

  lemma {:induction false} BitOfOr(a: nat, b: nat, k: nat)
    ensures Bit(BitOr(a, b), k) == (Bit(a, k) || Bit(b, k))
  {
    if a == 0 || b == 0 {
      ZeroHasNoBits(k);
    } else if k > 0 {
      BitOfOr(a / 2, b / 2, k - 1);
    }
  }

  lemma {:induction false} BitOfPow2(k: nat, j: nat)
    ensures Bit(Pow2(k), j) == (j == k)
  {
    if k == 0 {
      if j > 0 { ZeroHasNoBits(j - 1); }
    } else if j > 0 {
      BitOfPow2(k - 1, j - 1);
    }
  }

  lemma {:induction false} BitOfComplement(w: nat, n: nat, k: nat)
    requires w < Pow2(n) && k < n
    ensures Bit(Pow2(n) - 1 - w, k) == !Bit(w, k)
  {
    if k > 0 {
      BitOfComplement(w / 2, n - 1, k - 1);
      assert (Pow2(n) - 1 - w) / 2 == Pow2(n - 1) - 1 - w / 2;
    }
  }

  lemma Pow2Values()
    ensures Pow2(10) == 0x400 && Pow2(12) == 0x1000 && Pow2(20) == 0x10_0000
    ensures Pow2(22) == 0x40_0000 && Pow2(32) == 0x1_0000_0000
  {
    assert Pow2(5) == 32;
    assert Pow2(10) == 0x400;
    assert Pow2(15) == 0x8000;
    assert Pow2(20) == 0x10_0000;
    assert Pow2(25) == 0x200_0000;
    assert Pow2(30) == 0x4000_0000;
  }

  lemma BitOfNot(w: Word, k: nat)
    requires k < 32
    ensures Bit(BitNot(w), k) == !Bit(w, k)
  {
    Pow2Values();
    BitOfComplement(w, 32, k);
  }

  lemma {:induction false} NonzeroHasABit(w: nat) returns (k: nat)
    requires w > 0
    ensures Bit(w, k)
  {
    if w % 2 == 1 {
      k := 0;
    } else {
      k := NonzeroHasABit(w / 2);
      k := k + 1;
    }
  }

  lemma {:induction false} Pow2Below(k: nat, n: nat)
    requires k < n
    ensures Pow2(k) < Pow2(n)
  {
    if k > 0 { Pow2Below(k - 1, n - 1); }
  }

  lemma {:induction false} OrBelow(a: nat, b: nat, n: nat)
    requires a < Pow2(n) && b < Pow2(n)
    ensures BitOr(a, b) < Pow2(n)
  {
    if a != 0 && b != 0 {
      OrBelow(a / 2, b / 2, n - 1);
    }
  }

  /** `w & (1 << k)` is non-zero exactly when bit k of w is set. */
  lemma TestMask(w: nat, k: nat)
    ensures BitAnd(w, Pow2(k)) != 0 <==> Bit(w, k)
  {
    BitOfAnd(w, Pow2(k), k);
    BitOfPow2(k, k);
    if BitAnd(w, Pow2(k)) != 0 {
      var j := NonzeroHasABit(BitAnd(w, Pow2(k)));
      BitOfAnd(w, Pow2(k), j);
      BitOfPow2(k, j);
    } else {
      ZeroHasNoBits(k);
    }
  }

  /** `w | (1 << k)` sets bit k and keeps the rest; the result is again a word. */
  lemma SetMask(w: Word, k: nat)
    requires k < 32
    ensures BitOr(w, Pow2(k)) < 0x1_0000_0000
    ensures forall j: nat :: Bit(BitOr(w, Pow2(k)), j) == (j == k || Bit(w, j))
  {
    Pow2Values();
    Pow2Below(k, 32);
    OrBelow(w, Pow2(k), 32);
    forall j: nat ensures Bit(BitOr(w, Pow2(k)), j) == (j == k || Bit(w, j)) {
      BitOfOr(w, Pow2(k), j);
      BitOfPow2(k, j);
    }
  }

  /** `w & ~(1 << k)` clears bit k and keeps the rest. */
  lemma ClearMask(w: Word, k: nat)
    requires k < 32
    ensures Pow2(k) < 0x1_0000_0000
    ensures forall j: nat | j < 32 ::
              Bit(BitAnd(w, BitNot(Pow2(k))), j) == (j != k && Bit(w, j))
  {
    Pow2Values();
    Pow2Below(k, 32);
    forall j: nat | j < 32
      ensures Bit(BitAnd(w, BitNot(Pow2(k))), j) == (j != k && Bit(w, j))
    {
      BitOfAnd(w, BitNot(Pow2(k)), j);
      BitOfNot(Pow2(k), j);
      BitOfPow2(k, j);
    }
  }

  // ----- fields

  /** `(a << k) | f` is a sum when f fits below bit k. */
  lemma {:induction false} OrOfFields(a: nat, f: nat, k: nat)
    requires f < Pow2(k)
    ensures BitOr(a * Pow2(k), f) == a * Pow2(k) + f
  {
    hide BitOr;
    if k == 0 {
      OrZero(a * Pow2(k));
    } else {
      var p := Pow2(k - 1);
      MulDouble(a, p);
      OrOfFields(a, f / 2, k - 1);
      OrDouble(a * p, f);
    }
  }

  lemma OrZero(a: nat)
    ensures BitOr(a, 0) == a
  {
  }

  lemma OrDouble(h: nat, f: nat)
    ensures BitOr(2 * h, f) == f % 2 + 2 * BitOr(h, f / 2)
  {
  }

  lemma MulDouble(a: nat, p: nat)
    ensures a * (2 * p) == 2 * (a * p) && a * p >= 0
  {
  }

  /** `w & (2^k - 1)` is the remainder modulo 2^k. */
  lemma {:induction false} AndLowMask(w: nat, k: nat)
    ensures BitAnd(w, Pow2(k) - 1) == w % Pow2(k)
  {
    hide BitAnd;
    if k == 0 {
      AndZero(w);
    } else {
      AndLowMask(w / 2, k - 1);
      HalveModulus(w, Pow2(k - 1));
      AndStep(w, Pow2(k) - 1);
      OddHalf(Pow2(k - 1));
    }
  }

  lemma AndZero(w: nat)
    ensures BitAnd(w, 0) == 0 && w % 1 == 0
  {
  }

  lemma OddHalf(p: nat)
    requires p > 0
    ensures (2 * p - 1) / 2 == p - 1 && (2 * p - 1) % 2 == 1
  {
  }

  lemma HalveModulus(w: nat, p: nat)
    requires p > 0
    ensures w % (2 * p) == w % 2 + 2 * ((w / 2) % p)
  {
    var q, r := (w / 2) / p, (w / 2) % p;
    assert w / 2 == q * p + r;
    assert w == (2 * p) * q + (2 * r + w % 2);
    EuclidUnique(w, 2 * p, q, 2 * r + w % 2);
  }

  lemma EuclidUnique(x: int, d: int, q: int, r: int)
    requires d > 0 && x == d * q + r && 0 <= r < d
    ensures x / d == q && x % d == r
  {
    var q', r' := x / d, x % d;
    assert x == d * q' + r';
    assert d * (q - q') == r' - r;
    if q > q' {
      assert d * (q - q') >= d by { MulAtLeast(d, q - q'); }
    } else if q < q' {
      assert d * (q' - q) >= d by { MulAtLeast(d, q' - q); }
    }
  }

  lemma MulAtLeast(d: int, k: int)
    requires d > 0 && k >= 1
    ensures d * k >= d
  {
  }

  /** Masking with `~(2^k - 1)` clears the low field. */
  lemma AndHighMask(w: Word, k: nat)
    requires k <= 32
    ensures 0 <= Pow2(k) - 1 < 0x1_0000_0000
    ensures BitAnd(w, BitNot(Pow2(k) - 1)) == w - w % Pow2(k)
  {
    hide Pow2, BitAnd;
    MaskIsWord(k);
    Pow2Values();
    AndLowMask(w, k);
    AndSplits(w, Pow2(k) - 1, 32);
  }

  lemma MaskIsWord(k: nat)
    requires k <= 32
    ensures 0 <= Pow2(k) - 1 < 0x1_0000_0000
  {
    Pow2Values();
    if k < 32 { Pow2Below(k, 32); }
  }

  lemma {:induction false} AndSplits(w: nat, m: nat, n: nat)
    requires w < Pow2(n) && m < Pow2(n)
    ensures BitAnd(w, m) + BitAnd(w, Pow2(n) - 1 - m) == w
  {
    hide BitAnd;
    var c := Pow2(n) - 1 - m;
    if n == 0 {
      AndZero(0);
    } else {
      ComplementHalf(Pow2(n - 1), m);
      AndSplits(w / 2, m / 2, n - 1);
      AndStep(w, m);
      AndStep(w, c);
    }
  }

  lemma ComplementHalf(p: nat, m: nat)
    requires m < 2 * p
    ensures var c := 2 * p - 1 - m;
            c / 2 == p - 1 - m / 2 && c % 2 == 1 - m % 2 && m / 2 < p
  {
  }

  lemma AndStep(a: nat, b: nat)
    ensures BitAnd(a, b) == (if a % 2 == 1 && b % 2 == 1 then 1 else 0) + 2 * BitAnd(a / 2, b / 2)
  {
  }
}
