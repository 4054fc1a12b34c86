/** Machine words, pages, and what the kernel's mapping calls do to an address space. */
module Paging {
  function Pow2(k: nat): (r: nat)
    ensures r > 0
  {
    if k == 0 then 1 else 2 * Pow2(k - 1)
  }

  /** The bitwise conjunction of two words. */
  function And(a: nat, b: nat): (r: nat)
    ensures r <= a && r <= b
    decreases a
  {
    if a == 0 || b == 0 then 0
    else 2 * And(a / 2, b / 2) + if a % 2 == 1 && b % 2 == 1 then 1 else 0
  }

  const WORD_BITS := 64

  /** Subtraction of words wraps around. */
  function Minus(a: nat, b: nat): nat {
    (a - b) % Pow2(WORD_BITS)
  }

  lemma {:induction false} HalfOfMultiple(a: int, k: nat)
    requires k > 0
    ensures a % Pow2(k) == 2 * (a / 2 % Pow2(k - 1)) + a % 2
  {
    var p := Pow2(k - 1);
    var q, r := a / 2 / p, a / 2 % p;
    assert a == (2 * p) * q + (2 * r + a % 2);
    DivisionIsUnique(a, 2 * p, q, 2 * r + a % 2);
  }

  /** The low k bits. */
  function Low(x: int, k: nat): int {
    x % Pow2(k)
  }

  lemma LowHalves(x: int, k: nat)
    ensures Low(x, 0) == 0
    ensures k > 0 ==> Low(x, k) == 2 * Low(x / 2, k - 1) + x % 2
  {
    if k > 0 {
      HalfOfMultiple(x, k);
    }
  }

  lemma {:induction false} MulStep(d: nat, a: int, b: int)
    requires a < b
    ensures d * a + d <= d * b
    decreases b - a
  {
    assert d * (a + 1) == d * a + d;
    if a + 1 < b {
      MulStep(d, a + 1, b);
    }
  }

  lemma DivisionIsUnique(a: int, d: nat, q: int, r: int)
    requires d > 0 && a == d * q + r && 0 <= r < d
    ensures a / d == q && a % d == r
  {
    assert a == d * (a / d) + a % d;
    if q < a / d {
      MulStep(d, q, a / d);
    } else if a / d < q {
      MulStep(d, a / d, q);
    }
  }

  /** A word whose low k bits are zero has a predecessor whose low k bits are all one, so that masking
      with it keeps the low k bits; the predecessor of zero is the word of all ones. */
  lemma {:induction false} AndKeepsLowBits(x: nat, m: nat, k: nat)
    requires Low(m + 1, k) == 0 && And(x, m) == 0
    ensures Low(x, k) == 0
    decreases k
  {
    hide Pow2, Low, And;
    LowHalves(x, k);
    if k > 0 {
      LowHalves(m + 1, k);
      LowIsNatural((m + 1) / 2, k - 1);
      assert m % 2 == 1 && (m + 1) / 2 == m / 2 + 1;
      if x == 0 {
        LowOfZero(k);
      } else {
        AndUnfolds(x, m);
        AndKeepsLowBits(x / 2, m / 2, k - 1);
      }
    }
  }

  lemma LowIsNatural(x: int, k: nat)
    ensures Low(x, k) >= 0
  {
  }

  lemma LowOfZero(k: nat)
    ensures Low(0, k) == 0
  {
    DivisionIsUnique(0, Pow2(k), 0, 0);
  }

  lemma {:induction false} AndLowMask(x: nat, k: nat)
    ensures And(x, Pow2(k) - 1) == x % Pow2(k)
    decreases k
  {
    if k > 0 {
      HalfOfMultiple(x, k);
      AndLowMask(x / 2, k - 1);
      assert (Pow2(k) - 1) / 2 == Pow2(k - 1) - 1 && (Pow2(k) - 1) % 2 == 1;
    }
  }

  lemma {:induction false} Pow2Grows(n: nat, k: nat)
    requires k <= n
    ensures Pow2(k) <= Pow2(n)
  {
    if k < n {
      Pow2Grows(n - 1, k);
    }
  }

  lemma PowerIsBelow(j: nat, n: nat)
    requires j < n
    ensures Pow2(j) < Pow2(n) && Pow2(j) % Pow2(n) == Pow2(j)
  {
    Pow2Grows(n - 1, j);
    DivisionIsUnique(Pow2(j), Pow2(n), 0, Pow2(j));
  }

  lemma MinusIsWord(a: nat, b: nat)
    ensures Minus(a, b) % Pow2(WORD_BITS) == Minus(a, b)
  {
    var w := Pow2(WORD_BITS);
    hide Pow2;
    DivisionIsUnique(Minus(a, b), w, 0, Minus(a, b));
  }

  /** The n-bit word whose low k bits are clear. */
  function HighMask(n: nat, k: nat): nat
    requires k <= n
  {
    Pow2Grows(n, k);
    Pow2(n) - Pow2(k)
  }

  /** Clearing the low k bits of an n-bit word rounds it down to a multiple of 2^k. */
  lemma {:induction false} AndHighMask(x: nat, n: nat, k: nat)
    requires k <= n && x < Pow2(n)
    ensures And(x, HighMask(n, k)) == x - Low(x, k)
    decreases n
  {
    if x == 0 {
    } else if n == k {
      DivisionIsUnique(x, Pow2(k), 0, x);
    } else {
      hide *;
      var h := if k == 0 then 0 else k - 1;
      HalfIsBelow(x, n);
      HighMaskHalves(n, k);
      AndUnfolds(x, HighMask(n, k));
      AndHighMask(x / 2, n - 1, h);
      LowHalves(x, k);
      LowHalves(x / 2, h);
    }
  }

  lemma HalfIsBelow(x: nat, n: nat)
    requires n > 0 && x < Pow2(n)
    ensures x / 2 < Pow2(n - 1)
  {
  }

  lemma AndUnfolds(a: nat, b: nat)
    requires a > 0 && b > 0
    ensures And(a, b) == 2 * And(a / 2, b / 2) + if a % 2 == 1 && b % 2 == 1 then 1 else 0
  {
  }

  lemma HighMaskHalves(n: nat, k: nat)
    requires k < n
    ensures HighMask(n, k) / 2 == HighMask(n - 1, if k == 0 then 0 else k - 1) && HighMask(n, k) > 0
    ensures HighMask(n, k) % 2 == if k == 0 then 1 else 0
  {
    Pow2Grows(n - 1, k);
  }

  lemma {:induction false} Pow2Divides(n: nat, k: nat)
    requires k <= n
    ensures Low(Pow2(n), k) == 0
  {
    hide Low;
    LowHalves(Pow2(n), k);
    if k > 0 {
      assert Pow2(n) / 2 == Pow2(n - 1) && Pow2(n) % 2 == 0;
      Pow2Divides(n - 1, k - 1);
    }
  }

  // ---------- pages ----------

  /** PROT_READ, PROT_WRITE, PROT_EXEC. */
  datatype Prot = Prot(r: bool, w: bool, x: bool)

  const NO_ACCESS := Prot(false, false, false)
  const READ_WRITE := Prot(true, true, false)

  ghost predicate Aligned(a: int, page: nat)
    requires page > 0
  {
    a % page == 0
  }

  /** a & ~(page - 1), for a page size that is a power of two. */
  function RoundDown(a: int, page: nat): (r: int)
    requires page > 0
    ensures r <= a < r + page && Aligned(r, page)
  {
    RoundDownIs(a, page);
    a - a % page
  }

  /** (a + page - 1) & ~(page - 1). */
  function RoundUp(a: int, page: nat): (r: int)
    requires page > 0
    ensures a <= r < a + page && Aligned(r, page)
  {
    RoundDown(a + page - 1, page)
  }

  lemma RoundDownIs(a: int, page: nat)
    requires page > 0
    ensures 0 <= a % page < page && (a - a % page) % page == 0
  {
    assert a == page * (a / page) + a % page;
    DivisionIsUnique(a - a % page, page, a / page, 0);
  }

  lemma MaskIsRoundDown(a: nat, k: nat)
    requires k <= WORD_BITS && a < Pow2(WORD_BITS)
    ensures And(a, HighMask(WORD_BITS, k)) == RoundDown(a, Pow2(k))
  {
    AndHighMask(a, WORD_BITS, k);
  }

  lemma AlignedSum(a: int, b: int, page: nat)
    requires page > 0 && Aligned(a, page)
    ensures Aligned(b, page) <==> Aligned(a + b, page)
    ensures Aligned(b, page) <==> Aligned(b - a, page)
  {
    var q := a / page;
    assert a == page * q;
    assert b == page * (b / page) + b % page;
    assert page * (b / page + q) == page * (b / page) + page * q;
    assert page * (b / page - q) == page * (b / page) - page * q;
    DivisionIsUnique(a + b, page, b / page + q, b % page);
    DivisionIsUnique(b - a, page, b / page - q, b % page);
  }

  /** Distinct aligned addresses are at least a page apart. */
  lemma AlignedApart(a: int, b: int, page: nat)
    requires page > 0 && Aligned(a, page) && Aligned(b, page) && a < b
    ensures a + page <= b
  {
    AlignedSum(a, b, page);
    var d := b - a;
    assert d == page * (d / page);
    if d < page {
      DivisionIsUnique(d, page, 0, d);
    }
  }

  lemma RoundDownOf(a: int, r: int, page: nat)
    requires page > 0 && Aligned(r, page) && r <= a < r + page
    ensures RoundDown(a, page) == r
  {
    var s := RoundDown(a, page);
    if s < r {
      AlignedApart(s, r, page);
    } else if r < s {
      AlignedApart(r, s, page);
    }
  }

  lemma RoundsShift(a: int, d: int, page: nat)
    requires page > 0 && Aligned(d, page)
    ensures RoundDown(a + d, page) == RoundDown(a, page) + d
    ensures RoundUp(a + d, page) == RoundUp(a, page) + d
  {
    hide Aligned, RoundDown;
    AlignedSum(d, RoundDown(a, page), page);
    RoundDownOf(a + d, RoundDown(a, page) + d, page);
    AlignedSum(d, RoundUp(a, page), page);
    RoundDownOf(a + page - 1 + d, RoundUp(a, page) + d, page);
  }

  lemma RoundsMonotone(a: int, b: int, page: nat)
    requires page > 0 && a <= b
    ensures RoundDown(a, page) <= RoundDown(b, page) && RoundUp(a, page) <= RoundUp(b, page)
  {
    hide Aligned;
    if RoundDown(b, page) < RoundDown(a, page) {
      AlignedApart(RoundDown(b, page), RoundDown(a, page), page);
    }
    if RoundUp(b, page) < RoundUp(a, page) {
      AlignedApart(RoundUp(b, page), RoundUp(a, page), page);
    }
  }

  lemma RoundUpOfAligned(a: int, page: nat)
    requires page > 0 && Aligned(a, page)
    ensures RoundUp(a, page) == a && RoundDown(a, page) == a
  {
    RoundDownOf(a, a, page);
    RoundDownOf(a + page - 1, a, page);
  }

  /** The two checks on a load command, for any alignment that passes them (zero and values that are
      no power of two included), make address and offset congruent modulo the page size. */
  lemma ChecksForceCongruence(vaddr: nat, offset: nat, align: nat, k: nat)
    requires k <= WORD_BITS && align < Pow2(WORD_BITS)
    requires And(align, Pow2(k) - 1) == 0 && And(Minus(vaddr, offset), Minus(align, 1)) == 0
    ensures Aligned(vaddr - offset, Pow2(k))
  {
    hide And, Minus, Pow2;
    var m, x := Minus(align, 1), Minus(vaddr, offset);
    AndLowMask(align, k);
    PredecessorOf(align, k);
    AndKeepsLowBits(x, m, k);
    MinusIsCongruent(vaddr, offset, k);
  }

  lemma PredecessorOf(a: nat, k: nat)
    requires k <= WORD_BITS && a < Pow2(WORD_BITS) && Low(a, k) == 0
    ensures Low(Minus(a, 1) + 1, k) == 0
  {
    hide Low, Pow2, Minus;
    MinusOne(a);
    if a == 0 {
      Pow2Divides(WORD_BITS, k);
    }
  }

  lemma MinusOne(a: nat)
    requires a < Pow2(WORD_BITS)
    ensures Minus(a, 1) == if a == 0 then Pow2(WORD_BITS) - 1 else a - 1
  {
    var w := Pow2(WORD_BITS);
    hide Pow2;
    if a == 0 {
      DivisionIsUnique(-1, w, -1, w - 1);
    } else {
      DivisionIsUnique(a - 1, w, 0, a - 1);
    }
  }

  lemma MinusIsCongruent(a: nat, b: nat, k: nat)
    requires k <= WORD_BITS
    ensures Aligned(Minus(a, b), Pow2(k)) <==> Aligned(a - b, Pow2(k))
  {
    hide Pow2, Aligned;
    var w := Pow2(WORD_BITS);
    DivMod(a - b, w);
    Pow2Aligned(k);
    MultiplesAdd(w, (a - b) / w, Pow2(k));
    hide Minus;
    AlignedSum(w * ((a - b) / w), Minus(a, b), Pow2(k));
  }

  lemma Pow2Aligned(k: nat)
    requires k <= WORD_BITS
    ensures Aligned(Pow2(WORD_BITS), Pow2(k))
  {
    Pow2Divides(WORD_BITS, k);
  }

  lemma DivMod(a: int, w: nat)
    requires w > 0
    ensures a == w * (a / w) + a % w
  {
  }

  lemma MultiplesAdd(w: int, t: int, page: nat)
    requires page > 0 && Aligned(w, page)
    ensures Aligned(w * t, page)
  {
    assert w == page * (w / page);
    assert w * t == page * (w / page * t);
    DivisionIsUnique(w * t, page, w / page * t, 0);
  }
}
