/** Unsigned 64-bit words, and their bits. */
module Words {

  const WORD := 0x1_0000_0000_0000_0000

  type Word = w: nat | w < WORD witness 0

  function Power(n: nat): (p: nat)
    ensures p > 0
  {
    if n == 0 then 1 else 2 * Power(n - 1)
  }

  lemma {:induction false} PowerSum(m: nat, n: nat)
    ensures Power(m + n) == Power(m) * Power(n)
  {
    if n > 0 {
      PowerSum(m, n - 1);
    }
  }

  lemma WordPower()
    ensures Power(64) == WORD
  {
    PowerSum(2, 2);
    PowerSum(4, 4);
    PowerSum(8, 8);
    PowerSum(16, 16);
    PowerSum(32, 32);
  }

  /** `x & (1 << i)` is not zero. */
  predicate BitOf(x: nat, i: nat) {
    if i == 0 then x % 2 == 1 else BitOf(x / 2, i - 1)
  }

  /** `x | (1 << i)` */
  function Or(x: nat, i: nat): nat {
    if i == 0 then (if x % 2 == 1 then x else x + 1)
    else 2 * Or(x / 2, i - 1) + x % 2
  }

  lemma {:induction false} OrBelow(x: nat, i: nat, n: nat)
    requires x < Power(n) && i < n
    ensures Or(x, i) < Power(n)
  {
    if i > 0 {
      assert x / 2 < Power(n - 1);
      OrBelow(x / 2, i - 1, n - 1);
      assert 2 * Or(x / 2, i - 1) + x % 2 < 2 * Power(n - 1);
    }
  }

  lemma {:induction false} BitOfOr(x: nat, i: nat, j: nat)
    ensures BitOf(Or(x, i), j) <==> BitOf(x, j) || j == i
  {
    if i > 0 && j > 0 {
      BitOfOr(x / 2, i - 1, j - 1);
      assert Or(x, i) / 2 == Or(x / 2, i - 1);
    } else if j > 0 {
      assert Or(x, i) / 2 == x / 2;
    }
  }

  lemma {:induction false} BitOfZero(j: nat)
    ensures !BitOf(0, j)
  {
    if j > 0 { BitOfZero(j - 1); }
  }

  lemma {:induction false} SameBitsBelow(x: nat, y: nat, n: nat)
    requires x < Power(n) && y < Power(n) && forall i :: 0 <= i < n ==> BitOf(x, i) == BitOf(y, i)
    ensures x == y
  {
    if n > 0 {
      forall i | 0 <= i < n - 1 ensures BitOf(x / 2, i) == BitOf(y / 2, i) {
        assert BitOf(x, i + 1) == BitOf(y, i + 1);
      }
      SameBitsBelow(x / 2, y / 2, n - 1);
      assert BitOf(x, 0) == BitOf(y, 0);
    }
  }

  lemma QuotientUnique(x: nat, d: nat, q: nat, r: nat)
    requires d > 0 && x == q * d + r && r < d
    ensures x / d == q
  {
    var p := x / d;
    assert x == p * d + x % d;
    if p < q { SmallerProduct(p, q, d); } else if q < p { SmallerProduct(q, p, d); }
  }

  lemma {:induction false} SmallerProduct(p: nat, q: nat, d: nat)
    requires p < q
    ensures p * d + d <= q * d
    decreases q - p
  {
    if p + 1 < q {
      SmallerProduct(p + 1, q, d);
    }
    assert (p + 1) * d == p * d + d;
  }

  lemma HalfThenDivide(x: nat, d: nat)
    requires d > 0
    ensures x / 2 / d == x / (2 * d)
  {
    var h, q, r := x / 2, x / 2 / d, x / 2 % d;
    assert h == q * d + r;
    assert q * (2 * d) == 2 * (q * d);
    QuotientUnique(x, 2 * d, q, 2 * r + x % 2);
  }

  /** The bit is that of the binary notation, of weight two to the `i`. */
  lemma {:induction false} BitWeight(x: nat, i: nat)
    ensures BitOf(x, i) <==> x / Power(i) % 2 == 1
  {
    if i > 0 {
      BitWeight(x / 2, i - 1);
      HalfThenDivide(x, Power(i - 1));
    }
  }

  /** Setting a bit that is not set adds its weight. */
  lemma {:induction false} OrAdds(x: nat, i: nat)
    ensures Or(x, i) == if BitOf(x, i) then x else x + Power(i)
  {
    if i > 0 { OrAdds(x / 2, i - 1); }
  }

  predicate Bit(x: Word, i: nat)
    requires i < 64
  {
    BitOf(x, i)
  }

  function SetBit(x: Word, i: nat): (r: Word)
    requires i < 64
  {
    WordPower();
    OrBelow(x, i, 64);
    Or(x, i)
  }

  lemma BitOfSet(x: Word, i: nat, j: nat)
    requires i < 64 && j < 64
    ensures Bit(SetBit(x, i), j) <==> Bit(x, j) || j == i
  {
    BitOfOr(x, i, j);
  }

  /** Words with the same bits are the same. */
  lemma SameBits(x: Word, y: Word)
    requires forall i :: 0 <= i < 64 ==> Bit(x, i) == Bit(y, i)
    ensures x == y
  {
    WordPower();
    forall i | 0 <= i < 64 ensures BitOf(x, i) == BitOf(y, i) { assert Bit(x, i) == Bit(y, i); }
    SameBitsBelow(x, y, 64);
  }
}
