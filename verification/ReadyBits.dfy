/** The bitmap of ready priorities (task.c, RdyTaskPriInfo): single bits, bytes and nibbles of a
    32-bit word. */
module ReadyBits {
  function And(v: bv32, w: bv32): bv32 { v & w }

  function Or(v: bv32, w: bv32): bv32 { v | w }

  function Without(v: bv32, w: bv32): bv32 { v & !w }

  /** A shift amount. */
  function Amount(k: nat): (a: bv6)
    requires k < 32
    ensures a < 32
  {
    assert (k as bv6) as nat == k;
    k as bv6
  }

  lemma AmountsDiffer(k: nat, m: nat)
    requires k < 32 && m < 32 && k != m
    ensures Amount(k) != Amount(m)
  {
    assert Amount(k) as nat == k;
    assert Amount(m) as nat == m;
  }

  function Shifted(ones: bv32, k: nat): bv32
    requires k < 32
  {
    ones << Amount(k)
  }

  function Mask(k: nat): bv32
    requires k < 32
  {
    Shifted(1, k)
  }

  predicate BitOf(w: bv32, k: nat)
    requires k < 32
  {
    And(w, Mask(k)) != 0
  }

  lemma ShiftedOnes(a: bv6, b: bv6)
    requires a < 32 && b < 32
    ensures (1 as bv32) << a != 0
    ensures a != b ==> ((1 as bv32) << a) & ((1 as bv32) << b) == 0
  {
  }

  lemma MasksApart(k: nat, m: nat)
    requires k < 32 && m < 32
    ensures Mask(k) != 0 && (k != m ==> And(Mask(k), Mask(m)) == 0)
  {
    ShiftedOnes(Amount(k), Amount(m));
    if k != m {
      AmountsDiffer(k, m);
    }
  }

  lemma OrOutside(w: bv32, m: bv32, n: bv32)
    requires m & n == 0
    ensures (w | m) & n == w & n
  {
  }

  lemma WithoutOutside(w: bv32, m: bv32, n: bv32)
    requires m & n == 0
    ensures (w & !m) & n == w & n
  {
  }

  lemma OtherBits(w: bv32, m: bv32, n: bv32)
    requires And(m, n) == 0
    ensures And(Or(w, m), n) == And(w, n)
    ensures And(Without(w, m), n) == And(w, n)
  {
    OrOutside(w, m, n);
    WithoutOutside(w, m, n);
  }

  lemma SameBits(w: bv32, m: bv32)
    requires m != 0
    ensures And(Or(w, m), m) != 0
    ensures And(Without(w, m), m) == 0
  {
  }

  /** Setting and clearing one bit. */
  lemma BitChange(w: bv32, k: nat, m: nat)
    requires k < 32 && m < 32
    ensures BitOf(Or(w, Mask(k)), m) == (k == m || BitOf(w, m))
    ensures BitOf(Without(w, Mask(k)), m) == (k != m && BitOf(w, m))
  {
    hide Mask, And, Or, Without;
    MasksApart(k, m);
    if k == m {
      SameBits(w, Mask(k));
    } else {
      OtherBits(w, Mask(k), Mask(m));
    }
  }

  lemma ZeroWord(k: nat)
    requires k < 32
    ensures !BitOf(0, k)
  {
    AndZero(Mask(k));
    hide Mask, And;
  }

  lemma AndZero(m: bv32)
    ensures And(0, m) == 0
  {
  }

  lemma OneBit(v: bv32, a: bv6)
    requires a < 32
    ensures v & ((1 as bv32) << a) == 0 || v & ((1 as bv32) << a) == (1 as bv32) << a
  {
  }

  lemma MaskIsOneBit(v: bv32, k: nat)
    requires k < 32
    ensures And(v, Mask(k)) == 0 || And(v, Mask(k)) == Mask(k)
  {
    OneBit(v, Amount(k));
  }

  lemma AndAnd(v: bv32, w: bv32, m: bv32)
    ensures And(And(v, w), m) == And(And(v, m), And(w, m))
  {
  }

  lemma AndWithin(w: bv32, m: bv32)
    ensures And(m, And(w, m)) == And(w, m)
  {
  }

  lemma AndBits(v: bv32, w: bv32, m: bv32)
    requires m != 0 && (And(v, m) == 0 || And(v, m) == m)
    ensures And(And(v, w), m) != 0 <==> And(v, m) != 0 && And(w, m) != 0
  {
    hide And;
    AndAnd(v, w, m);
    AndWithin(w, m);
    AndZero(And(w, m));
  }

  lemma BitAnd(v: bv32, w: bv32, k: nat)
    requires k < 32
    ensures BitOf(And(v, w), k) == (BitOf(v, k) && BitOf(w, k))
  {
    hide Mask, And;
    MaskIsOneBit(v, k);
    MasksApart(k, k);
    AndBits(v, w, Mask(k));
  }

  predicate ByteZero(w: bv32, num: nat)
    requires num < 4
  {
    And(w, Shifted(0xFF, num * 8)) == 0
  }

  predicate HighNibbleZero(w: bv32, num: nat)
    requires num < 4
  {
    And(w, Shifted(0xF0, num * 8)) == 0
  }

  /** Where a byte or a high nibble of a word is zero, so are its bits. */
  lemma ByteBits(w: bv32, n: bv6, a: bv6)
    requires n < 4 && n * 8 <= a < n * 8 + 8
    ensures w & (0xFF << (n * 8)) == 0 ==> w & (1 << a) == 0
    ensures a >= n * 8 + 4 && w & (0xF0 << (n * 8)) == 0 ==> w & (1 << a) == 0
  {
  }

  lemma AmountOrder(num: nat, k: nat)
    requires num < 4 && num * 8 <= k < num * 8 + 8
    ensures Amount(num) < 4 && Amount(num * 8) == Amount(num) * 8
    ensures Amount(num) * 8 <= Amount(k) < Amount(num) * 8 + 8
    ensures k >= num * 8 + 4 ==> Amount(k) >= Amount(num) * 8 + 4
  {
    assert Amount(num) as nat == num && Amount(k) as nat == k && Amount(num * 8) as nat == num * 8;
  }

  lemma ShiftedBits(w: bv32, num: nat, k: nat)
    requires num < 4 && num * 8 <= k < num * 8 + 8
    ensures And(w, Shifted(0xFF, num * 8)) == 0 ==> And(w, Shifted(1, k)) == 0
    ensures k >= num * 8 + 4 && And(w, Shifted(0xF0, num * 8)) == 0 ==> And(w, Shifted(1, k)) == 0
  {
    AmountOrder(num, k);
    var n, a, b := Amount(num), Amount(k), Amount(num * 8);
    ByteBits(w, n, a);
    hide Amount;
    assert Shifted(1, k) == 1 << a && Shifted(0xFF, num * 8) == 0xFF << b && Shifted(0xF0, num * 8) == 0xF0 << b;
  }

  lemma ZeroByteHasNoBit(w: bv32, num: nat, k: nat)
    requires num < 4 && num * 8 <= k < num * 8 + 8
    ensures ByteZero(w, num) ==> !BitOf(w, k)
    ensures k >= num * 8 + 4 && HighNibbleZero(w, num) ==> !BitOf(w, k)
  {
    ShiftedBits(w, num, k);
    hide And, Shifted;
  }
}
