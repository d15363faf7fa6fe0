/** Choosing the table size: the next power of two, computed by clearing low bits of a word. */
module Sizing {
  import opened Bits

  const HIGHEST: nat := 0x8000_0000_0000_0000

  /** The largest power of two that is at most x. */
  function TopBit(x: nat): (t: nat)
    requires x > 0
    ensures t <= x < 2 * t
  {
    if x == 1 then 1 else 2 * TopBit(x / 2)
  }

  lemma {:induction false} TopBitIsPow2(x: nat)
    requires x > 0
    ensures IsPow2(TopBit(x))
  {
    if x == 1 {
      assert 1 == Pow2(0);
    } else {
      TopBitIsPow2(x / 2);
      var k: nat :| TopBit(x / 2) == Pow2(k);
      assert TopBit(x) == Pow2(k + 1);
    }
  }

  lemma {:induction false} AndSelf(x: nat)
    ensures BitAnd(x, x) == x
  {
    if x > 0 { AndSelf(x / 2); }
  }

  lemma TopBitOfDouble(x: nat)
    requires x > 0
    ensures TopBit(2 * x) == 2 * TopBit(x)
  {
    assert 2 * x / 2 == x;
  }

  /** x & (x - 1) clears one set bit and keeps the top one, unless that was the only one. */
  lemma {:induction false} ClearLowest(x: nat)
    requires x > 0
    ensures var y := BitAnd(x, x - 1);
            y < x && if y == 0 then x == TopBit(x) else TopBit(y) == TopBit(x)
  {
    var h := x / 2;
    if x == 1 {
    } else if x % 2 == 1 {
      assert (x - 1) / 2 == h;
      AndSelf(h);
      assert BitAnd(x, x - 1) == 2 * h;
    } else {
      assert (x - 1) / 2 == h - 1;
      ClearLowest(h);
      assert BitAnd(x, x - 1) == 2 * BitAnd(h, h - 1);
      if BitAnd(h, h - 1) > 0 { TopBitOfDouble(BitAnd(h, h - 1)); }
    }
  }

  /** x - 1 in unsigned arithmetic. */
  function Predecessor(x: nat): nat {
    if x == 0 then WORD - 1 else x - 1
  }

  lemma ShrOne(w: nat)
    ensures Shr(w, 1) == w / 2
  {
    assert Shr(w / 2, 0) == w / 2;
  }

  /** The least power of two above x; for an x of 2^63 or more, the highest one there is. */
  method NextPow2(x: nat) returns (r: nat)
    requires x < WORD
    ensures x == 0 ==> r == 0
    ensures 0 < x < HIGHEST ==> IsPow2(r) && r <= 2 * x && x < r
    ensures HIGHEST <= x ==> r == HIGHEST
  {
    var y: nat := x;
    ShrOne((2 * y) % WORD);
    ShrOne(y);
    if Shr((2 * y) % WORD, 1) != y {
      y := Shr(y, 1);
    }
    ghost var start := y;
    assert start == if x < HIGHEST then x else x / 2;
    while BitAnd(y, Predecessor(y)) != 0
      invariant y <= start
      invariant start > 0 ==> y > 0 && TopBit(y) == TopBit(start)
      decreases y
    {
      ClearLowest(y);
      y := BitAnd(y, Predecessor(y));
    }
    r := (2 * y) % WORD;
    if start > 0 {
      ClearLowest(y);
      TopBitIsPow2(start);
      Doubled(start);
    }
  }

  lemma Doubled(start: nat)
    requires 0 < start < HIGHEST
    requires IsPow2(TopBit(start))
    ensures (2 * TopBit(start)) % WORD == 2 * TopBit(start) && IsPow2(2 * TopBit(start))
    ensures start >= HIGHEST / 2 ==> 2 * TopBit(start) == HIGHEST
  {
    var k: nat :| TopBit(start) == Pow2(k);
    WordIsPow2();
    assert 2 * TopBit(start) == Pow2(k + 1);
    hide TopBit;
    if k >= 63 { Pow2Monotone(63, k); }
    if k <= 61 { Pow2Monotone(k + 1, 62); assert Pow2(63) == 2 * Pow2(62); }
  }

  lemma NextPow2Bounded(x: nat, r: nat, limit: nat)
    requires IsPow2(r) && IsPow2(limit) && 0 < x < limit && r <= 2 * x
    ensures r <= limit
  {
    if limit < r { Pow2Gap(limit, r); }
  }
}
