/**
 The occupancy bitmap of a bucket group: testing and setting a bit, and counting the set bits
 below a position. The count (the rank) is the offset of a bucket in its group's packed array.
 */
module Bitmap {
  import opened Bits

  const BITS_PER_WORD: nat := 64

  type Words = seq<nat>

  function Positions(bm: Words): nat {
    BITS_PER_WORD * |bm|
  }

  /** TEST_BITMAP */
  predicate Test(bm: Words, i: nat)
    requires i < Positions(bm)
  {
    Bit(bm[i / BITS_PER_WORD], i % BITS_PER_WORD)
  }

  /** SET_BITMAP */
  function Set(bm: Words, i: nat): (r: Words)
    requires i < Positions(bm)
    ensures |r| == |bm|
  {
    bm[i / BITS_PER_WORD := BitOr(bm[i / BITS_PER_WORD], Pow2(i % BITS_PER_WORD))]
  }

  /** Number of set bits at positions 0..i-1, counted one bit at a time. */
  function Rank(bm: Words, i: nat): (r: nat)
    requires i <= Positions(bm)
    ensures r <= i
  {
    if i == 0 then 0 else Rank(bm, i - 1) + (if Test(bm, i - 1) then 1 else 0)
  }

  /** The same count within one word. */
  function WordRank(w: nat, i: nat): (r: nat)
    ensures r <= i
  {
    if i == 0 then 0 else WordRank(w, i - 1) + (if Bit(w, i - 1) then 1 else 0)
  }

  // ----- the byte table -----

  // Bits set in each byte value: row b / 16, column b % 16.
  const RGC_BITS: seq<seq<nat>> :=
    [[0, 1, 1, 2, 1, 2, 2, 3, 1, 2, 2, 3, 2, 3, 3, 4],
     [1, 2, 2, 3, 2, 3, 3, 4, 2, 3, 3, 4, 3, 4, 4, 5],
     [1, 2, 2, 3, 2, 3, 3, 4, 2, 3, 3, 4, 3, 4, 4, 5],
     [2, 3, 3, 4, 3, 4, 4, 5, 3, 4, 4, 5, 4, 5, 5, 6],
     [1, 2, 2, 3, 2, 3, 3, 4, 2, 3, 3, 4, 3, 4, 4, 5],
     [2, 3, 3, 4, 3, 4, 4, 5, 3, 4, 4, 5, 4, 5, 5, 6],
     [2, 3, 3, 4, 3, 4, 4, 5, 3, 4, 4, 5, 4, 5, 5, 6],
     [3, 4, 4, 5, 4, 5, 5, 6, 4, 5, 5, 6, 5, 6, 6, 7],
     [1, 2, 2, 3, 2, 3, 3, 4, 2, 3, 3, 4, 3, 4, 4, 5],
     [2, 3, 3, 4, 3, 4, 4, 5, 3, 4, 4, 5, 4, 5, 5, 6],
     [2, 3, 3, 4, 3, 4, 4, 5, 3, 4, 4, 5, 4, 5, 5, 6],
     [3, 4, 4, 5, 4, 5, 5, 6, 4, 5, 5, 6, 5, 6, 6, 7],
     [2, 3, 3, 4, 3, 4, 4, 5, 3, 4, 4, 5, 4, 5, 5, 6],
     [3, 4, 4, 5, 4, 5, 5, 6, 4, 5, 5, 6, 5, 6, 6, 7],
     [3, 4, 4, 5, 4, 5, 5, 6, 4, 5, 5, 6, 5, 6, 6, 7],
     [4, 5, 5, 6, 5, 6, 6, 7, 5, 6, 6, 7, 6, 7, 7, 8]
    ]

  function RgcBits(b: nat): nat
    requires b < 256
  {
    RgcShape(b / 16, b % 16);
    RGC_BITS[b / 16][b % 16]
  }

  lemma RgcShape(row: nat, column: nat)
    requires row < 16 && column < 16
    ensures |RGC_BITS| == 16 && |RGC_BITS[row]| == 16 && |RGC_BITS[0]| == 16
    ensures RGC_BITS[row][column] == RGC_BITS[0][row] + RGC_BITS[0][column]
  {
  }

  lemma RgcNibble(n: nat)
    requires n < 16
    ensures |RGC_BITS| == 16 && |RGC_BITS[0]| == 16
    ensures RGC_BITS[0][n] == RGC_BITS[0][n / 2] + n % 2 && RGC_BITS[0][0] == 0
  {
  }

  lemma {:induction false} NibbleCount(n: nat, i: nat)
    requires i <= 4 && n < Pow2(i)
    ensures |RGC_BITS| == 16 && |RGC_BITS[0]| == 16 && n < 16
    ensures RGC_BITS[0][n] == WordRank(n, i)
  {
    Pow2Monotone(i, 4);
    assert Pow2(4) == 16;
    RgcNibble(n);
    if i > 0 {
      NibbleCount(n / 2, i - 1);
      WordRankSplit(n, 1, i - 1);
    }
  }

  lemma ShrNibble(b: nat)
    ensures Shr(b, 4) == b / 16
  {
    ShrTwo(b / 2 / 2);
    assert Shr(b, 4) == Shr(b / 2, 3) == Shr(b / 2 / 2, 2);
  }

  lemma ShrTwo(b: nat)
    ensures Shr(b, 2) == b / 4
  {
    assert Shr(b / 2, 1) == Shr(b / 2 / 2, 0);
  }

  lemma ByteNibbles(b: nat)
    ensures WordRank(b, 8) == WordRank(b % 16, 4) + WordRank(b / 16, 4)
  {
    WordRankSplit(b, 4, 4);
    ShrNibble(b);
    WordRankMask(b, 4, 4);
    MaskIsMod(b, 4);
    assert Pow2(4) == 16;
  }

  /** Each table entry is the number of bits set in its index. */
  lemma RgcCounts(b: nat)
    requires b < 256
    ensures RgcBits(b) == WordRank(b, 8)
  {
    assert Pow2(4) == 16;
    RgcShape(b / 16, b % 16);
    NibbleCount(b / 16, 4);
    NibbleCount(b % 16, 4);
    ByteNibbles(b);
  }

  // ----- splitting a count -----

  lemma {:induction false} WordRankSplit(w: nat, a: nat, b: nat)
    ensures WordRank(w, a + b) == WordRank(w, a) + WordRank(Shr(w, a), b)
  {
    if b > 0 {
      WordRankSplit(w, a, b - 1);
      BitOfShr(w, a, b - 1);
    }
  }

  /** Masking off the bits from position i up leaves exactly the bits below i to count. */
  lemma {:induction false} WordRankMask(w: nat, i: nat, n: nat)
    ensures WordRank(BitAnd(w, Pow2(i) - 1), n) == WordRank(w, if n <= i then n else i)
  {
    if n > 0 {
      WordRankMask(w, i, n - 1);
      BitOfAnd(w, Pow2(i) - 1, n - 1);
      BitOfMask(i, n - 1);
    }
  }

  lemma {:induction false} RankAcrossWord(bm: Words, k: nat, j: nat)
    requires k < |bm| && j <= BITS_PER_WORD
    ensures Rank(bm, BITS_PER_WORD * k + j) == Rank(bm, BITS_PER_WORD * k) + WordRank(bm[k], j)
  {
    if j > 0 {
      RankAcrossWord(bm, k, j - 1);
      var p := BITS_PER_WORD * k + (j - 1);
      assert p / BITS_PER_WORD == k && p % BITS_PER_WORD == j - 1;
    }
  }

  // ----- EntriesUpto -----

  /** Sum of the table entries of the n lowest bytes of w: the unrolled part of the count. */
  function LowBytes(w: nat, n: nat): nat {
    if n == 0 then 0
    else
      AndAtMost(Shr(w, 8 * (n - 1)), 255);
      LowBytes(w, n - 1) + RgcBits(BitAnd(Shr(w, 8 * (n - 1)), 255))
  }

  lemma MaskedIsByte(w: nat, m: nat)
    requires m <= 8
    ensures BitAnd(w, Pow2(m) - 1) < 256
  {
    hide BitAnd, Pow2;
    SmallPow2();
    Pow2Monotone(m, 8);
    AndAtMost(w, Pow2(m) - 1);
  }

  /** The table entry of the m lowest bits of w. */
  function LastBits(w: nat, m: nat): nat
    requires m <= 8
  {
    MaskedIsByte(w, m);
    RgcBits(BitAnd(w, Pow2(m) - 1))
  }

  lemma LastBitsCount(w: nat, m: nat)
    requires m <= 8
    ensures LastBits(w, m) == WordRank(w, m)
  {
    hide BitAnd, Pow2, RgcBits, WordRank;
    MaskedIsByte(w, m);
    RgcCounts(BitAnd(w, Pow2(m) - 1));
    WordRankMask(w, m, 8);
  }

  lemma {:induction false} LowBytesCount(w: nat, n: nat)
    ensures LowBytes(w, n) == WordRank(w, 8 * n)
  {
    if n > 0 {
      LowBytesCount(w, n - 1);
      SmallPow2();
      LastBitsCount(Shr(w, 8 * (n - 1)), 8);
      WordRankSplit(w, 8 * (n - 1), 8);
    }
  }

  /** Bits below position rest (1 to 64) of w: the whole bytes, then the one to eight bits left. */
  function PartialWord(w: nat, rest: nat): nat
    requires 0 < rest <= BITS_PER_WORD
  {
    var bytes := (rest - 1) / 8;
    LowBytes(w, bytes) + LastBits(Shr(w, 8 * bytes), rest - 8 * bytes)
  }

  lemma BytesThenBits(w: nat, bytes: nat, bits: nat)
    requires bits <= 8
    ensures LowBytes(w, bytes) + LastBits(Shr(w, 8 * bytes), bits) == WordRank(w, 8 * bytes + bits)
  {
    LowBytesCount(w, bytes);
    LastBitsCount(Shr(w, 8 * bytes), bits);
    WordRankSplit(w, 8 * bytes, bits);
  }

  lemma PartialWordCount(w: nat, rest: nat)
    requires 0 < rest <= BITS_PER_WORD
    ensures PartialWord(w, rest) == WordRank(w, rest)
  {
    var bytes := (rest - 1) / 8;
    BytesThenBits(w, bytes, rest - 8 * bytes);
    assert 8 * bytes + (rest - 8 * bytes) == rest;
  }

  /**
   The table-driven count over a bitmap of any number of words: whole words in the loop, then
   the bits of the last word that lie below the position.
   */
  method EntriesUpto(bm: Words, i: nat) returns (retval: nat)
    requires i <= Positions(bm)
    ensures retval == Rank(bm, i)
  {
    retval := 0;
    if i == 0 {
      return;
    }
    var word, rest := 0, i;
    while rest > BITS_PER_WORD
      invariant 0 < rest && rest + BITS_PER_WORD * word == i
      invariant word < |bm|
      invariant retval == Rank(bm, BITS_PER_WORD * word)
    {
      LowBytesCount(bm[word], 8);
      RankAcrossWord(bm, word, BITS_PER_WORD);
      retval := retval + LowBytes(bm[word], 8);
      rest, word := rest - BITS_PER_WORD, word + 1;
    }
    PartialWordCount(bm[word], rest);
    RankAcrossWord(bm, word, rest);
    retval := retval + PartialWord(bm[word], rest);
  }

  // ----- setting a bit -----

  lemma TestOfSet(bm: Words, i: nat, j: nat)
    requires i < Positions(bm) && j < Positions(bm)
    ensures Test(Set(bm, i), j) <==> j == i || Test(bm, j)
  {
    var w := i / BITS_PER_WORD;
    if j / BITS_PER_WORD == w {
      BitOfOr(bm[w], Pow2(i % BITS_PER_WORD), j % BITS_PER_WORD);
      BitOfPow2(i % BITS_PER_WORD, j % BITS_PER_WORD);
      assert j % BITS_PER_WORD == i % BITS_PER_WORD <==> j == i;
    }
  }

  lemma {:induction false} RankOfSet(bm: Words, i: nat, j: nat)
    requires i < Positions(bm) && j <= Positions(bm)
    ensures Rank(Set(bm, i), j) == Rank(bm, j) + (if i < j && !Test(bm, i) then 1 else 0)
  {
    if j > 0 {
      RankOfSet(bm, i, j - 1);
      TestOfSet(bm, i, j - 1);
    }
  }

  /** A word of the machine stays a word of the machine. */
  lemma SetStaysWord(bm: Words, i: nat)
    requires i < Positions(bm)
    requires forall w :: w in bm ==> w < WORD
    ensures forall w :: w in Set(bm, i) ==> w < WORD
  {
    var k, b := i / BITS_PER_WORD, i % BITS_PER_WORD;
    WordIsPow2();
    Pow2Monotone(b + 1, 64);
    assert bm[k] in bm;
    OrBelow(bm[k], Pow2(b), 64);
    forall w | w in Set(bm, i)
      ensures w < WORD
    {
      var j :| 0 <= j < |bm| && Set(bm, i)[j] == w;
      if j != k { assert bm[j] in bm; }
    }
  }

  // ----- rank and select: occupied positions and packed offsets -----

  lemma {:induction false} RankMonotone(bm: Words, i: nat, j: nat)
    requires i <= j <= Positions(bm)
    ensures Rank(bm, i) <= Rank(bm, j)
    ensures i < j && Test(bm, i) ==> Rank(bm, i) < Rank(bm, j)
    decreases j
  {
    if i < j { RankMonotone(bm, i, j - 1); }
  }

  /** The occupied position whose packed offset is k. */
  ghost function Select(bm: Words, k: nat, n: nat): (p: nat)
    requires n <= Positions(bm) && k < Rank(bm, n)
    ensures p < n && Test(bm, p) && Rank(bm, p) == k
  {
    if Rank(bm, n - 1) == k then n - 1 else Select(bm, k, n - 1)
  }

  /**
   Rank maps the occupied positions one to one, in increasing order, onto the offsets
   0..count-1, and Select is its inverse.
   */
  lemma RankIsIncreasingBijection(bm: Words)
    ensures forall p | 0 <= p < Positions(bm) && Test(bm, p) ::
              Rank(bm, p) < Rank(bm, Positions(bm)) && Select(bm, Rank(bm, p), Positions(bm)) == p
    ensures forall p, q | 0 <= p < q < Positions(bm) && Test(bm, p) && Test(bm, q) :: Rank(bm, p) < Rank(bm, q)
    ensures forall k | 0 <= k < Rank(bm, Positions(bm)) ::
              Test(bm, Select(bm, k, Positions(bm))) && Rank(bm, Select(bm, k, Positions(bm))) == k
  {
    forall p, q | 0 <= p < q <= Positions(bm) && Test(bm, p)
      ensures Rank(bm, p) < Rank(bm, q)
    {
      RankMonotone(bm, p, q);
    }
    forall p | 0 <= p < Positions(bm) && Test(bm, p)
      ensures Rank(bm, p) < Rank(bm, Positions(bm)) && Select(bm, Rank(bm, p), Positions(bm)) == p
    {
      RankMonotone(bm, p, Positions(bm));
      SelectUnique(bm, p, Select(bm, Rank(bm, p), Positions(bm)));
    }
  }

  lemma SelectUnique(bm: Words, p: nat, q: nat)
    requires p < Positions(bm) && q < Positions(bm) && Test(bm, p) && Test(bm, q)
    requires Rank(bm, p) == Rank(bm, q)
    ensures p == q
  {
    if p < q { RankMonotone(bm, p, q); }
    if q < p { RankMonotone(bm, q, p); }
  }

  /** Packed offsets k and k + 1 hold neighbouring occupied positions. */
  lemma SelectNeighbours(bm: Words, k: nat)
    requires k < Rank(bm, Positions(bm))
    ensures var p := Select(bm, k, Positions(bm));
            && (k == 0 ==> forall x | 0 <= x < p :: !Test(bm, x))
            && (k + 1 == Rank(bm, Positions(bm)) ==> forall x | p < x < Positions(bm) :: !Test(bm, x))
            && (k + 1 < Rank(bm, Positions(bm)) ==>
                  var q := Select(bm, k + 1, Positions(bm));
                  p < q && forall x | p < x < q :: !Test(bm, x))
  {
    hide Rank, Test, Select;
    var n := Positions(bm);
    var p := Select(bm, k, n);
    forall x | 0 <= x < n && Test(bm, x)
      ensures x < p ==> Rank(bm, x) < k
      ensures x > p ==> k + 1 <= Rank(bm, x) < Rank(bm, n)
    {
      RankAround(bm, p, x);
    }
    if k + 1 < Rank(bm, n) {
      var q := Select(bm, k + 1, n);
      forall x | 0 <= x < n && Test(bm, x)
        ensures x < q ==> Rank(bm, x) < k + 1
      {
        RankAround(bm, q, x);
      }
    }
  }

  lemma RankAround(bm: Words, p: nat, x: nat)
    requires p < Positions(bm) && x < Positions(bm) && Test(bm, p) && Test(bm, x)
    ensures x < p ==> Rank(bm, x) < Rank(bm, p)
    ensures x > p ==> Rank(bm, p) + 1 <= Rank(bm, x)
    ensures Rank(bm, x) < Rank(bm, Positions(bm))
  {
    RankMonotone(bm, x, Positions(bm));
    if x < p { RankMonotone(bm, x, p); }
    if x > p { RankMonotone(bm, p, x); }
  }

  lemma RankZero(bm: Words, x: nat)
    requires Rank(bm, Positions(bm)) == 0 && x < Positions(bm)
    ensures !Test(bm, x)
  {
    RankMonotone(bm, x, Positions(bm));
  }
}
