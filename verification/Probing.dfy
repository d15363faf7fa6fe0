/**
 The probe sequence of the hash table: JUMP adds 1, 2, 3, ... to the bucket number, masked to the
 table size. On a table of 2^k buckets the first 2^k probes visit every bucket exactly once.
 */
module Probing {
  import opened Bits

  /** Sum of the first i jumps. */
  function Tri(i: nat): nat {
    if i == 0 then 0 else Tri(i - 1) + i
  }

  /** Bucket number of probe i for hash value h in a table of m buckets. */
  function Probe(h: nat, i: nat, m: nat): (b: nat)
    requires m > 0
    ensures b < m
  {
    (h + Tri(i)) % m
  }

  lemma ModOfSum(a: nat, b: nat, m: nat)
    requires m > 0
    ensures (a % m + b) % m == (a + b) % m
  {
    var q, r := (a % m + b) / m, (a % m + b) % m;
    assert a + b == (a / m + q) * m + r;
    ModUnique(a + b, m, a / m + q, r);
  }

  /** The hash function reduces its value with the mask cBuckets - 1. */
  lemma HashMask(h: nat, m: nat)
    requires IsPow2(m)
    ensures BitAnd(h, m - 1) == Probe(h, 0, m)
  {
    MaskModulo(h, m);
  }

  lemma MaskModulo(x: nat, m: nat)
    requires IsPow2(m)
    ensures BitAnd(x, m - 1) == x % m
  {
    var k: nat :| m == Pow2(k);
    MaskIsMod(x, k);
  }

  /** One JUMP, masked, leads from each probe to the next. */
  lemma JumpIsNextProbe(h: nat, i: nat, m: nat)
    requires IsPow2(m)
    ensures BitAnd(Probe(h, i, m) + (i + 1), m - 1) == Probe(h, i + 1, m)
  {
    MaskModulo(Probe(h, i, m) + (i + 1), m);
    ModOfSum(h + Tri(i), i + 1, m);
    assert h + Tri(i) + (i + 1) == h + Tri(i + 1);
  }

  /** The reduction that ends the hash function: h & (m - 1). */
  method Reduce(h: nat, m: nat) returns (b: nat)
    requires IsPow2(m)
    ensures b == Probe(h, 0, m)
  {
    HashMask(h, m);
    b := BitAnd(h, m - 1);
  }

  /** From probe i, in bucket b, to the next: (b + ++i) & (m - 1). */
  method Jump(b: nat, i: nat, m: nat, ghost h: nat) returns (next: nat, j: nat)
    requires IsPow2(m) && b == Probe(h, i, m)
    ensures j == i + 1 && next == Probe(h, j, m)
  {
    JumpIsNextProbe(h, i, m);
    j := i + 1;
    next := BitAnd(b + j, m - 1);
  }

  // ----- distinctness -----

  lemma {:induction false} TriFormula(i: nat)
    ensures 2 * Tri(i) == i * (i + 1)
  {
    if i > 0 { TriFormula(i - 1); }
  }

  lemma TriDifference(i: nat, j: nat)
    requires i < j
    ensures 2 * (Tri(j) - Tri(i)) == (j - i) * (j + i + 1)
  {
    TriFormula(i);
    TriFormula(j);
    assert (j - i) * (j + i + 1) == j * (j + 1) - i * (i + 1);
  }

  lemma OddTimesOdd(a: nat, b: nat)
    requires a % 2 == 1 && b % 2 == 1
    ensures (a * b) % 2 == 1
  {
    var x, y := a / 2, b / 2;
    assert a * b == 2 * (2 * x * y + x + y) + 1;
  }

  lemma HalveProduct(a: nat, b: nat, r: int)
    requires a % 2 == 1 && a * b == 2 * r
    ensures b % 2 == 0 && a * (b / 2) == r
  {
    if b % 2 == 1 { OddTimesOdd(a, b); }
    assert a * (2 * (b / 2)) == 2 * (a * (b / 2));
  }

  /** If 2^n divides a * b and a is odd, then 2^n divides b, so b is at least 2^n. */
  lemma {:induction false} OddCofactor(a: nat, b: nat, n: nat, q: int)
    requires a % 2 == 1 && b > 0
    requires a * b == q * Pow2(n)
    ensures b >= Pow2(n)
  {
    if n > 0 {
      assert q * Pow2(n) == 2 * (q * Pow2(n - 1));
      HalveProduct(a, b, q * Pow2(n - 1));
      OddCofactor(a, b / 2, n - 1, q);
    }
  }

  lemma SameRemainder(x: int, y: int, m: nat) returns (q: int)
    requires m > 0 && x % m == y % m
    ensures y - x == q * m
  {
    q := y / m - x / m;
    assert y - x == (y / m) * m - (x / m) * m;
  }

  /** A product of a number below m and one below 2m, one of them odd, is no multiple of 2m. */
  lemma NoMultiple(d: nat, s: nat, m: nat, q: int)
    requires IsPow2(m) && 0 < d < m && 0 < s < 2 * m && d % 2 != s % 2
    ensures d * s != 2 * (q * m)
  {
    var k: nat :| m == Pow2(k);
    if d * s == 2 * (q * m) {
      assert q * Pow2(k + 1) == 2 * (q * m);
      if d % 2 == 1 {
        OddCofactor(d, s, k + 1, q);
      } else {
        assert s * d == d * s;
        OddCofactor(s, d, k + 1, q);
      }
    }
  }

  lemma TriGap(i: nat, j: nat, m: nat, q: int)
    requires IsPow2(m) && i < j < m
    ensures Tri(j) - Tri(i) != q * m
  {
    TriDifference(i, j);
    var d, s := j - i, j + i + 1;
    assert s == d + 2 * i + 1;
    NoMultiple(d, s, m, q);
  }

  /** The first m probes go to m distinct buckets, whatever the hash value. */
  lemma ProbesDistinct(h: nat, i: nat, j: nat, m: nat)
    requires IsPow2(m) && i < j < m
    ensures Probe(h, i, m) != Probe(h, j, m)
  {
    if Probe(h, i, m) == Probe(h, j, m) {
      var q := SameRemainder(h + Tri(i), h + Tri(j), m);
      TriGap(i, j, m, q);
    }
  }

  // ----- coverage -----

  /** The buckets of the first n probes. */
  ghost function Visited(h: nat, n: nat, m: nat): (s: set<nat>)
    requires m > 0
    ensures forall b | b in s :: b < m
  {
    if n == 0 then {} else Visited(h, n - 1, m) + {Probe(h, n - 1, m)}
  }

  lemma {:induction false} VisitedMembers(h: nat, n: nat, m: nat, b: nat)
    requires m > 0
    ensures b in Visited(h, n, m) <==> exists i | 0 <= i < n :: Probe(h, i, m) == b
  {
    if n > 0 { VisitedMembers(h, n - 1, m, b); }
  }

  lemma {:induction false} VisitedCount(h: nat, n: nat, m: nat)
    requires IsPow2(m) && n <= m
    ensures |Visited(h, n, m)| == n
  {
    if n > 0 {
      VisitedCount(h, n - 1, m);
      VisitedMembers(h, n - 1, m, Probe(h, n - 1, m));
      forall i | 0 <= i < n - 1
        ensures Probe(h, i, m) != Probe(h, n - 1, m)
      {
        ProbesDistinct(h, i, n - 1, m);
      }
    }
  }

  ghost function Below(m: nat): (s: set<nat>)
    ensures |s| == m && forall b: nat :: b in s <==> b < m
  {
    if m == 0 then {} else Below(m - 1) + {m - 1}
  }

  lemma {:induction false} FullSubset<T>(a: set<T>, b: set<T>)
    requires a <= b && |a| == |b|
    ensures a == b
    decreases |b|
  {
    if b != {} {
      var x :| x in b;
      if x in a {
        FullSubset(a - {x}, b - {x});
        assert a == (a - {x}) + {x} && b == (b - {x}) + {x};
      } else {
        SubsetSize(a, b - {x});
      }
    }
  }

  lemma {:induction false} SubsetSize<T>(a: set<T>, b: set<T>)
    requires a <= b
    ensures |a| <= |b|
    decreases |a|
  {
    if a != {} {
      var x :| x in a;
      SubsetSize(a - {x}, b - {x});
    }
  }

  /** Every bucket is among the first m probes. */
  lemma ProbesCover(h: nat, m: nat, b: nat)
    requires IsPow2(m) && b < m
    ensures exists i | 0 <= i < m :: Probe(h, i, m) == b
  {
    VisitedCount(h, m, m);
    FullSubset(Visited(h, m, m), Below(m));
    VisitedMembers(h, m, m, b);
  }
}
