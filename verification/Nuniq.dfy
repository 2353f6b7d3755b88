/** NUNIQ packing of HEALPix cells (section 2.3.1 of the IVOA MOC 1.1
    standard): uniq = ipix + 4 * 4^depth. */
module Nuniq {
  import opened Decimal

  function Pow2(k: nat): (p: nat)
    ensures p > 0
  {
    if k == 0 then 1 else 2 * Pow2(k - 1)
  }

  lemma {:induction false} Pow2Grows(j: nat, k: nat)
    requires j <= k
    ensures Pow2(j) <= Pow2(k)
  {
    if j == k {
    } else {
      Pow2Grows(j, k - 1);
    }
  }

  // `u64::ilog2`.
  function Ilog2(n: nat): (b: nat)
    requires n > 0
    ensures Pow2(b) <= n < Pow2(b + 1)
  {
    if n == 1 then 0 else 1 + Ilog2(n / 2)
  }

  lemma Ilog2IsUnique(n: nat, b: nat)
    requires n > 0 && Pow2(b) <= n < Pow2(b + 1)
    ensures Ilog2(n) == b
  {
    if Ilog2(n) < b { Pow2Grows(Ilog2(n) + 1, b); }
    if b < Ilog2(n) { Pow2Grows(b + 1, Ilog2(n)); }
  }

  // Number of cells at a depth: 12 * 4^depth.
  function Cells(depth: nat): nat {
    12 * Pow2(2 * depth)
  }

  function Encode(depth: nat, ipix: nat): nat {
    ipix + 4 * Pow2(2 * depth)
  }

  function Depth(uniq: nat): nat
    requires uniq >= 4
  {
    Ilog2(uniq / 4) / 2
  }

  // At every depth the uniq values fill one range without gaps.
  lemma DepthRange(uniq: nat)
    requires uniq >= 4
    ensures 4 * Pow2(2 * Depth(uniq)) <= uniq < 16 * Pow2(2 * Depth(uniq))
  {
    var b, d := Ilog2(uniq / 4), Depth(uniq);
    assert b == 2 * d || b == 2 * d + 1;
    assert Pow2(2 * d + 2) == 2 * Pow2(2 * d + 1) == 4 * Pow2(2 * d);
    Pow2Grows(2 * d, b);
    Pow2Grows(b + 1, 2 * d + 2);
  }

  // `uniq_to_depth_ipix`; the subtraction never goes below zero.
  function Decode(uniq: nat): (nat, nat)
    requires uniq >= 4
  {
    DepthRange(uniq);
    (Depth(uniq), uniq - 4 * Pow2(2 * Depth(uniq)))
  }

  lemma Pow2Values()
    ensures Pow2(30) == 0x4000_0000
    ensures Pow2(60) == 0x1000_0000_0000_0000
    ensures Pow2(62) == 0x4000_0000_0000_0000
  {
    assert Pow2(10) == 1024;
    Pow2Adds(10, 10);
    Pow2Adds(20, 10);
    Pow2Adds(30, 30);
    Pow2Adds(60, 2);
  }

  lemma {:induction false} Pow2Adds(j: nat, k: nat)
    ensures Pow2(j + k) == Pow2(j) * Pow2(k)
  {
    if k == 0 {
    } else {
      Pow2Adds(j, k - 1);
    }
  }

  /** Every 64-bit value from 4 up decodes to a depth of at most 30 and a cell of
      that depth which encode back to it; the shifted base stays within 64 bits. */
  lemma DecodeEncodes(uniq: U64)
    requires uniq >= 4
    ensures
      var (d, i) := Decode(uniq);
      d <= 30 && i < Cells(d) && 4 * Pow2(2 * d) <= uniq && Encode(d, i) == uniq
  {
    DepthRange(uniq);
    if Depth(uniq) > 30 {
      Pow2Values();
      Pow2Grows(62, 2 * Depth(uniq));
    }
  }

  // Conversely every cell of every depth is recovered from its uniq value.
  lemma EncodeDecodes(d: nat, i: nat)
    requires i < Cells(d)
    ensures Encode(d, i) >= 4 && Decode(Encode(d, i)) == (d, i)
  {
    var q := Encode(d, i) / 4;
    assert Pow2(2 * d + 2) == 2 * Pow2(2 * d + 1) == 4 * Pow2(2 * d);
    assert Pow2(2 * d) <= q < Pow2(2 * d + 2);
    if q < Pow2(2 * d + 1) {
      Ilog2IsUnique(q, 2 * d);
    } else {
      Ilog2IsUnique(q, 2 * d + 1);
    }
  }

  // The depths a uniq value can have, by its size alone.
  lemma DepthLimitIff(uniq: nat)
    requires uniq >= 4
    ensures Depth(uniq) <= 29 <==> uniq < 0x4000_0000_0000_0000
  {
    DepthRange(uniq);
    EncodeFitsIff(Depth(uniq), uniq - 4 * Pow2(2 * Depth(uniq)));
  }

  /** A cell's uniq value fits in 64 bits exactly when its depth is at most 30,
      and stays below 2^62 exactly for the depths HEALPix libraries accept. */
  lemma EncodeFitsIff(d: nat, i: nat)
    requires i < Cells(d)
    ensures Encode(d, i) < U64_LIMIT <==> d <= 30
    ensures Encode(d, i) < 0x4000_0000_0000_0000 <==> d <= 29
  {
    Pow2Values();
    assert Pow2(60) == 2 * Pow2(59) && Pow2(59) == 2 * Pow2(58);
    if d <= 29 { Pow2Grows(2 * d, 58); }
    if d == 30 { assert 2 * d == 60; }
    if d > 30 { Pow2Grows(62, 2 * d); }
  }

  predicate CellBefore(d: nat, i: nat, e: nat, j: nat) {
    d < e || (d == e && i < j)
  }

  /** NUNIQ numbers the cells from 4 on, depth by depth and within a depth by pixel. */
  lemma EncodeIsInOrder(d: nat, i: nat, e: nat, j: nat)
    requires i < Cells(d) && j < Cells(e)
    ensures Encode(0, 0) == 4 && Encode(d, i) >= 4
    ensures Encode(d, i) < Encode(e, j) <==> CellBefore(d, i, e, j)
  {
    if d < e { DeeperIsLater(d, i, e, j); }
    if e < d { DeeperIsLater(e, j, d, i); }
  }

  lemma DeeperIsLater(d: nat, i: nat, e: nat, j: nat)
    requires i < Cells(d) && d < e
    ensures Encode(d, i) < Encode(e, j)
  {
    assert Pow2(2 * d + 2) == 2 * Pow2(2 * d + 1) == 4 * Pow2(2 * d);
    Pow2Grows(2 * d + 2, 2 * e);
  }
}
