/** Where the fields of an AFS2 index live, and the alignment rule for payloads. */
module Layout {

  /** The fixed part of the header: signature, control word, entry count and
      alignment, four bytes each. */
  const FixedHeaderLength: nat := 16

  /** `Helpers.Align`: round `x` up to the next multiple of `a`. The helper is
      not part of this model; it is assumed to compute the least multiple of
      `a` that is at least `x`, which this counts out one step of `a` at a time. */
  function AlignUp(x: nat, a: nat): (r: nat)
    requires a > 0
    ensures x <= r < x + a
    decreases x
  {
    if x == 0 then 0 else if x <= a then a else a + AlignUp(x - a, a)
  }

  /** How many steps of `a` that takes. */
  function AlignSteps(x: nat, a: nat): nat
    requires a > 0
    decreases x
  {
    if x == 0 then 0 else if x <= a then 1 else 1 + AlignSteps(x - a, a)
  }

  lemma {:induction false} AlignUpIsSteps(x: nat, a: nat)
    requires a > 0
    ensures AlignUp(x, a) == AlignSteps(x, a) * a
    decreases x
  {
    if x > a {
      AlignUpIsSteps(x - a, a);
      assert (AlignSteps(x - a, a) + 1) * a == AlignSteps(x - a, a) * a + a;
    }
  }

  /** The rounded value is a multiple of `a`. */
  lemma AlignUpIsMultiple(x: nat, a: nat)
    requires a > 0
    ensures AlignUp(x, a) % a == 0
  {
    AlignUpIsSteps(x, a);
    MultipleMod(AlignSteps(x, a), a);
  }

  /** `k * a` leaves no remainder and has quotient `k`. */
  lemma MultipleMod(k: nat, a: nat)
    requires a > 0
    ensures (k * a) % a == 0 && (k * a) / a == k
  {
    var q, r := (k * a) / a, (k * a) % a;
    assert k * a == q * a + r;
    Distributes(k, q, a);
    if k > q {
      AtLeastOnce(k - q, a);
    } else if k < q {
      Distributes(q, k, a);
      AtLeastOnce(q - k, a);
    }
  }

  lemma Distributes(k: int, q: int, a: int)
    ensures (k - q) * a == k * a - q * a
  {
  }

  lemma AtLeastOnce(d: int, a: nat)
    requires d >= 1
    ensures d * a >= a
  {
  }

  /** `AlignUp` is the least multiple of `a` that is at least `x`. */
  lemma {:induction false} AlignUpIsLeast(x: nat, a: nat, m: nat)
    requires a > 0 && m % a == 0 && x <= m
    ensures AlignUp(x, a) <= m
    decreases x
  {
    if x > a {
      var q := m / a;
      assert m == q * a;
      if q < 1 {
        AtMostNone(q, a);
      }
      Distributes(q, 1, a);
      MultipleMod(q - 1, a);
      AlignUpIsLeast(x - a, a, m - a);
    }
  }

  lemma AtMostNone(d: int, a: nat)
    requires d <= 0
    ensures d * a <= 0
  {
  }

  /** Offset of the `i`-th id field: `16 + i * idW`. */
  function IdOffset(i: nat, idW: nat): nat
  {
    FixedHeaderLength + i * idW
  }

  /** Offset of the `i`-th position field of an `n`-entry index: the position
      table follows the `n` id fields. Index `n` is the sentinel field. */
  function PositionOffset(n: nat, i: nat, idW: nat, posW: nat): nat
  {
    FixedHeaderLength + n * idW + i * posW
  }

  /** The supported field widths. */
  predicate ValidIdWidth(w: nat)
  {
    w == 2
  }

  predicate ValidPositionWidth(w: nat)
  {
    w == 2 || w == 4
  }

  /** Position fields lie at increasing offsets, `posW` bytes apart. */
  lemma PositionOffsetMonotone(n: nat, i: nat, j: nat, idW: nat, posW: nat)
    requires i <= j
    ensures PositionOffset(n, i, idW, posW) + (j - i) * posW == PositionOffset(n, j, idW, posW)
  {
  }

  /** How many loop iterations of a decode can read their position field from
      `len` bytes: the largest `c <= n` such that position field `c - 1` ends
      within the input, or 0. */
  function PositionsWithin(len: nat, n: nat, posW: nat): (c: nat)
    requires ValidPositionWidth(posW)
    ensures c <= n
    ensures c > 0 ==> PositionOffset(n, c, 2, posW) <= len
    ensures c < n ==> len < PositionOffset(n, c + 1, 2, posW)
  {
    var p0 := PositionOffset(n, 0, 2, posW);
    if len < p0 then 0
    else
      var q := (len - p0) / posW;
      assert p0 + q * posW <= len < p0 + (q + 1) * posW;
      if q < n then q else n
  }

  /** The count above is the only one with those two properties. */
  lemma {:induction false} PositionsWithinUnique(len: nat, n: nat, posW: nat, c: nat)
    requires ValidPositionWidth(posW) && c <= n
    requires c > 0 ==> PositionOffset(n, c, 2, posW) <= len
    requires c < n ==> len < PositionOffset(n, c + 1, 2, posW)
    ensures PositionsWithin(len, n, posW) == c
  {
  }
}
