/** Properties of the AFS2 codec that relate several of its operations. */
module Properties {
  import opened Wire
  import opened Layout
  import opened Entries
  import opened Pool
  import opened Archive

  // ---------------------------------------------------------------------
  // Reading fields out of concatenated bytes

  /** A 4-byte field whose bytes are those of `LE32(v)` reads back as `v`. */
  lemma {:induction false} Field32(x: seq<byte>, off: nat, v: u32)
    requires off + 4 <= |x| && forall t :: 0 <= t < 4 ==> x[off + t] == LE32(v)[t]
    ensures U32At(x, off) == v
  {
    assert x[off..off + 4] == LE32(v);
    LittleEndianRoundTrip(v, 4);
  }

  // ---------------------------------------------------------------------
  // The header

  /** Whatever the outcome, `Write` first emits the 16 header bytes; on an id
      width other than 2 it emits nothing else. */
  lemma {:induction false} EncodeStartsWithHeader(es: seq<Entry>, idW: u32, posW: u32, a: u32)
    ensures |Encode(es, idW, posW, a).bytes| >= FixedHeaderLength
    ensures Encode(es, idW, posW, a).bytes[..FixedHeaderLength] == Header(|es|, idW, posW, a)
    ensures |es| > 0 && idW != 2 ==> Encode(es, idW, posW, a).bytes == Header(|es|, idW, posW, a)
  {
    var x := Encode(es, idW, posW, a).bytes;
    var h := Header(|es|, idW, posW, a);
    assert x == h + x[FixedHeaderLength..];
  }

  /** The four fields of the header read back as written; the count is the
      entry count cut to 16 bits. */
  lemma {:induction false} HeaderReadsBack(x: seq<byte>, n: nat, idW: u32, posW: u32, a: u32)
    requires |x| >= FixedHeaderLength && x[..FixedHeaderLength] == Header(n, idW, posW, a)
    ensures x[..4] == Signature
    ensures U32At(x, 4) == PackControl(idW, posW)
    ensures U32At(x, 8) == n % 0x1_0000
    ensures U32At(x, 12) == a
  {
    var h := Header(n, idW, posW, a);
    assert forall t :: 0 <= t < FixedHeaderLength ==> x[t] == h[t];
    assert x[..4] == Signature;
    Field32(x, 4, PackControl(idW, posW));
    Field32(x, 8, ToU16(n));
    Field32(x, 12, a);
  }

  /** `headerLength` is the end of the sentinel field, unless it does not fit
      in a `uint`. */
  lemma {:induction false} HeaderEndsIndex(n: nat, idW: u32, posW: u32)
    requires PositionOffset(n, n + 1, idW, posW) < 0x1_0000_0000
    ensures HeaderLength(n, idW, posW) == PositionOffset(n, n + 1, idW, posW)
  {
    assert (n + 1) * posW == n * posW + posW;
  }

  // ---------------------------------------------------------------------
  // Decoding

  /** What `Read` needs of its input to succeed: the signature, table type 1,
      the full fixed header and, when there is at least one entry, 2-byte ids,
      2- or 4-byte positions, a nonzero alignment and room for every field of
      the index through the sentinel. */
  predicate WellFormed(s: seq<byte>)
  {
    |s| >= FixedHeaderLength && s[..4] == Signature && TypeOf(U32At(s, 4)) == 1
    && (ToU16(U32At(s, 8)) > 0 ==>
          IdWidthOf(U32At(s, 4)) == 2 && ValidPositionWidth(PositionWidthOf(U32At(s, 4)))
          && U32At(s, 12) > 0
          && PositionOffset(ToU16(U32At(s, 8)), ToU16(U32At(s, 8)) + 1, 2, PositionWidthOf(U32At(s, 4))) <= |s|)
  }

  /** `Read` succeeds exactly on well-formed input. */
  lemma {:induction false} DecodePassIff(s: seq<byte>)
    ensures Decode(s).outcome == Pass <==> WellFormed(s)
  {
    if |s| >= FixedHeaderLength && s[..4] == Signature && TypeOf(U32At(s, 4)) == 1 {
      var w := U32At(s, 4);
      var n := ToU16(U32At(s, 8));
      if n > 0 && IdWidthOf(w) == 2 && U32At(s, 12) > 0 && Readable(s, n, PositionWidthOf(w), n) {
        IndexCompletes(s, n, IdWidthOf(w), PositionWidthOf(w), U32At(s, 12));
      }
    }
  }

  /** A failed signature or table type leaves the widths, the alignment and
      the entries untouched. */
  lemma {:induction false} DecodeGates(s: seq<byte>)
    requires |s| < 4 || s[..4] != Signature || (|s| >= 8 && TypeOf(U32At(s, 4)) != 1)
    ensures Decode(s).outcome.Fail? && Decode(s).appended == []
    ensures Decode(s).widths.None? && Decode(s).align.None?
  {
  }

  /** Entry `k` of the first `m` decoded ones. */
  lemma {:induction false} DecodedIndex(s: seq<byte>, n: nat, posW: nat, a: nat, m: nat, k: nat)
    requires a > 0 && k < m <= n && Readable(s, n, posW, m)
    ensures Readable(s, n, posW, k + 1)
    ensures Decoded(s, n, posW, a, m)[k] == DecodedAt(s, n, posW, a, k)
    decreases m
  {
    ReadableBefore(s, n, posW, k + 1, m);
    if k < m - 1 {
      ReadableBefore(s, n, posW, m - 1, m);
      DecodedIndex(s, n, posW, a, m - 1, k);
    }
  }

  /** Every entry the loop of `Read` appends, whatever its outcome, is a
      decoded entry or, when the loop stopped before the next position field,
      the pending one. */
  lemma {:induction false} AppendedForm(s: seq<byte>, n: nat, idW: u32, posW: u32, a: u32, k: nat)
    requires k < |DecodeIndex(s, n, idW, posW, a).0|
    ensures k < n && a > 0 && idW == 2 && Readable(s, n, posW, k)
    ensures DecodeIndex(s, n, idW, posW, a).0[k] == PendingAt(s, n, posW, a, k)
            || (Readable(s, n, posW, k + 1) && DecodeIndex(s, n, idW, posW, a).0[k] == DecodedAt(s, n, posW, a, k))
  {
    var es := DecodeIndex(s, n, idW, posW, a).0;
    if n > 0 && idW == 2 && |s| >= IdOffset(0, 2) + 2 && ValidPositionWidth(posW) {
      var c := PositionsWithin(|s|, n, posW);
      if c > 0 && a > 0 {
        if c < n {
          assert es == Entered(s, n, 2, posW, a, c);
          EnteredForm(s, n, posW, a, c, k);
        } else {
          var m := if Readable(s, n, posW, n) then n else n - 1;
          assert es == Decoded(s, n, posW, a, m);
          DecodedIndex(s, n, posW, a, m, k);
        }
      }
    }
  }

  lemma {:induction false} EnteredForm(s: seq<byte>, n: nat, posW: nat, a: nat, c: nat, k: nat)
    requires 0 < c < n && a > 0 && Readable(s, n, posW, c - 1) && k < c
    ensures Readable(s, n, posW, k)
    ensures Entered(s, n, 2, posW, a, c)[k] == PendingAt(s, n, posW, a, k)
            || (Readable(s, n, posW, k + 1) && Entered(s, n, 2, posW, a, c)[k] == DecodedAt(s, n, posW, a, k))
  {
    ReadableBefore(s, n, posW, k, c - 1);
    if k < c - 1 {
      DecodedIndex(s, n, posW, a, c - 1, k);
    }
  }

  /** Either way the entry carries the id from the id table and its raw
      position rounded up to the alignment. */
  lemma {:induction false} AppendedEntry(s: seq<byte>, n: nat, idW: u32, posW: u32, a: u32, k: nat)
    requires k < |DecodeIndex(s, n, idW, posW, a).0|
    ensures k < n && a > 0 && idW == 2 && Readable(s, n, posW, k)
    ensures DecodeIndex(s, n, idW, posW, a).0[k].id == IdAt(s, n, posW, k)
    ensures DecodeIndex(s, n, idW, posW, a).0[k].position == AlignUp(RawAt(s, n, posW, k), a)
  {
    AppendedForm(s, n, idW, posW, a, k);
  }

  /** The positions `Read` produces are multiples of the alignment it read. */
  lemma {:induction false} DecodedAligned(s: seq<byte>, k: nat)
    requires k < |Decode(s).appended|
    ensures Decode(s).align.Some? && Decode(s).align.value > 0
    ensures Decode(s).appended[k].position % Decode(s).align.value == 0
  {
    var w := U32At(s, 4);
    var n := ToU16(U32At(s, 8));
    var a := U32At(s, 12);
    AppendedEntry(s, n, IdWidthOf(w), PositionWidthOf(w), a, k);
    AlignUpIsMultiple(RawAt(s, n, PositionWidthOf(w), k), a);
  }

  /** On success every entry's length runs from its aligned position to the
      next raw position; for the last entry, to the sentinel. The code does
      not reject a length that comes out negative. */
  lemma {:induction false} PassedEntry(s: seq<byte>, n: nat, idW: u32, posW: u32, a: u32, k: nat)
    requires DecodeIndex(s, n, idW, posW, a).1 == Pass && k < n
    ensures a > 0 && Readable(s, n, posW, k + 1)
    ensures DecodeIndex(s, n, idW, posW, a).0[k].length
            == RawAt(s, n, posW, k + 1) - AlignUp(RawAt(s, n, posW, k), a)
  {
    DecodedIndex(s, n, posW, a, n, k);
  }

  /** The value of four bytes, least significant first. */
  lemma Value4(b0: byte, b1: byte, b2: byte, b3: byte)
    ensures Value([b0, b1, b2, b3]) == b0 + 0x100 * b1 + 0x1_0000 * b2 + 0x100_0000 * b3
  {
    assert [b3][1..] == [];
    assert Value([b3]) == b3;
    assert [b2, b3][1..] == [b3];
    assert Value([b2, b3]) == b2 + 0x100 * b3;
    assert [b1, b2, b3][1..] == [b2, b3];
    assert Value([b1, b2, b3]) == b1 + 0x100 * (b2 + 0x100 * b3);
    assert [b0, b1, b2, b3][1..] == [b1, b2, b3];
  }

  /** A one-entry block whose sentinel lies before the entry's position: it
      decodes without error, to a negative length. */
  lemma {:induction false} NegativeLengthAccepted(s: seq<byte>)
    requires s == Signature + [0x01, 0x04, 0x02, 0x00] + [1, 0, 0, 0] + [32, 0, 0, 0]
                  + [0, 0] + [64, 0, 0, 0] + [0, 0, 0, 0]
    ensures Decode(s).outcome == Pass && |Decode(s).appended| == 1
    ensures Decode(s).appended[0].position == 64 && Decode(s).appended[0].length == -64
  {
    WitnessFields(s);
    OneEntryDecode(s, 64, 0);
    assert AlignUp(64, 32) == 64;
  }

  lemma {:induction false} WitnessFields(s: seq<byte>)
    requires s == Signature + [0x01, 0x04, 0x02, 0x00] + [1, 0, 0, 0] + [32, 0, 0, 0]
                  + [0, 0] + [64, 0, 0, 0] + [0, 0, 0, 0]
    ensures |s| == 26 && s[..4] == Signature
    ensures U32At(s, 4) == 0x0002_0401 && U32At(s, 8) == 1 && U32At(s, 12) == 32
    ensures U32At(s, 18) == 64 && U32At(s, 22) == 0
  {
    assert s[..4] == Signature;
    assert s[4..8] == [0x01, 0x04, 0x02, 0x00];
    Value4(0x01, 0x04, 0x02, 0x00);
    assert s[8..12] == [1, 0, 0, 0];
    Value4(1, 0, 0, 0);
    assert s[12..16] == [32, 0, 0, 0];
    Value4(32, 0, 0, 0);
    assert s[18..22] == [64, 0, 0, 0];
    Value4(64, 0, 0, 0);
    assert s[22..26] == [0, 0, 0, 0];
    Value4(0, 0, 0, 0);
  }

  /** A 26-byte block holding one entry with 4-byte positions, alignment 32. */
  lemma {:induction false} OneEntryDecode(s: seq<byte>, raw: u32, sentinel: u32)
    requires |s| == 26 && s[..4] == Signature
    requires U32At(s, 4) == 0x0002_0401 && U32At(s, 8) == 1 && U32At(s, 12) == 32
    requires U32At(s, 18) == raw && U32At(s, 22) == sentinel
    ensures Decode(s).outcome == Pass && |Decode(s).appended| == 1
    ensures Decode(s).appended[0].position == AlignUp(raw, 32)
    ensures Decode(s).appended[0].length == sentinel - AlignUp(raw, 32)
  {
    assert TypeOf(0x0002_0401) == 1 && IdWidthOf(0x0002_0401) == 2 && PositionWidthOf(0x0002_0401) == 4;
    assert Decode(s) == Decoding(Some(Widths(2, 4)), Some(32), DecodeIndex(s, 1, 2, 4, 32).0, DecodeIndex(s, 1, 2, 4, 32).1);
    assert Readable(s, 1, 4, 1);
    IndexCompletes(s, 1, 2, 4, 32);
    assert RawAt(s, 1, 4, 0) == raw;
    assert RawAt(s, 1, 4, 1) == sentinel;
    PassedEntry(s, 1, 2, 4, 32, 0);
    AppendedEntry(s, 1, 2, 4, 32, 0);
  }

  // ---------------------------------------------------------------------
  // Encoding

  /** Where each of five consecutive parts sits in their concatenation. */
  lemma {:induction false} FiveParts(x: seq<byte>, p0: seq<byte>, p1: seq<byte>, p2: seq<byte>, p3: seq<byte>, p4: seq<byte>)
    requires x == p0 + p1 + p2 + p3 + p4
    ensures |x| == |p0| + |p1| + |p2| + |p3| + |p4|
    ensures forall i :: 0 <= i < |p1| ==> x[|p0| + i] == p1[i]
    ensures forall i :: 0 <= i < |p2| ==> x[|p0| + |p1| + i] == p2[i]
    ensures forall i :: 0 <= i < |p3| ==> x[|p0| + |p1| + |p2| + i] == p3[i]
    ensures forall i :: 0 <= i < |p4| ==> x[|p0| + |p1| + |p2| + |p3| + i] == p4[i]
  {
  }

  /** Piece `j` sits in the concatenation of the first `k` pieces right
      behind the pieces before it. */
  lemma {:induction false} CatPiece(ps: seq<seq<byte>>, k: nat, j: nat)
    requires j < k <= |ps|
    ensures |Cat(ps, j)| + |ps[j]| <= |Cat(ps, k)|
    ensures forall i :: 0 <= i < |ps[j]| ==> Cat(ps, k)[|Cat(ps, j)| + i] == ps[j][i]
    decreases k
  {
    if j < k - 1 {
      CatPiece(ps, k - 1, j);
      assert Cat(ps, k) == Cat(ps, k - 1) + ps[k - 1];
    }
  }

  lemma {:induction false} CatLength(ps: seq<seq<byte>>, k: nat, w: nat)
    requires k <= |ps| && forall t :: 0 <= t < |ps| ==> |ps[t]| == w
    ensures |Cat(ps, k)| == k * w
  {
    if k > 0 {
      CatLength(ps, k - 1, w);
      assert k * w == (k - 1) * w + w;
    }
  }

  /** What `Write` emits and leaves when it succeeds on at least one entry:
      the widths were 2 and 2 or 4, the alignment nonzero, and the block is
      the header, both tables, the sentinel and the pool content. */
  lemma {:induction false} EncodePasses(es: seq<Entry>, idW: u32, posW: u32, a: u32)
    requires Encode(es, idW, posW, a).outcome == Pass && |es| > 0
    ensures idW == 2 && a > 0 && ValidPositionWidth(posW)
    ensures Encode(es, idW, posW, a).bytes
            == Header(|es|, 2, posW, a) + Cat(IdFields(SortById(es)), |es|)
               + Cat(PositionFields(HeaderLength(|es|, 2, posW), a, SortById(es), posW), |es|)
               + LE32(ToU32(Mark(HeaderLength(|es|, 2, posW), a, SortById(es), |es|)))
               + Content(HeaderLength(|es|, 2, posW), a, SortById(es), |es|)
    ensures Encode(es, idW, posW, a).entries
            == Reposition(es, SortedOrder(es, |es|), HeaderLength(|es|, 2, posW), a, |es|)
  {
  }

  /** `Write`'s entry list on success: the entry at list index `order[t]` has
      as `Position` the raw pool length before the `t`-th payload in id
      order; its id, length and file are as they were. Every list index is
      some `order[t]`. */
  lemma {:induction false} WriteRepositions(es: seq<Entry>, idW: u32, posW: u32, a: u32, t: nat)
    requires Encode(es, idW, posW, a).outcome == Pass && t < |es|
    ensures a > 0
    ensures Encode(es, idW, posW, a).entries[SortedOrder(es, |es|)[t]]
            == es[SortedOrder(es, |es|)[t]].(position := ToU32(Mark(HeaderLength(|es|, idW, posW), a, SortById(es), t)))
  {
    var order := SortedOrder(es, |es|);
    EncodePasses(es, idW, posW, a);
    RepositionAt(es, order, HeaderLength(|es|, idW, posW), a, |es|, t);
  }

  /** Distinct steps of the position loop overwrite distinct entries. */
  lemma {:induction false} RepositionAt(es: seq<Entry>, order: seq<nat>, base: nat, a: nat, k: nat, t: nat)
    requires a > 0 && t < k <= |order| && StablySorted(es, order)
    ensures Reposition(es, order, base, a, k)[order[t]]
            == es[order[t]].(position := ToU32(Mark(base, a, Select(es, order), t)))
    decreases k
  {
    if t < k - 1 {
      RepositionAt(es, order, base, a, k - 1, t);
      assert Before(es, order[t], order[k - 1]);
    } else {
      forall u | 0 <= u < k - 1 ensures order[u] != order[t] {
        assert Before(es, order[u], order[t]);
      }
      RepositionUntouched(es, order, base, a, k - 1, order[t]);
    }
  }

  lemma {:induction false} RepositionUntouched(es: seq<Entry>, order: seq<nat>, base: nat, a: nat, k: nat, j: nat)
    requires a > 0 && k <= |order| && j < |es| && forall t :: 0 <= t < |order| ==> order[t] < |es|
    requires forall t :: 0 <= t < k ==> order[t] != j
    ensures Reposition(es, order, base, a, k)[j] == es[j]
    decreases k
  {
    if k > 0 {
      RepositionUntouched(es, order, base, a, k - 1, j);
    }
  }

  // ---------------------------------------------------------------------
  // Round trip

  /** Piece `k` of a concatenation of `w`-byte pieces that sits in `x` at
      offset `off` is found at `off + k * w`. */
  lemma {:induction false} PieceAt(x: seq<byte>, off: nat, pf: seq<seq<byte>>, w: nat, k: nat)
    requires forall t :: 0 <= t < |pf| ==> |pf[t]| == w
    requires k < |pf| && off + |Cat(pf, |pf|)| <= |x|
    requires forall i :: 0 <= i < |Cat(pf, |pf|)| ==> x[off + i] == Cat(pf, |pf|)[i]
    ensures off + k * w + w <= |x|
    ensures x[off + k * w..off + k * w + w] == pf[k]
  {
    CatLength(pf, k, w);
    CatPiece(pf, |pf|, k);
  }

  /** The same for a table that is the second or the third of five parts. */
  lemma {:induction false} SecondPiece(x: seq<byte>, h: seq<byte>, ids: seq<byte>, ps: seq<byte>, z: seq<byte>, c: seq<byte>,
                                       pf: seq<seq<byte>>, w: nat, k: nat)
    requires x == h + ids + ps + z + c && ids == Cat(pf, |pf|)
    requires forall t :: 0 <= t < |pf| ==> |pf[t]| == w
    requires k < |pf|
    ensures |h| + k * w + w <= |x|
    ensures x[|h| + k * w..|h| + k * w + w] == pf[k]
  {
    FiveParts(x, h, ids, ps, z, c);
    PieceAt(x, |h|, pf, w, k);
  }

  lemma {:induction false} ThirdPiece(x: seq<byte>, h: seq<byte>, ids: seq<byte>, ps: seq<byte>, z: seq<byte>, c: seq<byte>,
                                      pf: seq<seq<byte>>, w: nat, k: nat)
    requires x == h + ids + ps + z + c && ps == Cat(pf, |pf|)
    requires forall t :: 0 <= t < |pf| ==> |pf[t]| == w
    requires k < |pf|
    ensures |h| + |ids| + k * w + w <= |x|
    ensures x[|h| + |ids| + k * w..|h| + |ids| + k * w + w] == pf[k]
  {
    FiveParts(x, h, ids, ps, z, c);
    PieceAt(x, |h| + |ids|, pf, w, k);
  }

  /** An id written by `Write` reads back at its offset in the id table. */
  lemma {:induction false} IdReadsBack(x: seq<byte>, h: seq<byte>, ids: seq<byte>, ps: seq<byte>, z: seq<byte>, c: seq<byte>,
                                       sorted: seq<Entry>, k: nat)
    requires x == h + ids + ps + z + c && |h| == FixedHeaderLength
    requires ids == Cat(IdFields(sorted), |sorted|) && k < |sorted|
    ensures IdOffset(k, 2) + 2 <= |x| && U16At(x, IdOffset(k, 2)) == sorted[k].id
  {
    var pf := IdFields(sorted);
    SecondPiece(x, h, ids, ps, z, c, pf, 2, k);
    assert pf[k] == LE16(sorted[k].id);
    LittleEndianRoundTrip(sorted[k].id, 2);
  }

  /** A 4-byte position written by `Write` reads back as the pool length it
      was taken from, when that fits in a `uint`. */
  lemma {:induction false} PositionReadsBack(x: seq<byte>, h: seq<byte>, ids: seq<byte>, ps: seq<byte>, z: seq<byte>, c: seq<byte>,
                                             base: nat, a: nat, sorted: seq<Entry>, k: nat)
    requires x == h + ids + ps + z + c && |h| == FixedHeaderLength && |ids| == 2 * |sorted|
    requires a > 0 && ps == Cat(PositionFields(base, a, sorted, 4), |sorted|) && k < |sorted|
    requires Mark(base, a, sorted, k) < 0x1_0000_0000
    ensures PositionOffset(|sorted|, k, 2, 4) + 4 <= |x|
    ensures U32At(x, PositionOffset(|sorted|, k, 2, 4)) == Mark(base, a, sorted, k)
  {
    var m := Mark(base, a, sorted, k);
    PositionFieldAt(base, a, sorted, k);
    TableField32(x, h, ids, ps, z, c, PositionFields(base, a, sorted, 4), k, m, PositionOffset(|sorted|, k, 2, 4));
  }

  lemma {:induction false} PositionFieldAt(base: nat, a: nat, sorted: seq<Entry>, k: nat)
    requires a > 0 && k < |sorted| && Mark(base, a, sorted, k) < 0x1_0000_0000
    ensures PositionFields(base, a, sorted, 4)[k] == LE32(Mark(base, a, sorted, k))
  {
  }

  /** A 4-byte piece of the third part reads back as the value it encodes. */
  lemma {:induction false} TableField32(x: seq<byte>, h: seq<byte>, ids: seq<byte>, ps: seq<byte>, z: seq<byte>, c: seq<byte>,
                                        pf: seq<seq<byte>>, k: nat, m: u32, off: nat)
    requires x == h + ids + ps + z + c && ps == Cat(pf, |pf|)
    requires forall t :: 0 <= t < |pf| ==> |pf[t]| == 4
    requires k < |pf| && pf[k] == LE32(m) && off == |h| + |ids| + k * 4
    ensures off + 4 <= |x| && U32At(x, off) == m
  {
    ThirdPiece(x, h, ids, ps, z, c, pf, 4, k);
    LittleEndianRoundTrip(m, 4);
  }

  /** With no entries `Write` succeeds whatever the widths and the alignment:
      it emits the header and a 4-byte sentinel holding `headerLength`, and
      leaves the (empty) entry list as it was. */
  lemma {:induction false} EmptyWrite(idW: u32, posW: u32, a: u32)
    ensures Encode([], idW, posW, a).outcome == Pass && Encode([], idW, posW, a).entries == []
    ensures Encode([], idW, posW, a).bytes == Header(0, idW, posW, a) + LE32(HeaderLength(0, idW, posW))
    ensures |Encode([], idW, posW, a).bytes| == 20
  {
    EncodeEmpty([], idW, posW, a, Header(0, idW, posW, a) + Cat(IdFields(SortById([])), 0), [], [], HeaderLength(0, idW, posW));
    assert Cat(IdFields(SortById([])), 0) == [];
  }

  /** `Read` takes the block `Write` emits for no entries back, with the
      widths and alignment it was written with, when the widths fit the
      control word's bytes. */
  lemma {:induction false} EmptyRoundTrip(idW: u32, posW: u32, a: u32)
    requires idW < 0x100 && posW < 0x100
    ensures Decode(Encode([], idW, posW, a).bytes) == Decoding(Some(Widths(idW, posW)), Some(a), [], Pass)
  {
    var x := Encode([], idW, posW, a).bytes;
    EmptyWrite(idW, posW, a);
    EncodeStartsWithHeader([], idW, posW, a);
    HeaderReadsBack(x, 0, idW, posW, a);
    ControlRoundTrip(idW, posW);
  }

  /** `Read` checks the widths only inside its loop: with at least one entry
      a bad id width fails before anything is read, and a bad position width
      fails once the first id field was read. */
  lemma {:induction false} DecodeWidthsChecked(s: seq<byte>, n: nat, idW: u32, posW: u32, a: u32)
    requires n > 0
    ensures idW != 2 ==> DecodeIndex(s, n, idW, posW, a) == ([], Fail(UnknownIdFieldLength(idW)))
    ensures idW == 2 && IdOffset(0, 2) + 2 <= |s| && !ValidPositionWidth(posW)
            ==> DecodeIndex(s, n, idW, posW, a) == ([], Fail(UnknownPositionFieldLength(posW)))
  {
  }

  /** The positions `Write` stores follow the id order without decreasing;
      the first is `headerLength` itself. */
  lemma {:induction false} WritePositionsOrdered(es: seq<Entry>, idW: u32, posW: u32, a: u32, t1: nat, t2: nat)
    requires Encode(es, idW, posW, a).outcome == Pass && t1 <= t2 < |es|
    requires Mark(HeaderLength(|es|, idW, posW), a, SortById(es), |es|) < 0x1_0000_0000
    ensures Encode(es, idW, posW, a).entries[SortedOrder(es, |es|)[t1]].position
            <= Encode(es, idW, posW, a).entries[SortedOrder(es, |es|)[t2]].position
    ensures Encode(es, idW, posW, a).entries[SortedOrder(es, |es|)[0]].position == HeaderLength(|es|, idW, posW)
  {
    StoredPosition(es, idW, posW, a, t1);
    StoredPosition(es, idW, posW, a, t2);
    StoredPosition(es, idW, posW, a, 0);
    WriteRepositions(es, idW, posW, a, 0);
    MarksNonDecreasing(HeaderLength(|es|, idW, posW), a, SortById(es), t1, t2);
  }

  /** Without wrap-around the stored position is the pool length itself. */
  lemma {:induction false} StoredPosition(es: seq<Entry>, idW: u32, posW: u32, a: u32, t: nat)
    requires Encode(es, idW, posW, a).outcome == Pass && t < |es|
    requires Mark(HeaderLength(|es|, idW, posW), a, SortById(es), |es|) < 0x1_0000_0000
    ensures a > 0
    ensures Encode(es, idW, posW, a).entries[SortedOrder(es, |es|)[t]].position
            == Mark(HeaderLength(|es|, idW, posW), a, SortById(es), t)
  {
    WriteRepositions(es, idW, posW, a, t);
    MarksNonDecreasing(HeaderLength(|es|, idW, posW), a, SortById(es), t, |es|);
  }

  /** Decoding what `Write` emitted with 2-byte ids and 4-byte positions
      gives back the widths, the alignment and one entry per written entry,
      in id order: its id, its payload's aligned position and its payload's
      length. This needs the entry count to fit the 16-bit count field and the
      pool to stay below 4 GiB, so that no `uint` cast loses bits. */
  lemma {:induction false} RoundTrip(es: seq<Entry>, a: u32)
    requires a > 0 && |es| < 0x1_0000
    requires Mark(HeaderLength(|es|, 2, 4), a, SortById(es), |es|) < 0x1_0000_0000
    ensures Decode(Encode(es, 2, 4, a).bytes).outcome == Pass
    ensures Decode(Encode(es, 2, 4, a).bytes).widths == Some(Widths(2, 4))
    ensures Decode(Encode(es, 2, 4, a).bytes).align == Some(a)
    ensures |Decode(Encode(es, 2, 4, a).bytes).appended| == |es|
    ensures forall k :: 0 <= k < |es| ==>
              Decode(Encode(es, 2, 4, a).bytes).appended[k]
              == Entry(SortById(es)[k].id, AlignUp(Mark(HeaderLength(|es|, 2, 4), a, SortById(es), k), a),
                       |SortById(es)[k].file|, [])
  {
    var x := Encode(es, 2, 4, a).bytes;
    var n := |es|;
    EncodeStartsWithHeader(es, 2, 4, a);
    HeaderReadsBack(x, n, 2, 4, a);
    ControlRoundTrip(2, 4);
    assert Decode(x) == Decoding(Some(Widths(2, 4)), Some(a), DecodeIndex(x, n, 2, 4, a).0, DecodeIndex(x, n, 2, 4, a).1);
    if n > 0 {
      IndexRoundTrip(es, a, x);
    }
  }

  lemma {:induction false} IndexRoundTrip(es: seq<Entry>, a: u32, x: seq<byte>)
    requires a > 0 && 0 < |es| < 0x1_0000 && x == Encode(es, 2, 4, a).bytes
    requires Mark(HeaderLength(|es|, 2, 4), a, SortById(es), |es|) < 0x1_0000_0000
    ensures DecodeIndex(x, |es|, 2, 4, a).1 == Pass
    ensures |DecodeIndex(x, |es|, 2, 4, a).0| == |es|
    ensures forall k :: 0 <= k < |es| ==>
              DecodeIndex(x, |es|, 2, 4, a).0[k]
              == Entry(SortById(es)[k].id, AlignUp(Mark(HeaderLength(|es|, 2, 4), a, SortById(es), k), a),
                       |SortById(es)[k].file|, [])
  {
    var n := |es|;
    var sorted := SortById(es);
    var base := HeaderLength(n, 2, 4);
    EncodePasses(es, 2, 4, a);
    var m := Mark(base, a, sorted, n);
    PartsRoundTrip(x, Header(n, 2, 4, a), Cat(IdFields(sorted), n), Cat(PositionFields(base, a, sorted, 4), n),
                   LE32(ToU32(m)), Content(base, a, sorted, n), base, a, sorted);
  }

  /** The same, for a block laid out as `Write` lays it out: the header, the
      id table, the position table, the sentinel and the pool content. */
  lemma {:induction false} PartsRoundTrip(x: seq<byte>, h: seq<byte>, ids: seq<byte>, ps: seq<byte>, z: seq<byte>, c: seq<byte>,
                                          base: nat, a: u32, sorted: seq<Entry>)
    requires x == h + ids + ps + z + c && |h| == FixedHeaderLength
    requires a > 0 && 0 < |sorted|
    requires ids == Cat(IdFields(sorted), |sorted|)
    requires ps == Cat(PositionFields(base, a, sorted, 4), |sorted|)
    requires Mark(base, a, sorted, |sorted|) < 0x1_0000_0000
    requires z == LE32(ToU32(Mark(base, a, sorted, |sorted|)))
    ensures DecodeIndex(x, |sorted|, 2, 4, a).1 == Pass
    ensures |DecodeIndex(x, |sorted|, 2, 4, a).0| == |sorted|
    ensures forall k :: 0 <= k < |sorted| ==>
              DecodeIndex(x, |sorted|, 2, 4, a).0[k]
              == Entry(sorted[k].id, AlignUp(Mark(base, a, sorted, k), a), |sorted[k].file|, [])
  {
    var n := |sorted|;
    var m := Mark(base, a, sorted, n);
    CatLength(IdFields(sorted), n, 2);
    CatLength(PositionFields(base, a, sorted, 4), n, 4);
    SentinelReadsBack(x, h, ids, ps, z, c, m, PositionOffset(n, n, 2, 4));
    assert Readable(x, n, 4, n);
    IndexCompletes(x, n, 2, 4, a);
    forall k | 0 <= k < n
      ensures Decoded(x, n, 4, a, n)[k]
              == Entry(sorted[k].id, AlignUp(Mark(base, a, sorted, k), a), |sorted[k].file|, [])
    {
      EntryRoundTrip(x, h, ids, ps, z, c, base, a, sorted, k);
    }
  }

  /** The sentinel written by `Write` reads back as the final pool length. */
  lemma {:induction false} SentinelReadsBack(x: seq<byte>, h: seq<byte>, ids: seq<byte>, ps: seq<byte>, z: seq<byte>, c: seq<byte>,
                                             m: u32, off: nat)
    requires x == h + ids + ps + z + c && z == LE32(m) && off == |h| + |ids| + |ps|
    ensures off + 4 <= |x| && U32At(x, off) == m
  {
    assert x == (h + ids + ps) + z + c;
    assert x[off..off + 4] == z;
    LittleEndianRoundTrip(m, 4);
  }

  /** Entry `k` of a complete decode of what `Write` emitted: the id, the
      aligned pool length before its payload, and its payload's length. */
  lemma {:induction false} EntryRoundTrip(x: seq<byte>, h: seq<byte>, ids: seq<byte>, ps: seq<byte>, z: seq<byte>, c: seq<byte>,
                                          base: nat, a: nat, sorted: seq<Entry>, k: nat)
    requires x == h + ids + ps + z + c && |h| == FixedHeaderLength && |ids| == 2 * |sorted|
    requires a > 0 && k < |sorted| && Readable(x, |sorted|, 4, |sorted|)
    requires ids == Cat(IdFields(sorted), |sorted|)
    requires ps == Cat(PositionFields(base, a, sorted, 4), |sorted|)
    requires Mark(base, a, sorted, |sorted|) < 0x1_0000_0000
    requires RawAt(x, |sorted|, 4, |sorted|) == Mark(base, a, sorted, |sorted|)
    ensures Decoded(x, |sorted|, 4, a, |sorted|)[k]
            == Entry(sorted[k].id, AlignUp(Mark(base, a, sorted, k), a), |sorted[k].file|, [])
  {
    var n := |sorted|;
    DecodedIndex(x, n, 4, a, n, k);
    RawFacts(x, h, ids, ps, z, c, base, a, sorted, k);
    DecodedFromFields(x, n, a, k, sorted[k].id, Mark(base, a, sorted, k), Mark(base, a, sorted, k + 1));
    assert Mark(base, a, sorted, k + 1) == AlignUp(Mark(base, a, sorted, k), a) + |sorted[k].file|;
  }

  /** The fields entry `k` is decoded from, in a block `Write` laid out. */
  lemma {:induction false} RawFacts(x: seq<byte>, h: seq<byte>, ids: seq<byte>, ps: seq<byte>, z: seq<byte>, c: seq<byte>,
                                    base: nat, a: nat, sorted: seq<Entry>, k: nat)
    requires x == h + ids + ps + z + c && |h| == FixedHeaderLength && |ids| == 2 * |sorted|
    requires a > 0 && k < |sorted| && Readable(x, |sorted|, 4, |sorted|)
    requires ids == Cat(IdFields(sorted), |sorted|)
    requires ps == Cat(PositionFields(base, a, sorted, 4), |sorted|)
    requires Mark(base, a, sorted, |sorted|) < 0x1_0000_0000
    requires RawAt(x, |sorted|, 4, |sorted|) == Mark(base, a, sorted, |sorted|)
    ensures Readable(x, |sorted|, 4, k + 1)
    ensures IdAt(x, |sorted|, 4, k) == sorted[k].id
    ensures RawAt(x, |sorted|, 4, k) == Mark(base, a, sorted, k)
    ensures RawAt(x, |sorted|, 4, k + 1) == Mark(base, a, sorted, k + 1)
  {
    var n := |sorted|;
    ReadableBefore(x, n, 4, k + 1, n);
    IdBeforePosition(n, 4, k);
    IdReadsBack(x, h, ids, ps, z, c, sorted, k);
    RawFact(x, h, ids, ps, z, c, base, a, sorted, k);
    NextRaw(x, h, ids, ps, z, c, base, a, sorted, k + 1);
  }

  /** The same for the position field that closes entry `j - 1`: the next
      entry's position or the sentinel. */
  lemma {:induction false} NextRaw(x: seq<byte>, h: seq<byte>, ids: seq<byte>, ps: seq<byte>, z: seq<byte>, c: seq<byte>,
                                   base: nat, a: nat, sorted: seq<Entry>, j: nat)
    requires x == h + ids + ps + z + c && |h| == FixedHeaderLength && |ids| == 2 * |sorted|
    requires a > 0 && j <= |sorted| && Readable(x, |sorted|, 4, |sorted|)
    requires ps == Cat(PositionFields(base, a, sorted, 4), |sorted|)
    requires Mark(base, a, sorted, |sorted|) < 0x1_0000_0000
    requires RawAt(x, |sorted|, 4, |sorted|) == Mark(base, a, sorted, |sorted|)
    ensures Readable(x, |sorted|, 4, j) && RawAt(x, |sorted|, 4, j) == Mark(base, a, sorted, j)
  {
    if j < |sorted| {
      RawFact(x, h, ids, ps, z, c, base, a, sorted, j);
    }
  }

  lemma {:induction false} RawFact(x: seq<byte>, h: seq<byte>, ids: seq<byte>, ps: seq<byte>, z: seq<byte>, c: seq<byte>,
                                   base: nat, a: nat, sorted: seq<Entry>, j: nat)
    requires x == h + ids + ps + z + c && |h| == FixedHeaderLength && |ids| == 2 * |sorted|
    requires a > 0 && j < |sorted| && Readable(x, |sorted|, 4, |sorted|)
    requires ps == Cat(PositionFields(base, a, sorted, 4), |sorted|)
    requires Mark(base, a, sorted, |sorted|) < 0x1_0000_0000
    ensures Readable(x, |sorted|, 4, j) && RawAt(x, |sorted|, 4, j) == Mark(base, a, sorted, j)
  {
    ReadableBefore(x, |sorted|, 4, j, |sorted|);
    MarksNonDecreasing(base, a, sorted, j, |sorted|);
    PositionReadsBack(x, h, ids, ps, z, c, base, a, sorted, j);
  }

  /** A decoded entry is made of its id field and the two position fields
      around it. */
  lemma {:induction false} DecodedFromFields(x: seq<byte>, n: nat, a: nat, k: nat, id: u16, r0: nat, r1: nat)
    requires a > 0 && k < n && Readable(x, n, 4, k + 1)
    requires IdAt(x, n, 4, k) == id && RawAt(x, n, 4, k) == r0 && RawAt(x, n, 4, k + 1) == r1
    ensures DecodedAt(x, n, 4, a, k) == Entry(id, AlignUp(r0, a), r1 - AlignUp(r0, a), [])
  {
    ReadableBefore(x, n, 4, k, k + 1);
  }

  // ---------------------------------------------------------------------
  // Payloads

  /** Where `Write` puts payload `k` (in id order): at the pool length before
      it, rounded up to the alignment, behind zero padding. Together with
      `RoundTrip` this says that the position and length decoded for entry
      `k` select exactly the bytes of its file. */
  lemma {:induction false} PayloadRoundTrip(es: seq<Entry>, a: u32, k: nat)
    requires a > 0 && |es| < 0x1_0000 && k < |es|
    requires Encode(es, 2, 4, a).outcome == Pass
    ensures Placed(Encode(es, 2, 4, a).bytes, Mark(HeaderLength(|es|, 2, 4), a, SortById(es), k),
                   AlignUp(Mark(HeaderLength(|es|, 2, 4), a, SortById(es), k), a), SortById(es)[k].file)
  {
    var n := |es|;
    var sorted := SortById(es);
    var base := HeaderLength(n, 2, 4);
    EncodePasses(es, 2, 4, a);
    var ids := Cat(IdFields(sorted), n);
    var ps := Cat(PositionFields(base, a, sorted, 4), n);
    CatLength(IdFields(sorted), n, 2);
    CatLength(PositionFields(base, a, sorted, 4), n, 4);
    var p := Header(n, 2, 4, a) + ids + ps + LE32(ToU32(Mark(base, a, sorted, n)));
    assert |p| == base;
    PartsPayload(Encode(es, 2, 4, a).bytes, p, Content(base, a, sorted, n), base, a, sorted, k);
  }

  /** The same, for a block that is an index of `base` bytes and the pool
      content. */
  lemma {:induction false} PartsPayload(x: seq<byte>, p: seq<byte>, c: seq<byte>, base: nat, a: nat, sorted: seq<Entry>, k: nat)
    requires a > 0 && k < |sorted| && x == p + c && |p| == base && c == Content(base, a, sorted, |sorted|)
    ensures Placed(x, Mark(base, a, sorted, k), AlignUp(Mark(base, a, sorted, k), a), sorted[k].file)
  {
    PayloadPlaced(base, a, sorted, k, |sorted|);
    var m := Mark(base, a, sorted, k);
    PlacedBehind(p, c, m - base, AlignUp(m, a) - base, sorted[k].file);
  }

  /** What is placed in `c` stays placed, shifted, behind a prefix `p`. */
  lemma {:induction false} PlacedBehind(p: seq<byte>, c: seq<byte>, lo: nat, start: nat, f: seq<byte>)
    requires Placed(c, lo, start, f)
    ensures Placed(p + c, |p| + lo, |p| + start, f)
  {
    var x := p + c;
    assert x[|p| + start..|p| + start + |f|] == c[start..start + |f|];
    forall i | |p| + lo <= i < |p| + start ensures x[i] == 0 {
      assert x[i] == c[i - |p|];
    }
  }

  /** Where the pool content starts in the block. `headerLength` counts a
      sentinel of `PositionFieldLength` bytes, but the sentinel is always
      written in four, so with 2-byte positions the content starts two bytes
      after the pool's base length, which every recorded position counts
      from; with 4-byte positions it starts right at it. */
  lemma {:induction false} ContentStart(es: seq<Entry>, posW: u32, a: u32)
    requires Encode(es, 2, posW, a).outcome == Pass && 0 < |es| < 0x1_0000 && a > 0
    ensures ValidPositionWidth(posW)
    ensures HeaderLength(|es|, 2, posW) + (if posW == 2 then 2 else 0) <= |Encode(es, 2, posW, a).bytes|
    ensures |Encode(es, 2, posW, a).bytes|
            == Mark(HeaderLength(|es|, 2, posW), a, SortById(es), |es|) + (if posW == 2 then 2 else 0)
    ensures Encode(es, 2, posW, a).bytes[HeaderLength(|es|, 2, posW) + (if posW == 2 then 2 else 0)..]
            == Content(HeaderLength(|es|, 2, posW), a, SortById(es), |es|)
  {
    var n := |es|;
    var sorted := SortById(es);
    var base := HeaderLength(n, 2, posW);
    EncodePasses(es, 2, posW, a);
    var pf := PositionFields(base, a, sorted, posW);
    CatLength(IdFields(sorted), n, 2);
    CatLength(pf, n, posW);
    ContentLength(base, a, sorted, n);
    HeaderLengthFits(n, posW);
    PartsContentStart(Encode(es, 2, posW, a).bytes, Header(n, 2, posW, a), Cat(IdFields(sorted), n), Cat(pf, n),
                      LE32(ToU32(Mark(base, a, sorted, n))), Content(base, a, sorted, n), n, posW, base);
  }

  lemma {:induction false} PartsContentStart(x: seq<byte>, h: seq<byte>, ids: seq<byte>, ps: seq<byte>, z: seq<byte>, c: seq<byte>,
                                             n: nat, posW: nat, base: nat)
    requires x == h + ids + ps + z + c && |h| == FixedHeaderLength && |ids| == n * 2 && |z| == 4
    requires ValidPositionWidth(posW) && |ps| == n * posW && base == FixedHeaderLength + n * 2 + n * posW + posW
    ensures base + (if posW == 2 then 2 else 0) <= |x| && |x| == base + (if posW == 2 then 2 else 0) + |c|
    ensures x[base + (if posW == 2 then 2 else 0)..] == c
  {
    assert x == (h + ids + ps + z) + c;
  }

  /** With fewer than 65536 entries and a supported position width the header
      length loses nothing to its `uint` cast. */
  lemma {:induction false} HeaderLengthFits(n: nat, posW: u32)
    requires n < 0x1_0000 && ValidPositionWidth(posW)
    ensures HeaderLength(n, 2, posW) == FixedHeaderLength + n * 2 + n * posW + posW
  {
    if posW == 2 {
      assert n * posW == n * 2;
    } else {
      assert n * posW == n * 4;
    }
  }
}
