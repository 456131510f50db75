/** `CriAfs2Archive`: decoding and encoding of an AFS2 block, and lookup by id.

    The input of `Read` is the whole stream, as bytes, with the block at offset
    0; `Seek` becomes indexing. The output of `Write` is returned as the bytes
    written, including those written before an error. Exceptions become the
    `Fail` outcome; the fields and entries keep whatever the code changed
    before it threw. */
module Archive {
  import opened Wire
  import opened Layout
  import opened Entries
  import opened Pool

  datatype Error =
    | BadSignature                       // first four bytes are not "AFS2"
    | Truncated                          // a field lies past the end of the input
    | UnknownType(t: u32)                // table type other than 1
    | UnknownIdFieldLength(w: u32)       // id field width other than 2
    | UnknownPositionFieldLength(w: u32) // position field width other than 2 or 4
    | ZeroAlignment                      // `Helpers.Align` or `Put` asked to align to 0

  datatype Outcome = Pass | Fail(error: Error)

  datatype Widths = Widths(id: u32, position: u32)

  // ---------------------------------------------------------------------
  // Decoding

  /** Position field `k` (or, at `k == n`, the sentinel) lies within `s`. */
  predicate Readable(s: seq<byte>, n: nat, posW: nat, k: nat)
  {
    ValidPositionWidth(posW) && PositionOffset(n, k + 1, 2, posW) <= |s|
  }

  /** A readable field means every earlier one is readable too. */
  lemma {:induction false} ReadableBefore(s: seq<byte>, n: nat, posW: nat, j: nat, k: nat)
    requires j <= k && Readable(s, n, posW, k)
    ensures Readable(s, n, posW, j)
  {
    PositionOffsetMonotone(n, j + 1, k + 1, 2, posW);
  }

  /** The id field of entry `k` ends before its position field does. */
  lemma {:induction false} IdBeforePosition(n: nat, posW: nat, k: nat)
    requires ValidPositionWidth(posW) && k < n
    ensures IdOffset(k, 2) + 2 <= PositionOffset(n, k + 1, 2, posW)
  {
    PositionOffsetMonotone(n, 0, k + 1, 2, posW);
  }

  /** The id of entry `k`, from the id table. */
  function IdAt(s: seq<byte>, n: nat, posW: nat, k: nat): u16
    requires k < n && Readable(s, n, posW, k)
  {
    IdBeforePosition(n, posW, k);
    U16At(s, IdOffset(k, 2))
  }

  /** The raw, unaligned value of position field `k`; `k == n` is the sentinel. */
  function RawAt(s: seq<byte>, n: nat, posW: nat, k: nat): nat
    requires k <= n && Readable(s, n, posW, k)
  {
    var off := PositionOffset(n, k, 2, posW);
    if posW == 2 then U16At(s, off) else U32At(s, off)
  }

  /** Entry `k` once the next position field (or the sentinel) is known: its
      payload starts at its raw position rounded up to the alignment and ends
      at the next raw position. */
  function DecodedAt(s: seq<byte>, n: nat, posW: nat, a: nat, k: nat): Entry
    requires a > 0 && k < n && Readable(s, n, posW, k + 1)
  {
    ReadableBefore(s, n, posW, k, k + 1);
    var position := AlignUp(RawAt(s, n, posW, k), a);
    Entry(IdAt(s, n, posW, k), position, RawAt(s, n, posW, k + 1) - position, [])
  }

  /** Entry `k` before the next position is read: its length is still 0. */
  function PendingAt(s: seq<byte>, n: nat, posW: nat, a: nat, k: nat): Entry
    requires a > 0 && k < n && Readable(s, n, posW, k)
  {
    Entry(IdAt(s, n, posW, k), AlignUp(RawAt(s, n, posW, k), a), 0, [])
  }

  /** Entries `0 .. m - 1`, each with its length. */
  function Decoded(s: seq<byte>, n: nat, posW: nat, a: nat, m: nat): (es: seq<Entry>)
    requires a > 0 && m <= n && (m > 0 ==> Readable(s, n, posW, m))
    ensures |es| == m
  {
    if m == 0 then []
    else
      ReadableBefore(s, n, posW, m - 1, m);
      Decoded(s, n, posW, a, m - 1) + [DecodedAt(s, n, posW, a, m - 1)]
  }

  /** What the loop of `Read` knows after `i` iterations: the widths and the
      alignment passed their checks, and every field read so far lay within
      the input (the sentinel too, once all `n` are done). */
  predicate Progress(s: seq<byte>, n: nat, idW: nat, posW: nat, a: nat, i: nat)
  {
    i <= n
    && (i > 0 ==> idW == 2 && a > 0 && Readable(s, n, posW, if i < n then i - 1 else n))
  }

  /** What `Read` has appended after `i` iterations: the last entry waits for
      its length until the next position (or the sentinel) is read. */
  function Entered(s: seq<byte>, n: nat, idW: nat, posW: nat, a: nat, i: nat): (es: seq<Entry>)
    requires Progress(s, n, idW, posW, a, i)
    ensures |es| == i
  {
    if i == 0 then []
    else if i < n then Decoded(s, n, posW, a, i - 1) + [PendingAt(s, n, posW, a, i - 1)]
    else Decoded(s, n, posW, a, n)
  }

  /** The loop of `Read` over an `n`-entry index: what it appends and how it
      ends. */
  function DecodeIndex(s: seq<byte>, n: nat, idW: u32, posW: u32, a: u32): (seq<Entry>, Outcome)
  {
    if n == 0 then ([], Pass)
    else if idW != 2 then ([], Fail(UnknownIdFieldLength(idW)))
    else if |s| < IdOffset(0, 2) + 2 then ([], Fail(Truncated))
    else if !ValidPositionWidth(posW) then ([], Fail(UnknownPositionFieldLength(posW)))
    else
      var c := PositionsWithin(|s|, n, posW);
      if c == 0 then ([], Fail(Truncated))
      else if a == 0 then ([], Fail(ZeroAlignment))
      else if c < n then (Entered(s, n, idW, posW, a, c), Fail(Truncated))
      else if !Readable(s, n, posW, n) then (Decoded(s, n, posW, a, n - 1), Fail(Truncated))
      else (Decoded(s, n, posW, a, n), Pass)
  }

  /** Everything `Read` does to the archive: the widths and alignment it sets
      (if it gets that far), the entries it appends and how it ends. */
  datatype Decoding = Decoding(widths: Option<Widths>, align: Option<u32>,
                               appended: seq<Entry>, outcome: Outcome)

  function Decode(s: seq<byte>): Decoding
  {
    if |s| < 4 || s[..4] != Signature then Decoding(None, None, [], Fail(BadSignature))
    else if |s| < 8 then Decoding(None, None, [], Fail(Truncated))
    else
      var w := U32At(s, 4);
      if TypeOf(w) != 1 then Decoding(None, None, [], Fail(UnknownType(TypeOf(w))))
      else
        var ws := Widths(IdWidthOf(w), PositionWidthOf(w));
        if |s| < FixedHeaderLength then Decoding(Some(ws), None, [], Fail(Truncated))
        else
          var n := ToU16(U32At(s, 8));
          var a := U32At(s, 12);
          var d := DecodeIndex(s, n, ws.id, ws.position, a);
          Decoding(Some(ws), Some(a), d.0, d.1)
  }

  // ---------------------------------------------------------------------
  // How each iteration of the loop of Read ends

  /** The first id field does not fit: the loads fail before anything else. */
  lemma {:induction false} IdFails(s: seq<byte>, n: nat, posW: u32, a: u32)
    requires n > 0 && |s| < IdOffset(0, 2) + 2
    ensures DecodeIndex(s, n, 2, posW, a) == ([], Fail(Truncated))
  {
  }

  /** Position field `i` does not fit: the loop stops with what it entered. */
  lemma {:induction false} PositionFails(s: seq<byte>, n: nat, posW: u32, a: u32, i: nat)
    requires ValidPositionWidth(posW) && i < n && Progress(s, n, 2, posW, a, i)
    requires IdOffset(0, 2) + 2 <= |s| && |s| < PositionOffset(n, i + 1, 2, posW)
    ensures DecodeIndex(s, n, 2, posW, a) == (Entered(s, n, 2, posW, a, i), Fail(Truncated))
  {
    PositionsWithinUnique(|s|, n, posW, i);
  }

  /** A zero alignment stops the first iteration, once its fields were read. */
  lemma {:induction false} AlignmentFails(s: seq<byte>, n: nat, posW: u32)
    requires n > 0 && Readable(s, n, posW, 0)
    ensures DecodeIndex(s, n, 2, posW, 0) == ([], Fail(ZeroAlignment))
  {
    IdBeforePosition(n, posW, 0);
  }

  /** The sentinel does not fit: every entry but the last is complete. */
  lemma {:induction false} SentinelFails(s: seq<byte>, n: nat, posW: u32, a: u32)
    requires n > 0 && a > 0 && Readable(s, n, posW, n - 1)
    requires |s| < PositionOffset(n, n + 1, 2, posW)
    ensures DecodeIndex(s, n, 2, posW, a) == (Decoded(s, n, posW, a, n - 1), Fail(Truncated))
  {
    IdBeforePosition(n, posW, 0);
    ReadableBefore(s, n, posW, 0, n - 1);
    PositionsWithinUnique(|s|, n, posW, n);
  }

  /** Every field, the sentinel included, fits: all entries are complete. */
  lemma {:induction false} IndexCompletes(s: seq<byte>, n: nat, idW: u32, posW: u32, a: u32)
    requires n > 0 && Progress(s, n, idW, posW, a, n)
    ensures DecodeIndex(s, n, idW, posW, a) == (Entered(s, n, idW, posW, a, n), Pass)
  {
    IdBeforePosition(n, posW, 0);
    ReadableBefore(s, n, posW, 0, n);
    ReadableBefore(s, n, posW, n - 1, n);
    PositionsWithinUnique(|s|, n, posW, n);
  }

  /** Past the first iteration the next id field always fits. */
  lemma {:induction false} IdFits(s: seq<byte>, n: nat, posW: nat, i: nat)
    requires 0 < i < n && Readable(s, n, posW, i - 1)
    ensures IdOffset(i, 2) + 2 <= |s| && IdOffset(0, 2) + 2 <= |s|
  {
    PositionOffsetMonotone(n, 0, i, 2, posW);
  }

  /** Completing the length of the pending entry turns what was entered into
      the first `i` decoded entries. */
  lemma {:induction false} CompletePrevious(s: seq<byte>, n: nat, posW: nat, a: nat, i: nat, start: seq<Entry>)
    requires a > 0 && 0 < i < n && Readable(s, n, posW, i)
    ensures Readable(s, n, posW, i - 1)
    ensures start + Entered(s, n, 2, posW, a, i)
            == (start + Decoded(s, n, posW, a, i - 1)) + [PendingAt(s, n, posW, a, i - 1)]
    ensures start + Decoded(s, n, posW, a, i)
            == (start + Decoded(s, n, posW, a, i - 1)) + [DecodedAt(s, n, posW, a, i - 1)]
    ensures DecodedAt(s, n, posW, a, i - 1)
            == PendingAt(s, n, posW, a, i - 1).(length := RawAt(s, n, posW, i) - PendingAt(s, n, posW, a, i - 1).position)
  {
    ReadableBefore(s, n, posW, i - 1, i);
    EnteredBefore(s, n, posW, a, i, start);
    DecodedStep(s, n, posW, a, i, start);
    PendingCompletes(s, n, posW, a, i);
  }

  lemma {:induction false} EnteredBefore(s: seq<byte>, n: nat, posW: nat, a: nat, i: nat, start: seq<Entry>)
    requires a > 0 && 0 < i < n && Readable(s, n, posW, i - 1)
    ensures start + Entered(s, n, 2, posW, a, i)
            == (start + Decoded(s, n, posW, a, i - 1)) + [PendingAt(s, n, posW, a, i - 1)]
  {
    var d := Decoded(s, n, posW, a, i - 1);
    assert start + (d + [PendingAt(s, n, posW, a, i - 1)]) == (start + d) + [PendingAt(s, n, posW, a, i - 1)];
  }

  lemma {:induction false} DecodedStep(s: seq<byte>, n: nat, posW: nat, a: nat, i: nat, start: seq<Entry>)
    requires a > 0 && 0 < i <= n && Readable(s, n, posW, i) && Readable(s, n, posW, i - 1)
    ensures start + Decoded(s, n, posW, a, i)
            == (start + Decoded(s, n, posW, a, i - 1)) + [DecodedAt(s, n, posW, a, i - 1)]
  {
    var d := Decoded(s, n, posW, a, i - 1);
    assert start + (d + [DecodedAt(s, n, posW, a, i - 1)]) == (start + d) + [DecodedAt(s, n, posW, a, i - 1)];
  }

  lemma {:induction false} PendingCompletes(s: seq<byte>, n: nat, posW: nat, a: nat, i: nat)
    requires a > 0 && 0 < i < n && Readable(s, n, posW, i) && Readable(s, n, posW, i - 1)
    ensures DecodedAt(s, n, posW, a, i - 1)
            == PendingAt(s, n, posW, a, i - 1).(length := RawAt(s, n, posW, i) - PendingAt(s, n, posW, a, i - 1).position)
  {
  }

  /** Replacing the last element. */
  lemma {:induction false} UpdateLast(xs: seq<Entry>, p: Entry, q: Entry)
    ensures (xs + [p])[|xs| := q] == xs + [q]
  {
    assert forall k :: 0 <= k < |xs| ==> (xs + [p])[|xs| := q][k] == xs[k];
  }

  /** After iteration `i` the new entry joins the decoded ones. */
  lemma {:induction false} EnterNext(s: seq<byte>, n: nat, posW: nat, a: nat, i: nat, start: seq<Entry>)
    requires a > 0 && i + 1 < n && Readable(s, n, posW, i)
    ensures (start + Decoded(s, n, posW, a, i)) + [PendingAt(s, n, posW, a, i)]
            == start + Entered(s, n, 2, posW, a, i + 1)
  {
    var d := Decoded(s, n, posW, a, i);
    assert start + (d + [PendingAt(s, n, posW, a, i)]) == (start + d) + [PendingAt(s, n, posW, a, i)];
  }

  lemma {:induction false} EnterLast(s: seq<byte>, n: nat, posW: nat, a: nat, start: seq<Entry>)
    requires a > 0 && n > 0 && Readable(s, n, posW, n)
    ensures Readable(s, n, posW, n - 1)
    ensures (start + Decoded(s, n, posW, a, n - 1)) + [DecodedAt(s, n, posW, a, n - 1)]
            == start + Entered(s, n, 2, posW, a, n)
  {
    ReadableBefore(s, n, posW, n - 1, n);
    var d := Decoded(s, n, posW, a, n - 1);
    assert start + (d + [DecodedAt(s, n, posW, a, n - 1)]) == (start + d) + [DecodedAt(s, n, posW, a, n - 1)];
  }

  // ---------------------------------------------------------------------
  // Encoding

  /** `headerLength`: the fixed header, both tables and the sentinel field
      (counted `posW` wide), cast to `uint`. This is where the pool starts. */
  function HeaderLength(n: nat, idW: u32, posW: u32): u32
  {
    ToU32(FixedHeaderLength + n * idW + n * posW + posW)
  }

  /** The 16 bytes `Write` emits first: signature, control word, the entry
      count cast to `ushort` and the alignment. */
  function Header(n: nat, idW: u32, posW: u32, a: u32): (h: seq<byte>)
    ensures |h| == FixedHeaderLength
  {
    Signature + LE32(PackControl(idW, posW)) + LE32(ToU16(n)) + LE32(a)
  }

  /** The id fields of `es`, one `WriteUInt16` per entry. */
  function IdFields(es: seq<Entry>): (ps: seq<seq<byte>>)
    ensures |ps| == |es|
  {
    seq(|es|, k requires 0 <= k < |es| => LE16(es[k].id))
  }

  /** One position field: `(ushort)x` in two bytes, or `x` in four. */
  function PositionField(x: u32, posW: u32): (b: seq<byte>)
    requires ValidPositionWidth(posW)
    ensures |b| == posW
  {
    if posW == 2 then LE16(ToU16(x)) else LE32(x)
  }

  /** The position fields of `es`: entry `k` gets the pool length just
      before its payload was put, cast to `uint`. */
  function PositionFields(base: nat, a: nat, es: seq<Entry>, posW: u32): (ps: seq<seq<byte>>)
    requires a > 0 && ValidPositionWidth(posW)
    ensures |ps| == |es|
  {
    seq(|es|, k requires 0 <= k < |es| => PositionField(ToU32(Mark(base, a, es, k)), posW))
  }

  /** The list after the first `k` iterations of the position loop: the entry
      at list index `order[t]`, for each `t < k`, has its `Position`
      overwritten with the raw pool length of the `t`-th entry in that order. */
  function Reposition(es: seq<Entry>, order: seq<nat>, base: nat, a: nat, k: nat): (r: seq<Entry>)
    requires a > 0 && k <= |order| && forall t :: 0 <= t < |order| ==> order[t] < |es|
    ensures |r| == |es|
  {
    if k == 0 then es
    else
      var r := Reposition(es, order, base, a, k - 1);
      r[order[k - 1] := r[order[k - 1]].(position := ToU32(Mark(base, a, Select(es, order), k - 1)))]
  }

  /** Everything `Write` does: the bytes it emits (up to an error), the entry
      list it leaves, and how it ends. */
  datatype Encoding = Encoding(bytes: seq<byte>, entries: seq<Entry>, outcome: Outcome)

  function Encode(es: seq<Entry>, idW: u32, posW: u32, a: u32): Encoding
  {
    var n := |es|;
    var base := HeaderLength(n, idW, posW);
    var head := Header(n, idW, posW, a);
    var sorted := SortById(es);
    if n == 0 then Encoding(head + LE32(base), es, Pass)
    else if idW != 2 then Encoding(head, es, Fail(UnknownIdFieldLength(idW)))
    else
      var ids := Cat(IdFields(sorted), n);
      if a == 0 then Encoding(head + ids, es, Fail(ZeroAlignment))
      else if !ValidPositionWidth(posW) then Encoding(head + ids, es, Fail(UnknownPositionFieldLength(posW)))
      else
        Encoding(head + ids + Cat(PositionFields(base, a, sorted, posW), n)
                   + LE32(ToU32(Mark(base, a, sorted, n))) + Content(base, a, sorted, n),
                 Reposition(es, SortedOrder(es, n), base, a, n), Pass)
  }

  /** How `Encode` ends, case by case. */
  lemma {:induction false} EncodeEmpty(es: seq<Entry>, idW: u32, posW: u32, a: u32, head: seq<byte>, positions: seq<byte>, c: seq<byte>, m: nat)
    requires |es| == 0 && head == Header(0, idW, posW, a) + Cat(IdFields(SortById(es)), 0)
    requires positions == [] && c == [] && m == HeaderLength(0, idW, posW)
    ensures Encode(es, idW, posW, a) == Encoding(head + positions + LE32(ToU32(m)) + c, es, Pass)
  {
    assert head + positions + LE32(ToU32(m)) + c == Header(0, idW, posW, a) + LE32(HeaderLength(0, idW, posW));
  }

  lemma {:induction false} EncodeIdFails(es: seq<Entry>, idW: u32, posW: u32, a: u32)
    requires |es| > 0 && idW != 2
    ensures Encode(es, idW, posW, a) == Encoding(Header(|es|, idW, posW, a), es, Fail(UnknownIdFieldLength(idW)))
  {
  }

  lemma {:induction false} EncodePositionsFail(es: seq<Entry>, posW: u32, a: u32, ids: seq<byte>, r: Outcome)
    requires |es| > 0 && ids == Cat(IdFields(SortById(es)), |es|)
    requires r == if a == 0 then Fail(ZeroAlignment) else Fail(UnknownPositionFieldLength(posW))
    requires a == 0 || !ValidPositionWidth(posW)
    ensures Encode(es, 2, posW, a) == Encoding(Header(|es|, 2, posW, a) + ids, es, r)
  {
  }

  lemma {:induction false} EncodeCompletes(es: seq<Entry>, posW: u32, a: u32, head: seq<byte>, positions: seq<byte>, c: seq<byte>, m: nat)
    requires |es| > 0 && a > 0 && ValidPositionWidth(posW)
    requires head == Header(|es|, 2, posW, a) + Cat(IdFields(SortById(es)), |es|)
    requires positions == Cat(PositionFields(HeaderLength(|es|, 2, posW), a, SortById(es), posW), |es|)
    requires m == Mark(HeaderLength(|es|, 2, posW), a, SortById(es), |es|)
    requires c == Content(HeaderLength(|es|, 2, posW), a, SortById(es), |es|)
    ensures Encode(es, 2, posW, a)
            == Encoding(head + positions + LE32(ToU32(m)) + c,
                        Reposition(es, SortedOrder(es, |es|), HeaderLength(|es|, 2, posW), a, |es|), Pass)
  {
  }

  // ---------------------------------------------------------------------
  // The archive

  class CriAfs2Archive {
    var align: u32
    var idFieldLength: u32
    var positionFieldLength: u32
    var entries: seq<Entry>

    /** Defaults: alignment 32, 2-byte ids, 4-byte positions. The entry list
        comes from `ArchiveBase`, which is not part of this model; it is taken
        to start empty. */
    constructor ()
      ensures align == 32 && idFieldLength == 2 && positionFieldLength == 4
      ensures entries == []
    {
      align := 32;
      idFieldLength := 2;
      positionFieldLength := 4;
      entries := [];
    }

    /** `GetById`: the first entry, in list order, whose id is `cueIndex`. */
    function GetById(cueIndex: u32): (r: Option<Entry>)
      reads this
      ensures r.None? <==> forall k :: 0 <= k < |entries| ==> entries[k].id != cueIndex
      ensures r.Some? ==> exists k :: 0 <= k < |entries| && entries[k] == r.value
                            && entries[k].id == cueIndex
                            && forall j :: 0 <= j < k ==> entries[j].id != cueIndex
    {
      FirstWithId(entries, cueIndex)
    }

    /** `Read`: decode the block in `source`, appending its entries. */
    method Read(source: seq<byte>) returns (r: Outcome)
      modifies this
      ensures r == Decode(source).outcome
      ensures entries == old(entries) + Decode(source).appended
      ensures Decode(source).widths.Some? ==>
                idFieldLength == Decode(source).widths.value.id
                && positionFieldLength == Decode(source).widths.value.position
      ensures Decode(source).widths.None? ==>
                idFieldLength == old(idFieldLength) && positionFieldLength == old(positionFieldLength)
      ensures align == (if Decode(source).align.Some? then Decode(source).align.value else old(align))
    {
      if |source| < 4 || source[..4] != Signature {
        return Fail(BadSignature);
      }
      if |source| < 8 {
        return Fail(Truncated);
      }
      var information := U32At(source, 4);
      var t := TypeOf(information);
      if t != 1 {
        return Fail(UnknownType(t));
      }
      idFieldLength := IdWidthOf(information);
      positionFieldLength := PositionWidthOf(information);
      if |source| < 12 {
        return Fail(Truncated);
      }
      var entryCount := ToU16(U32At(source, 8));
      if |source| < 16 {
        return Fail(Truncated);
      }
      align := U32At(source, 12);
      r := ReadIndex(source, entryCount);
    }

    /** The loop of `Read` over the `n` entries of the index. */
    method ReadIndex(source: seq<byte>, n: nat) returns (r: Outcome)
      modifies this`entries
      ensures entries == old(entries) + DecodeIndex(source, n, idFieldLength, positionFieldLength, align).0
      ensures r == DecodeIndex(source, n, idFieldLength, positionFieldLength, align).1
    {
      ghost var start := entries;
      var i := 0;
      while i < n
        invariant Progress(source, n, idFieldLength, positionFieldLength, align, i)
        invariant entries == start + Entered(source, n, idFieldLength, positionFieldLength, align, i)
      {
        r := ReadEntry(source, n, i, start);
        if r.Fail? {
          return;
        }
        i := i + 1;
      }
      if n > 0 {
        IndexCompletes(source, n, idFieldLength, positionFieldLength, align);
      }
      r := Pass;
    }

    /** Iteration `i` of that loop: load the id and the raw position of entry
        `i`, complete the length of entry `i - 1`, align the position and, for
        the last entry, take its length from the sentinel. */
    method ReadEntry(source: seq<byte>, n: nat, i: nat, ghost start: seq<Entry>) returns (r: Outcome)
      requires i < n && Progress(source, n, idFieldLength, positionFieldLength, align, i)
      requires entries == start + Entered(source, n, idFieldLength, positionFieldLength, align, i)
      modifies this`entries
      ensures r.Fail? ==>
                entries == start + DecodeIndex(source, n, idFieldLength, positionFieldLength, align).0
                && r == DecodeIndex(source, n, idFieldLength, positionFieldLength, align).1
      ensures r.Pass? ==>
                Progress(source, n, idFieldLength, positionFieldLength, align, i + 1)
                && entries == start + Entered(source, n, idFieldLength, positionFieldLength, align, i + 1)
    {
      var id, raw;
      r, id, raw := LoadFields(source, n, i);
      if r.Fail? {
        return;
      }
      if i > 0 {
        CompletePending(source, n, i, raw, start);
      } else {
        assert start + [] == start;
      }
      if align == 0 {
        AlignmentFails(source, n, positionFieldLength);
        return Fail(ZeroAlignment);
      }
      assert entries == start + Decoded(source, n, positionFieldLength, align, i);
      var position := AlignUp(raw, align);
      if i == n - 1 {
        var sentinel;
        r, sentinel := LoadSentinel(source, n);
        if r.Fail? {
          return;
        }
        EnterLast(source, n, positionFieldLength, align, start);
        assert Entry(id, position, sentinel as int - position, []) == DecodedAt(source, n, positionFieldLength, align, i);
        var length := sentinel as int - position;
        entries := entries + [Entry(id, position, length, [])];
      } else {
        EnterNext(source, n, positionFieldLength, align, i, start);
        assert Entry(id, position, 0, []) == PendingAt(source, n, positionFieldLength, align, i);
        entries := entries + [Entry(id, position, 0, [])];
      }
    }

    /** The length of entry `i - 1`, the last one appended, runs up to the raw
        position of entry `i`. */
    method CompletePending(source: seq<byte>, n: nat, i: nat, raw: nat, ghost start: seq<Entry>)
      requires 0 < i < n && Progress(source, n, idFieldLength, positionFieldLength, align, i)
      requires Readable(source, n, positionFieldLength, i) && raw == RawAt(source, n, positionFieldLength, i)
      requires entries == start + Entered(source, n, idFieldLength, positionFieldLength, align, i)
      modifies this`entries
      ensures entries == start + Decoded(source, n, positionFieldLength, align, i)
    {
      CompletePrevious(source, n, positionFieldLength, align, i, start);
      ghost var done := start + Decoded(source, n, positionFieldLength, align, i - 1);
      ghost var pending := PendingAt(source, n, positionFieldLength, align, i - 1);
      assert entries == done + [pending];
      var previous := entries[|entries| - 1];
      assert previous == pending;
      var completed := previous.(length := raw - previous.position);
      assert completed == DecodedAt(source, n, positionFieldLength, align, i - 1);
      UpdateLast(done, pending, completed);
      entries := entries[|entries| - 1 := completed];
    }

    /** The loads of iteration `i`: the id field, then the position field in
        the width the control word gave. */
    method LoadFields(source: seq<byte>, n: nat, i: nat) returns (r: Outcome, id: u16, raw: nat)
      requires i < n && Progress(source, n, idFieldLength, positionFieldLength, align, i)
      ensures r.Fail? ==>
                DecodeIndex(source, n, idFieldLength, positionFieldLength, align)
                == (Entered(source, n, idFieldLength, positionFieldLength, align, i), r)
      ensures r.Pass? ==>
                idFieldLength == 2 && Readable(source, n, positionFieldLength, i)
                && id == IdAt(source, n, positionFieldLength, i)
                && raw == RawAt(source, n, positionFieldLength, i)
    {
      id, raw := 0, 0;
      var idPosition := IdOffset(i, idFieldLength);
      if idFieldLength != 2 {
        return Fail(UnknownIdFieldLength(idFieldLength)), id, raw;
      }
      if i > 0 {
        IdFits(source, n, positionFieldLength, i);
      }
      if |source| < idPosition + 2 {
        IdFails(source, n, positionFieldLength, align);
        return Fail(Truncated), id, raw;
      }
      id := U16At(source, idPosition);
      var positionPosition := PositionOffset(n, i, idFieldLength, positionFieldLength);
      if positionFieldLength == 2 {
        if |source| < positionPosition + 2 {
          PositionFails(source, n, positionFieldLength, align, i);
          return Fail(Truncated), id, raw;
        }
        raw := U16At(source, positionPosition);
      } else if positionFieldLength == 4 {
        if |source| < positionPosition + 4 {
          PositionFails(source, n, positionFieldLength, align, i);
          return Fail(Truncated), id, raw;
        }
        raw := U32At(source, positionPosition);
      } else {
        return Fail(UnknownPositionFieldLength(positionFieldLength)), id, raw;
      }
      r := Pass;
    }

    /** The sentinel after the last position field: the end of the last
        payload. */
    method LoadSentinel(source: seq<byte>, n: nat) returns (r: Outcome, sentinel: nat)
      requires n > 0 && align > 0 && idFieldLength == 2
      requires Readable(source, n, positionFieldLength, n - 1)
      ensures r.Fail? ==>
                DecodeIndex(source, n, idFieldLength, positionFieldLength, align)
                == (Decoded(source, n, positionFieldLength, align, n - 1), r)
      ensures r.Pass? ==>
                Readable(source, n, positionFieldLength, n)
                && sentinel == RawAt(source, n, positionFieldLength, n)
    {
      // the stream stands right after the last position field
      var sentinelPosition := PositionOffset(n, n, idFieldLength, positionFieldLength);
      if |source| < sentinelPosition + positionFieldLength {
        SentinelFails(source, n, positionFieldLength, align);
        return Fail(Truncated), 0;
      }
      sentinel := if positionFieldLength == 2 then U16At(source, sentinelPosition)
                  else U32At(source, sentinelPosition);
      r := Pass;
    }

    /** `Write`: emit the header, the id table and the position table in id
        order, the sentinel and the pool. */
    method Write() returns (out: seq<byte>, r: Outcome)
      modifies this`entries
      ensures Encoding(out, entries, r) == Encode(old(entries), idFieldLength, positionFieldLength, align)
    {
      var n := |entries|;
      var headerLength := HeaderLength(n, idFieldLength, positionFieldLength);
      out := Header(n, idFieldLength, positionFieldLength, align);
      var pool := new VldPool(align, headerLength);
      var order := SortedOrder(entries, n);
      var sorted := Select(entries, order);
      var ids;
      r, ids := WriteIds(sorted);
      if r.Fail? {
        EncodeIdFails(entries, idFieldLength, positionFieldLength, align);
        return;
      }
      out, r := WriteRest(pool, order, sorted, out + ids, ids);
    }

    /** The rest of `Write` once the id table is out: the position loop, the
        sentinel and the pool. */
    method WriteRest(pool: VldPool, order: seq<nat>, sorted: seq<Entry>, head: seq<byte>, ghost ids: seq<byte>)
      returns (out: seq<byte>, r: Outcome)
      requires pool.Valid() && pool.length == pool.baseLength && pool.content == [] && pool.align == align
      requires pool.baseLength == HeaderLength(|entries|, idFieldLength, positionFieldLength)
      requires order == SortedOrder(entries, |entries|) && sorted == Select(entries, order)
      requires |entries| == 0 || idFieldLength == 2
      requires ids == Cat(IdFields(sorted), |sorted|)
      requires head == Header(|entries|, idFieldLength, positionFieldLength, align) + ids
      modifies pool, this`entries
      ensures Encoding(out, entries, r) == Encode(old(entries), idFieldLength, positionFieldLength, align)
    {
      ghost var es := entries;
      var positions;
      r, positions := WritePositions(pool, order, sorted);
      out := head + positions;
      if r.Fail? {
        EncodePositionsFail(es, positionFieldLength, align, ids, r);
        return;
      }
      out := out + LE32(ToU32(pool.length));
      out := out + pool.content;
      if |es| == 0 {
        EncodeEmpty(es, idFieldLength, positionFieldLength, align, head, positions, pool.content, pool.length);
      } else {
        EncodeCompletes(es, positionFieldLength, align, head, positions, pool.content, pool.length);
      }
    }

    /** The first loop of `Write`: one id field per entry, in the order given. */
    method WriteIds(sorted: seq<Entry>) returns (r: Outcome, ids: seq<byte>)
      ensures r == if |sorted| > 0 && idFieldLength != 2 then Fail(UnknownIdFieldLength(idFieldLength)) else Pass
      ensures r.Pass? ==> ids == Cat(IdFields(sorted), |sorted|)
      ensures r.Fail? ==> ids == []
    {
      ids := [];
      for k := 0 to |sorted|
        invariant k > 0 ==> idFieldLength == 2
        invariant ids == Cat(IdFields(sorted), k)
      {
        if idFieldLength != 2 {
          return Fail(UnknownIdFieldLength(idFieldLength)), ids;
        }
        ids := ids + LE16(sorted[k].id);
      }
      r := Pass;
    }

    /** The second loop of `Write`: for each entry in order, note the pool
        length, put the payload, emit the noted length as its position field
        and store it as the entry's `Position`. */
    method WritePositions(pool: VldPool, order: seq<nat>, sorted: seq<Entry>) returns (r: Outcome, positions: seq<byte>)
      requires pool.Valid() && pool.length == pool.baseLength && pool.content == [] && pool.align == align
      requires order == SortedOrder(entries, |entries|) && sorted == Select(entries, order)
      modifies pool, this`entries
      ensures r == if |sorted| == 0 then Pass
                   else if align == 0 then Fail(ZeroAlignment)
                   else if !ValidPositionWidth(positionFieldLength) then Fail(UnknownPositionFieldLength(positionFieldLength))
                   else Pass
      ensures r.Fail? ==> entries == old(entries) && positions == []
      ensures |sorted| == 0 ==> entries == old(entries) && positions == [] && pool.length == pool.baseLength && pool.content == []
      ensures r.Pass? && |sorted| > 0 ==>
                align > 0 && ValidPositionWidth(positionFieldLength)
                && positions == Cat(PositionFields(pool.baseLength, align, sorted, positionFieldLength), |sorted|)
                && pool.length == Mark(pool.baseLength, align, sorted, |sorted|)
                && pool.content == Content(pool.baseLength, align, sorted, |sorted|)
                && entries == Reposition(old(entries), order, pool.baseLength, align, |sorted|)
    {
      ghost var es := entries;
      positions := [];
      for k := 0 to |sorted|
        invariant pool.Valid() && pool.align == align && |entries| == |es|
        invariant k == 0 ==> pool.length == pool.baseLength && pool.content == [] && entries == es && positions == []
        invariant k > 0 ==> align > 0 && ValidPositionWidth(positionFieldLength)
        invariant k > 0 ==> pool.length == Mark(pool.baseLength, align, sorted, k)
                            && pool.content == Content(pool.baseLength, align, sorted, k)
                            && positions == Cat(PositionFields(pool.baseLength, align, sorted, positionFieldLength), k)
                            && entries == Reposition(es, order, pool.baseLength, align, k)
      {
        if align == 0 {
          return Fail(ZeroAlignment), positions;
        }
        var field;
        r, field := PlaceEntry(pool, order, sorted, k, es);
        if r.Fail? {
          return;
        }
        positions := positions + field;
      }
      r := Pass;
    }

    /** Iteration `k` of that loop, once the alignment is known not to be 0. */
    method PlaceEntry(pool: VldPool, order: seq<nat>, sorted: seq<Entry>, k: nat, ghost es: seq<Entry>)
      returns (r: Outcome, field: seq<byte>)
      requires k < |sorted| && order == SortedOrder(es, |es|) && sorted == Select(es, order)
      requires pool.Valid() && pool.align == align && align > 0
      requires pool.length == Mark(pool.baseLength, align, sorted, k)
      requires pool.content == Content(pool.baseLength, align, sorted, k)
      requires entries == Reposition(es, order, pool.baseLength, align, k)
      modifies pool, this`entries
      ensures pool.Valid() && pool.align == align
      ensures pool.length == Mark(pool.baseLength, align, sorted, k + 1)
      ensures pool.content == Content(pool.baseLength, align, sorted, k + 1)
      ensures r == if ValidPositionWidth(positionFieldLength) then Pass
                   else Fail(UnknownPositionFieldLength(positionFieldLength))
      ensures r.Fail? ==> entries == old(entries)
      ensures r.Pass? ==>
                field == PositionField(ToU32(Mark(pool.baseLength, align, sorted, k)), positionFieldLength)
                && entries == Reposition(es, order, pool.baseLength, align, k + 1)
    {
      var entryPosition := ToU32(pool.length);
      ContentStep(pool.baseLength, align, sorted, k);
      pool.Put(sorted[k].file);
      if positionFieldLength == 2 {
        field := LE16(ToU16(entryPosition));
      } else if positionFieldLength == 4 {
        field := LE32(entryPosition);
      } else {
        return Fail(UnknownPositionFieldLength(positionFieldLength)), [];
      }
      entries := entries[order[k] := entries[order[k]].(position := entryPosition)];
      r := Pass;
    }
  }
}
