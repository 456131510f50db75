/** `VldPool`, the growing data area that `Write` lays the payloads out in.
    Its source is not part of this model. What the model assumes of it: a pool
    starts at a given length (the index length) with no bytes; `Put` pads the
    length up to the next multiple of the alignment with zero bytes and then
    appends the file's bytes; `Write` emits the bytes put so far. */
module Pool {
  import opened Wire
  import opened Layout
  import opened Entries

  /** `k` zero bytes of padding. */
  function Zeros(k: nat): (z: seq<byte>)
    ensures |z| == k && forall i :: 0 <= i < k ==> z[i] == 0
  {
    seq(k, i => 0)
  }

  /** The pool length once the payloads of the first `k` entries of `es` were
      put, starting from `base`: each `Put` pads to the alignment and adds
      one file. */
  function Mark(base: nat, a: nat, es: seq<Entry>, k: nat): nat
    requires a > 0 && k <= |es|
  {
    if k == 0 then base else AlignUp(Mark(base, a, es, k - 1), a) + |es[k - 1].file|
  }

  /** The zero bytes `Put` pads with before the payload of entry `k`: from
      its mark up to the next multiple of the alignment. */
  function Padding(base: nat, a: nat, es: seq<Entry>, k: nat): (z: seq<byte>)
    requires a > 0 && k < |es|
  {
    var m := Mark(base, a, es, k);
    Zeros(AlignUp(m, a) - m)
  }

  /** What each `Put` appends: padding, then the file. */
  function Pieces(base: nat, a: nat, es: seq<Entry>): (ps: seq<seq<byte>>)
    requires a > 0
    ensures |ps| == |es|
  {
    seq(|es|, k requires 0 <= k < |es| => Padding(base, a, es, k) + es[k].file)
  }

  /** The first `k` pieces, one after the other. */
  function Cat(ps: seq<seq<byte>>, k: nat): seq<byte>
    requires k <= |ps|
  {
    if k == 0 then [] else Cat(ps, k - 1) + ps[k - 1]
  }

  /** The bytes the pool holds once the payloads of the first `k` entries
      were put. */
  function Content(base: nat, a: nat, es: seq<Entry>, k: nat): (c: seq<byte>)
    requires a > 0 && k <= |es|
  {
    Cat(Pieces(base, a, es), k)
  }

  /** The content accounts for every byte of the length beyond the base. */
  lemma {:induction false} ContentLength(base: nat, a: nat, es: seq<Entry>, k: nat)
    requires a > 0 && k <= |es|
    ensures base + |Content(base, a, es, k)| == Mark(base, a, es, k)
  {
    if k > 0 {
      ContentLength(base, a, es, k - 1);
      var ps := Pieces(base, a, es);
      assert Cat(ps, k) == Cat(ps, k - 1) + ps[k - 1];
    }
  }

  /** Putting entry `k` appends its padding and its file to the content. */
  lemma {:induction false} ContentStep(base: nat, a: nat, es: seq<Entry>, k: nat)
    requires a > 0 && k < |es|
    ensures Content(base, a, es, k + 1) == Content(base, a, es, k) + Padding(base, a, es, k) + es[k].file
  {
    var ps := Pieces(base, a, es);
    assert Cat(ps, k + 1) == Cat(ps, k) + ps[k];
  }

  /** The pool never shrinks. */
  lemma {:induction false} MarksNonDecreasing(base: nat, a: nat, es: seq<Entry>, i: nat, j: nat)
    requires a > 0 && i <= j <= |es|
    ensures Mark(base, a, es, i) <= Mark(base, a, es, j)
    decreases j - i
  {
    if i < j {
      MarksNonDecreasing(base, a, es, i, j - 1);
    }
  }

  /** `f` sits in `c` at offset `start`, behind zero bytes from `lo` on. */
  predicate Placed(c: seq<byte>, lo: nat, start: nat, f: seq<byte>)
  {
    lo <= start && start + |f| <= |c| && c[start..start + |f|] == f
    && forall i :: lo <= i < start ==> c[i] == 0
  }

  /** Appending to the content keeps what was placed in it. */
  lemma {:induction false} PlacedInAppend(x: seq<byte>, z: seq<byte>, lo: nat, start: nat, f: seq<byte>)
    requires Placed(x, lo, start, f)
    ensures Placed(x + z, lo, start, f)
  {
    assert (x + z)[start..start + |f|] == x[start..start + |f|];
  }

  /** A file appended behind `n` bytes of padding is placed behind zeros. */
  lemma {:induction false} AppendPlaced(before: seq<byte>, n: nat, f: seq<byte>)
    ensures Placed(before + Zeros(n) + f, |before|, |before| + n, f)
  {
    var c := before + Zeros(n) + f;
    assert c[|before| + n..|before| + n + |f|] == f;
    forall i | |before| <= i < |before| + n ensures c[i] == 0 {
      assert c[i] == Zeros(n)[i - |before|];
    }
  }

  /** Whatever the first `i` pieces hold in place, more pieces keep. */
  lemma {:induction false} CatKeepsPlaced(ps: seq<seq<byte>>, i: nat, j: nat, lo: nat, start: nat, f: seq<byte>)
    requires i <= j <= |ps| && Placed(Cat(ps, i), lo, start, f)
    ensures Placed(Cat(ps, j), lo, start, f)
    decreases j
  {
    if i < j {
      CatKeepsPlaced(ps, i, j - 1, lo, start, f);
      PlacedInAppend(Cat(ps, j - 1), ps[j - 1], lo, start, f);
    }
  }

  /** Right after entry `k` was put, its payload closes the content, behind
      zero padding from its mark up to the aligned position. */
  lemma {:induction false} PayloadLast(base: nat, a: nat, es: seq<Entry>, k: nat)
    requires a > 0 && k < |es|
    ensures base <= Mark(base, a, es, k)
    ensures Placed(Content(base, a, es, k + 1), Mark(base, a, es, k) - base,
                   AlignUp(Mark(base, a, es, k), a) - base, es[k].file)
  {
    MarksNonDecreasing(base, a, es, 0, k);
    ContentLength(base, a, es, k);
    ContentStep(base, a, es, k);
    var m := Mark(base, a, es, k);
    AppendPlaced(Content(base, a, es, k), AlignUp(m, a) - m, es[k].file);
  }

  /** Where a payload lands: once entry `k` was put, and however many entries
      follow, its file sits in the content at its aligned position
      `AlignUp(Mark(k)) - base`, and the bytes before it back to
      `Mark(k) - base` are zero. */
  lemma {:induction false} PayloadPlaced(base: nat, a: nat, es: seq<Entry>, k: nat, j: nat)
    requires a > 0 && k < j <= |es|
    ensures base <= Mark(base, a, es, k)
    ensures Placed(Content(base, a, es, j), Mark(base, a, es, k) - base,
                   AlignUp(Mark(base, a, es, k), a) - base, es[k].file)
  {
    PayloadLast(base, a, es, k);
    var m := Mark(base, a, es, k);
    CatKeepsPlaced(Pieces(base, a, es), k + 1, j, m - base, AlignUp(m, a) - base, es[k].file);
  }

  class VldPool {
    const align: nat
    const baseLength: nat
    /** `Length`: the base plus every byte put so far, padding included. */
    var length: nat
    /** What `Write` emits: padding and payloads, in the order put. */
    var content: seq<byte>

    ghost predicate Valid()
      reads this
    {
      baseLength + |content| == length
    }

    /** `new VldPool(align, baseLength)`. */
    constructor (align: nat, baseLength: nat)
      ensures this.align == align && this.baseLength == baseLength
      ensures length == baseLength && content == [] && Valid()
    {
      this.align := align;
      this.baseLength := baseLength;
      length := baseLength;
      content := [];
    }

    /** `Put(filePath)`: pad to the alignment, then append the file's bytes.
        Reading the file is left out; `file` stands for its bytes. */
    method Put(file: seq<byte>)
      requires Valid() && align > 0
      modifies this
      ensures Valid()
      ensures length == AlignUp(old(length), align) + |file|
      ensures content == old(content) + Zeros(AlignUp(old(length), align) - old(length)) + file
    {
      var padded := AlignUp(length, align);
      content := content + Zeros(padded - length) + file;
      length := padded + |file|;
    }
  }
}
