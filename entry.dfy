/** `CriAfs2Entry`: one indexed blob, and the list operations the archive
    performs on a list of them. */
module Entries {
  import opened Wire

  /** `Id`, `Position` and `Length` of an entry. `file` stands for the bytes of
      the file that `FilePath` names when the entry is written; `Read` leaves it
      empty. `Position` and `Length` come from `EntryBase`, which is not part of
      this model: they are taken to be wide enough (a C# `long`) never to wrap
      on these values, so they are unbounded integers here. */
  datatype Entry = Entry(id: u16, position: int, length: int, file: seq<byte>)

  datatype Option<T> = None | Some(value: T)

  /** The first entry in list order whose id equals `id`, or `None`
      (`FirstOrDefault` returning null). */
  function FirstWithId(es: seq<Entry>, id: int): (r: Option<Entry>)
    ensures r.None? <==> forall k :: 0 <= k < |es| ==> es[k].id != id
    ensures r.Some? ==> exists k :: 0 <= k < |es| && es[k] == r.value && es[k].id == id
                          && forall j :: 0 <= j < k ==> es[j].id != id
  {
    if es == [] then None
    else if es[0].id == id then Some(es[0])
    else
      var r := FirstWithId(es[1..], id);
      assert forall k :: 1 <= k < |es| ==> es[k] == es[1..][k - 1];
      if r.Some? then
        var k :| 0 <= k < |es| - 1 && es[1..][k] == r.value && es[1..][k].id == id
                 && forall j :: 0 <= j < k ==> es[1..][j].id != id;
        assert es[k + 1] == r.value && forall j :: 0 <= j < k + 1 ==> es[j].id != id;
        r
      else
        r
  }

  /** Stable order: entry `i` goes before entry `j` when its id is smaller, or
      when the ids tie and `i` comes first in the list. */
  predicate Before(es: seq<Entry>, i: nat, j: nat)
    requires i < |es| && j < |es|
  {
    es[i].id < es[j].id || (es[i].id == es[j].id && i < j)
  }

  /** `xs` lists indices of `es` in stable ascending-id order. */
  predicate StablySorted(es: seq<Entry>, xs: seq<nat>)
  {
    (forall t :: 0 <= t < |xs| ==> xs[t] < |es|)
    && forall t1, t2 {:trigger Before(es, xs[t1], xs[t2])} :: 0 <= t1 < t2 < |xs| ==> Before(es, xs[t1], xs[t2])
  }

  /** Put index `j` among the sorted indices `xs`, behind every index whose id
      is not larger. */
  function Insert(es: seq<Entry>, xs: seq<nat>, j: nat): (r: seq<nat>)
    requires j < |es| && StablySorted(es, xs)
    requires forall t :: 0 <= t < |xs| ==> xs[t] < j
    ensures |r| == |xs| + 1
    ensures forall v: nat :: v in r <==> v in xs || v == j
    ensures StablySorted(es, r)
  {
    if xs == [] then [j]
    else if es[xs[0]].id > es[j].id then
      assert forall t :: 0 <= t < |xs| ==> Before(es, j, xs[t]) by {
        forall t | 0 <= t < |xs| ensures Before(es, j, xs[t]) {
          if t > 0 { assert Before(es, xs[0], xs[t]); }
        }
      }
      var r := [j] + xs;
      assert forall t :: 1 <= t < |r| ==> r[t] == xs[t - 1];
      r
    else
      var rest := Insert(es, xs[1..], j);
      assert forall v: nat :: v in xs <==> v == xs[0] || v in xs[1..];
      var r := [xs[0]] + rest;
      assert forall t :: 1 <= t < |r| ==> r[t] == rest[t - 1];
      assert forall t :: 0 <= t < |rest| ==> Before(es, xs[0], rest[t]) by {
        forall t | 0 <= t < |rest| ensures Before(es, xs[0], rest[t]) {
          if rest[t] != j {
            assert rest[t] in xs[1..];
            var u :| 0 <= u < |xs[1..]| && xs[1..][u] == rest[t];
            assert Before(es, xs[0], xs[u + 1]);
          }
        }
      }
      r
  }

  /** The order in which `entries.OrderBy(entry => entry.Id)` visits the first
      `m` entries, as list indices: each index exactly once, ascending by id,
      ties in list order. */
  function SortedOrder(es: seq<Entry>, m: nat): (r: seq<nat>)
    requires m <= |es|
    ensures |r| == m
    ensures forall v: nat :: v in r <==> v < m
    ensures StablySorted(es, r)
    ensures forall t :: 0 <= t < |r| ==> r[t] < m
  {
    if m == 0 then []
    else
      var xs := SortedOrder(es, m - 1);
      var r := Insert(es, xs, m - 1);
      assert forall t :: 0 <= t < |r| ==> r[t] in r;
      r
  }

  /** The entries that the indices `xs` select, in that order. */
  function Select(es: seq<Entry>, xs: seq<nat>): (r: seq<Entry>)
    requires forall t :: 0 <= t < |xs| ==> xs[t] < |es|
    ensures |r| == |xs| && forall t :: 0 <= t < |xs| ==> r[t] == es[xs[t]]
  {
    seq(|xs|, t requires 0 <= t < |xs| => es[xs[t]])
  }

  /** The entries of `es` in the order `Write` emits them. */
  function SortById(es: seq<Entry>): (r: seq<Entry>)
    ensures |r| == |es|
  {
    Select(es, SortedOrder(es, |es|))
  }

  /** The emitted order is ascending by id and a permutation of the list. */
  lemma {:induction false} SortByIdSpec(es: seq<Entry>)
    ensures forall k1, k2 :: 0 <= k1 < k2 < |es| ==> SortById(es)[k1].id <= SortById(es)[k2].id
    ensures multiset(SortById(es)) == multiset(es)
  {
    var order := SortedOrder(es, |es|);
    var r := SortById(es);
    forall k1, k2 | 0 <= k1 < k2 < |es| ensures r[k1].id <= r[k2].id {
      assert Before(es, order[k1], order[k2]);
    }
    SortedOrderMultiset(es, |es|);
    assert es[..|es|] == es;
  }

  /** Inserting index `j` adds exactly the entry `es[j]` to the selection. */
  lemma {:induction false} InsertMultiset(es: seq<Entry>, xs: seq<nat>, j: nat)
    requires j < |es| && StablySorted(es, xs)
    requires forall t :: 0 <= t < |xs| ==> xs[t] < j
    ensures multiset(Select(es, Insert(es, xs, j))) == multiset(Select(es, xs)) + multiset{es[j]}
  {
    var r := Insert(es, xs, j);
    if xs == [] {
      assert r == [j];
    } else if es[xs[0]].id > es[j].id {
      assert r == [j] + xs;
      SelectCons(es, j, xs);
    } else {
      var rest := Insert(es, xs[1..], j);
      assert r == [xs[0]] + rest;
      InsertMultiset(es, xs[1..], j);
      SelectCons(es, xs[0], rest);
      SelectCons(es, xs[0], xs[1..]);
      assert [xs[0]] + xs[1..] == xs;
    }
  }

  lemma {:induction false} SelectCons(es: seq<Entry>, x: nat, ys: seq<nat>)
    requires x < |es| && forall t :: 0 <= t < |ys| ==> ys[t] < |es|
    ensures Select(es, [x] + ys) == [es[x]] + Select(es, ys)
  {
  }

  /** The first `m` entries, read in sorted order, are the first `m` entries. */
  lemma {:induction false} SortedOrderMultiset(es: seq<Entry>, m: nat)
    requires m <= |es|
    ensures multiset(Select(es, SortedOrder(es, m))) == multiset(es[..m])
  {
    if m > 0 {
      var xs := SortedOrder(es, m - 1);
      SortedOrderMultiset(es, m - 1);
      InsertMultiset(es, xs, m - 1);
      assert SortedOrder(es, m) == Insert(es, xs, m - 1);
      assert es[..m] == es[..m - 1] + [es[m - 1]];
      assert multiset(es[..m]) == multiset(es[..m - 1]) + multiset{es[m - 1]};
    }
  }

  /** Sorting already-ascending, duplicate-free input keeps it as it is. */
  lemma {:induction false} SortedOrderOfAscending(es: seq<Entry>)
    requires forall k1, k2 :: 0 <= k1 < k2 < |es| ==> es[k1].id < es[k2].id
    ensures SortById(es) == es
  {
    var order := SortedOrder(es, |es|);
    forall k | 0 <= k < |es| ensures order[k] == k {
      OrderIsIdentity(es, order, k);
    }
  }

  lemma {:induction false} OrderIsIdentity(es: seq<Entry>, order: seq<nat>, k: nat)
    requires forall k1, k2 :: 0 <= k1 < k2 < |es| ==> es[k1].id < es[k2].id
    requires |order| == |es| && StablySorted(es, order)
    requires forall v: nat :: v in order <==> v < |es|
    requires k < |es|
    ensures order[k] == k
  {
    // Before coincides with < on list indices here, so order is increasing
    // and covers 0..|es|-1.
    assert forall t1, t2 :: 0 <= t1 < t2 < |order| ==> order[t1] < order[t2] by {
      forall t1, t2 | 0 <= t1 < t2 < |order| ensures order[t1] < order[t2] {
        assert Before(es, order[t1], order[t2]);
      }
    }
    IncreasingCover(order, |es|, k);
  }

  /** An increasing list of exactly the numbers below `n` is `0, 1, ..., n - 1`. */
  lemma {:induction false} IncreasingCover(xs: seq<nat>, n: nat, k: nat)
    requires |xs| == n && k < n
    requires forall v: nat :: v in xs <==> v < n
    requires forall t1, t2 :: 0 <= t1 < t2 < |xs| ==> xs[t1] < xs[t2]
    ensures xs[k] == k
  {
    // xs[t] >= t by increase, and xs[t] <= t because xs[t..] holds n - t distinct values below n
    assert forall t :: 0 <= t < n ==> xs[t] >= t by {
      forall t | 0 <= t < n ensures xs[t] >= t { AtLeastIndex(xs, t); }
    }
    assert k in xs;
    var count := n - 1 - k;
    forall t | k < t < n ensures xs[t] >= xs[k] + (t - k) { StepsUp(xs, k, t); }
    assert xs[n - 1] >= xs[k] + count;
    assert xs[n - 1] in xs;
  }

  lemma {:induction false} AtLeastIndex(xs: seq<nat>, t: nat)
    requires t < |xs|
    requires forall t1, t2 :: 0 <= t1 < t2 < |xs| ==> xs[t1] < xs[t2]
    ensures xs[t] >= t
  {
    if t > 0 { AtLeastIndex(xs, t - 1); }
  }

  lemma {:induction false} StepsUp(xs: seq<nat>, k: nat, t: nat)
    requires k <= t < |xs|
    requires forall t1, t2 :: 0 <= t1 < t2 < |xs| ==> xs[t1] < xs[t2]
    ensures xs[t] >= xs[k] + (t - k)
    decreases t - k
  {
    if k < t { StepsUp(xs, k, t - 1); }
  }
}
