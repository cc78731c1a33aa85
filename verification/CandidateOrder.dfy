/**
  The keyed order over the carrier candidates, drawn only as far as it is read:
  a keyed permutation of candidate indices, each mapped to its coefficient.
 */
module CandidateOrder {
  import opened Results
  import opened KeyedShuffle
  import opened KeyedIndexPrefixes
  import opened CandidateOffsets
  import opened ShuffleChoices

  /** Image geometry for which the arithmetic index and the 32-bit permutation are exact. */
  ghost predicate Indexable(info: ImageInfo) {
    Covers(info) && Addressable(info)
  }

  lemma {:induction false} IncreasingIsShort(s: seq<nat>, lo: nat, hi: nat)
    requires Increasing(s, lo, hi) && lo <= hi
    ensures |s| <= hi - lo
  {
    if s != [] {
      var n := |s| - 1;
      assert Increasing(s[..n], lo, s[n]);
      IncreasingIsShort(s[..n], lo, s[n]);
    }
  }

  /** The candidate indices always fit the permutation's 32 bits: offset 0 is a DC term. */
  lemma CandidatesFit(info: ImageInfo)
    requires Indexable(info)
    ensures Size(info) == |Candidates(info)| <= EMPTY < TWO_TO_64
    ensures forall i :: 0 <= i < |Candidates(info)| ==> Candidates(info)[i] < CoefficientCount(info) <= TWO_TO_32
  {
    SizeIsCount(info);
    CandidatesIncrease(info);
    CandidatesAreInside(info, 0);
    var all := Candidates(info);
    hide Candidates, Size, CoefficientCount;
    assert !InsideImage(info, 0);
    forall i | 0 <= i < |all| ensures 1 <= all[i] { assert all[i] in all; }
    if |all| > 0 { IncreasingIsShort(all, 1, CoefficientCount(info)); }
  }

  /** The first `k` coefficient offsets of the keyed order. */
  ghost function Order(info: ImageInfo, stream: Stream, k: nat): (offsets: seq<nat>)
    requires Indexable(info) && stream.Fair() && k <= |Candidates(info)|
    ensures |offsets| == k
  {
    if k == 0 then []
    else
      CandidatesFit(info);
      var n := |Candidates(info)|;
      PrefixIsDistinct(n, stream, k);
      Order(info, stream, k - 1) + [Candidates(info)[KeyedPrefix(n, stream, k)[k - 1]]]
  }

  lemma {:induction false} OrderAt(info: ImageInfo, stream: Stream, k: nat, i: nat)
    requires Indexable(info) && stream.Fair() && i < k <= |Candidates(info)| < TWO_TO_64
    ensures KeyedPrefix(|Candidates(info)|, stream, k)[i] < |Candidates(info)|
    ensures Order(info, stream, k)[i] == Candidates(info)[KeyedPrefix(|Candidates(info)|, stream, k)[i]]
  {
    hide Candidates, KeyedPrefix, Stream.Fair, Indexable;
    var n := |Candidates(info)|;
    PrefixIsDistinct(n, stream, k);
    if i < k - 1 {
      OrderAt(info, stream, k - 1, i);
      PrefixExtends(n, stream, k - 1, k);
      assert KeyedPrefix(n, stream, k)[..k - 1][i] == KeyedPrefix(n, stream, k)[i];
    }
  }

  /** What has been drawn does not depend on how far the order is drawn later. */
  lemma {:induction false} OrderExtends(info: ImageInfo, stream: Stream, j: nat, k: nat)
    requires Indexable(info) && stream.Fair() && j <= k <= |Candidates(info)|
    ensures Order(info, stream, k)[..j] == Order(info, stream, j)
  {
    hide Candidates, KeyedPrefix, Stream.Fair, Indexable;
    if j < k { OrderExtends(info, stream, j, k - 1); }
  }

  /** No coefficient is selected twice, and only candidates are selected. */
  lemma OrderSelects(info: ImageInfo, stream: Stream, k: nat)
    requires Indexable(info) && stream.Fair() && k <= |Candidates(info)|
    ensures Distinct(Order(info, stream, k))
    ensures forall i :: 0 <= i < k ==> Order(info, stream, k)[i] in Candidates(info)
    ensures forall i :: 0 <= i < k ==> Order(info, stream, k)[i] < CoefficientCount(info)
  {
    CandidatesFit(info);
    CandidatesIncrease(info);
    var all, n := Candidates(info), |Candidates(info)|;
    hide Candidates, KeyedPrefix, Order, Stream.Fair, Indexable, CoefficientCount;
    PrefixIsDistinct(n, stream, k);
    var p, o := KeyedPrefix(n, stream, k), Order(info, stream, k);
    forall i | 0 <= i < k ensures p[i] < n && o[i] == all[p[i]] { OrderAt(info, stream, k, i); }
    forall i, j | 0 <= i < j < k ensures o[i] != o[j] {
      assert p[i] != p[j];
      assert all[p[i]] != all[p[j]];
    }
  }

  /** Every selection of distinct candidates, in any order, is what some stream orders first. */
  lemma EverySelectionIsReached(info: ImageInfo, target: seq<nat>) returns (stream: Stream)
    requires Indexable(info) && |target| < |Candidates(info)| && Distinct(target)
    requires forall i :: 0 <= i < |target| ==> target[i] in Candidates(info)
    ensures stream.Fair() && Order(info, stream, |target|) == target
  {
    CandidatesFit(info);
    hide Candidates, Order, KeyedPrefix, Stream.Fair, Indexable;
    var all, k := Candidates(info), |target|;
    var indices := IndicesOf(all, target);
    stream := PrefixIsReached(|all|, indices);
    forall i | 0 <= i < k ensures Order(info, stream, k)[i] == target[i] {
      OrderAt(info, stream, k, i);
    }
  }

  lemma IndicesOf(all: seq<nat>, target: seq<nat>) returns (indices: seq<nat>)
    requires Distinct(target) && forall i :: 0 <= i < |target| ==> target[i] in all
    ensures |indices| == |target| && Distinct(indices)
    ensures forall i :: 0 <= i < |target| ==> indices[i] < |all| && all[indices[i]] == target[i]
  {
    indices := [];
    for k := 0 to |target|
      invariant |indices| == k
      invariant forall i :: 0 <= i < k ==> indices[i] < |all| && all[indices[i]] == target[i]
    {
      var p :| 0 <= p < |all| && all[p] == target[k];
      indices := indices + [p];
    }
    forall i, j | 0 <= i < j < |indices| ensures indices[i] != indices[j] {
      assert target[i] != target[j];
    }
  }

  lemma PrefixIsReached(size: nat, indices: seq<nat>) returns (stream: Stream)
    requires |indices| < size < TWO_TO_64 && Distinct(indices) && forall i :: 0 <= i < |indices| ==> indices[i] < size
    ensures stream.Fair() && KeyedPrefix(size, stream, |indices|) == indices
  {
    hide Stream.Fair, Distinct;
    forall i | 0 <= i < |indices| ensures indices[i] in Identity(size) {
      assert Identity(size)[indices[i]] == indices[i];
    }
    stream := EveryArrangementIsReached(Identity(size), indices);
  }

  /** An index drawn as part of a longer prefix maps to the order's entry. */
  lemma DrawnIndex(info: ImageInfo, stream: Stream, k: nat, drawn: nat, i: nat)
    requires Indexable(info) && stream.Fair() && i < k <= drawn <= |Candidates(info)| < TWO_TO_64
    ensures KeyedPrefix(|Candidates(info)|, stream, drawn)[i] < Size(info) == |Candidates(info)|
    ensures At(info, KeyedPrefix(|Candidates(info)|, stream, drawn)[i]) == Order(info, stream, k)[i]
  {
    hide Candidates, Order, KeyedPrefix, Stream.Fair, Covers, Addressable, Size, At;
    var n := |Candidates(info)|;
    SizeIsCount(info);
    OrderAt(info, stream, k, i);
    PrefixExtends(n, stream, k, drawn);
    assert KeyedPrefix(n, stream, drawn)[..k][i] == KeyedPrefix(n, stream, drawn)[i];
    AtIsCandidate(info, KeyedPrefix(n, stream, k)[i]);
  }

  lemma PrefixIsFair(prefix: KeyedIndexPrefix)
    requires prefix.Valid()
    ensures prefix.draws.stream.Fair() && prefix.visible <= prefix.size
  {
  }

  /** Maps `count` drawn indices to coefficient offsets. */
  method MapIndices(info: ImageInfo, ghost stream: Stream, indices: seq<nat>, first: nat, count: nat)
    returns (result: seq<nat>)
    requires Indexable(info) && stream.Fair() && first + count <= |indices| <= |Candidates(info)| < TWO_TO_64
    requires indices == KeyedPrefix(|Candidates(info)|, stream, |indices|)
    ensures result == Order(info, stream, first + count)[first..]
  {
    hide Candidates, Order, KeyedPrefix, Stream.Fair, Covers, Addressable;
    result := [];
    for entry := 0 to count
      invariant |result| == entry
      invariant forall e :: 0 <= e < entry ==> result[e] == Order(info, stream, first + count)[first + e]
    {
      DrawnIndex(info, stream, first + count, |indices|, first + entry);
      result := result + [At(info, indices[first + entry])];
    }
    assert result == Order(info, stream, first + count)[first..];
  }

  datatype SelectionError = ExceedsCapacity

  class KeyedCandidateOrder {
    const info: ImageInfo
    const order: KeyedIndexPrefix

    ghost predicate Valid()
      reads order, order.draws
    {
      && Indexable(info)
      && order.Valid()
      && order.size == |Candidates(info)|
    }

    constructor (info: ImageInfo, stream: Stream)
      requires Indexable(info) && stream.Fair()
      ensures Valid() && fresh(order) && fresh(order.draws)
      ensures this.info == info && order.draws.stream == stream
    {
      CandidatesFit(info);
      hide Candidates, Stream.Fair, Covers, Addressable, KeyedIndexPrefix.Valid;
      this.info := info;
      this.order := new KeyedIndexPrefix(Size(info), stream);
    }

    /** The order's entries first, ..., first + count - 1, whatever was drawn before. */
    method Offsets(first: nat, count: nat) returns (r: Result<seq<nat>, SelectionError>)
      requires Valid()
      modifies order, order.draws
      ensures Valid()
      ensures r.Ok? <==> first + count <= |Candidates(info)|
      ensures r.Ok? ==> r.value == Order(info, order.draws.stream, first + count)[first..]
    {
      hide Candidates, Order, KeyedPrefix, Stream.Fair, Covers, Addressable, KeyedIndexPrefix.Valid;
      ghost var stream := order.draws.stream;
      PrefixIsFair(order);
      if first > order.size || count > order.size - first {
        return Err(ExceedsCapacity);
      }
      order.ExtendTo(first + count);
      var indices := order.Prefix();
      CandidatesFit(info);
      var result := MapIndices(info, stream, indices, first, count);
      return Ok(result);
    }
  }
}
