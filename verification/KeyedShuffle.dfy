/**
  The keyed draws behind the carrier permutations, and the plain array shuffle
  they define: Fisher-Yates, front to back, as far as it is asked for.
 */
module KeyedShuffle {
  const TWO_TO_64: nat := 0x1_0000_0000_0000_0000
  const TWO_TO_63: nat := 0x8000_0000_0000_0000

  type Word = w: int | 0 <= w < TWO_TO_64 witness 0

  /** The smallest word accepted for a bound: (2^64 - bound) mod bound. */
  function Threshold(bound: int): (t: nat)
    requires 1 <= bound < TWO_TO_64
    ensures t < bound
  {
    (TWO_TO_64 - bound) % bound
  }

  function Residue(word: Word, bound: int): (r: nat)
    requires 1 <= bound < TWO_TO_64
    ensures r < bound
  {
    word % bound
  }

  /** One keyed hash under one domain: word k of the stream is prf(domain, k). */
  datatype Stream = Stream(prf: (Word, nat) -> Word, domain: Word) {
    predicate Accepts(k: nat, bound: int)
      requires 1 <= bound < TWO_TO_64
    {
      prf(domain, k) >= Threshold(bound)
    }

    ghost predicate AcceptsFrom(c: nat, bound: int)
      requires 1 <= bound < TWO_TO_64
    {
      exists k: nat :: k >= c && Accepts(k, bound)
    }

    /** An accepted word always lies ahead. The original's draw loop ends only under this assumption. */
    ghost predicate Fair() {
      forall c: nat, bound: int :: 1 <= bound < TWO_TO_64 ==> AcceptsFrom(c, bound)
    }

    ghost function FirstAccepted(c: nat, witnessed: nat, bound: int): (k: nat)
      requires 1 <= bound < TWO_TO_64 && c <= witnessed && Accepts(witnessed, bound)
      ensures c <= k <= witnessed && Accepts(k, bound)
      ensures forall i :: c <= i < k ==> !Accepts(i, bound)
      decreases witnessed - c
    {
      if Accepts(c, bound) then c else FirstAccepted(c + 1, witnessed, bound)
    }

    /** The index of the word the next draw uses. */
    ghost function NextAccepted(c: nat, bound: int): (k: nat)
      requires Fair() && 1 <= bound < TWO_TO_64
      ensures k >= c && Accepts(k, bound)
      ensures forall i :: c <= i < k ==> !Accepts(i, bound)
    {
      assert AcceptsFrom(c, bound);
      var witnessed :| witnessed >= c && Accepts(witnessed, bound);
      FirstAccepted(c, witnessed, bound)
    }

    ghost function Draw(c: nat, bound: int): (r: nat)
      requires Fair() && 1 <= bound < TWO_TO_64
      ensures r < bound
    {
      Residue(prf(domain, NextAccepted(c, bound)), bound)
    }
  }

  // ----- Draws end -----

  /** At least half of all words are accepted, whatever the bound. */
  lemma HalfIsAccepted(bound: int)
    requires 1 <= bound < TWO_TO_64
    ensures Threshold(bound) < TWO_TO_63
  {
    if bound > TWO_TO_63 { SmallResidue(TWO_TO_64 - bound, bound); }
    hide Threshold;
  }

  predicate HighWord(stream: Stream, k: nat) {
    stream.prf(stream.domain, k) >= TWO_TO_63
  }

  ghost predicate HighWordAhead(stream: Stream, c: nat) {
    exists k: nat :: k >= c && HighWord(stream, k)
  }

  /** So a stream in which words of 2^63 or more never cease is fair. */
  lemma HighWordsAreFair(stream: Stream)
    requires forall c: nat :: HighWordAhead(stream, c)
    ensures stream.Fair()
  {
    forall c: nat, bound: int | 1 <= bound < TWO_TO_64 ensures stream.AcceptsFrom(c, bound) {
      assert HighWordAhead(stream, c);
      var k: nat :| k >= c && HighWord(stream, k);
      HalfIsAccepted(bound);
      assert stream.Accepts(k, bound);
    }
  }

  // ----- The draws are unbiased -----

  ghost function Preimages(lo: int, count: nat, bound: int, r: int): set<int>
    requires bound >= 1
  {
    set w: int | lo <= w < lo + count && w % bound == r
  }

  /** Any window of q whole intervals holds each residue exactly q times. */
  lemma {:induction false} WindowIsUniform(lo: int, q: nat, bound: int, r: int)
    requires bound >= 1 && 0 <= r < bound
    ensures |Preimages(lo, q * bound, bound, r)| == q
  {
    if q == 0 {
      assert Preimages(lo, 0, bound, r) == {};
    } else {
      WindowIsUniform(lo, q - 1, bound, r);
      var start := lo + (q - 1) * bound;
      assert q * bound == (q - 1) * bound + bound;
      var w := start + (r - start) % bound;
      OneInInterval(start, bound, r, w);
      assert Preimages(lo, q * bound, bound, r) == Preimages(lo, (q - 1) * bound, bound, r) + {w};
    }
  }

  lemma OneInInterval(start: int, bound: int, r: int, w: int)
    requires bound >= 1 && 0 <= r < bound && w == start + (r - start) % bound
    ensures start <= w < start + bound && w % bound == r
    ensures forall v :: start <= v < start + bound && v % bound == r ==> v == w
  {
    var q := (r - start) / bound;
    assert w == r - bound * q;
    assert bound * (-q) == -(bound * q);
    SameResidue(r, w, -q, bound);
    SmallResidue(r, bound);
    forall v | start <= v < start + bound && v % bound == r ensures v == w {
      SameIfClose(v, w, bound);
    }
  }

  lemma SameIfClose(v: int, w: int, bound: int)
    requires bound >= 1 && v % bound == w % bound && -bound < v - w < bound
    ensures v == w
  {
    var a, b := v / bound, w / bound;
    assert bound * (a - b) == bound * a - bound * b;
    NoMultipleBetween(bound, a - b);
  }

  lemma SmallResidue(r: int, bound: int)
    requires 0 <= r < bound
    ensures r % bound == r
  {
  }

  lemma SameResidue(a: int, b: int, q: int, bound: int)
    requires bound >= 1 && b == a + bound * q
    ensures a % bound == b % bound
  {
    var d := b / bound - a / bound - q;
    assert bound * d == bound * (b / bound) - bound * (a / bound) - bound * q;
    assert bound * d == a % bound - b % bound;
    NoMultipleBetween(bound, d);
  }

  lemma NoMultipleBetween(bound: int, d: int)
    requires bound >= 1
    ensures d >= 1 ==> bound * d >= bound
    ensures d <= -1 ==> bound * d <= -bound
  {
  }

  /** Among the accepted words, every residue below the bound has the same number of preimages. */
  lemma DrawIsUnbiased(bound: int, r: int)
    requires 1 <= bound < TWO_TO_64 && 0 <= r < bound
    ensures |set w: Word | w >= Threshold(bound) && Residue(w, bound) == r|
         == (TWO_TO_64 - Threshold(bound)) / bound
  {
    var t := Threshold(bound);
    var q := (TWO_TO_64 - bound) / bound + 1;
    assert TWO_TO_64 - t == q * bound by {
      assert TWO_TO_64 - bound == bound * ((TWO_TO_64 - bound) / bound) + t;
      assert q * bound == bound * ((TWO_TO_64 - bound) / bound) + bound;
    }
    WindowIsUniform(t, q, bound, r);
    assert (set w: Word | w >= t && Residue(w, bound) == r) == Preimages(t, q * bound, bound, r);
    ExactQuotient(q, bound);
  }

  lemma ExactQuotient(q: int, bound: int)
    requires bound >= 1
    ensures (q * bound) / bound == q
  {
    var n := q * bound;
    assert bound * (n / bound - q) == -(n % bound) by {
      assert bound * (n / bound - q) == bound * (n / bound) - bound * q;
    }
    NoMultipleBetween(bound, n / bound - q);
  }

  /** The original's draw generator. */
  class KeyedIndexStream {
    const stream: Stream
    var counter: nat

    constructor (stream: Stream)
      ensures this.stream == stream && counter == 0
    {
      this.stream := stream;
      counter := 0;
    }

    /** Reads words until one is accepted; the draw is its residue. */
    method Below(bound: int) returns (r: nat)
      requires stream.Fair() && 1 <= bound < TWO_TO_64
      modifies this
      ensures r == stream.Draw(old(counter), bound) < bound
      ensures counter == stream.NextAccepted(old(counter), bound) + 1
    {
      var threshold := Threshold(bound);
      ghost var first := stream.NextAccepted(counter, bound);
      while true
        invariant old(counter) <= counter <= first
        invariant first == stream.NextAccepted(old(counter), bound)
        decreases first - counter
      {
        var word := stream.prf(stream.domain, counter);
        assert stream.Accepts(counter, bound) <==> word >= threshold;
        counter := counter + 1;
        if word >= threshold {
          return Residue(word, bound);
        }
      }
    }
  }

  // ----- The shuffle -----

  function Swap<T>(items: seq<T>, i: nat, j: nat): (swapped: seq<T>)
    requires i < |items| && j < |items|
    ensures |swapped| == |items|
  {
    items[i := items[j]][j := items[i]]
  }

  lemma SwapRearranges<T>(items: seq<T>, i: nat, j: nat)
    requires i < |items| && j < |items|
    ensures multiset(Swap(items, i, j)) == multiset(items)
    ensures Distinct(items) ==> Distinct(Swap(items, i, j))
  {
  }

  datatype Shuffle<T> = Shuffle(items: seq<T>, counter: nat)

  /** One step: position `i` takes a keyed choice among itself and the positions after it. */
  ghost function Step<T>(before: Shuffle<T>, stream: Stream, i: nat): (s: Shuffle<T>)
    requires stream.Fair() && i < |before.items| < TWO_TO_64
    ensures |s.items| == |before.items|
    ensures s.items[..i] == before.items[..i]
  {
    var bound := |before.items| - i;
    Shuffle(Swap(before.items, i, i + stream.Draw(before.counter, bound)),
            stream.NextAccepted(before.counter, bound) + 1)
  }

  /** The array shuffle after positions 0..k have been fixed, and the words it has read. */
  ghost function Shuffled<T>(items: seq<T>, stream: Stream, k: nat): (s: Shuffle<T>)
    requires stream.Fair() && |items| < TWO_TO_64
    ensures |s.items| == |items|
  {
    if k == 0 then Shuffle(items, 0)
    else if k < |items| then Step(Shuffled(items, stream, k - 1), stream, k - 1)
    else Shuffled(items, stream, k - 1)
  }

  lemma ShuffledStep<T>(items: seq<T>, stream: Stream, k: nat)
    requires stream.Fair() && k + 1 < |items| < TWO_TO_64
    ensures Shuffled(items, stream, k + 1) == Step(Shuffled(items, stream, k), stream, k)
  {
    hide Step, Stream.Fair;
  }

  lemma ShuffledNext<T>(items: seq<T>, stream: Stream, k: nat)
    requires stream.Fair() && k + 1 < |items| < TWO_TO_64
    ensures var before := Shuffled(items, stream, k);
      Shuffled(items, stream, k + 1)
      == Shuffle(Swap(before.items, k, k + stream.Draw(before.counter, |items| - k)),
                 stream.NextAccepted(before.counter, |items| - k) + 1)
  {
    hide Shuffled, Stream.Fair, Stream.Draw, Stream.NextAccepted, Swap;
    ShuffledStep(items, stream, k);
  }

  /** Fixed positions never change again. */
  lemma {:induction false} FixedPrefixStays<T>(items: seq<T>, stream: Stream, j: nat, k: nat)
    requires stream.Fair() && |items| < TWO_TO_64 && j <= k && j <= |items|
    ensures Shuffled(items, stream, k).items[..j] == Shuffled(items, stream, j).items[..j]
  {
    hide Step;
    if j < k {
      FixedPrefixStays(items, stream, j, k - 1);
      if k < |items| {
        var before, after := Shuffled(items, stream, k - 1).items, Shuffled(items, stream, k).items;
        assert after[..k - 1] == before[..k - 1];
        assert after[..j] == after[..k - 1][..j] && before[..j] == before[..k - 1][..j];
      }
    }
  }

  ghost predicate Distinct<T>(items: seq<T>) {
    forall i, j :: 0 <= i < j < |items| ==> items[i] != items[j]
  }

  /** The shuffle only rearranges. */
  lemma {:induction false} ShuffleRearranges<T>(items: seq<T>, stream: Stream, k: nat)
    requires stream.Fair() && |items| < TWO_TO_64
    ensures multiset(Shuffled(items, stream, k).items) == multiset(items)
    ensures Distinct(items) ==> Distinct(Shuffled(items, stream, k).items)
  {
    hide Step, Distinct, Stream.Fair;
    if k > 0 {
      ShuffleRearranges(items, stream, k - 1);
      if k < |items| {
        var before := Shuffled(items, stream, k - 1);
        StepRearranges(before, stream, k - 1);
      }
    }
  }

  lemma StepRearranges<T>(before: Shuffle<T>, stream: Stream, i: nat)
    requires stream.Fair() && i < |before.items| < TWO_TO_64
    ensures multiset(Step(before, stream, i).items) == multiset(before.items)
    ensures Distinct(before.items) ==> Distinct(Step(before, stream, i).items)
  {
    hide Stream.Fair, Swap, Distinct, Stream.Draw;
    SwapRearranges(before.items, i, i + stream.Draw(before.counter, |before.items| - i));
  }

  method SwapItems<T>(items: array<T>, i: nat, j: nat)
    requires i < items.Length && j < items.Length
    modifies items
    ensures items[..] == Swap(old(items[..]), i, j)
  {
    items[i], items[j] := items[j], items[i];
  }

  /** The original's in-place shuffle over a caller's array. */
  class KeyedPrefixShuffle<T> {
    const items: array<T>
    const draws: KeyedIndexStream
    var fixed: nat
    ghost const original: seq<T>

    ghost predicate Valid()
      reads this, items, draws
    {
      && draws.stream.Fair()
      && |original| == items.Length < TWO_TO_64
      && fixed <= items.Length
      && items[..] == Shuffled(original, draws.stream, fixed).items
      && draws.counter == Shuffled(original, draws.stream, fixed).counter
    }

    constructor (items: array<T>, stream: Stream)
      requires stream.Fair() && items.Length < TWO_TO_64
      ensures Valid() && fresh(draws) && this.items == items && draws.stream == stream
      ensures original == items[..] && fixed == 0
    {
      this.items := items;
      this.draws := new KeyedIndexStream(stream);
      this.fixed := 0;
      this.original := items[..];
    }

    function End(count: nat): nat {
      var last := if items.Length == 0 then 0 else items.Length - 1;
      if count < last then count else last
    }

    method FixOne()
      requires Valid() && fixed + 1 < items.Length
      modifies this, items, draws
      ensures Valid() && fixed == old(fixed) + 1
    {
      hide Stream.Fair, Stream.Draw, Stream.NextAccepted, Shuffled, Swap, Distinct, Step;
      ghost var before := Shuffled(original, draws.stream, fixed);
      ShuffledNext(original, draws.stream, fixed);
      var offset := draws.Below(items.Length - fixed);
      assert items[..] == before.items;
      var other := fixed + offset;
      SwapItems(items, fixed, other);
      fixed := fixed + 1;
    }

    /** Fixes positions up to `count`; the last one never needs a draw. */
    method ExtendTo(count: nat)
      requires Valid()
      modifies this, items, draws
      ensures Valid()
      ensures fixed == if old(fixed) < End(count) then End(count) else old(fixed)
    {
      var end := End(count);
      while fixed < end
        invariant Valid() && (fixed <= end || fixed == old(fixed))
        invariant old(fixed) <= fixed
      {
        FixOne();
      }
    }
  }
}
