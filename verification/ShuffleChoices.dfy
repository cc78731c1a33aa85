/**
  What the keyed shuffle can arrange: every arrangement of a prefix comes from
  exactly one sequence of draws, and every sequence of draws from some stream. As the
  draws are unbiased, no arrangement is preferred.
 */
module ShuffleChoices {
  import opened KeyedShuffle

  /** Choices in range: at position `i` there are `n` - `i` of them. */
  ghost predicate InBounds(ds: seq<nat>, n: nat) {
    |ds| <= n && forall i :: 0 <= i < |ds| ==> ds[i] < n - i
  }

  /** The array after the first `k` choices. */
  ghost function Chosen<T>(items: seq<T>, ds: seq<nat>, k: nat): (arranged: seq<T>)
    requires InBounds(ds, |items|) && k <= |ds|
    ensures |arranged| == |items|
  {
    if k == 0 then items else Swap(Chosen(items, ds, k - 1), k - 1, k - 1 + ds[k - 1])
  }

  lemma {:induction false} ChosenRearranges<T>(items: seq<T>, ds: seq<nat>, k: nat)
    requires InBounds(ds, |items|) && k <= |ds|
    ensures multiset(Chosen(items, ds, k)) == multiset(items)
    ensures Distinct(items) ==> Distinct(Chosen(items, ds, k))
  {
    hide Swap, Distinct;
    if k > 0 {
      ChosenRearranges(items, ds, k - 1);
      SwapRearranges(Chosen(items, ds, k - 1), k - 1, k - 1 + ds[k - 1]);
    }
  }

  lemma {:induction false} ChosenOfFront<T>(items: seq<T>, ds: seq<nat>, more: seq<nat>, k: nat)
    requires InBounds(ds, |items|) && InBounds(ds + more, |items|) && k <= |ds|
    ensures Chosen(items, ds + more, k) == Chosen(items, ds, k)
  {
    hide Swap;
    if k > 0 { ChosenOfFront(items, ds, more, k - 1); }
  }

  /** Positions already chosen stay. */
  lemma {:induction false} ChosenStays<T>(items: seq<T>, ds: seq<nat>, j: nat, k: nat)
    requires InBounds(ds, |items|) && j <= k <= |ds|
    ensures Chosen(items, ds, k)[..j] == Chosen(items, ds, j)[..j]
  {
    if j < k {
      ChosenStays(items, ds, j, k - 1);
      SwapLeavesFront(Chosen(items, ds, k - 1), k - 1, k - 1 + ds[k - 1], j);
    }
  }

  lemma SwapLeavesFront<T>(items: seq<T>, i: nat, p: nat, j: nat)
    requires j <= i <= p < |items|
    ensures Swap(items, i, p)[..j] == items[..j] && Swap(items, i, p)[i] == items[p]
  {
  }

  /** Any distinct items can be arranged in front, by the right choices. */
  lemma {:induction false} ChoicesReach<T>(items: seq<T>, target: seq<T>) returns (ds: seq<nat>)
    requires |target| <= |items| && Distinct(target) && forall i :: 0 <= i < |target| ==> target[i] in items
    ensures |ds| == |target| && InBounds(ds, |items|)
    ensures Chosen(items, ds, |ds|)[..|ds|] == target
  {
    hide Distinct, Swap, Chosen;
    ds := [];
    NothingChosen(items, ds);
    for k := 0 to |target|
      invariant |ds| == k && InBounds(ds, |items|)
      invariant Chosen(items, ds, k)[..k] == target[..k]
    {
      var d := NextChoice(items, target, ds);
      var arranged := Chosen(items, ds, k);
      ChosenOfFront(items, ds, [d], k);
      ds := ds + [d];
      ChosenNext(items, ds, k);
      SwapLeavesFront(arranged, k, k + d, k);
      LongerFront(Chosen(items, ds, k + 1), target, k);
    }
    assert target[..|target|] == target;
  }

  lemma LongerFront<T>(x: seq<T>, target: seq<T>, k: nat)
    requires k < |target| && k < |x| && x[..k] == target[..k] && x[k] == target[k]
    ensures x[..k + 1] == target[..k + 1]
  {
    assert x[..k + 1] == x[..k] + [x[k]] && target[..k + 1] == target[..k] + [target[k]];
  }

  lemma NextChoice<T>(items: seq<T>, target: seq<T>, ds: seq<nat>) returns (d: nat)
    requires |ds| < |target| <= |items| && Distinct(target) && InBounds(ds, |items|) && target[|ds|] in items
    requires Chosen(items, ds, |ds|)[..|ds|] == target[..|ds|]
    ensures d < |items| - |ds| && Chosen(items, ds, |ds|)[|ds| + d] == target[|ds|]
  {
    var k, arranged := |ds|, Chosen(items, ds, |ds|);
    ChosenRearranges(items, ds, k);
    hide Chosen;
    assert target[k] in multiset(items);
    assert target[k] in multiset(arranged);
    var p :| 0 <= p < |arranged| && arranged[p] == target[k];
    NotInFront(arranged, target, k);
    d := p - k;
  }

  lemma NotInFront<T>(arranged: seq<T>, target: seq<T>, k: nat)
    requires k < |target| <= |arranged| && Distinct(target) && arranged[..k] == target[..k]
    ensures forall q :: 0 <= q < k ==> arranged[q] != target[k]
  {
    forall q | 0 <= q < k ensures arranged[q] != target[k] {
      assert arranged[..k][q] == target[..k][q];
    }
  }

  /** Different choices arrange distinct items differently. */
  lemma {:induction false} ChoicesAreUnique<T>(items: seq<T>, a: seq<nat>, b: seq<nat>, k: nat)
    requires Distinct(items) && InBounds(a, |items|) && InBounds(b, |items|) && k <= |a| && k <= |b|
    requires Chosen(items, a, k)[..k] == Chosen(items, b, k)[..k]
    ensures a[..k] == b[..k] && Chosen(items, a, k) == Chosen(items, b, k)
  {
    hide Distinct, Swap, Chosen;
    if k == 0 {
      NothingChosen(items, a);
      NothingChosen(items, b);
    } else {
      ChosenNext(items, a, k - 1);
      ChosenNext(items, b, k - 1);
      ChosenStays(items, a, k - 1, k);
      ChosenStays(items, b, k - 1, k);
      ShorterFront(Chosen(items, a, k), Chosen(items, b, k), k);
      ChoicesAreUnique(items, a, b, k - 1);
      ChosenRearranges(items, a, k - 1);
      SamePlace(Chosen(items, a, k - 1), k - 1 + a[k - 1], k - 1 + b[k - 1]);
      assert a[..k] == a[..k - 1] + [a[k - 1]] && b[..k] == b[..k - 1] + [b[k - 1]];
    }
  }

  lemma NothingChosen<T>(items: seq<T>, ds: seq<nat>)
    requires InBounds(ds, |items|)
    ensures Chosen(items, ds, 0) == items
  {
  }

  lemma ChosenNext<T>(items: seq<T>, ds: seq<nat>, k: nat)
    requires InBounds(ds, |items|) && k < |ds|
    ensures Chosen(items, ds, k + 1) == Swap(Chosen(items, ds, k), k, k + ds[k])
    ensures Chosen(items, ds, k + 1)[k] == Chosen(items, ds, k)[k + ds[k]]
  {
    hide Swap;
    SwapLeavesFront(Chosen(items, ds, k), k, k + ds[k], k);
  }

  lemma ShorterFront<T>(x: seq<T>, y: seq<T>, k: nat)
    requires 0 < k <= |x| && k <= |y| && x[..k] == y[..k]
    ensures x[..k - 1] == y[..k - 1] && x[k - 1] == y[k - 1]
  {
    assert x[..k - 1] == x[..k][..k - 1] && y[..k - 1] == y[..k][..k - 1];
    assert x[k - 1] == x[..k][k - 1] && y[k - 1] == y[..k][k - 1];
  }

  lemma SamePlace<T>(items: seq<T>, i: nat, j: nat)
    requires Distinct(items) && i < |items| && j < |items| && items[i] == items[j]
    ensures i == j
  {
  }

  // ----- Draws and streams -----

  /** The draws a stream makes, one after another. */
  ghost function DrawsOf(stream: Stream, n: nat, k: nat): (ds: seq<nat>)
    requires stream.Fair() && k <= n < TWO_TO_64
    ensures |ds| == k && InBounds(ds, n)
  {
    if k == 0 then [] else DrawsOf(stream, n, k - 1) + [stream.Draw(CounterAt(stream, n, k - 1), n - (k - 1))]
  }

  /** The word the draw for position `k` starts at. */
  ghost function CounterAt(stream: Stream, n: nat, k: nat): nat
    requires stream.Fair() && k <= n < TWO_TO_64
  {
    if k == 0 then 0 else stream.NextAccepted(CounterAt(stream, n, k - 1), n - (k - 1)) + 1
  }

  /** The shuffle makes the choices its stream draws. (The last item has only one place left, and nothing is drawn for it.) */
  lemma {:induction false} ShuffleIsChosen<T>(items: seq<T>, stream: Stream, k: nat)
    requires stream.Fair() && k < |items| < TWO_TO_64
    ensures Shuffled(items, stream, k) == Shuffle(Chosen(items, DrawsOf(stream, |items|, k), k), CounterAt(stream, |items|, k))
  {
    hide Stream.Fair, Stream.Draw, Stream.NextAccepted, Swap, Shuffled, Chosen;
    if k == 0 {
      NothingShuffled(items, stream);
    } else {
      ShuffleIsChosen(items, stream, k - 1);
      ShuffledNext(items, stream, k - 1);
      var n := |items|;
      var front, last := DrawsOf(stream, n, k - 1), stream.Draw(CounterAt(stream, n, k - 1), n - (k - 1));
      assert DrawsOf(stream, n, k) == front + [last];
      ChosenOfFront(items, front, [last], k - 1);
      ChosenNext(items, front + [last], k - 1);
    }
  }

  lemma NothingShuffled<T>(items: seq<T>, stream: Stream)
    requires stream.Fair() && |items| < TWO_TO_64
    ensures Shuffled(items, stream, 0) == Shuffle(items, 0) && Chosen(items, [], 0) == items
    ensures DrawsOf(stream, |items|, 0) == [] && CounterAt(stream, |items|, 0) == 0
  {
  }

  /** An accepted word for every choice. */
  lemma WordFor(bound: int, d: nat) returns (w: Word)
    requires 1 <= bound < TWO_TO_64 && d < bound
    ensures w >= Threshold(bound) && Residue(w, bound) == d
  {
    SmallResidue(d, bound);
    if d >= Threshold(bound) {
      w := d;
    } else {
      RemainderBelow(TWO_TO_64 - bound, bound);
      SameResidue(d, d + bound, 1, bound);
      w := d + bound;
    }
  }

  lemma RemainderBelow(a: nat, bound: int)
    requires bound >= 1
    ensures a % bound <= a
  {
    if a < bound { SmallResidue(a, bound); }
  }

  /** Words that give certain choices. */
  ghost predicate Gives(ws: seq<Word>, ds: seq<nat>, n: nat)
    requires n < TWO_TO_64 && |ds| <= n
  {
    && |ws| == |ds|
    && forall i :: 0 <= i < |ws| ==> ws[i] >= Threshold(n - i) && Residue(ws[i], n - i) == ds[i]
  }

  /** Words for all of them. */
  lemma WordsFor(ds: seq<nat>, n: nat) returns (ws: seq<Word>)
    requires InBounds(ds, n) && n < TWO_TO_64
    ensures Gives(ws, ds, n)
  {
    hide Threshold, Residue;
    ws := [];
    for k := 0 to |ds|
      invariant |ws| == k
      invariant forall i :: 0 <= i < k ==> ws[i] >= Threshold(n - i) && Residue(ws[i], n - i) == ds[i]
    {
      var w := WordFor(n - k, ds[k]);
      ws := ws + [w];
    }
  }

  /** The stream that begins with these words. */
  ghost function Beginning(ws: seq<Word>): (stream: Stream)
    ensures stream.Fair()
  {
    var stream := Stream((domain: Word, k: nat) => if k < |ws| then ws[k] else TWO_TO_64 - 1, 0);
    BeginningIsFair(ws, stream);
    stream
  }

  lemma BeginningIsFair(ws: seq<Word>, stream: Stream)
    requires stream == Stream((domain: Word, k: nat) => if k < |ws| then ws[k] else TWO_TO_64 - 1, 0)
    ensures stream.Fair()
  {
    forall c: nat ensures HighWordAhead(stream, c) {
      var k := c + |ws|;
      assert HighWord(stream, k);
    }
    hide Stream.Fair;
    HighWordsAreFair(stream);
  }

  lemma BeginningReads(ws: seq<Word>, k: nat)
    requires k < |ws|
    ensures Beginning(ws).prf(Beginning(ws).domain, k) == ws[k]
  {
  }

  lemma AcceptedAtOnce(stream: Stream, c: nat, bound: int)
    requires stream.Fair() && 1 <= bound < TWO_TO_64 && stream.Accepts(c, bound)
    ensures stream.NextAccepted(c, bound) == c && stream.Draw(c, bound) == Residue(stream.prf(stream.domain, c), bound)
  {
    hide Stream.Fair, Stream.Accepts, Residue;
    assert stream.Accepts(c, bound);
  }

  lemma DrawNext(stream: Stream, n: nat, k: nat)
    requires stream.Fair() && k < n < TWO_TO_64 && CounterAt(stream, n, k) == k && stream.Accepts(k, n - k)
    ensures DrawsOf(stream, n, k + 1) == DrawsOf(stream, n, k) + [Residue(stream.prf(stream.domain, k), n - k)]
    ensures CounterAt(stream, n, k + 1) == k + 1
  {
    hide Stream.Fair, Stream.Accepts, Stream.Draw, Stream.NextAccepted, Residue;
    AcceptedAtOnce(stream, k, n - k);
  }

  lemma BeginningDraws(ws: seq<Word>, ds: seq<nat>, n: nat, k: nat)
    requires InBounds(ds, n) && n < TWO_TO_64 && Gives(ws, ds, n) && k < |ds|
    ensures Beginning(ws).Accepts(k, n - k) && Residue(Beginning(ws).prf(Beginning(ws).domain, k), n - k) == ds[k]
  {
    hide Beginning, Threshold, Residue;
    BeginningReads(ws, k);
  }

  lemma NothingDrawn(stream: Stream, count: nat, n: nat)
    requires stream.Fair() && count <= n < TWO_TO_64
    ensures DrawsOf(stream, n, 0) == [] && CounterAt(stream, n, 0) == 0
  {
  }

  lemma {:induction false} DrawsMatch(ws: seq<Word>, ds: seq<nat>, n: nat, k: nat)
    requires InBounds(ds, n) && n < TWO_TO_64 && Gives(ws, ds, n) && k <= |ds|
    ensures DrawsOf(Beginning(ws), n, k) == ds[..k] && CounterAt(Beginning(ws), n, k) == k
  {
    hide Gives, Beginning, Stream.Fair, Stream.Accepts, Threshold, Residue, DrawsOf, CounterAt;
    if k == 0 {
      NothingDrawn(Beginning(ws), |ds|, n);
    } else {
      DrawsMatch(ws, ds, n, k - 1);
      BeginningDraws(ws, ds, n, k - 1);
      DrawNext(Beginning(ws), n, k - 1);
      assert ds[..k] == ds[..k - 1] + [ds[k - 1]];
    }
  }

  /** Every sequence of choices is drawn from some stream. */
  lemma EveryChoiceIsDrawn(ds: seq<nat>, n: nat) returns (stream: Stream)
    requires InBounds(ds, n) && n < TWO_TO_64
    ensures stream.Fair() && DrawsOf(stream, n, |ds|) == ds
  {
    hide Gives;
    var ws := WordsFor(ds, n);
    stream := Beginning(ws);
    DrawsMatch(ws, ds, n, |ds|);
    assert ds[..|ds|] == ds;
  }

  /** Every arrangement of a prefix is drawn by some stream. */
  lemma EveryArrangementIsReached<T>(items: seq<T>, target: seq<T>) returns (stream: Stream)
    requires |target| < |items| < TWO_TO_64
    requires Distinct(target) && forall i :: 0 <= i < |target| ==> target[i] in items
    ensures stream.Fair() && Shuffled(items, stream, |target|).items[..|target|] == target
  {
    var ds := ChoicesReach(items, target);
    stream := EveryChoiceIsDrawn(ds, |items|);
    ShuffleIsChosen(items, stream, |target|);
  }

  /** And by no other draws: two streams that arrange distinct items alike have drawn alike. */
  lemma SameArrangementSameDraws<T>(items: seq<T>, a: Stream, b: Stream, k: nat)
    requires a.Fair() && b.Fair() && Distinct(items) && k < |items| < TWO_TO_64
    ensures Shuffled(items, a, k).items[..k] == Shuffled(items, b, k).items[..k]
       <==> DrawsOf(a, |items|, k) == DrawsOf(b, |items|, k)
  {
    hide Stream.Fair, Distinct, Shuffled, Chosen;
    var n := |items|;
    var x, y := DrawsOf(a, n, k), DrawsOf(b, n, k);
    ShuffleIsChosen(items, a, k);
    ShuffleIsChosen(items, b, k);
    if Chosen(items, x, k)[..k] == Chosen(items, y, k)[..k] {
      ChoicesAreUnique(items, x, y, k);
      assert x[..k] == x && y[..k] == y;
    }
  }
}
