/**
  The order carriers are emitted in: grouped by block row, each group ordered by
  column and coefficient. What any such order means, and that it only rearranges.
 */
module RedditGrouping {
  import opened RedditLayout

  /** The carriers of one block row, in slot order. */
  function Bucket(all: seq<Carrier>, row: nat): (b: seq<Carrier>)
    ensures |b| <= |all|
    ensures forall i :: 0 <= i < |b| ==> b[i].row == row
  {
    if all == [] then []
    else
      var n := |all| - 1;
      if all[n].row == row then Bucket(all[..n], row) + [all[n]] else Bucket(all[..n], row)
  }

  /** The first `rows` buckets one after another. */
  function Grouped(all: seq<Carrier>, rows: nat): seq<Carrier> {
    if rows == 0 then [] else Grouped(all, rows - 1) + Bucket(all, rows - 1)
  }

  // ----- Within a row -----

  predicate Before(a: Carrier, b: Carrier) {
    a.column < b.column || (a.column == b.column && a.coefficient < b.coefficient)
  }

  function Insert(c: Carrier, s: seq<Carrier>): (r: seq<Carrier>)
    ensures |r| == |s| + 1
  {
    if s == [] then [c]
    else if Before(c, s[|s| - 1]) then Insert(c, s[..|s| - 1]) + [s[|s| - 1]]
    else s + [c]
  }

  /** A bucket ordered by column, then coefficient. */
  function SortedBucket(s: seq<Carrier>): (r: seq<Carrier>)
    ensures |r| == |s|
  {
    if s == [] then [] else Insert(s[|s| - 1], SortedBucket(s[..|s| - 1]))
  }

  ghost predicate InOrder(s: seq<Carrier>) {
    forall i, j :: 0 <= i < j < |s| ==> !Before(s[j], s[i])
  }

  lemma {:induction false} InsertKeepsOrder(c: Carrier, s: seq<Carrier>)
    requires InOrder(s)
    ensures InOrder(Insert(c, s))
    ensures multiset(Insert(c, s)) == multiset(s) + multiset{c}
  {
    var n := |s| - 1;
    if s != [] && Before(c, s[n]) {
      InsertKeepsOrder(c, s[..n]);
      var front := Insert(c, s[..n]);
      assert s == s[..n] + [s[n]];
      forall i | 0 <= i < |front| ensures !Before(s[n], front[i]) {
        assert front[i] in multiset(front);
        assert front[i] == c || front[i] in s[..n];
      }
    } else if s != [] {
      forall i | 0 <= i < |s| ensures !Before(c, s[i]) {
        if i < n { assert !Before(s[n], s[i]); }
      }
    }
  }

  lemma {:induction false} SortedBucketSorts(s: seq<Carrier>)
    ensures InOrder(SortedBucket(s))
    ensures multiset(SortedBucket(s)) == multiset(s)
  {
    if s != [] {
      var n := |s| - 1;
      SortedBucketSorts(s[..n]);
      InsertKeepsOrder(s[n], SortedBucket(s[..n]));
      assert s == s[..n] + [s[n]];
    }
  }

  // ----- The whole arrangement -----

  /** What the original returns: the buckets one after another, each in order. */
  function Arranged(all: seq<Carrier>, rows: nat): seq<Carrier> {
    if rows == 0 then [] else Arranged(all, rows - 1) + SortedBucket(Bucket(all, rows - 1))
  }

  lemma {:induction false} ArrangedLength(all: seq<Carrier>, rows: nat)
    ensures |Arranged(all, rows)| == |Grouped(all, rows)|
  {
    if rows > 0 { ArrangedLength(all, rows - 1); }
  }

  lemma SameLength(a: seq<Carrier>, b: seq<Carrier>)
    requires multiset(a) == multiset(b)
    ensures |a| == |b|
  {
    assert |multiset(a)| == |a| && |multiset(b)| == |b|;
  }

  ghost function Occurrences(s: seq<Carrier>, x: Carrier): nat {
    multiset(s)[x]
  }

  lemma OccurrencesAdd(a: seq<Carrier>, b: seq<Carrier>, x: Carrier)
    ensures Occurrences(a + b, x) == Occurrences(a, x) + Occurrences(b, x)
  {
  }

  lemma OccursInOne(c: Carrier, x: Carrier)
    ensures Occurrences([c], x) == if x == c then 1 else 0
  {
  }

  lemma BucketGrows(all: seq<Carrier>, c: Carrier, row: nat, x: Carrier)
    ensures Occurrences(Bucket(all + [c], row), x)
         == Occurrences(Bucket(all, row), x) + (if c.row == row && x == c then 1 else 0)
  {
    assert (all + [c])[..|all|] == all;
    hide Occurrences;
    OccurrencesAdd(Bucket(all, row), [c], x);
    OccursInOne(c, x);
  }

  lemma {:induction false} GroupedGrows(all: seq<Carrier>, c: Carrier, rows: nat, x: Carrier)
    ensures Occurrences(Grouped(all + [c], rows), x)
         == Occurrences(Grouped(all, rows), x) + (if c.row < rows && x == c then 1 else 0)
  {
    hide Bucket, Occurrences;
    if rows > 0 {
      GroupedGrows(all, c, rows - 1, x);
      BucketGrows(all, c, rows - 1, x);
      OccurrencesAdd(Grouped(all, rows - 1), Bucket(all, rows - 1), x);
      OccurrencesAdd(Grouped(all + [c], rows - 1), Bucket(all + [c], rows - 1), x);
    }
  }

  lemma {:induction false} GroupedPermutes(all: seq<Carrier>, rows: nat)
    requires forall i :: 0 <= i < |all| ==> all[i].row < rows
    ensures multiset(Grouped(all, rows)) == multiset(all)
  {
    hide Grouped;
    if all == [] {
      NothingGrouped(rows);
    } else {
      var n := |all| - 1;
      GroupedPermutes(all[..n], rows);
      assert all == all[..n] + [all[n]];
      forall x ensures multiset(Grouped(all, rows))[x] == multiset(all)[x] {
        GroupedGrows(all[..n], all[n], rows, x);
        OccurrencesAdd(all[..n], [all[n]], x);
        OccursInOne(all[n], x);
      }
    }
  }

  lemma {:induction false} NothingGrouped(rows: nat)
    ensures Grouped([], rows) == []
  {
    if rows > 0 { NothingGrouped(rows - 1); }
  }

  lemma {:induction false} ArrangedPermutesGroups(all: seq<Carrier>, rows: nat)
    ensures multiset(Arranged(all, rows)) == multiset(Grouped(all, rows))
  {
    if rows > 0 {
      ArrangedPermutesGroups(all, rows - 1);
      SortedBucketSorts(Bucket(all, rows - 1));
    }
  }

  /** Every slot's carrier is emitted exactly once. */
  lemma ArrangedPermutes(all: seq<Carrier>, rows: nat)
    requires forall i :: 0 <= i < |all| ==> all[i].row < rows
    ensures multiset(Arranged(all, rows)) == multiset(all)
    ensures |Arranged(all, rows)| == |all|
  {
    ArrangedPermutesGroups(all, rows);
    GroupedPermutes(all, rows);
    SameLength(Arranged(all, rows), all);
  }

  /** Row, then column, then coefficient. */
  predicate Precedes(a: Carrier, b: Carrier) {
    a.row < b.row || (a.row == b.row && Before(a, b))
  }

  ghost predicate WeaklyOrdered(s: seq<Carrier>) {
    forall i, j :: 0 <= i < j < |s| ==> !Precedes(s[j], s[i])
  }

  lemma SortedBucketRow(s: seq<Carrier>, row: nat)
    requires forall i :: 0 <= i < |s| ==> s[i].row == row
    ensures forall i :: 0 <= i < |s| ==> SortedBucket(s)[i].row == row
  {
    SortedBucketSorts(s);
    var r := SortedBucket(s);
    forall i | 0 <= i < |s| ensures r[i].row == row {
      assert r[i] in multiset(r);
      assert r[i] in s;
    }
  }

  lemma {:induction false} ArrangedIsOrdered(all: seq<Carrier>, rows: nat)
    ensures WeaklyOrdered(Arranged(all, rows))
    ensures forall i :: 0 <= i < |Arranged(all, rows)| ==> Arranged(all, rows)[i].row < rows
  {
    if rows > 0 {
      ArrangedIsOrdered(all, rows - 1);
      SortedBucketRow(Bucket(all, rows - 1), rows - 1);
      SortedBucketSorts(Bucket(all, rows - 1));
      AppendRow(Arranged(all, rows - 1), SortedBucket(Bucket(all, rows - 1)), rows - 1);
    }
  }

  lemma AppendRow(front: seq<Carrier>, last: seq<Carrier>, row: nat)
    requires WeaklyOrdered(front) && InOrder(last)
    requires forall i :: 0 <= i < |front| ==> front[i].row < row
    requires forall i :: 0 <= i < |last| ==> last[i].row == row
    ensures WeaklyOrdered(front + last)
  {
    hide Before;
    var whole := front + last;
    forall i, j | 0 <= i < j < |whole| ensures !Precedes(whole[j], whole[i]) {
      if j < |front| {
        assert !Precedes(front[j], front[i]);
      } else if i >= |front| {
        assert !Before(last[j - |front|], last[i - |front|]);
      }
    }
  }

  /** Each carrier strictly before the next: the order has no ties to break. */
  ghost predicate StrictlyOrdered(s: seq<Carrier>) {
    forall i, j :: 0 <= i < j < |s| ==> Precedes(s[i], s[j])
  }

  lemma SeparateIsStrict(grid: Grid, s: seq<Carrier>)
    requires WeaklyOrdered(s) && Separate(grid, s)
    ensures StrictlyOrdered(s)
  {
    forall i, j | 0 <= i < j < |s| ensures Precedes(s[i], s[j]) {
      assert Offset(grid, s[i]) != Offset(grid, s[j]) && !Precedes(s[j], s[i]);
      SamePlace(grid, s[i], s[j]);
    }
  }

  lemma SamePlace(grid: Grid, a: Carrier, b: Carrier)
    ensures Precedes(a, b) || Precedes(b, a) || Offset(grid, a) == Offset(grid, b)
  {
  }

  // ----- Facts a rearrangement keeps -----

  lemma SameOccurrences(s: seq<Carrier>, i: nat, j: nat)
    requires i < j < |s| && s[i] == s[j]
    ensures multiset(s)[s[i]] >= 2
  {
    assert s == s[..j] + [s[j]] + s[j + 1..];
    assert s[i] in s[..j];
  }

  /** A rearrangement of separate carriers is separate. */
  lemma RearrangedIsSeparate(grid: Grid, all: seq<Carrier>, s: seq<Carrier>)
    requires Separate(grid, all) && multiset(s) == multiset(all)
    ensures Separate(grid, s)
  {
    hide Offset;
    forall i | 0 <= i < |s| ensures s[i] in all { assert s[i] in multiset(s); }
    forall i, j | 0 <= i < j < |s| ensures Offset(grid, s[i]) != Offset(grid, s[j]) {
      if s[i] == s[j] {
        SameOccurrences(s, i, j);
        OccursOnce(grid, all, s[i]);
      } else {
        assert s[i] in all && s[j] in all;
      }
    }
  }

  lemma {:induction false} OccursOnce(grid: Grid, all: seq<Carrier>, c: Carrier)
    requires Separate(grid, all)
    ensures multiset(all)[c] <= 1
  {
    hide Offset;
    if all != [] {
      var n := |all| - 1;
      OccursOnce(grid, all[..n], c);
      assert all == all[..n] + [all[n]];
      forall i | 0 <= i < n ensures all[i] != all[n] {
        assert Offset(grid, all[i]) != Offset(grid, all[n]);
      }
      assert all[n] !in all[..n];
    }
  }

  /** A rearrangement holds as many copies of every bit. */
  lemma {:induction false} RearrangedHoldsCopies(s: seq<Carrier>, t: seq<Carrier>, bit: nat)
    requires multiset(s) == multiset(t)
    ensures CopiesOf(s, bit) == CopiesOf(t, bit)
  {
    if s == [] {
      assert |multiset(t)| == 0;
    } else {
      var n, c := |s| - 1, s[|s| - 1];
      assert s == s[..n] + [c];
      assert c in multiset(t);
      var j :| 0 <= j < |t| && t[j] == c;
      RemoveOne(t, j, bit);
      assert multiset(s) == multiset(s[..n]) + multiset{c};
      Cancel(multiset(s[..n]), multiset(t[..j] + t[j + 1..]), multiset{c});
      RearrangedHoldsCopies(s[..n], t[..j] + t[j + 1..], bit);
    }
  }

  lemma Cancel(a: multiset<Carrier>, b: multiset<Carrier>, m: multiset<Carrier>)
    requires a + m == b + m
    ensures a == b
  {
    assert a == (a + m) - m && b == (b + m) - m;
  }

  lemma RemoveOne(t: seq<Carrier>, j: nat, bit: nat)
    requires j < |t|
    ensures var rest := t[..j] + t[j + 1..];
      && multiset(t) == multiset(rest) + multiset{t[j]}
      && CopiesOf(t, bit) == CopiesOf(rest, bit) + (if t[j].bit == bit then 1 else 0)
  {
    var c := t[j];
    CopiesOfSplit(t[..j], [c] + t[j + 1..], bit);
    CopiesOfSplit([c], t[j + 1..], bit);
    CopiesOfSplit(t[..j], t[j + 1..], bit);
    assert CopiesOf([c], bit) == if c.bit == bit then 1 else 0;
    hide CopiesOf;
    assert t[..j] + ([c] + t[j + 1..]) == t;
  }

  lemma {:induction false} CopiesOfSplit(a: seq<Carrier>, b: seq<Carrier>, bit: nat)
    ensures CopiesOf(a + b, bit) == CopiesOf(a, bit) + CopiesOf(b, bit)
  {
    if b == [] {
      assert a + b == a;
    } else {
      assert (a + b)[..|a + b| - 1] == a + b[..|b| - 1];
      CopiesOfSplit(a, b[..|b| - 1], bit);
    }
  }
}
