/**
  The sparse form of the keyed shuffle of 0, 1, ..., size - 1: it keeps the fixed
  prefix and, in an open-addressing table, only the positions the shuffle has
  displaced, until the prefix is long enough that the whole array is cheaper.
 */
module KeyedIndexPrefixes {
  import opened Bits
  import opened KeyedShuffle

  const EMPTY: nat := 0xFFFF_FFFF
  const SPARSE_DIVISOR: nat := 16
  const HOME_MULTIPLIER: nat := 0x9e37_79b9_7f4a_7c15

  datatype Slot = Slot(index: nat, value: nat)

  function Identity(n: nat): (s: seq<nat>)
    ensures |s| == n
    ensures forall i :: 0 <= i < n ==> s[i] == i
  {
    if n == 0 then [] else Identity(n - 1) + [n - 1]
  }

  /** A position past the end of a table of `cap` slots, wrapped around once. */
  function Wrap(p: nat, cap: nat): nat {
    if p < cap then p else p - cap
  }

  /** Steps from `home` to `slot`, going round the table. */
  function Distance(home: nat, slot: nat, cap: nat): nat
    requires home < cap && slot < cap
  {
    if slot >= home then slot - home else slot + cap - home
  }

  /** The table slot a displaced index starts probing at. */
  function Home(index: nat, shift: nat): (h: nat)
    requires shift <= 64
    ensures h < Pow2(64 - shift)
  {
    var product := (index * HOME_MULTIPLIER) % TWO_TO_64;
    Pow2Of64();
    ShrFits(product, shift, 64);
    Shr(product, shift)
  }

  /** Advancing a slot under the power-of-two mask wraps it at the end of the table. */
  lemma MaskWraps(slot: nat, k: nat)
    requires slot < Pow2(k)
    ensures And(slot + 1, Pow2(k) - 1) == Wrap(slot + 1, Pow2(k))
  {
    MaskIsMod(slot + 1, k);
    var p := Pow2(k);
    if slot + 1 == p {
      ModUnique(slot + 1, p, 1, 0);
    } else {
      ModUnique(slot + 1, p, 0, slot + 1);
    }
  }

  // ----- The table -----

  /** The slots that hold the entries: each index sits in exactly one. */
  ghost predicate SlotsMatch(table: seq<Slot>, slotOf: map<nat, nat>) {
    && (forall i :: 0 <= i < |table| && table[i].index != EMPTY ==>
          table[i].index in slotOf && slotOf[table[i].index] == i)
    && (forall x :: x in slotOf ==> slotOf[x] < |table| && table[slotOf[x]].index == x && x != EMPTY)
  }

  /** Slot `i` comes before `slot` when probing for `x`. */
  predicate OnTheWay(x: nat, i: nat, slot: nat, shift: nat, cap: nat)
    requires shift <= 64 && cap == Pow2(64 - shift) && i < cap && slot < cap
  {
    Distance(Home(x, shift), i, cap) < Distance(Home(x, shift), slot, cap)
  }

  /** No empty slot lies on the way from an index's home to its slot. */
  ghost predicate PathsFull(table: seq<Slot>, shift: nat, slotOf: map<nat, nat>)
    requires shift <= 64 && |table| == Pow2(64 - shift) && SlotsMatch(table, slotOf)
  {
    forall x, i :: x in slotOf && 0 <= i < |table| && OnTheWay(x, i, slotOf[x], shift, |table|) ==>
      table[i].index != EMPTY
  }

  ghost predicate TableOk(table: seq<Slot>, used: nat, shift: nat, slotOf: map<nat, nat>) {
    && SlotsMatch(table, slotOf)
    && used == |slotOf|
    && (table != [] ==>
          && shift <= 64 && |table| == Pow2(64 - shift) && |table| >= 64
          && used * 2 <= |table|
          && PathsFull(table, shift, slotOf))
  }

  /** The displaced entries. */
  ghost function Entries(table: seq<Slot>, slotOf: map<nat, nat>): map<nat, nat>
    requires SlotsMatch(table, slotOf)
  {
    map x | x in slotOf :: table[slotOf[x]].value
  }

  /** The indexes of the occupied slots among the first `k`. */
  ghost function Occupied(table: seq<Slot>, slotOf: map<nat, nat>, k: nat): (s: set<nat>)
    requires SlotsMatch(table, slotOf) && k <= |table|
    requires forall i :: 0 <= i < k ==> table[i].index != EMPTY
    ensures |s| == k
    ensures s <= slotOf.Keys && forall x :: x in s ==> slotOf[x] < k
  {
    if k == 0 then {} else Occupied(table, slotOf, k - 1) + {table[k - 1].index}
  }

  lemma SubsetIsSmaller(a: set<nat>, b: set<nat>)
    requires a <= b
    ensures |a| <= |b|
  {
    assert b == a + (b - a);
  }

  lemma FullTableIsTooFull(table: seq<Slot>, slotOf: map<nat, nat>)
    requires SlotsMatch(table, slotOf)
    requires forall i :: 0 <= i < |table| ==> table[i].index != EMPTY
    ensures |slotOf| >= |table|
  {
    SubsetIsSmaller(Occupied(table, slotOf, |table|), slotOf.Keys);
    assert |slotOf.Keys| == |slotOf|;
  }

  /** At load one half, a probe always meets an empty slot. */
  lemma SomeSlotIsEmpty(table: seq<Slot>, used: nat, shift: nat, slotOf: map<nat, nat>) returns (e: nat)
    requires TableOk(table, used, shift, slotOf) && table != []
    ensures e < |table| && table[e].index == EMPTY
  {
    if forall i :: 0 <= i < |table| ==> table[i].index != EMPTY {
      FullTableIsTooFull(table, slotOf);
    }
    e :| e < |table| && table[e].index == EMPTY;
  }

  ghost function Below(n: nat): (s: set<nat>)
    ensures |s| == n
    ensures forall x: nat :: x in s <==> x < n
  {
    if n == 0 then {} else Below(n - 1) + {n - 1}
  }

  lemma KeysBelow(keys: set<nat>, n: nat)
    requires forall x :: x in keys ==> x < n
    ensures |keys| <= n
  {
    SubsetIsSmaller(keys, Below(n));
  }

  /** Probing for `x` comes as far as `slot`: other entries fill the slots before it. */
  ghost predicate Passed(table: seq<Slot>, shift: nat, x: nat, slot: nat)
    requires shift <= 64 && |table| == Pow2(64 - shift) && slot < |table|
  {
    forall i :: 0 <= i < |table| && OnTheWay(x, i, slot, shift, |table|) ==>
      table[i].index != EMPTY && table[i].index != x
  }

  /** Where probing for `x` ends: its slot, or the empty slot it would go to. */
  ghost predicate ProbeEnd(table: seq<Slot>, shift: nat, x: nat, slot: nat)
    requires shift <= 64 && |table| == Pow2(64 - shift)
  {
    && slot < |table|
    && (table[slot].index == x || table[slot].index == EMPTY)
    && Passed(table, shift, x, slot)
  }

  lemma ProbeEndDecides(table: seq<Slot>, used: nat, shift: nat, slotOf: map<nat, nat>, x: nat, slot: nat)
    requires TableOk(table, used, shift, slotOf) && table != [] && x != EMPTY
    requires ProbeEnd(table, shift, x, slot)
    ensures x in slotOf <==> table[slot].index == x
    ensures x in slotOf ==> slotOf[x] == slot
  {
    hide Home;
    if x in slotOf {
      assert table[slotOf[x]].index == x;
      assert OnTheWay(x, slot, slotOf[x], shift, |table|) || OnTheWay(x, slotOf[x], slot, shift, |table|)
          || slot == slotOf[x];
    }
  }

  lemma InsertKeepsPaths(table: seq<Slot>, shift: nat, slotOf: map<nat, nat>, slot: nat, entry: Slot)
    requires shift <= 64 && |table| == Pow2(64 - shift) && SlotsMatch(table, slotOf) && PathsFull(table, shift, slotOf)
    requires entry.index != EMPTY && entry.index !in slotOf && ProbeEnd(table, shift, entry.index, slot)
    requires SlotsMatch(table[slot := entry], slotOf[entry.index := slot])
    ensures PathsFull(table[slot := entry], shift, slotOf[entry.index := slot])
  {
    var t, m := table[slot := entry], slotOf[entry.index := slot];
    hide OnTheWay, SlotsMatch;
    forall x, i | x in m && 0 <= i < |t| && OnTheWay(x, i, m[x], shift, |t|)
      ensures t[i].index != EMPTY
    {
      if x != entry.index { assert OnTheWay(x, i, slotOf[x], shift, |table|); }
    }
  }

  lemma InsertKeepsSlots(table: seq<Slot>, slotOf: map<nat, nat>, slot: nat, entry: Slot)
    requires SlotsMatch(table, slotOf) && slot < |table| && table[slot].index == EMPTY
    requires entry.index != EMPTY && entry.index !in slotOf
    ensures SlotsMatch(table[slot := entry], slotOf[entry.index := slot])
    ensures |slotOf[entry.index := slot]| == |slotOf| + 1
  {
    var t, m := table[slot := entry], slotOf[entry.index := slot];
    OneMoreKey(slotOf, entry.index, slot);
    forall i | 0 <= i < |t| && t[i].index != EMPTY ensures t[i].index in m && m[t[i].index] == i {
      InsertedAt(table, slotOf, slot, entry, i);
    }
    forall x | x in m ensures m[x] < |t| && t[m[x]].index == x && x != EMPTY {
      InsertedHas(table, slotOf, slot, entry, x);
    }
  }

  lemma OneMoreKey(m: map<nat, nat>, key: nat, value: nat)
    requires key !in m
    ensures |m[key := value]| == |m| + 1
  {
    assert m[key := value].Keys == m.Keys + {key};
    assert |m.Keys| == |m| && |m[key := value].Keys| == |m[key := value]|;
  }

  lemma InsertedAt(table: seq<Slot>, slotOf: map<nat, nat>, slot: nat, entry: Slot, i: nat)
    requires SlotsMatch(table, slotOf) && slot < |table| && i < |table|
    requires entry.index !in slotOf && table[slot := entry][i].index != EMPTY
    ensures var x := table[slot := entry][i].index;
      x in slotOf[entry.index := slot] && slotOf[entry.index := slot][x] == i
  {
    if i != slot { assert table[i].index in slotOf; }
  }

  lemma InsertedHas(table: seq<Slot>, slotOf: map<nat, nat>, slot: nat, entry: Slot, x: nat)
    requires SlotsMatch(table, slotOf) && slot < |table| && table[slot].index == EMPTY
    requires entry.index != EMPTY && x in slotOf[entry.index := slot]
    ensures var at := slotOf[entry.index := slot][x];
      at < |table| && table[slot := entry][at].index == x && x != EMPTY
  {
    if x != entry.index { assert x in slotOf && table[slotOf[x]].index == x; }
  }

  lemma InsertAddsEntry(table: seq<Slot>, slotOf: map<nat, nat>, slot: nat, entry: Slot)
    requires SlotsMatch(table, slotOf) && slot < |table| && table[slot].index == EMPTY
    requires entry.index != EMPTY && entry.index !in slotOf
    requires SlotsMatch(table[slot := entry], slotOf[entry.index := slot])
    ensures Entries(table[slot := entry], slotOf[entry.index := slot])
         == Entries(table, slotOf)[entry.index := entry.value]
  {
    var t, m := table[slot := entry], slotOf[entry.index := slot];
    forall x | x in slotOf ensures t[m[x]].value == table[slotOf[x]].value {
      assert table[slotOf[x]].index == x;
    }
  }

  /** A new entry at the end of its probe path keeps the table sound. */
  lemma InsertKeepsTable(table: seq<Slot>, used: nat, shift: nat, slotOf: map<nat, nat>, slot: nat, entry: Slot)
    requires TableOk(table, used, shift, slotOf) && table != []
    requires entry.index != EMPTY && entry.index !in slotOf && (used + 1) * 2 <= |table|
    requires ProbeEnd(table, shift, entry.index, slot)
    ensures TableOk(table[slot := entry], used + 1, shift, slotOf[entry.index := slot])
    ensures Entries(table[slot := entry], slotOf[entry.index := slot])
         == Entries(table, slotOf)[entry.index := entry.value]
  {
    ProbeEndDecides(table, used, shift, slotOf, entry.index, slot);
    InsertKeepsSlots(table, slotOf, slot, entry);
    InsertAddsEntry(table, slotOf, slot, entry);
    hide SlotsMatch, PathsFull, Entries, ProbeEnd;
    InsertKeepsPaths(table, shift, slotOf, slot, entry);
  }

  /** Overwriting a value moves nothing. */
  lemma UpdateKeepsTable(table: seq<Slot>, used: nat, shift: nat, slotOf: map<nat, nat>, slot: nat, value: nat)
    requires TableOk(table, used, shift, slotOf) && slot < |table| && table[slot].index != EMPTY
    ensures TableOk(table[slot := Slot(table[slot].index, value)], used, shift, slotOf)
    ensures Entries(table[slot := Slot(table[slot].index, value)], slotOf)
         == Entries(table, slotOf)[table[slot].index := value]
  {
    hide OnTheWay;
    var t := table[slot := Slot(table[slot].index, value)];
    assert SlotsMatch(t, slotOf);
    assert PathsFull(t, shift, slotOf);
  }

  /** One step along a probe path. */
  lemma NextOnTheWay(x: nat, slot: nat, end: nat, shift: nat, cap: nat)
    requires shift <= 64 && cap == Pow2(64 - shift) && slot < cap && end < cap
    requires OnTheWay(x, slot, end, shift, cap)
    ensures var next := Wrap(slot + 1, cap);
      && next < cap
      && Distance(Home(x, shift), next, cap) == Distance(Home(x, shift), slot, cap) + 1
      && (next == end || OnTheWay(x, next, end, shift, cap))
      && forall i :: 0 <= i < cap && OnTheWay(x, i, next, shift, cap) ==>
           i == slot || OnTheWay(x, i, slot, shift, cap)
  {
    hide Home;
  }

  /** Steps a probe at `slot` still needs to come to `end`. */
  ghost function StepsLeft(x: nat, slot: nat, end: nat, shift: nat, cap: nat): int
    requires shift <= 64 && cap == Pow2(64 - shift) && slot < cap && end < cap
  {
    Distance(Home(x, shift), end, cap) - Distance(Home(x, shift), slot, cap)
  }

  /** `slot` is no further along the probe path than `end`. */
  ghost predicate Reaches(x: nat, slot: nat, end: nat, shift: nat, cap: nat)
    requires shift <= 64 && cap == Pow2(64 - shift) && slot < cap && end < cap
  {
    slot == end || OnTheWay(x, slot, end, shift, cap)
  }

  lemma ProbeStarts(table: seq<Slot>, shift: nat, x: nat, end: nat)
    requires shift <= 64 && |table| == Pow2(64 - shift) && end < |table|
    ensures Passed(table, shift, x, Home(x, shift)) && Reaches(x, Home(x, shift), end, shift, |table|)
  {
    hide Home;
  }

  /** Past a slot that holds another entry, probing goes on to the next. */
  lemma ProbeGoesOn(table: seq<Slot>, shift: nat, x: nat, slot: nat, end: nat)
    requires shift <= 64 && |table| == Pow2(64 - shift) && slot < |table| && end < |table|
    requires Passed(table, shift, x, slot) && table[slot].index != x && table[slot].index != EMPTY
    requires Reaches(x, slot, end, shift, |table|) && table[end].index == EMPTY
    ensures var next := And(slot + 1, |table| - 1);
      && next < |table| && Passed(table, shift, x, next) && Reaches(x, next, end, shift, |table|)
      && 0 <= StepsLeft(x, next, end, shift, |table|) < StepsLeft(x, slot, end, shift, |table|)
  {
    hide Home, And, Wrap, Distance, OnTheWay;
    MaskWraps(slot, 64 - shift);
    NextOnTheWay(x, slot, end, shift, |table|);
    StepsLeftFalls(x, slot, end, shift, |table|);
  }

  lemma StepsLeftFalls(x: nat, slot: nat, end: nat, shift: nat, cap: nat)
    requires shift <= 64 && cap == Pow2(64 - shift) && slot < cap && end < cap
    requires OnTheWay(x, slot, end, shift, cap)
    ensures var next := Wrap(slot + 1, cap);
      next < cap && 0 <= StepsLeft(x, next, end, shift, cap) < StepsLeft(x, slot, end, shift, cap)
  {
    hide Home;
  }

  lemma TableShape(table: seq<Slot>, used: nat, shift: nat, slotOf: map<nat, nat>)
    requires TableOk(table, used, shift, slotOf) && table != []
    ensures shift <= 64 && |table| == Pow2(64 - shift) && |table| >= 64 && used * 2 <= |table|
  {
  }

  /** The entries found in the first `k` slots. */
  ghost function EntriesBelow(table: seq<Slot>, slotOf: map<nat, nat>, k: nat): map<nat, nat>
    requires SlotsMatch(table, slotOf)
  {
    map x | x in slotOf && slotOf[x] < k :: table[slotOf[x]].value
  }

  lemma EntriesBelowStep(table: seq<Slot>, slotOf: map<nat, nat>, k: nat)
    requires SlotsMatch(table, slotOf) && k < |table|
    ensures EntriesBelow(table, slotOf, k + 1)
         == if table[k].index == EMPTY then EntriesBelow(table, slotOf, k)
            else EntriesBelow(table, slotOf, k)[table[k].index := table[k].value]
    ensures table[k].index != EMPTY ==> table[k].index in slotOf
  {
  }

  lemma EntriesBelowEnds(table: seq<Slot>, slotOf: map<nat, nat>)
    requires SlotsMatch(table, slotOf)
    ensures EntriesBelow(table, slotOf, 0) == map[]
    ensures EntriesBelow(table, slotOf, |table|) == Entries(table, slotOf)
  {
  }

  lemma NoEntries(table: seq<Slot>, slotOf: map<nat, nat>)
    requires SlotsMatch(table, slotOf) && slotOf == map[]
    ensures Entries(table, slotOf) == map[]
  {
  }

  lemma EntriesBelowAreFew(table: seq<Slot>, slotOf: map<nat, nat>, k: nat)
    requires SlotsMatch(table, slotOf)
    ensures |EntriesBelow(table, slotOf, k)| <= |slotOf|
  {
    SubsetIsSmaller(EntriesBelow(table, slotOf, k).Keys, slotOf.Keys);
    assert |EntriesBelow(table, slotOf, k).Keys| == |EntriesBelow(table, slotOf, k)|;
    assert |slotOf.Keys| == |slotOf|;
  }

  lemma EntriesCount(table: seq<Slot>, slotOf: map<nat, nat>)
    requires SlotsMatch(table, slotOf)
    ensures |Entries(table, slotOf)| == |slotOf|
  {
    assert Entries(table, slotOf).Keys == slotOf.Keys;
    assert |Entries(table, slotOf).Keys| == |Entries(table, slotOf)| && |slotOf.Keys| == |slotOf|;
  }

  /** While the entries of a full table move to one twice as large, no further growth is due. */
  lemma RoomWhileMoving(before: seq<Slot>, usedBefore: nat, shiftBefore: nat, slotBefore: map<nat, nat>, k: nat,
                        table: seq<Slot>, used: nat, shift: nat, slotOf: map<nat, nat>)
    requires TableOk(before, usedBefore, shiftBefore, slotBefore) && TableOk(table, used, shift, slotOf)
    requires Entries(table, slotOf) == EntriesBelow(before, slotBefore, k)
    requires |table| >= 64 && |table| >= 2 * |before|
    ensures (used + 1) * 2 <= |table|
  {
    EntriesBelowAreFew(before, slotBefore, k);
    EntriesCount(table, slotOf);
    hide SlotsMatch, PathsFull, Entries, EntriesBelow;
    if before == [] {
      EmptyHasNone(before, slotBefore);
    }
  }

  lemma EmptyHasNone(table: seq<Slot>, slotOf: map<nat, nat>)
    requires SlotsMatch(table, slotOf) && table == []
    ensures |slotOf| == 0
  {
    assert slotOf.Keys == {};
  }

  /** A table at its load limit is far below 2^64 slots, so it can always double. */
  lemma RoomToDouble(capacity: nat, shift: nat, used: nat)
    requires shift <= 64 && capacity == Pow2(64 - shift)
    requires capacity < (used + 1) * 2 && used <= EMPTY
    ensures shift >= 1
  {
    Pow2Of32();
    assert Pow2(33) == 2 * Pow2(32);
    assert Pow2(34) == 2 * Pow2(33);
    Pow2Grows(64 - shift, 34);
  }

  /** A table that is due to grow doubles to a power of two that fits 64 bits. */
  lemma GrownCapacity(table: seq<Slot>, used: nat, shift: nat, slotOf: map<nat, nat>, size: nat) returns (k: nat)
    requires TableOk(table, used, shift, slotOf) && (forall x :: x in slotOf ==> x < size)
    requires size <= EMPTY && (used + 1) * 2 > |table|
    ensures k <= 64 && Pow2(k) >= 64 && Pow2(k) == if table == [] then 64 else |table| * 2
  {
    hide SlotsMatch, PathsFull;
    if table == [] {
      k := 6;
      assert Pow2(6) == 64;
    } else {
      k := 65 - shift;
      KeysBelow(slotOf.Keys, size);
      assert |slotOf.Keys| == |slotOf|;
      RoomToDouble(|table|, shift, used);
      assert k == (64 - shift) + 1;
    }
  }

  lemma EmptyTableIsOk(table: seq<Slot>, k: nat)
    requires k <= 64 && |table| == Pow2(k) >= 64 && forall i :: 0 <= i < |table| ==> table[i].index == EMPTY
    ensures TableOk(table, 0, 64 - k, map[])
  {
    hide Pow2;
  }

  // ----- The prefix -----

  /** The value at a position: displaced, or still its own index. */
  ghost function ValueIn(entries: map<nat, nat>, position: nat): nat {
    if position in entries then entries[position] else position
  }

  /** The first `k` entries of the keyed permutation of 0, 1, ..., size - 1. */
  ghost function KeyedPrefix(size: nat, stream: Stream, k: nat): (p: seq<nat>)
    requires stream.Fair() && k <= size < TWO_TO_64
    ensures |p| == k
  {
    Shuffled(Identity(size), stream, k).items[..k]
  }

  /** A longer prefix starts with the shorter one, however the extension was split. */
  lemma PrefixExtends(size: nat, stream: Stream, j: nat, k: nat)
    requires stream.Fair() && j <= k <= size < TWO_TO_64
    ensures KeyedPrefix(size, stream, k)[..j] == KeyedPrefix(size, stream, j)
  {
    FixedPrefixStays(Identity(size), stream, j, k);
    assert Shuffled(Identity(size), stream, k).items[..k][..j] == Shuffled(Identity(size), stream, k).items[..j];
  }

  /** No index is drawn twice, and none is out of range. */
  lemma PrefixIsDistinct(size: nat, stream: Stream, k: nat)
    requires stream.Fair() && k <= size < TWO_TO_64
    ensures Distinct(KeyedPrefix(size, stream, k))
    ensures forall i :: 0 <= i < k ==> KeyedPrefix(size, stream, k)[i] < size
  {
    var all := Shuffled(Identity(size), stream, k).items;
    ShuffleRearranges(Identity(size), stream, k);
    hide Shuffled;
    forall i | 0 <= i < k ensures all[i] < size {
      assert all[i] in multiset(all);
      assert all[i] in multiset(Identity(size));
      assert all[i] in Identity(size);
    }
  }

  class KeyedIndexPrefix {
    const size: nat
    const draws: KeyedIndexStream
    var items: seq<nat>
    var table: seq<Slot>
    var used: nat
    var shift: nat
    var fixed: nat
    var visible: nat
    var dense: bool
    ghost var slotOf: map<nat, nat>

    /** The array shuffle this object stands for, once `k` positions are fixed. */
    ghost function Permutation(k: nat): (s: Shuffle<nat>)
      requires draws.stream.Fair() && size <= EMPTY
      ensures |s.items| == size
    {
      Shuffled(Identity(size), draws.stream, k)
    }

    ghost predicate TableValid()
      reads this`table, this`used, this`shift, this`slotOf
    {
      && TableOk(table, used, shift, slotOf)
      && shift <= 64
      && forall x :: x in slotOf ==> x < size
    }

    /** The object holds the arrangement `all`, of which the first `k` entries are fixed. */
    ghost predicate Holds(all: seq<nat>, k: nat)
      reads this`items, this`table, this`used, this`shift, this`slotOf, this`dense
    {
      && |all| == size
      && k <= size
      && if dense then items == all
         else
           && TableValid()
           && items == all[..k]
           && forall p :: k <= p < size ==> all[p] == ValueIn(Entries(table, slotOf), p)
    }

    ghost predicate Valid()
      reads this, draws
    {
      && draws.stream.Fair()
      && size <= EMPTY
      && visible <= size
      && fixed == LastDraw(visible)
      && (visible == size > 0 ==> dense)
      && draws.counter == Permutation(fixed).counter
      && Holds(Permutation(fixed).items, fixed)
    }

    /** The last position needs no draw. */
    function LastDraw(count: nat): nat {
      if size == 0 then 0 else if count < size then count else size - 1
    }

    constructor (size: nat, stream: Stream)
      requires stream.Fair() && size <= EMPTY
      ensures Valid() && fresh(draws)
      ensures this.size == size && draws.stream == stream && visible == 0
    {
      this.size := size;
      this.draws := new KeyedIndexStream(stream);
      items, table, used, shift := [], [], 0, 64;
      fixed, visible, dense, slotOf := 0, 0, false, map[];
    }

    /** Probes from the home of `index` to its slot, or to the first empty one. */
    method FindSlot(index: nat) returns (slot: nat)
      requires TableValid() && table != [] && index < size <= EMPTY
      ensures slot < |table| && ProbeEnd(table, shift, index, slot)
    {
      hide TableOk, Home, And, OnTheWay, Passed, Reaches, StepsLeft;
      TableShape(table, used, shift, slotOf);
      ghost var empty := SomeSlotIsEmpty(table, used, shift, slotOf);
      var mask := |table| - 1;
      slot := Home(index, shift);
      ProbeStarts(table, shift, index, empty);
      while table[slot].index != index && table[slot].index != EMPTY
        invariant slot < |table| && Passed(table, shift, index, slot)
        invariant Reaches(index, slot, empty, shift, |table|)
        decreases StepsLeft(index, slot, empty, shift, |table|)
      {
        ProbeGoesOn(table, shift, index, slot, empty);
        slot := And(slot + 1, mask);
      }
    }

    /** The value at an unfixed position. */
    method ValueAt(position: nat) returns (value: nat)
      requires TableValid() && position < size <= EMPTY
      ensures value == ValueIn(Entries(table, slotOf), position)
    {
      if table == [] {
        return position;
      }
      var slot := FindSlot(position);
      ProbeEndDecides(table, used, shift, slotOf, position, slot);
      value := if table[slot].index == position then table[slot].value else position;
    }

    /** Records a displaced value. */
    method Store(index: nat, value: nat)
      requires TableValid() && index < size <= EMPTY
      modifies this`table, this`used, this`shift, this`slotOf
      ensures TableValid()
      ensures Entries(table, slotOf) == old(Entries(table, slotOf))[index := value]
      ensures old((used + 1) * 2 <= |table|) ==> |table| == old(|table|) && used <= old(used) + 1
      decreases if (used + 1) * 2 > |table| then 2 else 0
    {
      hide SlotsMatch, PathsFull, OnTheWay, Entries, ProbeEnd;
      if (used + 1) * 2 > |table| {
        Grow();
      }
      var slot := FindSlot(index);
      ProbeEndDecides(table, used, shift, slotOf, index, slot);
      if table[slot].index == index {
        UpdateKeepsTable(table, used, shift, slotOf, slot, value);
        table := table[slot := Slot(index, value)];
      } else {
        InsertKeepsTable(table, used, shift, slotOf, slot, Slot(index, value));
        table := table[slot := Slot(index, value)];
        slotOf := slotOf[index := slot];
        used := used + 1;
      }
    }

    /** Doubles the table and stores every entry again. */
    method Grow()
      requires TableValid() && size <= EMPTY && (used + 1) * 2 > |table|
      modifies this`table, this`used, this`shift, this`slotOf
      ensures TableValid()
      ensures Entries(table, slotOf) == old(Entries(table, slotOf))
      ensures (used + 1) * 2 <= |table|
      decreases 1
    {
      var before := table;
      ghost var slotBefore, usedBefore, shiftBefore := slotOf, used, shift;
      StartGrown();
      Restore(before, usedBefore, shiftBefore, slotBefore);
    }

    /** Stores the entries of the smaller table; no further growth is due on the way. */
    method Restore(before: seq<Slot>, ghost usedBefore: nat, ghost shiftBefore: nat, ghost slotBefore: map<nat, nat>)
      requires TableValid() && size <= EMPTY && slotOf == map[]
      requires |table| >= 64 && |table| >= 2 * |before|
      requires TableOk(before, usedBefore, shiftBefore, slotBefore) && forall x :: x in slotBefore ==> x < size
      modifies this`table, this`used, this`shift, this`slotOf
      ensures TableValid()
      ensures Entries(table, slotOf) == Entries(before, slotBefore)
      ensures (used + 1) * 2 <= |table|
      decreases 1, 0
    {
      hide SlotsMatch, PathsFull, Entries, EntriesBelow;
      EntriesBelowEnds(before, slotBefore);
      NoEntries(table, slotOf);
      for i := 0 to |before|
        invariant TableValid()
        invariant |table| >= 64 && |table| >= 2 * |before|
        invariant Entries(table, slotOf) == EntriesBelow(before, slotBefore, i)
      {
        EntriesBelowStep(before, slotBefore, i);
        RoomWhileMoving(before, usedBefore, shiftBefore, slotBefore, i, table, used, shift, slotOf);
        if before[i].index != EMPTY {
          Store(before[i].index, before[i].value);
        }
      }
      RoomWhileMoving(before, usedBefore, shiftBefore, slotBefore, |before|, table, used, shift, slotOf);
    }

    /** An empty table of the next capacity. */
    method StartGrown()
      requires TableValid() && size <= EMPTY && (used + 1) * 2 > |table|
      modifies this`table, this`used, this`shift, this`slotOf
      ensures TableValid() && slotOf == map[]
      ensures |table| == if old(table) == [] then 64 else 2 * |old(table)|
    {
      hide TableOk, Pow2, TrailingZeros;
      var capacity := if table == [] then 64 else |table| * 2;
      ghost var k := GrownCapacity(table, used, shift, slotOf, size);
      TrailingZerosOfPow2(k);
      table := seq(capacity, _ => Slot(EMPTY, 0));
      EmptyTableIsOk(table, k);
      shift := 64 - TrailingZeros(capacity);
      used := 0;
      slotOf := map[];
    }

    /** Every unfixed position's value, by overlaying the table on the identity. */
    method Overlay() returns (all: seq<nat>)
      requires TableValid() && size <= EMPTY && fixed <= size
      ensures |all| == size
      ensures forall p :: fixed <= p < size ==> all[p] == ValueIn(Entries(table, slotOf), p)
    {
      all := [];
      for position := 0 to size
        invariant |all| == position
        invariant forall p :: 0 <= p < position ==> all[p] == p
      {
        all := all + [position];
      }
      for i := 0 to |table|
        invariant |all| == size
        invariant forall p :: fixed <= p < size ==> all[p] == ValueIn(EntriesBelow(table, slotOf, i), p)
      {
        EntriesBelowStep(table, slotOf, i);
        if table[i].index != EMPTY && table[i].index >= fixed {
          all := all[table[i].index := table[i].value];
        }
      }
      EntriesBelowEnds(table, slotOf);
    }

    /** Switches to the dense form: the whole domain in shuffled-so-far order. */
    method Materialise(ghost arrangement: seq<nat>)
      requires size <= EMPTY && !dense && Holds(arrangement, fixed)
      modifies this`items, this`table, this`used, this`slotOf, this`dense
      ensures dense && Holds(arrangement, fixed)
    {
      hide TableOk, SlotsMatch;
      var all := Overlay();
      for p := 0 to fixed
        invariant |all| == size
        invariant forall q :: fixed <= q < size ==> all[q] == arrangement[q]
        invariant forall q :: 0 <= q < p ==> all[q] == arrangement[q]
      {
        all := all[p := items[p]];
      }
      items := all;
      table, used, slotOf := [], 0, map[];
      dense := true;
    }

    /** Swaps the first unfixed position with `other`, and counts it as fixed. */
    method SwapNext(other: nat, ghost arrangement: seq<nat>)
      requires size <= EMPTY && fixed <= other < size && Holds(arrangement, fixed)
      modifies this`items, this`table, this`used, this`shift, this`slotOf, this`fixed
      ensures fixed == old(fixed) + 1
      ensures Holds(Swap(arrangement, old(fixed), other), fixed)
    {
      hide TableOk, SlotsMatch, Entries;
      ghost var swapped := Swap(arrangement, fixed, other);
      if dense {
        items := items[fixed := items[other]][other := items[fixed]];
      } else {
        var here := ValueAt(fixed);
        var there := ValueAt(other);
        items := items + [there];
        assert items == swapped[..fixed + 1];
        if other != fixed {
          Store(other, here);
        }
      }
      fixed := fixed + 1;
    }

    /** Fixes the next position. */
    method FixOne()
      requires draws.stream.Fair() && size <= EMPTY && fixed + 1 < size
      requires draws.counter == Permutation(fixed).counter && Holds(Permutation(fixed).items, fixed)
      modifies this`items, this`table, this`used, this`shift, this`slotOf, this`fixed, draws
      ensures fixed == old(fixed) + 1
      ensures draws.counter == Permutation(fixed).counter && Holds(Permutation(fixed).items, fixed)
    {
      hide Shuffled, Identity, Swap, KeyedIndexPrefix.Holds, Stream.Fair, Stream.Draw, Stream.NextAccepted;
      ghost var before := Permutation(fixed);
      ShuffledNext(Identity(size), draws.stream, fixed);
      var offset := draws.Below(size - fixed);
      SwapNext(fixed + offset, before.items);
    }

    /** Fixes the first min(count, size) entries. */
    method ExtendTo(count: nat)
      requires Valid()
      modifies this, draws
      ensures Valid()
      ensures visible == if old(visible) < count && old(visible) < size then (if count < size then count else size) else old(visible)
    {
      var target := if count < size then count else size;
      if target <= visible {
        return;
      }
      if !dense && target > size / SPARSE_DIVISOR {
        Materialise(Permutation(fixed).items);
      }
      var swaps := LastDraw(target);
      while fixed < swaps
        invariant fixed <= swaps
        invariant visible == old(visible)
        invariant draws.counter == Permutation(fixed).counter
        invariant Holds(Permutation(fixed).items, fixed)
        invariant target == size ==> dense
      {
        FixOne();
      }
      visible := target;
    }

    /** The fixed entries, in order: exactly the array shuffle's first `visible` entries. */
    method Prefix() returns (p: seq<nat>)
      requires Valid()
      ensures p == KeyedPrefix(size, draws.stream, visible)
    {
      FixedPrefixStays(Identity(size), draws.stream, fixed, visible);
      p := items[..visible];
    }
  }
}
