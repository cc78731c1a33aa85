/**
  The parity-check matrix behind one extracted segment: which message bits each
  cover symbol turns, and that symbols turn them independently of one another.
 */
module StcMatrix {
  import opened Bits
  import opened StcSchedule
  import opened StcTrellis
  import opened StcRaw

  /** The message bits a cover symbol turns, counted from its own: the five columns of the two supported widths. */
  function RowsOf(width: nat, column: nat): set<nat> {
    if column == 0 then {0, 2, 3, 5, 6}
    else if width == 2 then {0, 1, 2, 6}
    else if column == 1 then {0, 1, 2, 3, 6}
    else {0, 1, 4, 6}
  }

  function Flipped(x: seq<bool>, y: seq<bool>): (z: seq<bool>)
    requires |x| == |y|
    ensures |z| == |x| && forall i :: 0 <= i < |x| ==> z[i] == (x[i] != y[i])
  {
    seq(|x|, i requires 0 <= i < |x| => x[i] != y[i])
  }

  function OnlyAt(n: nat, j: nat): (x: seq<bool>)
    ensures |x| == n && forall i :: 0 <= i < n ==> x[i] == (i == j)
  {
    seq(n, i => i == j)
  }

  /** What two vectors extract to combines bit by bit. */
  lemma {:induction false} SyndromesCombine(code: seq<Symbol>, x: seq<bool>, y: seq<bool>, row: nat)
    requires |x| == |y| <= |code|
    ensures SyndromeBit(code, Flipped(x, y), row) == (SyndromeBit(code, x, row) != SyndromeBit(code, y, row))
  {
    if x != [] {
      var j := |x| - 1;
      SyndromesCombine(code, x[..j], y[..j], row);
      assert Flipped(x, y)[..j] == Flipped(x[..j], y[..j]);
    }
  }

  /** One set symbol turns exactly the bits its column checks. */
  lemma {:induction false} OneSymbolTurns(code: seq<Symbol>, n: nat, j: nat, row: nat)
    requires n <= |code| && j < |code|
    ensures SyndromeBit(code, OnlyAt(n, j), row) <==> j < n && Checks(code[j], row)
  {
    if n > 0 {
      OneSymbolTurns(code, n - 1, j, row);
      assert OnlyAt(n, j)[..n - 1] == OnlyAt(n - 1, j);
    }
  }

  lemma ColumnsAre(width: nat, column: nat, r: nat)
    requires 2 <= width <= 3 && column < width && r < HEIGHT
    ensures Bit(ColumnFor(width, column), r) <==> r in RowsOf(width, column)
  {
    Bits109(r);
    Bits71(r);
    Bits79(r);
    Bits83(r);
  }

  lemma Bits109(r: nat)
    requires r < 7
    ensures Bit(109, r) <==> r in {0, 2, 3, 5, 6}
  {
    assert Bit(109, 0) && !Bit(109, 1) && Bit(109, 2) && Bit(109, 3) && !Bit(109, 4) && Bit(109, 5) && Bit(109, 6);
  }

  lemma Bits71(r: nat)
    requires r < 7
    ensures Bit(71, r) <==> r in {0, 1, 2, 6}
  {
    assert Bit(71, 0) && Bit(71, 1) && Bit(71, 2) && !Bit(71, 3) && !Bit(71, 4) && !Bit(71, 5) && Bit(71, 6);
  }

  lemma Bits79(r: nat)
    requires r < 7
    ensures Bit(79, r) <==> r in {0, 1, 2, 3, 6}
  {
    assert Bit(79, 0) && Bit(79, 1) && Bit(79, 2) && Bit(79, 3) && !Bit(79, 4) && !Bit(79, 5) && Bit(79, 6);
  }

  lemma Bits83(r: nat)
    requires r < 7
    ensures Bit(83, r) <==> r in {0, 1, 4, 6}
  {
    assert Bit(83, 0) && Bit(83, 1) && !Bit(83, 2) && !Bit(83, 3) && Bit(83, 4) && !Bit(83, 5) && Bit(83, 6);
  }

  /**
    The matrix, entry by entry: the `column`-th symbol of message bit `k` alone
    extracts to bits `k` + r for the rows r of its column, as far as the message goes.
   */
  lemma SymbolExtracts(cover: nat, messages: nat, k: nat, column: nat, i: nat)
    requires Schedulable(cover, messages) && k < messages && i < messages
    requires |Widths(cover, messages)| == messages && column < Widths(cover, messages)[k]
    ensures var j := Start(Widths(cover, messages), k) + column;
      && j < cover
      && (Extracted(ScheduledCode(cover, messages), OnlyAt(cover, j), messages)[i]
          <==> k <= i < k + 7 && i - k in RowsOf(Widths(cover, messages)[k], column))
  {
    hide SyndromeBit, Extracted, Bit, Widths, Code, RowsOf, ColumnFor, Schedulable;
    WidthsCover(cover, messages);
    var ws, code := Widths(cover, messages), ScheduledCode(cover, messages);
    CodeBlock(ws, k);
    var j := Start(ws, k) + column;
    assert code[j] == Symbol(k, ColumnFor(ws[k], column), column == ws[k] - 1);
    OneSymbolTurns(code, cover, j, i);
    ExtractedAt(code, OnlyAt(cover, j), messages, i);
    if k <= i < k + 7 { ColumnsAre(ws[k], column, i - k); }
  }

  /** Extraction combines bit by bit as well, so the entries above determine it. */
  lemma ExtractionCombines(cover: nat, messages: nat, x: seq<bool>, y: seq<bool>)
    requires Schedulable(cover, messages) && |x| == |y| == cover
    ensures var code := ScheduledCode(cover, messages);
      Extracted(code, Flipped(x, y), messages) == Flipped(Extracted(code, x, messages), Extracted(code, y, messages))
  {
    hide SyndromeBit, Extracted, Schedulable;
    var code := ScheduledCode(cover, messages);
    var z := Flipped(x, y);
    forall i | 0 <= i < messages
      ensures Extracted(code, z, messages)[i] == (Extracted(code, x, messages)[i] != Extracted(code, y, messages)[i])
    {
      SyndromesCombine(code, x, y, i);
      ExtractedAt(code, x, messages, i);
      ExtractedAt(code, y, messages, i);
      ExtractedAt(code, z, messages, i);
    }
  }
}
