/**
 * The block extent of an object- or array-valued member: the nested loops
 * of `useJsonLineMap` that walk the document character by character from
 * the declaration line, counting only the member's own kind of delimiter,
 * until the count returns to zero.
 */
module JsonBlock {
  import opened Strings
  import opened Optional

  /** One character of the document with its 0-based line and column. */
  datatype Cell = Cell(line: nat, col: nat, ch: char)

  function RowCells(lines: seq<string>, i: nat): (r: seq<Cell>)
    requires i < |lines|
    ensures |r| == |lines[i]|
    ensures forall j :: 0 <= j < |r| ==> r[j] == Cell(i, j, lines[i][j])
  {
    seq(|lines[i]|, j requires 0 <= j < |lines[i]| => Cell(i, j, lines[i][j]))
  }

  /** The characters of lines `i`, `i + 1`, ... in reading order. */
  function CellsFrom(lines: seq<string>, i: nat): seq<Cell>
    decreases |lines| - i
  {
    if i >= |lines| then [] else RowCells(lines, i) + CellsFrom(lines, i + 1)
  }

  /** Every cell names a real character of the document, at or after line `i`. */
  lemma {:induction false} CellsFromValid(lines: seq<string>, i: nat)
    ensures forall m :: 0 <= m < |CellsFrom(lines, i)| ==>
      var c := CellsFrom(lines, i)[m];
      i <= c.line < |lines| && c.col < |lines[c.line]| && c.ch == lines[c.line][c.col]
    decreases |lines| - i
  {
    if i < |lines| {
      CellsFromValid(lines, i + 1);
      var row, rest := RowCells(lines, i), CellsFrom(lines, i + 1);
      forall m | |row| <= m < |row| + |rest|
        ensures (row + rest)[m] == rest[m - |row|]
      {
      }
    }
  }

  /** How one character moves the counter. */
  function Delta(c: char, open: char, close: char): int {
    if c == open then 1 else if c == close then -1 else 0
  }

  /** The counter change over a stretch of cells. */
  function Balance(cs: seq<Cell>, open: char, close: char): int {
    if cs == [] then 0 else Delta(cs[0].ch, open, close) + Balance(cs[1..], open, close)
  }

  /** The counter after cell `m`, having started at `depth` before cell `from`. */
  function CountThrough(cs: seq<Cell>, from: nat, m: nat, depth: int, open: char, close: char): int
    requires from <= m < |cs|
  {
    depth + Balance(cs[from..m + 1], open, close)
  }

  lemma CountThroughStep(cs: seq<Cell>, from: nat, m: nat, depth: int, open: char, close: char)
    requires from < m < |cs|
    ensures CountThrough(cs, from, m, depth, open, close)
      == CountThrough(cs, from + 1, m, depth + Delta(cs[from].ch, open, close), open, close)
  {
    assert cs[from..m + 1][1..] == cs[from + 1..m + 1];
  }

  /** Counting from cell `from` with the counter at `depth`: the first cell at
      which the counter comes back to zero, if any. */
  function ReturnToZero(cs: seq<Cell>, from: nat, depth: int, open: char, close: char): (r: Option<nat>)
    requires from <= |cs| && depth > 0
    ensures r.Some? ==> from <= r.value < |cs|
    decreases |cs| - from
  {
    if from == |cs| then None
    else
      var d := depth + Delta(cs[from].ch, open, close);
      if d == 0 then Some(from) else ReturnToZero(cs, from + 1, d, open, close)
  }

  /** `ReturnToZero` finds the first cell at which the running count is zero;
      before it, and everywhere when it finds none, the count stays positive. */
  lemma {:induction false} ReturnToZeroFirst(cs: seq<Cell>, from: nat, depth: int, open: char, close: char)
    requires from <= |cs| && depth > 0
    ensures var r := ReturnToZero(cs, from, depth, open, close);
      && (r.Some? ==> CountThrough(cs, from, r.value, depth, open, close) == 0)
      && (r.Some? ==> forall m :: from <= m < r.value ==> CountThrough(cs, from, m, depth, open, close) > 0)
      && (r.None? ==> forall m :: from <= m < |cs| ==> CountThrough(cs, from, m, depth, open, close) > 0)
    decreases |cs| - from
  {
    if from < |cs| {
      var d := depth + Delta(cs[from].ch, open, close);
      assert CountThrough(cs, from, from, depth, open, close) == d by {
        assert cs[from..from + 1] == [cs[from]];
        assert [cs[from]][1..] == [];
        assert Balance([cs[from]], open, close) == Delta(cs[from].ch, open, close);
      }
      forall m | from < m < |cs|
        ensures CountThrough(cs, from, m, depth, open, close) == CountThrough(cs, from + 1, m, d, open, close)
      {
        CountThroughStep(cs, from, m, depth, open, close);
      }
      if d != 0 {
        ReturnToZeroFirst(cs, from + 1, d, open, close);
      }
    }
  }

  /** The counting walk over the document as the two loops perform it: from
      column `j` of line `i` with the counter at `count`, the (0-based) line
      and column of the character that brings the counter to zero. */
  function Walk(lines: seq<string>, i: nat, j: nat, count: int, open: char, close: char): (r: Option<(nat, nat)>)
    requires i <= |lines| && (i < |lines| ==> j <= |lines[i]|) && count > 0
    ensures r.Some? ==> i <= r.value.0 < |lines| && r.value.1 < |lines[r.value.0]|
    ensures r.Some? ==> r.value.0 > i || r.value.1 >= j
    decreases |lines| - i, if i < |lines| then |lines[i]| - j else 0
  {
    if i == |lines| then None
    else if j == |lines[i]| then Walk(lines, i + 1, 0, count, open, close)
    else
      var d := count + Delta(lines[i][j], open, close);
      if d == 0 then Some((i, j)) else Walk(lines, i, j + 1, d, open, close)
  }

  /** The character that ends the walk is the closing delimiter. */
  lemma {:induction false} WalkEndsAtCloser(lines: seq<string>, i: nat, j: nat, count: int, open: char, close: char)
    requires i <= |lines| && (i < |lines| ==> j <= |lines[i]|) && count > 0 && open != close
    requires Walk(lines, i, j, count, open, close).Some?
    ensures var (a, b) := Walk(lines, i, j, count, open, close).value; lines[a][b] == close
    decreases |lines| - i, if i < |lines| then |lines[i]| - j else 0
  {
    if j == |lines[i]| {
      WalkEndsAtCloser(lines, i + 1, 0, count, open, close);
    } else {
      var d := count + Delta(lines[i][j], open, close);
      if d != 0 {
        WalkEndsAtCloser(lines, i, j + 1, d, open, close);
      }
    }
  }

  /** Counting over `pre + cs` from inside `cs` is counting over `cs`,
      shifted by `|pre|`. */
  lemma {:induction false} ReturnToZeroShift(pre: seq<Cell>, cs: seq<Cell>, from: nat, depth: int, open: char, close: char)
    requires from <= |cs| && depth > 0
    ensures ReturnToZero(pre + cs, |pre| + from, depth, open, close) ==
      match ReturnToZero(cs, from, depth, open, close)
      case None => None
      case Some(e) => Some(|pre| + e)
    decreases |cs| - from
  {
    if from < |cs| {
      assert (pre + cs)[|pre| + from] == cs[from];
      var d := depth + Delta(cs[from].ch, open, close);
      if d != 0 {
        ReturnToZeroShift(pre, cs, from + 1, d, open, close);
      }
    }
  }

  /** The walk over lines and columns agrees with counting over the flat
      sequence of cells: it stops at the same character. */
  lemma {:induction false} WalkAgrees(lines: seq<string>, i: nat, j: nat, count: int, open: char, close: char)
    requires i <= |lines| && (i < |lines| ==> j <= |lines[i]|) && count > 0
    ensures var cs := CellsFrom(lines, i);
      i < |lines| ==>
      Walk(lines, i, j, count, open, close) ==
        match ReturnToZero(cs, j, count, open, close)
        case None => None
        case Some(e) => Some((cs[e].line, cs[e].col))
    decreases |lines| - i, if i < |lines| then |lines[i]| - j else 0
  {
    if i < |lines| {
      var row, rest := RowCells(lines, i), CellsFrom(lines, i + 1);
      assert CellsFrom(lines, i) == row + rest;
      if j == |lines[i]| {
        if i + 1 < |lines| {
          WalkAgrees(lines, i + 1, 0, count, open, close);
          ReturnToZeroShift(row, rest, 0, count, open, close);
          match ReturnToZero(rest, 0, count, open, close)
          case None =>
          case Some(e) => assert (row + rest)[|row| + e] == rest[e];
        } else {
          assert rest == [];
          assert row + rest == row;
        }
      } else {
        assert (row + rest)[j] == Cell(i, j, lines[i][j]);
        var d := count + Delta(lines[i][j], open, close);
        if d != 0 {
          WalkAgrees(lines, i, j + 1, d, open, close);
        }
      }
    }
  }

  /** The block end the loops compute, as (1-based line, 1-based column):
      the counter is seeded at the first opening delimiter of the declaration
      line; the block ends at the closing delimiter that brings it back to
      zero; without a seed or without such a closer it is `fallback`. */
  function BlockEndSpec(lines: seq<string>, index: nat, open: char, close: char, fallback: (int, int)): (int, int)
    requires index < |lines|
  {
    var seed := IndexOf(lines[index], [open]);
    if seed < 0 then fallback
    else match Walk(lines, index, seed + 1, 1, open, close)
      case None => fallback
      case Some((a, b)) => (a + 1, b + 1)
  }

  /** The same block end, read off the flat cell sequence: the closer is the
      first cell after the seed at which the running count returns to zero. */
  lemma BlockEndByCells(lines: seq<string>, index: nat, open: char, close: char, fallback: (int, int))
    requires index < |lines|
    ensures var seed := IndexOf(lines[index], [open]);
      var cs := CellsFrom(lines, index);
      BlockEndSpec(lines, index, open, close, fallback) ==
        if seed < 0 then fallback
        else match ReturnToZero(cs, seed + 1, 1, open, close)
          case None => fallback
          case Some(e) => (cs[e].line + 1, cs[e].col + 1)
  {
    var seed := IndexOf(lines[index], [open]);
    if seed >= 0 {
      WalkAgrees(lines, index, seed + 1, 1, open, close);
    }
  }

  /** Unless it is the fallback, the block end is a 1-based position, at or
      after the declaration line, that holds the closing delimiter. */
  lemma BlockEndAtCloser(lines: seq<string>, index: nat, open: char, close: char, fallback: (int, int))
    requires index < |lines| && open != close
    ensures var r := BlockEndSpec(lines, index, open, close, fallback);
      || r == fallback
      || (index < r.0 <= |lines| && 0 < r.1 <= |lines[r.0 - 1]| && lines[r.0 - 1][r.1 - 1] == close)
  {
    var seed := IndexOf(lines[index], [open]);
    if seed >= 0 && Walk(lines, index, seed + 1, 1, open, close).Some? {
      WalkEndsAtCloser(lines, index, seed + 1, 1, open, close);
    }
  }

  /** No `c` among the first `j` characters of `l`. */
  predicate Seeking(l: string, c: char, j: nat) {
    j <= |l| && forall jj :: 0 <= jj < j ==> l[jj] != c
  }

  /** The first occurrence of `c` found by a left-to-right search. */
  lemma FirstOccurrence(l: string, c: char, j: nat)
    requires Seeking(l, c, j)
    ensures j < |l| && l[j] == c ==> IndexOf(l, [c]) == j
    ensures j == |l| ==> IndexOf(l, [c]) == -1
  {
    forall jj | 0 <= jj < j ensures !IsAt(l, [c], jj) {
      assert l[jj..jj + 1] == [l[jj]];
    }
    if j < |l| && l[j] == c {
      assert IsAt(l, [c], j) by { assert l[j..j + 1] == [c]; }
    }
  }

  /** The block end once the walk from the seed is known to stop at line `a`,
      column `b`. */
  lemma SpecAtCloser(lines: seq<string>, index: nat, open: char, close: char, fallback: (int, int), a: nat, b: nat)
    requires index < |lines| && 0 <= IndexOf(lines[index], [open]) < |lines[index]|
    requires Walk(lines, index, IndexOf(lines[index], [open]) + 1, 1, open, close) == Some((a, b))
    ensures BlockEndSpec(lines, index, open, close, fallback) == (a + 1, b + 1)
  {
  }

  /** Without an opening delimiter on the declaration line the block end
      stays at the fallback. */
  lemma SpecWithoutSeed(lines: seq<string>, index: nat, open: char, close: char, fallback: (int, int))
    requires index < |lines| && Seeking(lines[index], open, |lines[index]|)
    ensures BlockEndSpec(lines, index, open, close, fallback) == fallback
  {
    FirstOccurrence(lines[index], open, |lines[index]|);
  }

  /** Without a closer the block end stays at the fallback. */
  lemma SpecWithoutCloser(lines: seq<string>, index: nat, open: char, close: char, fallback: (int, int), count: int)
    requires index < |lines| && count > 0 && 0 <= IndexOf(lines[index], [open]) < |lines[index]|
    requires Walk(lines, index, IndexOf(lines[index], [open]) + 1, 1, open, close) == Walk(lines, |lines|, 0, count, open, close)
    ensures BlockEndSpec(lines, index, open, close, fallback) == fallback
  {
  }

  /** What the scan knows before column `j` of line `i`: either it is still
      looking for the seed on the declaration line, or it has found it and
      the walk from the seed ends where the walk from here ends. */
  predicate Scanning(lines: seq<string>, index: nat, open: char, close: char,
                     i: nat, j: nat, openCount: int, foundStart: bool)
    requires index <= i < |lines| && j <= |lines[i]|
  {
    var seed := IndexOf(lines[index], [open]);
    && (!foundStart ==> i == index && openCount == 0 && Seeking(lines[i], open, j))
    && (foundStart ==>
          && 0 <= seed < |lines[index]| && openCount > 0
          && Walk(lines, index, seed + 1, 1, open, close) == Walk(lines, i, j, openCount, open, close))
  }

  /** The inner loop of the source over the characters of line `i`.  It ends
      early, with the counter at zero and `blockEnd` at the closer, when the
      walk from the seed stops on this line. */
  method ScanRow(lines: seq<string>, index: nat, open: char, close: char, i: nat,
                 openCount0: int, foundStart0: bool, blockEnd0: (int, int))
    returns (openCount: int, foundStart: bool, blockEnd: (int, int))
    requires index <= i < |lines| && Scanning(lines, index, open, close, i, 0, openCount0, foundStart0)
    ensures openCount == 0 && foundStart ==>
      && 1 <= blockEnd.1 <= |lines[i]| && blockEnd.0 == i + 1
      && 0 <= IndexOf(lines[index], [open]) < |lines[index]|
      && Walk(lines, index, IndexOf(lines[index], [open]) + 1, 1, open, close) == Some((i, blockEnd.1 - 1))
    ensures !(openCount == 0 && foundStart) ==>
      blockEnd == blockEnd0 && Scanning(lines, index, open, close, i, |lines[i]|, openCount, foundStart)
  {
    openCount, foundStart, blockEnd := openCount0, foundStart0, blockEnd0;
    var l := lines[i];
    var j := 0;
    while j < |l|
      invariant 0 <= j <= |l| && blockEnd == blockEnd0
      invariant Scanning(lines, index, open, close, i, j, openCount, foundStart)
    {
      var c := l[j];
      if !foundStart {
        if c == open {
          FirstOccurrence(l, open, j);
          openCount := 1;
          foundStart := true;
        }
      } else {
        ghost var before := openCount;
        if c == open {
          openCount := openCount + 1;
        } else if c == close {
          openCount := openCount - 1;
        }
        assert openCount == before + Delta(c, open, close);
        if openCount == 0 {
          blockEnd := (i + 1, j + 1);
          return;
        }
      }
      j := j + 1;
    }
  }

  /** The nested loops of the source: `openCount`, `foundStart` and the two
      `break`s, with the block end left at `fallback` when no closer is found. */
  method FindBlockEnd(lines: seq<string>, index: nat, open: char, close: char, fallback: (int, int))
    returns (blockEnd: (int, int))
    requires index < |lines|
    ensures blockEnd == BlockEndSpec(lines, index, open, close, fallback)
  {
    var openCount := 0;
    var foundStart := false;
    blockEnd := fallback;
    var i := index;
    while i < |lines|
      invariant index <= i <= |lines| && blockEnd == fallback
      invariant i < |lines| ==> Scanning(lines, index, open, close, i, 0, openCount, foundStart)
      invariant i == |lines| ==>
        && foundStart && openCount > 0 && 0 <= IndexOf(lines[index], [open]) < |lines[index]|
        && Walk(lines, index, IndexOf(lines[index], [open]) + 1, 1, open, close) == Walk(lines, i, 0, openCount, open, close)
    {
      openCount, foundStart, blockEnd := ScanRow(lines, index, open, close, i, openCount, foundStart, blockEnd);
      if openCount == 0 {
        if foundStart {
          SpecAtCloser(lines, index, open, close, fallback, i, blockEnd.1 - 1);
        } else {
          SpecWithoutSeed(lines, index, open, close, fallback);
        }
        break;
      }
      i := i + 1;
    }
    if i == |lines| {
      SpecWithoutCloser(lines, index, open, close, fallback, openCount);
    }
  }
}
