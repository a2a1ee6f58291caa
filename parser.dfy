/**
 * normalize_board_state (aiServer/BoardStateParser.py): the text board
 * sent by the app or the camera becomes a matrix of 'O', 'X' and '.'
 * cells, one row per line of the star. Seventeen input lines are taken
 * row for row; any other number of lines is first filtered to the lines
 * holding a board character, and the matrix is then topped up to
 * seventeen rows.
 */
module BoardText {
  import opened Wrappers
  import opened Topology

  // ---------------------------------------------------------------------
  // str.split() with no separator
  // ---------------------------------------------------------------------

  /** Python's str.isspace for one character. */
  predicate IsSpace(c: char)
  {
    c == ' ' || '\t' <= c <= '\r' || '\U{1c}' <= c <= '\U{1f}' || c == '\U{85}' || c == '\U{a0}'
    || c == '\U{1680}' || '\U{2000}' <= c <= '\U{200a}' || c == '\U{2028}' || c == '\U{2029}'
    || c == '\U{202f}' || c == '\U{205f}' || c == '\U{3000}'
  }

  /** The length of the run of non-blank characters that s starts with. */
  function WordLen(s: string): (n: nat)
    ensures n <= |s|
    ensures forall k | 0 <= k < n :: !IsSpace(s[k])
    ensures n < |s| ==> IsSpace(s[n])
  {
    if |s| == 0 || IsSpace(s[0]) then 0 else 1 + WordLen(s[1..])
  }

  /** s.split(): the maximal runs of non-blank characters, in order. */
  function Words(s: string): (ws: seq<string>)
    ensures forall k | 0 <= k < |ws| :: |ws[k]| > 0 && forall j | 0 <= j < |ws[k]| :: !IsSpace(ws[k][j])
    decreases |s|
  {
    if |s| == 0 then []
    else if IsSpace(s[0]) then Words(s[1..])
    else
      var n := WordLen(s);
      [s[..n]] + Words(s[n..])
  }

  /** The cells written one per character with a single blank between them (" ".join). */
  function Unwords(cells: seq<char>): string
  {
    if |cells| == 0 then ""
    else if |cells| == 1 then [cells[0]]
    else [cells[0]] + " " + Unwords(cells[1..])
  }

  /** Each cell as a one-character token. */
  function Singletons(cells: seq<char>): (ts: seq<string>)
    ensures |ts| == |cells| && forall k | 0 <= k < |ts| :: ts[k] == [cells[k]]
  {
    seq(|cells|, k requires 0 <= k < |cells| => [cells[k]])
  }

  /** Splitting the space-joined cells gives the cells back, one token each. */
  lemma {:induction false} WordsUnwords(cells: seq<char>)
    requires forall k | 0 <= k < |cells| :: !IsSpace(cells[k])
    ensures Words(Unwords(cells)) == Singletons(cells)
    decreases |cells|
  {
    if |cells| == 1 {
      var s := [cells[0]];
      assert s[1..] == "";
      assert WordLen(s) == 1;
      assert s[..1] == s;
    } else if |cells| > 1 {
      var rest := cells[1..];
      var s := [cells[0]] + " " + Unwords(rest);
      assert WordLen(s) == 1 by {
        assert s[1..][0] == ' ';
      }
      assert s[..1] == [cells[0]];
      assert s[1..][1..] == Unwords(rest);
      assert Words(s) == [[cells[0]]] + Words(s[1..]);
      assert Words(s[1..]) == Words(Unwords(rest));
      WordsUnwords(rest);
      assert Singletons(cells) == [[cells[0]]] + Singletons(rest);
    }
  }

  // ---------------------------------------------------------------------
  // Tokens and rows
  // ---------------------------------------------------------------------

  /** A cell of the normalised matrix: player 1, player 2 or empty. */
  predicate IsCell(c: char)
  {
    c == 'O' || c == 'X' || c == '.'
  }

  /** The characters that make a line count as a board row when the line count is not 17. */
  predicate IsBoardChar(c: char)
  {
    c == 'O' || c == 'X' || c == '.' || c == 'G' || c == 'R'
  }

  /**
   * The cell a token stands for: the five one-character tokens O, X, .,
   * G and R are kept, G read as O and R as X; every other token,
   * including glued ones such as "O.", is dropped.
   */
  function Symbol(t: string): (r: Option<char>)
    ensures r.Some? <==> |t| == 1 && IsBoardChar(t[0])
    ensures r.Some? ==> IsCell(r.value) && (t[0] == 'G' ==> r.value == 'O') && (t[0] == 'R' ==> r.value == 'X')
    ensures r.Some? && IsCell(t[0]) ==> r.value == t[0]
  {
    if t == "G" then Some('O')
    else if t == "R" then Some('X')
    else if t == "O" || t == "X" || t == "." then Some(t[0])
    else None
  }

  /** The cells of the kept tokens, in order. */
  function Symbols(ts: seq<string>): (row: seq<char>)
    ensures |row| <= |ts|
    ensures forall k | 0 <= k < |row| :: IsCell(row[k])
  {
    if |ts| == 0 then []
    else
      var last := Symbol(ts[|ts| - 1]);
      Symbols(ts[..|ts| - 1]) + (if last.Some? then [last.value] else [])
  }

  /** Tokens that are already cells are kept unchanged. */
  lemma {:induction false} SymbolsOfCells(cells: seq<char>)
    requires forall k | 0 <= k < |cells| :: IsCell(cells[k])
    ensures Symbols(Singletons(cells)) == cells
  {
    if |cells| > 0 {
      var n := |cells|;
      assert Singletons(cells)[..n - 1] == Singletons(cells[..n - 1]);
      SymbolsOfCells(cells[..n - 1]);
      assert cells[..n - 1] + [cells[n - 1]] == cells;
    }
  }

  function Dots(n: nat): (r: seq<char>)
    ensures |r| == n && forall k | 0 <= k < n :: r[k] == '.'
  {
    seq(n, _ => '.')
  }

  /** A row cut or padded with '.' on the right to width n. */
  function Fit(row: seq<char>, n: nat): (f: seq<char>)
    ensures |f| == n
    ensures forall k | 0 <= k < n :: f[k] == if k < |row| then row[k] else '.'
  {
    if |row| >= n then row[..n] else row + Dots(n - |row|)
  }

  /** The width of matrix row i: the star's row size, the last one (1) for every row past the sixteenth. */
  function Width(i: nat): (w: nat)
    ensures w >= 1
  {
    RowSizes[if i < 17 then i else 16]
  }

  /** One input line as a matrix row of width w. */
  function NormalRow(line: string, w: nat): seq<char>
  {
    Fit(Symbols(Words(line)), w)
  }

  predicate HasBoardChar(line: string)
  {
    exists k | 0 <= k < |line| :: IsBoardChar(line[k])
  }

  /** The lines holding at least one board character, in their order. */
  function BoardLines(lines: seq<string>): (kept: seq<string>)
    ensures |kept| <= |lines|
    ensures forall k | 0 <= k < |kept| :: HasBoardChar(kept[k])
  {
    if |lines| == 0 then []
    else
      var init := BoardLines(lines[..|lines| - 1]);
      var line := lines[|lines| - 1];
      if HasBoardChar(line) then init + [line] else init
  }

  /** A line is kept exactly when it holds a board character. */
  lemma {:induction false} BoardLinesMembers(lines: seq<string>, line: string)
    requires line in lines
    ensures line in BoardLines(lines) <==> HasBoardChar(line)
  {
    var n := |lines|;
    var init := lines[..n - 1];
    if line in init {
      BoardLinesMembers(init, line);
    } else {
      assert line == lines[n - 1];
    }
  }

  lemma {:induction false} BoardLinesAll(lines: seq<string>)
    requires forall k | 0 <= k < |lines| :: HasBoardChar(lines[k])
    ensures BoardLines(lines) == lines
  {
    if |lines| > 0 {
      BoardLinesAll(lines[..|lines| - 1]);
      assert lines[..|lines| - 1] + [lines[|lines| - 1]] == lines;
    }
  }

  function Max(a: nat, b: nat): nat { if a >= b then a else b }

  /** The seventeen-line case: line i becomes row i, fitted to the star's row size. */
  function RowForRow(lines: seq<string>): seq<seq<char>>
    requires |lines| == 17
  {
    seq(17, i requires 0 <= i < 17 => NormalRow(lines[i], RowSizes[i]))
  }

  /** The first n board lines, each fitted to the width of its row. */
  function FittedLines(kept: seq<string>, n: nat): (m: seq<seq<char>>)
    requires n <= |kept|
    ensures |m| == n
  {
    if n == 0 then [] else FittedLines(kept, n - 1) + [NormalRow(kept[n - 1], Width(n - 1))]
  }

  /** Rows lo .. hi-1 left all dots. */
  function DotRows(lo: nat, hi: nat): (m: seq<seq<char>>)
    requires lo <= hi
    ensures |m| == hi - lo
    decreases hi
  {
    if hi == lo then [] else DotRows(lo, hi - 1) + [Dots(Width(hi - 1))]
  }

  /** Any other line count: the board lines fitted to Width, then rows of dots up to seventeen rows. */
  function Filtered(lines: seq<string>): seq<seq<char>>
  {
    var kept := BoardLines(lines);
    FittedLines(kept, |kept|) + DotRows(|kept|, Max(17, |kept|))
  }

  lemma {:induction false} FittedLinesAt(kept: seq<string>, n: nat, i: nat)
    requires n <= |kept| && i < n
    ensures FittedLines(kept, n)[i] == NormalRow(kept[i], Width(i))
  {
    if i < n - 1 {
      FittedLinesAt(kept, n - 1, i);
    }
  }

  lemma {:induction false} DotRowsAt(lo: nat, hi: nat, i: nat)
    requires lo <= i < hi
    ensures DotRows(lo, hi)[i - lo] == Dots(Width(i))
    decreases hi
  {
    if i < hi - 1 {
      DotRowsAt(lo, hi - 1, i);
    }
  }

  /** Row i of the second branch: the i-th board line fitted to Width(i), or dots once the board lines run out. */
  lemma FilteredAt(lines: seq<string>, i: nat)
    requires i < Max(17, |BoardLines(lines)|)
    ensures |Filtered(lines)| == Max(17, |BoardLines(lines)|)
    ensures Filtered(lines)[i] ==
      if i < |BoardLines(lines)| then NormalRow(BoardLines(lines)[i], Width(i)) else Dots(Width(i))
  {
    var kept := BoardLines(lines);
    if i < |kept| {
      FittedLinesAt(kept, |kept|, i);
    } else {
      DotRowsAt(|kept|, Max(17, |kept|), i);
    }
  }

  /** What normalize_board_state returns. */
  function Normalized(lines: seq<string>): seq<seq<char>>
  {
    if |lines| == 17 then RowForRow(lines) else Filtered(lines)
  }

  // ---------------------------------------------------------------------
  // The procedure
  // ---------------------------------------------------------------------

  /** The inner loop over the tokens of a line: the kept tokens' cells. */
  method CollectCells(pieces: seq<string>) returns (row: seq<char>)
    ensures row == Symbols(pieces)
  {
    row := [];
    var i := 0;
    while i < |pieces|
      invariant 0 <= i <= |pieces|
      invariant row == Symbols(pieces[..i])
    {
      assert pieces[..i + 1][..i] == pieces[..i];
      var piece := pieces[i];
      if piece == "O" || piece == "X" || piece == "." || piece == "G" || piece == "R" {
        if piece == "G" {
          row := row + ['O'];
        } else if piece == "R" {
          row := row + ['X'];
        } else {
          row := row + [piece[0]];
        }
      }
      i := i + 1;
    }
    assert pieces[..|pieces|] == pieces;
  }

  /** The row-for-row branch: a fresh row of dots receives the first cells of the line. */
  method PadRow(row: seq<char>, n: nat) returns (fitted: seq<char>)
    ensures fitted == Fit(row, n)
  {
    fitted := row;
    if |row| != n {
      var padded := Dots(n);
      var m := if |row| < n then |row| else n;
      var i := 0;
      while i < m
        invariant 0 <= i <= m && |padded| == n
        invariant forall k | 0 <= k < n :: padded[k] == if k < i then row[k] else '.'
      {
        padded := padded[i := row[i]];
        i := i + 1;
      }
      fitted := padded;
    }
  }

  /** The other branch: a short row is extended with dots, a long one cut. */
  method ExtendOrTrim(row: seq<char>, n: nat) returns (fitted: seq<char>)
    ensures fitted == Fit(row, n)
  {
    fitted := row;
    if |row| < n {
      fitted := row + Dots(n - |row|);
    } else if |row| > n {
      fitted := row[..n];
    }
  }

  /** normalize_board_state. */
  method NormalizeBoardState(boardStrings: seq<string>) returns (matrix: seq<seq<char>>)
    ensures matrix == Normalized(boardStrings)
  {
    if |boardStrings| == |RowSizes| {
      matrix := NormalizeRowForRow(boardStrings);
    } else {
      matrix := NormalizeFiltered(boardStrings);
    }
  }

  /** The first branch of normalize_board_state: the lines row for row. */
  method NormalizeRowForRow(boardStrings: seq<string>) returns (matrix: seq<seq<char>>)
    requires |boardStrings| == 17
    ensures matrix == RowForRow(boardStrings)
  {
    matrix := [];
    var rowIdx := 0;
    while rowIdx < |boardStrings|
      invariant 0 <= rowIdx <= 17 && |matrix| == rowIdx
      invariant forall i | 0 <= i < rowIdx :: matrix[i] == NormalRow(boardStrings[i], RowSizes[i])
    {
      var row := CollectCells(Words(boardStrings[rowIdx]));
      row := PadRow(row, RowSizes[rowIdx]);
      matrix := matrix + [row];
      rowIdx := rowIdx + 1;
    }
    assert |matrix| == 17;
  }

  /** The second branch of normalize_board_state: the board lines, then rows of dots. */
  method NormalizeFiltered(boardStrings: seq<string>) returns (matrix: seq<seq<char>>)
    ensures matrix == Filtered(boardStrings)
  {
    matrix := [];
    var validRows := BoardLines(boardStrings);
    var i := 0;
    while i < |validRows|
      invariant 0 <= i <= |validRows|
      invariant matrix == FittedLines(validRows, i)
    {
      var row := CollectCells(Words(validRows[i]));
      row := ExtendOrTrim(row, Width(i));
      matrix := matrix + [row];
      i := i + 1;
    }
    assert |matrix| == |validRows|;
    matrix := TopUp(matrix);
  }

  /** The closing while loop of normalize_board_state: rows of dots until there are seventeen. */
  method TopUp(rows: seq<seq<char>>) returns (matrix: seq<seq<char>>)
    ensures matrix == rows + DotRows(|rows|, Max(17, |rows|))
  {
    matrix := rows;
    while |matrix| < |RowSizes|
      invariant |rows| <= |matrix| <= Max(17, |rows|)
      invariant matrix == rows + DotRows(|rows|, |matrix|)
    {
      var n := |matrix|;
      assert RowSizes[n] == Width(n);
      var dots := Dots(RowSizes[n]);
      ghost var rest := DotRows(|rows|, n);
      assert DotRows(|rows|, n + 1) == rest + [dots];
      matrix := matrix + [dots];
      assert |matrix| == n + 1;
      assert matrix == rows + DotRows(|rows|, n + 1);
    }
  }

  // ---------------------------------------------------------------------
  // What the result looks like
  // ---------------------------------------------------------------------

  /** Seventeen lines give seventeen rows, row i holding exactly the star's row size of cells. */
  lemma SeventeenRows(lines: seq<string>)
    requires |lines| == 17
    ensures |Normalized(lines)| == 17
    ensures forall i | 0 <= i < 17 :: |Normalized(lines)[i]| == RowSizes[i]
  {
  }

  /**
   * Any other line count: lines without a board character are dropped,
   * the result has max(17, kept) rows, row i has Width(i) cells (so a
   * kept row past the sixteenth has one), and the rows after the kept
   * ones are all dots.
   */
  lemma OtherLineCounts(lines: seq<string>)
    requires |lines| != 17
    ensures |Normalized(lines)| == Max(17, |BoardLines(lines)|)
    ensures forall i | 0 <= i < |Normalized(lines)| :: |Normalized(lines)[i]| == Width(i)
    ensures forall i | |BoardLines(lines)| <= i < |Normalized(lines)| :: Normalized(lines)[i] == Dots(Width(i))
  {
    forall i | 0 <= i < Max(17, |BoardLines(lines)|)
      ensures Filtered(lines)[i] ==
        if i < |BoardLines(lines)| then NormalRow(BoardLines(lines)[i], Width(i)) else Dots(Width(i))
    {
      FilteredAt(lines, i);
    }
  }

  /** Every cell of the result is 'O', 'X' or '.', whatever the input. */
  lemma CellsAreCells(lines: seq<string>)
    ensures forall i, k | 0 <= i < |Normalized(lines)| && 0 <= k < |Normalized(lines)[i]| :: IsCell(Normalized(lines)[i][k])
  {
    if |lines| != 17 {
      OtherLineCounts(lines);
      forall i | 0 <= i < |Normalized(lines)|
        ensures forall k | 0 <= k < |Normalized(lines)[i]| :: IsCell(Normalized(lines)[i][k])
      {
        FilteredAt(lines, i);
      }
    }
  }

  /** The text of a matrix: each row written with " ".join. */
  function Joined(m: seq<seq<char>>): (lines: seq<string>)
    ensures |lines| == |m|
  {
    seq(|m|, i requires 0 <= i < |m| => Unwords(m[i]))
  }

  /** A row of cells of width w, written out and read back, is itself. */
  lemma RowRoundTrip(row: seq<char>, w: nat)
    requires |row| == w && forall k | 0 <= k < |row| :: IsCell(row[k])
    ensures NormalRow(Unwords(row), w) == row
  {
    WordsUnwords(row);
    SymbolsOfCells(row);
  }

  /** A non-empty row written out starts with a board character. */
  lemma UnwordsHasBoardChar(row: seq<char>)
    requires |row| > 0 && IsCell(row[0])
    ensures HasBoardChar(Unwords(row))
  {
    assert Unwords(row)[0] == row[0];
  }

  /** Normalising the written-out result again changes nothing. */
  lemma Idempotent(lines: seq<string>)
    ensures Normalized(Joined(Normalized(lines))) == Normalized(lines)
  {
    var m := Normalized(lines);
    var j := Joined(m);
    CellsAreCells(lines);
    if |m| == 17 {
      forall i | 0 <= i < 17
        ensures NormalRow(j[i], RowSizes[i]) == m[i]
      {
        if |lines| != 17 {
          OtherLineCounts(lines);
        }
        RowRoundTrip(m[i], RowSizes[i]);
      }
    } else {
      OtherLineCounts(lines);
      forall i | 0 <= i < |j|
        ensures HasBoardChar(j[i])
      {
        UnwordsHasBoardChar(m[i]);
      }
      BoardLinesAll(j);
      forall i | 0 <= i < |j|
        ensures Filtered(j)[i] == m[i]
      {
        FilteredAt(j, i);
        RowRoundTrip(m[i], Width(i));
      }
    }
  }
}
