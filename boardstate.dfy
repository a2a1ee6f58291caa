/**
 * The Android app's own copy of the board (BoardState.java): 121 ints,
 * one per hole, addressed by (row, col) on the same 17-row star as the
 * AI server. Out-of-range positions are ignored by the setter and read
 * as EMPTY by the getter.
 *
 * The methods of the class work on the array; the functions on
 * sequences below say what each one computes, and the lemmas relate them.
 */
module AndroidBoard {
  import opened Topology

  const Empty: int := 0
  const Black: int := 1
  const White: int := 2
  const Red: int := 3
  const Blue: int := 4
  const Green: int := 5
  const Yellow: int := 6

  /** Leading blanks of each row in the text picture, in units of two spaces. */
  const RowOffsets: seq<nat> := [6, 5, 4, 3, 0, 0, 0, 0, 0, 0, 0, 0, 0, 3, 4, 5, 6]

  // ---------------------------------------------------------------------
  // The board as a sequence of 121 values
  // ---------------------------------------------------------------------

  /** Each row ends where the next begins, within the 121 holes. */
  lemma RowFits(r: nat)
    requires r < 17
    ensures RowStarts[r] + RowSizes[r] == RowStarts[r + 1] <= 121
  {
    RowStartStep(r);
    RowStartsMonotone(r + 1, 17);
  }

  /** Every hole of the star has a flat index below 121. */
  lemma OnBoard(row: int, col: int) returns (i: nat)
    requires ValidPos(row, col)
    ensures i == FlatIndex(row, col) && i < 121
  {
    i := FlatIndex(row, col);
    RowStartsMonotone(row + 1, 17);
  }

  /** getPosition on a board held as a sequence. */
  function ValueAt(s: seq<int>, row: int, col: int): int
    requires |s| == 121
  {
    if ValidPos(row, col) then s[FlatIndex(row, col)] else Empty
  }

  /** setPosition on a board held as a sequence. */
  function Placed(s: seq<int>, row: int, col: int, value: int): seq<int>
    requires |s| == 121
  {
    if ValidPos(row, col) then s[FlatIndex(row, col) := value] else s
  }

  /** The number of holes holding something other than EMPTY. */
  function Count(s: seq<int>): (n: nat)
    ensures n <= |s|
    ensures n == 0 <==> forall i | 0 <= i < |s| :: s[i] == Empty
  {
    if |s| == 0 then 0
    else Count(s[..|s| - 1]) + (if s[|s| - 1] != Empty then 1 else 0)
  }

  /** Reading a position after writing one: the written value where they coincide, the old content elsewhere. */
  lemma GetAfterSet(s: seq<int>, row: int, col: int, value: int, row': int, col': int)
    requires |s| == 121
    ensures ValueAt(Placed(s, row, col, value), row', col') ==
      if ValidPos(row, col) && row == row' && col == col' then value else ValueAt(s, row', col')
  {
    if ValidPos(row, col) && ValidPos(row', col') {
      FlatIndexInverse(row, col);
      FlatIndexInverse(row', col');
    }
  }

  /** Writing outside the star changes nothing. */
  lemma SetOutsideIgnored(s: seq<int>, row: int, col: int, value: int)
    requires |s| == 121 && !ValidPos(row, col)
    ensures Placed(s, row, col, value) == s
  {
  }

  /** Overwriting one hole changes the piece count by what left and what arrived. */
  lemma {:induction false} CountUpdate(s: seq<int>, i: nat, value: int)
    requires i < |s|
    ensures Count(s[i := value]) ==
      Count(s) - (if s[i] != Empty then 1 else 0) + (if value != Empty then 1 else 0)
  {
    var n := |s|;
    var t := s[i := value];
    if i == n - 1 {
      assert t[..n - 1] == s[..n - 1];
    } else {
      CountUpdate(s[..n - 1], i, value);
      assert t[..n - 1] == s[..n - 1][i := value];
    }
  }

  /** setPosition adds one piece when it fills an empty hole and removes one when it empties a full one. */
  lemma CountAfterSet(s: seq<int>, row: int, col: int, value: int)
    requires |s| == 121
    ensures Count(Placed(s, row, col, value)) ==
      Count(s) - (if ValueAt(s, row, col) != Empty then 1 else 0)
      + (if ValidPos(row, col) && value != Empty then 1 else 0)
  {
    if ValidPos(row, col) {
      var i := OnBoard(row, col);
      CountUpdate(s, i, value);
    }
  }

  // ---------------------------------------------------------------------
  // The text picture (toString)
  // ---------------------------------------------------------------------

  /** The character drawn for a hole's value. */
  function Glyph(v: int): (g: char)
    ensures g != ' ' && g != '\n'
  {
    if v == Empty then '·'
    else if v == Black then '⚫'
    else if v == White then '⚪'
    else if v == Red then 'R'
    else if v == Blue then 'B'
    else if v == Green then 'G'
    else if v == Yellow then 'Y'
    else 'X'
  }

  /** The seven colours are drawn with seven different characters, none of them the one for unknown values. */
  lemma GlyphsDistinct(v: int, w: int)
    requires Empty <= v <= Yellow && Empty <= w <= Yellow && v != w
    ensures Glyph(v) != Glyph(w) && Glyph(v) != 'X'
  {
  }

  function Spaces(n: nat): (s: string)
    ensures |s| == n && forall k | 0 <= k < n :: s[k] == ' '
  {
    if n == 0 then "" else Spaces(n - 1) + " "
  }

  /** The first n holes of a row starting at flat index start, each drawn and followed by a blank. */
  function Cells(s: seq<int>, start: nat, n: nat): string
    requires start + n <= |s|
  {
    if n == 0 then "" else Cells(s, start, n - 1) + [Glyph(s[start + n - 1]), ' ']
  }

  /** The first r lines of the picture. */
  function Picture(s: seq<int>, r: nat): string
    requires |s| == 121 && r <= 17
  {
    if r == 0 then ""
    else
      RowFits(r - 1);
      Picture(s, r - 1) + Spaces(RowOffsets[r - 1] * 2) + Cells(s, RowStarts[r - 1], RowSizes[r - 1]) + "\n"
  }

  /** The text with the blanks and line breaks taken out. */
  function Marks(t: string): string
  {
    if |t| == 0 then ""
    else Marks(t[..|t| - 1]) + (if t[|t| - 1] == ' ' || t[|t| - 1] == '\n' then "" else [t[|t| - 1]])
  }

  lemma {:induction false} MarksConcat(a: string, b: string)
    ensures Marks(a + b) == Marks(a) + Marks(b)
    decreases |b|
  {
    if |b| > 0 {
      var b' := b[..|b| - 1];
      assert (a + b)[..|a + b| - 1] == a + b';
      var c := b[|b| - 1];
      assert (a + b)[|a + b| - 1] == c;
      var m := if c == ' ' || c == '\n' then "" else [c];
      MarksConcat(a, b');
      assert Marks(a + b) == Marks(a + b') + m;
      assert Marks(b) == Marks(b') + m;
      assert Marks(a) + Marks(b') + m == Marks(a) + (Marks(b') + m);
    } else {
      assert a + b == a;
    }
  }

  lemma {:induction false} MarksSpaces(n: nat)
    ensures Marks(Spaces(n)) == ""
  {
    if n > 0 {
      assert Spaces(n)[..n - 1] == Spaces(n - 1);
      MarksSpaces(n - 1);
    }
  }

  /** A row's cells, blanks removed, are the glyphs of its holes in order. */
  lemma {:induction false} MarksCells(s: seq<int>, start: nat, n: nat)
    requires start + n <= |s|
    ensures Marks(Cells(s, start, n)) == seq(n, k requires 0 <= k < n => Glyph(s[start + k]))
  {
    if n > 0 {
      var g := Glyph(s[start + n - 1]);
      MarksCells(s, start, n - 1);
      MarksConcat(Cells(s, start, n - 1), [g, ' ']);
      assert [g, ' '][..1] == [g];
      assert Marks([g]) == [g] by {
        assert [g][..0] == "";
      }
    }
  }

  /** The glyphs of holes 0 .. n-1. */
  function Glyphs(s: seq<int>, n: nat): (g: string)
    requires n <= |s|
    ensures |g| == n
  {
    seq(n, i requires 0 <= i < n => Glyph(s[i]))
  }

  lemma GlyphsAppend(s: seq<int>, a: nat, n: nat)
    requires a + n <= |s|
    ensures Glyphs(s, a) + seq(n, k requires 0 <= k < n => Glyph(s[a + k])) == Glyphs(s, a + n)
  {
  }

  /** One more line of the picture adds the marks of its holes. */
  lemma LineMarks(s: seq<int>, pre: string, k: nat, a: nat, n: nat)
    requires a + n <= |s| && Marks(pre) == Glyphs(s, a)
    ensures Marks(pre + Spaces(k) + Cells(s, a, n) + "\n") == Glyphs(s, a + n)
  {
    var sp, cs := Spaces(k), Cells(s, a, n);
    MarksConcat(pre + sp + cs, "\n");
    MarksConcat(pre + sp, cs);
    MarksConcat(pre, sp);
    MarksSpaces(k);
    MarksCells(s, a, n);
    assert Marks("\n") == "" by {
      assert "\n"[..0] == "";
    }
    GlyphsAppend(s, a, n);
  }

  /**
   * The picture holds one mark per hole, in flat-index order: blanks and
   * line breaks removed, the first r lines are the glyphs of holes
   * 0 .. RowStarts[r]-1.
   */
  lemma {:induction false} PictureMarks(s: seq<int>, r: nat)
    requires |s| == 121 && r <= 17
    ensures RowStarts[r] <= |s| && Marks(Picture(s, r)) == Glyphs(s, RowStarts[r])
  {
    RowStartsMonotone(r, 17);
    if r > 0 {
      RowFits(r - 1);
      PictureMarks(s, r - 1);
      LineMarks(s, Picture(s, r - 1), RowOffsets[r - 1] * 2, RowStarts[r - 1], RowSizes[r - 1]);
    }
  }

  /** The whole picture, blanks and line breaks removed, is the 121 glyphs in flat-index order. */
  lemma WholePicture(s: seq<int>)
    requires |s| == 121
    ensures Marks(Picture(s, 17)) == seq(121, i requires 0 <= i < 121 => Glyph(s[i]))
  {
    PictureMarks(s, 17);
  }

  // ---------------------------------------------------------------------
  // The class
  // ---------------------------------------------------------------------

  class BoardState {
    const board: array<int>

    predicate Valid()
      reads this
    {
      board.Length == 121
    }

    /** A new board: 121 holes, all EMPTY. */
    constructor ()
      ensures Valid() && fresh(board)
      ensures board[..] == seq(121, _ => Empty)
    {
      board := new int[121];
      new;
      ResetBoard();
    }

    /** resetBoard: every hole EMPTY. */
    method ResetBoard()
      requires Valid()
      modifies board
      ensures board[..] == seq(121, _ => Empty)
    {
      forall i | 0 <= i < board.Length {
        board[i] := Empty;
      }
    }

    /** getIndex: the flat index of a hole, found by adding up the lengths of the rows above it; -1 off the star. */
    method GetIndex(row: int, col: int) returns (index: int)
      ensures index == if ValidPos(row, col) then FlatIndex(row, col) else -1
    {
      if row < 0 || row >= |RowSizes| || col < 0 || col >= RowSizes[row] {
        return -1;
      }
      index := 0;
      var i := 0;
      while i < row
        invariant 0 <= i <= row
        invariant index == RowStarts[i]
      {
        RowStartStep(i);
        index := index + RowSizes[i];
        i := i + 1;
      }
      index := index + col;
    }

    /** setPosition: writes the hole at (row, col), or does nothing when there is none. */
    method SetPosition(row: int, col: int, value: int)
      requires Valid()
      modifies board
      ensures board[..] == Placed(old(board[..]), row, col, value)
    {
      var index := GetIndex(row, col);
      if index >= 0 && index < 121 {
        board[index] := value;
      }
    }

    /** getPosition: the content of the hole at (row, col), EMPTY when there is none. */
    method GetPosition(row: int, col: int) returns (value: int)
      requires Valid()
      ensures value == ValueAt(board[..], row, col)
    {
      var index := GetIndex(row, col);
      value := if index >= 0 && index < 121 then board[index] else Empty;
    }

    /** isValidPosition: (row, col) is a hole of the star. */
    method IsValidPosition(row: int, col: int) returns (b: bool)
      ensures b <==> ValidPos(row, col)
    {
      var index := GetIndex(row, col);
      b := index >= 0;
    }

    /** getPieceCount: the holes that are not EMPTY. */
    method GetPieceCount() returns (count: nat)
      requires Valid()
      ensures count == Count(board[..])
    {
      count := 0;
      var i := 0;
      while i < board.Length
        invariant 0 <= i <= board.Length
        invariant count == Count(board[..i])
      {
        assert board[..i + 1][..i] == board[..i];
        if board[i] != Empty {
          count := count + 1;
        }
        i := i + 1;
      }
      assert board[..board.Length] == board[..];
    }

    /** toString: the star drawn row by row, each row indented and each hole drawn as its glyph and a blank. */
    method ToString() returns (text: string)
      requires Valid()
      ensures text == Picture(board[..], 17)
    {
      text := "";
      var index := 0;
      var row := 0;
      while row < |RowSizes|
        invariant 0 <= row <= 17
        invariant index == RowStarts[row]
        invariant text == Picture(board[..], row)
      {
        RowFits(row);
        var cells := DrawRow(index, RowSizes[row]);
        text := text + Spaces(RowOffsets[row] * 2) + cells + "\n";
        index := index + RowSizes[row];
        row := row + 1;
      }
    }

    /** The inner loop of toString: holes start .. start+size-1, each drawn as its glyph and a blank. */
    method DrawRow(start: nat, size: nat) returns (text: string)
      requires Valid() && start + size <= 121
      ensures text == Cells(board[..], start, size)
    {
      text := "";
      var index := start;
      var col := 0;
      while col < size
        invariant 0 <= col <= size
        invariant index == start + col
        invariant text == Cells(board[..], start, col)
      {
        assert board[..][index] == board[index];
        text := text + [Glyph(board[index]), ' '];
        index := index + 1;
        col := col + 1;
      }
    }
  }
}
