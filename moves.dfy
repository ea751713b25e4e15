/**
 * The board geometry of grid.cpp: a board is a word whose bit 8*r + c is
 * the cell in row r and column c of an 8x8 grid (the 4x4 grid the program
 * enumerates sits in its low corner).  This module gives the meaning of
 * the moves on such boards -- the quarter turn of board::rotate, the row
 * reversal inside board::flip, the shift to the origin of
 * board::translate and the canonical form chosen by board::transform --
 * as functions, and proves what they preserve and how they compose.
 */
module Moves {
  import opened Words

  // ---------------------------------------------------------------------
  // Cells

  /** The cell in row r, column c of x; every cell off the board is empty. */
  predicate Cell(x: Word, r: int, c: int)
  {
    0 <= r < 8 && 0 <= c < 8 && x[8 * r + c]
  }

  lemma DivMod(r: int, c: int)
    requires 0 <= r < 8 && 0 <= c < 8
    ensures (8 * r + c) / 8 == r && (8 * r + c) % 8 == c
  {
  }

  /** Two boards with the same cells are the same word. */
  lemma CellsEqual(a: Word, b: Word)
    requires forall r, c :: Cell(a, r, c) == Cell(b, r, c)
    ensures a == b
  {
    forall p | 0 <= p < 64
      ensures a[p] == b[p]
    {
      assert Cell(a, p / 8, p % 8) == Cell(b, p / 8, p % 8);
    }
  }

  // ---------------------------------------------------------------------
  // Masks

  /** The cells of column c: 0x0101010101010101 << c. */
  function ColMask(c: nat): Word
    requires c < 8
  {
    seq(64, p => p % 8 == c)
  }

  /** The cells of row r: 0xff << (8 * r). */
  function RowMask(r: nat): Word
    requires r < 8
  {
    seq(64, p => p / 8 == r)
  }

  /**
   * The masks of board::rotate, 0x8080808080808080 down to
   * 0x0101010101010101: entry i is column 7 - i.
   */
  const ROTATE_MASKS: seq<Word> := seq(8, i requires 0 <= i < 8 => ColMask(7 - i))

  /**
   * The masks of board::flip, 0xff00000000000000 down to
   * 0x00000000000000ff: entry i is row 7 - i.
   */
  const FLIP_MASKS: seq<Word> := seq(8, i requires 0 <= i < 8 => RowMask(7 - i))

  /** Gathering column c yields the eight cells of that column, row 0 first. */
  lemma PextColumn(x: Word, c: nat)
    requires c < 8
    ensures forall q :: 0 <= q < 64 ==> Pext(x, ColMask(c))[q] == (q < 8 && x[8 * q + c])
  {
    PextColumnFrom(x, c, 0);
    assert x[8 * 0..] == x && ColMask(c)[8 * 0..] == ColMask(c);
  }

  /** Gathering column c over rows j.. takes cell (j, c) first. */
  lemma PextColumnStep(x: Word, c: nat, j: nat)
    requires c < 8 && j < 8
    ensures PextSeq(x[8 * j..], ColMask(c)[8 * j..])
         == [x[8 * j + c]] + PextSeq(x[8 * (j + 1)..], ColMask(c)[8 * (j + 1)..])
  {
    var m := ColMask(c);
    var xs, ms := x[8 * j..], m[8 * j..];
    PextAppend(xs, ms, 8);
    assert xs[8..] == x[8 * (j + 1)..];
    assert ms[8..] == m[8 * (j + 1)..];
    forall t | 0 <= t < 8
      ensures ms[..8][t] <==> t == c
    {
      DivMod(j, t);
    }
    PextOne(xs[..8], ms[..8], c);
  }

  lemma {:induction false} PextColumnFrom(x: Word, c: nat, j: nat)
    requires c < 8 && j <= 8
    ensures var p := PextSeq(x[8 * j..], ColMask(c)[8 * j..]);
      |p| == 8 - j && forall r :: 0 <= r < 8 - j ==> p[r] == x[8 * (j + r) + c]
    decreases 8 - j
  {
    if j < 8 {
      PextColumnStep(x, c, j);
      PextColumnFrom(x, c, j + 1);
      var q := PextSeq(x[8 * (j + 1)..], ColMask(c)[8 * (j + 1)..]);
      var p := PextSeq(x[8 * j..], ColMask(c)[8 * j..]);
      forall r | 0 <= r < 8 - j
        ensures p[r] == x[8 * (j + r) + c]
      {
        if r > 0 {
          assert p[r] == q[r - 1] == x[8 * (j + 1 + (r - 1)) + c];
          assert 8 * (j + 1 + (r - 1)) == 8 * (j + r);
        } else {
          assert p[0] == x[8 * j + c];
        }
      }
    }
  }

  /** Gathering row r yields the eight cells of that row, column 0 first. */
  lemma PextRow(x: Word, r: nat)
    requires r < 8
    ensures forall q :: 0 <= q < 64 ==> Pext(x, RowMask(r))[q] == (q < 8 && x[8 * r + q])
  {
    var m := RowMask(r);
    PextAppend(x, m, 8 * r);
    PextNone(x[..8 * r], m[..8 * r]);
    var xs, ms := x[8 * r..], m[8 * r..];
    PextAppend(xs, ms, 8);
    PextAll(xs[..8], ms[..8]);
    PextNone(xs[8..], ms[8..]);
    assert PextSeq(x, m) == x[8 * r..8 * r + 8];
  }

  // ---------------------------------------------------------------------
  // Quarter turn and row reversal

  /** The board turned a quarter: cell (r, c) comes from cell (c, 7 - r). */
  function Rotated(x: Word): Word
  {
    seq(64, p requires 0 <= p < 64 => x[8 * (p % 8) + 7 - p / 8])
  }

  /** The board with its rows in reverse order: cell (r, c) comes from (7 - r, c). */
  function RowsReversed(x: Word): Word
  {
    seq(64, p requires 0 <= p < 64 => x[8 * (7 - p / 8) + p % 8])
  }

  lemma RotatedCell(x: Word)
    ensures forall r, c :: Cell(Rotated(x), r, c) == Cell(x, c, 7 - r)
  {
    forall r, c | 0 <= r < 8 && 0 <= c < 8
      ensures Cell(Rotated(x), r, c) == Cell(x, c, 7 - r)
    {
      DivMod(r, c);
    }
  }

  lemma RowsReversedCell(x: Word)
    ensures forall r, c :: Cell(RowsReversed(x), r, c) == Cell(x, 7 - r, c)
  {
    forall r, c | 0 <= r < 8 && 0 <= c < 8
      ensures Cell(RowsReversed(x), r, c) == Cell(x, 7 - r, c)
    {
      DivMod(r, c);
    }
  }

  /** Four quarter turns restore the board. */
  lemma RotatedFour(x: Word)
    ensures Rotated(Rotated(Rotated(Rotated(x)))) == x
  {
    var x1 := Rotated(x);
    var x2 := Rotated(x1);
    var x3 := Rotated(x2);
    RotatedCell(x);
    RotatedCell(x1);
    RotatedCell(x2);
    RotatedCell(x3);
    CellsEqual(Rotated(x3), x);
  }

  /** Reversing the rows twice restores the board. */
  lemma RowsReversedTwice(x: Word)
    ensures RowsReversed(RowsReversed(x)) == x
  {
    RowsReversedCell(x);
    RowsReversedCell(RowsReversed(x));
    CellsEqual(RowsReversed(RowsReversed(x)), x);
  }

  /** A quarter turn seen in the mirror is three quarter turns. */
  lemma MirroredTurn(x: Word)
    ensures RowsReversed(Rotated(RowsReversed(x))) == Rotated(Rotated(Rotated(x)))
  {
    var m := RowsReversed(x);
    var x1 := Rotated(x);
    var x2 := Rotated(x1);
    RowsReversedCell(x);
    RotatedCell(m);
    RowsReversedCell(Rotated(m));
    RotatedCell(x);
    RotatedCell(x1);
    RotatedCell(x2);
    CellsEqual(RowsReversed(Rotated(m)), Rotated(x2));
  }

  /** A quarter turn keeps the number of marked cells. */
  lemma PopRotated(x: Word)
    ensures Pop(Rotated(x)) == Pop(x)
  {
    var f := (q: int) => 8 * (7 - q % 8) + q / 8;
    var g := (p: int) => 8 * (p % 8) + 7 - p / 8;
    forall q | 0 <= q < 64 && x[q]
      ensures 0 <= f(q) < 64 && Rotated(x)[f(q)] && g(f(q)) == q
    {
      DivMod(7 - q % 8, q / 8);
    }
    forall p | 0 <= p < 64 && Rotated(x)[p]
      ensures 0 <= g(p) < 64 && x[g(p)] && f(g(p)) == p
    {
      DivMod(p % 8, 7 - p / 8);
    }
    PopBijection(x, Rotated(x), f, g);
  }

  /** Reversing the rows keeps the number of marked cells. */
  lemma PopRowsReversed(x: Word)
    ensures Pop(RowsReversed(x)) == Pop(x)
  {
    var f := (q: int) => 8 * (7 - q / 8) + q % 8;
    forall q | 0 <= q < 64 && x[q]
      ensures 0 <= f(q) < 64 && RowsReversed(x)[f(q)] && f(f(q)) == q
    {
      DivMod(7 - q / 8, q % 8);
    }
    forall p | 0 <= p < 64 && RowsReversed(x)[p]
      ensures 0 <= f(p) < 64 && x[f(p)] && f(f(p)) == p
    {
      DivMod(7 - p / 8, p % 8);
    }
    PopBijection(x, RowsReversed(x), f, f);
  }

  // ---------------------------------------------------------------------
  // Moving a board without turning it

  /** Row r of x has no marked cell (true of every row off the board). */
  predicate RowEmpty(x: Word, r: int)
  {
    forall c :: 0 <= c < 8 ==> !Cell(x, r, c)
  }

  /** Column c of x has no marked cell (true of every column off the board). */
  predicate ColEmpty(x: Word, c: int)
  {
    forall r :: 0 <= r < 8 ==> !Cell(x, r, c)
  }

  /** z is y moved a rows up and b columns to the right, with no marked cell lost. */
  ghost predicate ShiftedBy(z: Word, y: Word, a: int, b: int)
  {
    forall r, c :: Cell(z, r, c) == Cell(y, r - a, c - b)
  }

  /** The first row from r upward that has a marked cell, or 8 if none. */
  function MinRowFrom(x: Word, r: nat): (m: nat)
    requires r <= 8
    ensures r <= m <= 8
    ensures forall q :: r <= q < m ==> RowEmpty(x, q)
    ensures m < 8 ==> !RowEmpty(x, m)
    decreases 8 - r
  {
    if r == 8 || !RowEmpty(x, r) then r else MinRowFrom(x, r + 1)
  }

  /** The first column from c rightward that has a marked cell, or 8 if none. */
  function MinColFrom(x: Word, c: nat): (m: nat)
    requires c <= 8
    ensures c <= m <= 8
    ensures forall q :: c <= q < m ==> ColEmpty(x, q)
    ensures m < 8 ==> !ColEmpty(x, m)
    decreases 8 - c
  {
    if c == 8 || !ColEmpty(x, c) then c else MinColFrom(x, c + 1)
  }

  /** A nonempty board has a marked row and a marked column. */
  lemma NonZeroMarked(x: Word)
    requires x != ZERO
    ensures MinRowFrom(x, 0) < 8 && MinColFrom(x, 0) < 8
  {
    var p :| 0 <= p < 64 && x[p] != ZERO[p];
    assert Cell(x, p / 8, p % 8);
  }

  /** The lowest row of a nonempty board that has a marked cell. */
  function MinRow(x: Word): (m: nat)
    requires x != ZERO
    ensures m < 8 && !RowEmpty(x, m)
    ensures forall q :: q < m ==> RowEmpty(x, q)
  {
    NonZeroMarked(x);
    MinRowFrom(x, 0)
  }

  /** The leftmost column of a nonempty board that has a marked cell. */
  function MinCol(x: Word): (m: nat)
    requires x != ZERO
    ensures m < 8 && !ColEmpty(x, m)
    ensures forall q :: q < m ==> ColEmpty(x, q)
  {
    NonZeroMarked(x);
    MinColFrom(x, 0)
  }

  /**
   * The board moved down and left until its lowest row and its leftmost
   * column are marked, as board::translate leaves it.
   */
  function Translated(x: Word): Word
    requires x != ZERO
  {
    seq(64, p => Cell(x, p / 8 + MinRow(x), p % 8 + MinCol(x)))
  }

  /** Translated(x) is x moved MinRow(x) rows down and MinCol(x) columns left. */
  lemma TranslatedCell(x: Word)
    requires x != ZERO
    ensures ShiftedBy(Translated(x), x, -(MinRow(x) as int), -(MinCol(x) as int))
  {
    var t := Translated(x);
    var mr: int, mc: int := MinRow(x), MinCol(x);
    forall r, c
      ensures Cell(t, r, c) == Cell(x, r + mr, c + mc)
    {
      if 0 <= r < 8 && 0 <= c < 8 {
        DivMod(r, c);
      } else if r < 0 {
        assert RowEmpty(x, r + mr);
      } else if c < 0 {
        assert ColEmpty(x, c + mc);
      }
    }
  }

  /** Emptiness of rows and columns follows a board when it is moved. */
  lemma ShiftedEmpty(z: Word, y: Word, a: int, b: int)
    requires ShiftedBy(z, y, a, b)
    ensures forall q :: RowEmpty(z, q) == RowEmpty(y, q - a)
    ensures forall q :: ColEmpty(z, q) == ColEmpty(y, q - b)
  {
    forall q
      ensures RowEmpty(z, q) == RowEmpty(y, q - a)
    {
      if !RowEmpty(y, q - a) {
        var c :| 0 <= c < 8 && Cell(y, q - a, c);
        assert Cell(z, q, c + b);
      }
      if !RowEmpty(z, q) {
        var c :| 0 <= c < 8 && Cell(z, q, c);
        assert Cell(y, q - a, c - b);
      }
    }
    forall q
      ensures ColEmpty(z, q) == ColEmpty(y, q - b)
    {
      if !ColEmpty(y, q - b) {
        var r :| 0 <= r < 8 && Cell(y, r, q - b);
        assert Cell(z, r + a, q);
      }
      if !ColEmpty(z, q) {
        var r :| 0 <= r < 8 && Cell(z, r, q);
        assert Cell(y, r - a, q - b);
      }
    }
  }

  /** The lowest marked row is the one below which every row is empty. */
  lemma MinRowUnique(x: Word, m: int)
    requires x != ZERO
    requires !RowEmpty(x, m) && forall q :: q < m ==> RowEmpty(x, q)
    ensures MinRow(x) == m
  {
  }

  /** The leftmost marked column is the one left of which every column is empty. */
  lemma MinColUnique(x: Word, m: int)
    requires x != ZERO
    requires !ColEmpty(x, m) && forall q :: q < m ==> ColEmpty(x, q)
    ensures MinCol(x) == m
  {
  }

  /** Moving a nonempty board keeps it nonempty and moves its lowest row and leftmost column. */
  lemma ShiftedMin(z: Word, y: Word, a: int, b: int)
    requires ShiftedBy(z, y, a, b) && y != ZERO
    ensures z != ZERO
    ensures MinRow(z) == MinRow(y) + a && MinCol(z) == MinCol(y) + b
  {
    var c :| 0 <= c < 8 && Cell(y, MinRow(y), c);
    assert Cell(z, MinRow(y) + a, c + b);
    assert z[8 * (MinRow(y) + a) + c + b] != ZERO[8 * (MinRow(y) + a) + c + b];
    ShiftedEmpty(z, y, a, b);
    MinRowUnique(z, MinRow(y) + a);
    MinColUnique(z, MinCol(y) + b);
  }

  /** Boards that are moves of each other translate to the same board. */
  lemma ShiftedTranslated(z: Word, y: Word, a: int, b: int)
    requires ShiftedBy(z, y, a, b) && y != ZERO
    ensures z != ZERO && Translated(z) == Translated(y)
  {
    ShiftedMin(z, y, a, b);
    TranslatedCell(z);
    TranslatedCell(y);
    CellsEqual(Translated(z), Translated(y));
  }

  /** A move followed by a move is one move. */
  lemma ShiftedTrans(z: Word, y: Word, w: Word, a: int, b: int, a2: int, b2: int)
    requires ShiftedBy(z, y, a, b) && ShiftedBy(y, w, a2, b2)
    ensures ShiftedBy(z, w, a + a2, b + b2)
  {
    forall r, c
      ensures Cell(z, r, c) == Cell(w, r - (a + a2), c - (b + b2))
    {
      assert Cell(z, r, c) == Cell(y, r - a, c - b);
    }
  }

  /** Turning two boards that are moves of each other gives boards that are moves of each other. */
  lemma ShiftedRotated(z: Word, y: Word, a: int, b: int)
    requires ShiftedBy(z, y, a, b)
    ensures ShiftedBy(Rotated(z), Rotated(y), -b, a)
  {
    RotatedCell(z);
    RotatedCell(y);
    forall r, c
      ensures Cell(Rotated(z), r, c) == Cell(Rotated(y), r + b, c - a)
    {
      assert Cell(z, c, 7 - r) == Cell(y, c - a, 7 - r - b);
    }
  }

  /** Mirroring two boards that are moves of each other gives boards that are moves of each other. */
  lemma ShiftedRowsReversed(z: Word, y: Word, a: int, b: int)
    requires ShiftedBy(z, y, a, b)
    ensures ShiftedBy(RowsReversed(z), RowsReversed(y), -a, b)
  {
    RowsReversedCell(z);
    RowsReversedCell(y);
    forall r, c
      ensures Cell(RowsReversed(z), r, c) == Cell(RowsReversed(y), r + a, c - b)
    {
      assert Cell(z, 7 - r, c) == Cell(y, 7 - r - a, c - b);
    }
  }

  /**
   * The translated board is nonempty, has a marked cell in row 0 and in
   * column 0, and translating it again changes nothing.
   */
  lemma TranslatedNormal(x: Word)
    requires x != ZERO
    ensures Translated(x) != ZERO
    ensures !RowEmpty(Translated(x), 0) && !ColEmpty(Translated(x), 0)
    ensures Translated(Translated(x)) == Translated(x)
  {
    var mr: int, mc: int := MinRow(x), MinCol(x);
    TranslatedCell(x);
    ShiftedMin(Translated(x), x, -mr, -mc);
    ShiftedTranslated(Translated(x), x, -mr, -mc);
  }

  /** Translation is the right shift by MinRow rows and MinCol columns. */
  lemma TranslatedIsShift(x: Word)
    requires x != ZERO
    ensures 8 * MinRow(x) + MinCol(x) < 64
    ensures Translated(x) == Shr(x, 8 * MinRow(x) + MinCol(x))
  {
    var mr, mc := MinRow(x), MinCol(x);
    var k := 8 * mr + mc;
    var t, s := Translated(x), Shr(x, k);
    forall p | 0 <= p < 64
      ensures t[p] == s[p]
    {
      var r, c := p / 8, p % 8;
      if c + mc < 8 && r + mr < 8 {
        DivMod(r + mr, c + mc);
      } else if c + mc >= 8 && p + k < 64 {
        DivMod(r + mr + 1, c + mc - 8);
        assert ColEmpty(x, c + mc - 8);
        assert !Cell(x, r + mr + 1, c + mc - 8);
      }
    }
  }

  /** Translation keeps the number of marked cells. */
  lemma PopTranslated(x: Word)
    requires x != ZERO
    ensures Pop(Translated(x)) == Pop(x)
  {
    TranslatedIsShift(x);
    var mr, mc := MinRow(x), MinCol(x);
    forall q | 0 <= q < 8 * mr + mc
      ensures !x[q]
    {
      DivMod(q / 8, q % 8);
      if q / 8 < mr {
        assert RowEmpty(x, q / 8);
      } else {
        assert ColEmpty(x, q % 8);
      }
      assert !Cell(x, q / 8, q % 8);
    }
    PopShr(x, 8 * mr + mc);
  }

  // ---------------------------------------------------------------------
  // The canonical form of board::transform

  /** x turned k quarters. */
  function Turned(x: Word, k: nat): Word
  {
    if k == 0 then x else Rotated(Turned(x, k - 1))
  }

  /** Turning keeps the number of marked cells. */
  lemma {:induction false} PopTurned(x: Word, k: nat)
    ensures Pop(Turned(x, k)) == Pop(x)
  {
    if k != 0 {
      PopTurned(x, k - 1);
      PopRotated(Turned(x, k - 1));
    }
  }

  /** Turning a translated board and translating again is translating the turned board. */
  lemma TurnTranslated(y: Word)
    requires y != ZERO
    ensures Rotated(y) != ZERO && Rotated(Translated(y)) != ZERO
    ensures Translated(Rotated(Translated(y))) == Translated(Rotated(y))
  {
    var mr: int, mc: int := MinRow(y), MinCol(y);
    TranslatedCell(y);
    ShiftedRotated(Translated(y), y, -mr, -mc);
    PopZero(y);
    PopRotated(y);
    PopZero(Rotated(y));
    ShiftedTranslated(Rotated(Translated(y)), Rotated(y), mc, -mr);
  }

  /** Turning keeps a nonempty board nonempty. */
  lemma TurnedNonZero(x: Word, k: nat)
    requires x != ZERO
    ensures Turned(x, k) != ZERO
  {
    PopZero(x);
    PopTurned(x, k);
    PopZero(Turned(x, k));
  }

  /**
   * The k-th board that board::transform looks at: the input turned k
   * quarters and translated.
   */
  function Orbit(x: Word, k: nat): (t: Word)
    requires x != ZERO
    ensures t != ZERO
  {
    TurnedNonZero(x, k);
    TranslatedNormal(Turned(x, k));
    Translated(Turned(x, k))
  }

  /**
   * board::transform reaches Orbit(x, k + 1) from Orbit(x, k) by one
   * rotate and one translate.
   */
  lemma OrbitStep(x: Word, k: nat)
    requires x != ZERO
    ensures Rotated(Orbit(x, k)) != ZERO
    ensures Orbit(x, k + 1) == Translated(Rotated(Orbit(x, k)))
  {
    TurnedNonZero(x, k);
    TurnTranslated(Turned(x, k));
  }

  /** The four boards board::transform compares, in the order it looks at them. */
  function Images(x: Word): (s: seq<Word>)
    requires x != ZERO
  {
    seq(4, k requires 0 <= k < 4 => Orbit(x, k))
  }

  /**
   * The position of the board that board::transform keeps among s[0..k]:
   * a later board replaces the kept one only when it is smaller as an
   * unsigned number.
   */
  function LeastIndex(s: seq<Word>, k: nat): (j: nat)
    requires k < |s|
    ensures j <= k
    ensures forall i :: 0 <= i <= k ==> Val(s[j]) <= Val(s[i])
  {
    if k == 0 then 0
    else
      var j := LeastIndex(s, k - 1);
      if Val(s[k]) < Val(s[j]) then k else j
  }

  /** board::transform starts from the translated input and keeps it. */
  lemma ImagesFirst(x: Word)
    requires x != ZERO
    ensures Images(x)[0] == Translated(x) && LeastIndex(Images(x), 0) == 0
  {
    assert Turned(x, 0) == x;
  }

  /**
   * One pass of the loop of board::transform: rotate and translate the
   * board it looked at last, and keep the new one if it is smaller.
   */
  lemma ImagesStep(x: Word, i: nat, c: Word, least: Word)
    requires x != ZERO && i < 3
    requires c == Images(x)[i] && least == Images(x)[LeastIndex(Images(x), i)]
    ensures Rotated(c) != ZERO && Images(x)[i + 1] == Translated(Rotated(c))
    ensures (if Val(Images(x)[i + 1]) < Val(least) then Images(x)[i + 1] else least)
      == Images(x)[LeastIndex(Images(x), i + 1)]
  {
    OrbitStep(x, i);
  }

  /** The result of board::transform: the least of the four translated turns. */
  function Transformed(x: Word): Word
    requires x != ZERO
  {
    Images(x)[LeastIndex(Images(x), 3)]
  }

  /** Transformed(x) is one of the four translated turns of x and no greater than any of them. */
  lemma TransformedLeast(x: Word)
    requires x != ZERO
    ensures LeastIndex(Images(x), 3) < 4
    ensures Transformed(x) == Translated(Turned(x, LeastIndex(Images(x), 3)))
    ensures forall k :: 0 <= k < 4 ==> Turned(x, k) != ZERO && Val(Transformed(x)) <= Val(Translated(Turned(x, k)))
  {
    forall k | 0 <= k < 4
      ensures Turned(x, k) != ZERO && Val(Transformed(x)) <= Val(Translated(Turned(x, k)))
    {
      TurnedNonZero(x, k);
      assert Images(x)[k] == Translated(Turned(x, k));
    }
  }

  /** Four boards and the same four boards rotated by one place have the same least board. */
  lemma LeastRotatedList(s: seq<Word>, t: seq<Word>)
    requires |s| == 4 && t == s[1..] + [s[0]]
    ensures t[LeastIndex(t, 3)] == s[LeastIndex(s, 3)]
  {
    var js, jt := LeastIndex(s, 3), LeastIndex(t, 3);
    assert t[jt] == s[if jt == 3 then 0 else jt + 1];
    assert t[if js == 0 then 3 else js - 1] == s[js];
    ValInjective(t[jt], s[js]);
  }

  /** Turning the input turns each translated turn one place along. */
  lemma {:induction false} TurnedRotated(x: Word, k: nat)
    ensures Turned(Rotated(x), k) == Turned(x, k + 1)
  {
    if k != 0 {
      TurnedRotated(x, k - 1);
    }
  }

  /** Four quarter turns are no turn. */
  lemma TurnedFour(x: Word)
    ensures Turned(x, 4) == x
  {
    assert Turned(x, 0) == x;
    var x1 := Turned(x, 1);
    assert x1 == Rotated(x);
    var x2 := Turned(x, 2);
    assert x2 == Rotated(x1);
    var x3 := Turned(x, 3);
    assert x3 == Rotated(x2);
    assert Turned(x, 4) == Rotated(x3);
    RotatedFour(x);
  }

  /** board::transform gives the same result for a board and for the board turned a quarter. */
  lemma TransformedRotated(x: Word)
    requires x != ZERO
    ensures Rotated(x) != ZERO && Transformed(Rotated(x)) == Transformed(x)
  {
    TurnedNonZero(x, 1);
    var s, t := Images(x), Images(Rotated(x));
    forall i | 0 <= i < 4
      ensures Turned(Rotated(x), i) == Turned(x, i + 1)
    {
      TurnedRotated(x, i);
    }
    TurnedFour(x);
    assert t == s[1..] + [s[0]];
    LeastRotatedList(s, t);
  }

  /** board::transform gives the same result for a board turned any number of quarters. */
  lemma TransformedTurned(x: Word, k: nat)
    requires x != ZERO && k < 4
    ensures Turned(x, k) != ZERO && Transformed(Turned(x, k)) == Transformed(x)
  {
    assert Turned(x, 0) == x;
    var x1 := Turned(x, 1);
    assert x1 == Rotated(x);
    TransformedRotatedFrom(x, x, x1);
    if k >= 2 {
      var x2 := Turned(x, 2);
      assert x2 == Rotated(x1);
      TransformedRotatedFrom(x, x1, x2);
      if k == 3 {
        TransformedRotatedFrom(x, x2, Turned(x, 3));
      }
    }
  }

  /** One more quarter turn keeps the transform of a board already known to match x's. */
  lemma TransformedRotatedFrom(x: Word, y: Word, z: Word)
    requires x != ZERO && y != ZERO && z == Rotated(y) && Transformed(y) == Transformed(x)
    ensures z != ZERO && Transformed(z) == Transformed(x)
  {
    TransformedRotated(y);
  }

  /** Boards whose k-th translated turns agree also agree on the next one. */
  lemma OrbitStepAlike(z: Word, y: Word, k: nat)
    requires z != ZERO && y != ZERO && Orbit(z, k) == Orbit(y, k)
    ensures Orbit(z, k + 1) == Orbit(y, k + 1)
  {
    OrbitStep(z, k);
    OrbitStep(y, k);
  }

  /** Inputs that translate to the same board transform alike. */
  lemma TransformedOfTranslated(z: Word, y: Word)
    requires z != ZERO && y != ZERO && Translated(z) == Translated(y)
    ensures Transformed(z) == Transformed(y)
  {
    assert Turned(z, 0) == z && Turned(y, 0) == y;
    OrbitStepAlike(z, y, 0);
    OrbitStepAlike(z, y, 1);
    OrbitStepAlike(z, y, 2);
    FourAlike(Images(z), Images(y));
  }

  /** Two lists of four boards that agree place by place are equal. */
  lemma FourAlike(s: seq<Word>, t: seq<Word>)
    requires |s| == 4 && |t| == 4
    requires s[0] == t[0] && s[1] == t[1] && s[2] == t[2] && s[3] == t[3]
    ensures s == t
  {
  }

  /** board::transform gives the same result for a board and for any move of it. */
  lemma TransformedShifted(z: Word, y: Word, a: int, b: int)
    requires ShiftedBy(z, y, a, b) && y != ZERO
    ensures z != ZERO && Transformed(z) == Transformed(y)
  {
    ShiftedTranslated(z, y, a, b);
    TransformedOfTranslated(z, y);
  }

  /** Transforming a transformed board changes nothing. */
  lemma TransformedTwice(x: Word)
    requires x != ZERO
    ensures Transformed(x) != ZERO && Transformed(Transformed(x)) == Transformed(x)
  {
    TransformedLeast(x);
    var y := Turned(x, LeastIndex(Images(x), 3));
    TranslatedNormal(y);
    TransformedOfTranslated(Transformed(x), y);
    TransformedTurned(x, LeastIndex(Images(x), 3));
  }

  /** board::transform keeps the number of marked cells. */
  lemma PopTransformed(x: Word)
    requires x != ZERO
    ensures Pop(Transformed(x)) == Pop(x)
  {
    TransformedLeast(x);
    var j := LeastIndex(Images(x), 3);
    PopTurned(x, j);
    PopTranslated(Turned(x, j));
  }

  // ---------------------------------------------------------------------
  // Mirror images: board::flip

  /** Reversing the rows keeps a nonempty board nonempty. */
  lemma RowsReversedNonZero(x: Word)
    requires x != ZERO
    ensures RowsReversed(x) != ZERO
  {
    PopZero(x);
    PopRowsReversed(x);
    PopZero(RowsReversed(x));
  }

  /** A quarter turn keeps a nonempty board nonempty. */
  lemma RotatedNonZero(x: Word)
    requires x != ZERO
    ensures Rotated(x) != ZERO
  {
    PopZero(x);
    PopRotated(x);
    PopZero(Rotated(x));
  }

  /** Mirroring a turned board is turning the mirrored board three quarters. */
  lemma MirrorOfTurn(y: Word)
    ensures RowsReversed(Rotated(y)) == Rotated(Rotated(Rotated(RowsReversed(y))))
  {
    MirroredTurn(RowsReversed(y));
    RowsReversedTwice(y);
  }

  /** Mirroring a board turned half way round is turning the mirrored board half way round. */
  lemma MirrorOfHalfTurn(w: Word)
    ensures RowsReversed(Rotated(Rotated(w))) == Rotated(Rotated(RowsReversed(w)))
  {
    var m := RowsReversed(w);
    MirrorOfTurn(Rotated(w));
    MirrorOfTurn(w);
    var m2 := Rotated(Rotated(m));
    RotatedFour(m2);
  }

  /** Mirroring a board turned three quarters is turning the mirrored board one quarter. */
  lemma MirrorOfThreeTurns(w: Word)
    ensures RowsReversed(Rotated(Rotated(Rotated(w)))) == Rotated(RowsReversed(w))
  {
    var m := RowsReversed(w);
    MirrorOfTurn(Rotated(Rotated(w)));
    MirrorOfHalfTurn(w);
    RotatedFour(Rotated(m));
  }

  /** Mirroring a board turned k quarters is turning the mirrored board the other way. */
  lemma MirrorTurned(w: Word, k: nat)
    requires k < 4
    ensures RowsReversed(Turned(w, k)) == Turned(RowsReversed(w), if k == 0 then 0 else 4 - k)
  {
    var m := RowsReversed(w);
    assert Turned(w, 0) == w && Turned(m, 0) == m;
    var w1, m1 := Turned(w, 1), Turned(m, 1);
    assert w1 == Rotated(w) && m1 == Rotated(m);
    var w2, m2 := Turned(w, 2), Turned(m, 2);
    assert w2 == Rotated(w1) && m2 == Rotated(m1);
    var w3, m3 := Turned(w, 3), Turned(m, 3);
    assert w3 == Rotated(w2) && m3 == Rotated(m2);
    if k == 1 {
      MirrorOfTurn(w);
    } else if k == 2 {
      MirrorOfHalfTurn(w);
    } else if k == 3 {
      MirrorOfThreeTurns(w);
    }
  }

  /** Transforming the mirrored board does not depend on up to three quarter turns before the mirror. */
  lemma TransformedMirrorTurned(w: Word, k: nat)
    requires w != ZERO && k < 4
    ensures Turned(w, k) != ZERO && RowsReversed(w) != ZERO && RowsReversed(Turned(w, k)) != ZERO
    ensures Transformed(RowsReversed(Turned(w, k))) == Transformed(RowsReversed(w))
  {
    RowsReversedNonZero(w);
    TurnedNonZero(w, k);
    RowsReversedNonZero(Turned(w, k));
    MirrorTurned(w, k);
    TransformedTurned(RowsReversed(w), if k == 0 then 0 else 4 - k);
  }

  /**
   * The result of board::flip: the rows of x in reverse order (a mirror
   * image), then transformed.
   */
  function Flipped(x: Word): Word
    requires x != ZERO
  {
    RowsReversedNonZero(x);
    Transformed(RowsReversed(x))
  }

  /** A transformed board is nonempty, already translated, and touches row 0 and column 0. */
  lemma TransformedNormal(x: Word)
    requires x != ZERO
    ensures Transformed(x) != ZERO && Translated(Transformed(x)) == Transformed(x)
    ensures !RowEmpty(Transformed(x), 0) && !ColEmpty(Transformed(x), 0)
  {
    TransformedLeast(x);
    TranslatedNormal(Turned(x, LeastIndex(Images(x), 3)));
  }

  /** A flipped board is nonempty, already translated and keeps the number of marked cells. */
  lemma FlippedNormal(x: Word)
    requires x != ZERO
    ensures Flipped(x) != ZERO && Translated(Flipped(x)) == Flipped(x)
    ensures Pop(Flipped(x)) == Pop(x)
  {
    RowsReversedNonZero(x);
    TransformedNormal(RowsReversed(x));
    PopTransformed(RowsReversed(x));
    PopRowsReversed(x);
  }

  /** Mirroring a translated board and transforming is transforming the mirrored board. */
  lemma TransformedMirrorTranslated(t: Word)
    requires t != ZERO
    ensures Translated(t) != ZERO && RowsReversed(t) != ZERO && RowsReversed(Translated(t)) != ZERO
    ensures Transformed(RowsReversed(Translated(t))) == Transformed(RowsReversed(t))
  {
    var mr: int, mc: int := MinRow(t), MinCol(t);
    TranslatedCell(t);
    ShiftedRowsReversed(Translated(t), t, -mr, -mc);
    RowsReversedNonZero(t);
    TransformedShifted(RowsReversed(Translated(t)), RowsReversed(t), mr, -mc);
    TranslatedNormal(t);
  }

  /** Flipping twice is transforming: the second mirror undoes the first. */
  lemma FlippedTwice(x: Word)
    requires x != ZERO
    ensures Flipped(x) != ZERO && Flipped(Flipped(x)) == Transformed(x)
  {
    var m := RowsReversed(x);
    RowsReversedNonZero(x);
    TransformedLeast(m);
    var j := LeastIndex(Images(m), 3);
    var t := Turned(m, j);
    FlippedNormal(x);
    assert Flipped(x) == Translated(t);
    TransformedMirrorTranslated(t);
    TransformedMirrorTurned(m, j);
    RowsReversedTwice(x);
  }

  /** rotate(); rotate(); translate(): the board turned half way round and translated. */
  function HalfTurned(x: Word): (h: Word)
    requires x != ZERO
    ensures h != ZERO
  {
    RotatedNonZero(x);
    RotatedNonZero(Rotated(x));
    TranslatedNormal(Rotated(Rotated(x)));
    Translated(Rotated(Rotated(x)))
  }

  /** Four quarter turns do not change the translated board. */
  lemma TranslatedRotatedFour(f: Word)
    requires f != ZERO
    ensures Rotated(Rotated(Rotated(Rotated(f)))) != ZERO
    ensures Translated(Rotated(Rotated(Rotated(Rotated(f))))) == Translated(f)
  {
    RotatedFour(f);
  }

  /** Two half turns, each followed by a translation, translate the board. */
  lemma HalfTurnedTwice(f: Word)
    requires f != ZERO
    ensures HalfTurned(HalfTurned(f)) == Translated(f)
  {
    RotatedNonZero(f);
    RotatedNonZero(Rotated(f));
    var f2 := Rotated(Rotated(f));
    var h := Translated(f2);
    var a: int, b: int := -(MinRow(f2) as int), -(MinCol(f2) as int);
    TranslatedCell(f2);
    ShiftedRotated(h, f2, a, b);
    ShiftedRotated(Rotated(h), Rotated(f2), -b, a);
    TranslatedRotatedFour(f);
    ShiftedTranslated(Rotated(Rotated(h)), Rotated(Rotated(f2)), -a, -b);
    assert h == HalfTurned(f);
  }

  /**
   * On a translated board (one with a marked cell in row 0 and in column 0)
   * a second half turn brings the board back.
   */
  lemma HalfTurnBack(f: Word)
    requires f != ZERO && !RowEmpty(f, 0) && !ColEmpty(f, 0)
    ensures HalfTurned(HalfTurned(f)) == f
  {
    TranslatedOfNormal(f, f, 0, 0);
    HalfTurnedTwice(f);
  }

  // ---------------------------------------------------------------------
  // One pass of the loops in board::rotate and board::flip

  /**
   * Pass i of board::rotate gathers column 7 - i and writes it to row i:
   * exactly row i of the turned board.
   */
  lemma RotatePass(x: Word, i: nat)
    requires i < 8
    ensures forall p :: 0 <= p < 64 ==>
      Shl(Pext(x, ROTATE_MASKS[i]), 8 * i)[p] == (8 * i <= p < 8 * i + 8 && Rotated(x)[p])
  {
    PextColumn(x, 7 - i);
    forall p | 0 <= p < 64 && 8 * i <= p < 8 * i + 8
      ensures Shl(Pext(x, ROTATE_MASKS[i]), 8 * i)[p] == Rotated(x)[p]
    {
      DivMod(i, p - 8 * i);
    }
  }

  /**
   * Pass i of board::flip gathers row 7 - i and writes it to row i:
   * exactly row i of the board with its rows reversed.
   */
  lemma FlipPass(x: Word, i: nat)
    requires i < 8
    ensures forall p :: 0 <= p < 64 ==>
      Shl(Pext(x, FLIP_MASKS[i]), 8 * i)[p] == (8 * i <= p < 8 * i + 8 && RowsReversed(x)[p])
  {
    PextRow(x, 7 - i);
    forall p | 0 <= p < 64 && 8 * i <= p < 8 * i + 8
      ensures Shl(Pext(x, FLIP_MASKS[i]), 8 * i)[p] == RowsReversed(x)[p]
    {
      DivMod(i, p - 8 * i);
    }
  }

  // ---------------------------------------------------------------------
  // The loops of board::translate

  /** cells & 0xff is zero exactly when row 0 is empty. */
  lemma RowTest(x: Word)
    ensures (Val(And(x, RowMask(0))) == 0) == RowEmpty(x, 0)
  {
    ValZeroIff(And(x, RowMask(0)));
    if RowEmpty(x, 0) {
      forall p | 0 <= p < 64
        ensures And(x, RowMask(0))[p] == ZERO[p]
      {
        if p < 8 {
          assert !Cell(x, 0, p);
        }
      }
    } else {
      var c :| 0 <= c < 8 && Cell(x, 0, c);
      assert And(x, RowMask(0))[c] != ZERO[c];
    }
  }

  /** cells & 0x101010101010101 is zero exactly when column 0 is empty. */
  lemma ColTest(x: Word)
    ensures (Val(And(x, ColMask(0))) == 0) == ColEmpty(x, 0)
  {
    ValZeroIff(And(x, ColMask(0)));
    if ColEmpty(x, 0) {
      forall p | 0 <= p < 64
        ensures And(x, ColMask(0))[p] == ZERO[p]
      {
        if p % 8 == 0 {
          assert !Cell(x, p / 8, 0);
        }
      }
    } else {
      var r :| 0 <= r < 8 && Cell(x, r, 0);
      DivMod(r, 0);
      assert And(x, ColMask(0))[8 * r] != ZERO[8 * r];
    }
  }

  /** With row 0 empty, cells >>= 8 moves the board one row down and loses no cell. */
  lemma RowShift(x: Word)
    requires RowEmpty(x, 0)
    ensures ShiftedBy(Shr(x, 8), x, -1, 0)
  {
    forall r, c
      ensures Cell(Shr(x, 8), r, c) == Cell(x, r + 1, c)
    {
      if 0 <= r < 7 && 0 <= c < 8 {
        DivMod(r + 1, c);
      } else if r == -1 {
        assert !Cell(x, 0, c);
      }
    }
  }

  /** With column 0 empty, cells >>= 1 moves the board one column left and loses no cell. */
  lemma ColShift(x: Word)
    requires ColEmpty(x, 0)
    ensures ShiftedBy(Shr(x, 1), x, 0, -1)
  {
    forall r, c
      ensures Cell(Shr(x, 1), r, c) == Cell(x, r, c + 1)
    {
      if 0 <= r < 8 && 0 <= c < 7 {
        DivMod(r, c + 1);
      } else if 0 <= r < 7 && c == 7 {
        assert !Cell(x, r + 1, 0);
        DivMod(r + 1, 0);
      } else if c == -1 {
        assert !Cell(x, r, 0);
      }
    }
  }

  /** One pass of the first loop of board::translate: a move of x down by k rows moves one row further. */
  lemma RowStep(c: Word, x: Word, k: int)
    requires c != ZERO && ShiftedBy(c, x, -k, 0) && RowEmpty(c, 0)
    ensures Shr(c, 8) != ZERO && ShiftedBy(Shr(c, 8), x, -(k + 1), 0)
    ensures MinRow(Shr(c, 8)) < MinRow(c)
    ensures (Val(And(Shr(c, 8), RowMask(0))) == 0) == RowEmpty(Shr(c, 8), 0)
  {
    RowShift(c);
    ShiftedMin(Shr(c, 8), c, -1, 0);
    ShiftedTrans(Shr(c, 8), c, x, -1, 0, -k, 0);
    RowTest(Shr(c, 8));
  }

  /** One pass of the second loop of board::translate: row 0 stays nonempty. */
  lemma ColStep(c: Word, x: Word, k: int, l: int)
    requires c != ZERO && ShiftedBy(c, x, -k, -l) && ColEmpty(c, 0) && !RowEmpty(c, 0)
    ensures Shr(c, 1) != ZERO && ShiftedBy(Shr(c, 1), x, -k, -(l + 1)) && !RowEmpty(Shr(c, 1), 0)
    ensures MinCol(Shr(c, 1)) < MinCol(c)
    ensures (Val(And(Shr(c, 1), ColMask(0))) == 0) == ColEmpty(Shr(c, 1), 0)
  {
    ColShift(c);
    ShiftedMin(Shr(c, 1), c, 0, -1);
    ShiftedEmpty(Shr(c, 1), c, 0, -1);
    ShiftedTrans(Shr(c, 1), c, x, 0, -1, -k, -l);
    ColTest(Shr(c, 1));
  }

  /** A move of y that touches row 0 and column 0 is the translation of y. */
  lemma TranslatedOfNormal(z: Word, y: Word, a: int, b: int)
    requires y != ZERO && ShiftedBy(z, y, a, b)
    requires !RowEmpty(z, 0) && !ColEmpty(z, 0)
    ensures z == Translated(y)
  {
    ShiftedTranslated(z, y, a, b);
    MinRowUnique(z, 0);
    MinColUnique(z, 0);
    TranslatedCell(z);
    CellsEqual(Translated(z), z);
  }
}
