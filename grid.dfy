/**
 * The board and its store of canonical boards (grid.cpp, struct board).
 *
 * A board keeps its cells in the 64-bit word `cells`, one byte per row;
 * only the low four bits of the low four bytes belong to the 4x4 grid.
 * The methods below are the member functions of struct board, each proved
 * against the function of Moves that says what it computes. The static
 * table board::boards becomes the class Store, whose one instance the
 * methods that read or extend the table receive as a parameter.
 */
module Grid {
  import opened Words
  import opened Moves
  import Combos

  /** L: the grid is L x L. */
  const L: nat := 4

  /** BINS: the number of bins per cell count. */
  const BINS: nat := 64

  // ---------------------------------------------------------------------
  // comboMask and board(uint64_t)

  /** The cells of the grid: the low L columns of the low L rows (0x0f0f0f0f). */
  function ComboArea(): Word
  {
    seq(64, p => p % 8 < L && p / 8 < L)
  }

  /** The grid is exactly the cells 8 * i + j with i < 4 and j < 4. */
  lemma ComboAreaCells()
    ensures forall i, j :: Cell(ComboArea(), i, j) <==> 0 <= i < 4 && 0 <= j < 4
  {
    forall i, j | 0 <= i < 8 && 0 <= j < 8
      ensures Cell(ComboArea(), i, j) <==> i < 4 && j < 4
    {
      DivMod(i, j);
    }
  }

  /** comboMask(): ORs the row (1 << L) - 1 into each of the low L bytes. */
  method ComboMask() returns (mask: Word)
    ensures mask == ComboArea()
  {
    mask := ZERO;
    var i := 0;
    while i < L
      invariant 0 <= i <= L
      invariant forall p :: 0 <= p < 64 ==> mask[p] == (p % 8 < L && p / 8 < i)
    {
      var row := LowBits(L);
      mask := Or(mask, Shl(row, 8 * i));
      i := i + 1;
    }
  }

  /** board(combo): the top L * L bits of combo, deposited into the grid row by row. */
  function Placed(combo: Word): Word
  {
    Pdep(Shr(combo, 64 - L * L), ComboArea())
  }

  /** The number of grid cells below position p, counted row by row. */
  function AreaBelow(p: int): int
  {
    if p >= 32 then 16 else if p < 0 then 0 else 4 * (p / 8) + (if p % 8 < 4 then p % 8 else 4)
  }

  lemma AreaPrefix(p: nat)
    requires p <= 64
    ensures Count(ComboArea()[..p]) == AreaBelow(p)
  {
    forall q | 0 <= q < 64
      ensures AreaBelow(q + 1) == AreaBelow(q) + (if ComboArea()[q] then 1 else 0)
    {
      var r, c := q / 8, q % 8;
      if c == 7 && r < 7 {
        DivMod(r + 1, 0);
        assert q + 1 == 8 * (r + 1) + 0;
      } else if c < 7 {
        DivMod(r, c + 1);
        assert q + 1 == 8 * r + (c + 1);
      }
    }
    CountByPrefix(ComboArea(), AreaBelow, p);
  }

  /**
   * Cell (i, j) of board(combo) is bit 48 + 4 * i + j of combo inside the
   * grid and empty outside it: combo's top 16 bits fill the grid row by row.
   */
  lemma PlacedCells(combo: Word)
    ensures forall i, j :: Cell(Placed(combo), i, j) == (0 <= i < 4 && 0 <= j < 4 && combo[48 + 4 * i + j])
  {
    ComboAreaCells();
    forall i, j | 0 <= i < 8 && 0 <= j < 8
      ensures Cell(Placed(combo), i, j) == (i < 4 && j < 4 && combo[48 + 4 * i + j])
    {
      var p := 8 * i + j;
      PdepIndex(Shr(combo, 48), ComboArea(), p);
      if i < 4 && j < 4 {
        AreaPrefix(p);
        DivMod(i, j);
      }
    }
  }

  /** board(combo) marks as many cells as combo's top 16 bits hold set bits. */
  lemma PopPlaced(combo: Word)
    ensures Pop(Placed(combo)) == Count(combo[48..])
    ensures Placed(combo) != ZERO <==> Count(combo[48..]) != 0
  {
    var s := Shr(combo, 48);
    AreaPrefix(64);
    assert ComboArea()[..64] == ComboArea();
    CountPdep(s, ComboArea());
    assert s[..16] == combo[48..];
    CountIsPop(Placed(combo));
    PopZero(Placed(combo));
  }

  // ---------------------------------------------------------------------
  // The bins: _pext_u64(cells, BINMASK)

  /** BINMASK = 0x10307: cells (0, 0), (0, 1), (0, 2), (1, 0), (1, 1) and (2, 0). */
  function BinMask(): Word
  {
    seq(64, p => p == 0 || p == 1 || p == 2 || p == 8 || p == 9 || p == 16)
  }

  /** The number of set bits of BINMASK below position p. */
  function BinMaskBelow(p: int): int
  {
    (if p > 0 then 1 else 0) + (if p > 1 then 1 else 0) + (if p > 2 then 1 else 0)
    + (if p > 8 then 1 else 0) + (if p > 9 then 1 else 0) + (if p > 16 then 1 else 0)
  }

  /** BINMASK has six set bits. */
  lemma BinMaskCount()
    ensures Count(BinMask()) == 6
  {
    CountByPrefix(BinMask(), BinMaskBelow, 64);
    assert BinMask()[..64] == BinMask();
  }

  /** The bin of a board: the six cells of BINMASK, gathered into a number below BINS. */
  function Bin(x: Word): (b: nat)
    ensures b < BINS
  {
    BinMaskCount();
    ValBelow(Pext(x, BinMask()), 6);
    assert Pow2(6) == 64;
    Val(Pext(x, BinMask()))
  }

  // ---------------------------------------------------------------------
  // The store

  /** A board as the store keeps it: the transform of some nonempty board. */
  ghost predicate Canonical(w: Word)
  {
    exists y :: y != ZERO && w == Transformed(y)
  }

  /** A canonical board is nonempty, its own transform, and flipping it twice gives it back. */
  lemma CanonicalFixed(w: Word)
    requires Canonical(w)
    ensures w != ZERO && Transformed(w) == w
    ensures Flipped(w) != ZERO && Flipped(Flipped(w)) == w
  {
    var y :| y != ZERO && w == Transformed(y);
    TransformedNormal(y);
    TransformedTwice(y);
    FlippedTwice(w);
  }

  /** Every transform is canonical. */
  lemma TransformedCanonical(y: Word)
    requires y != ZERO
    ensures Canonical(Transformed(y))
  {
  }

  /** Some bin of bins holds w. */
  predicate Holds(bins: seq<seq<Word>>, w: Word)
  {
    exists b, j :: 0 <= b < |bins| && 0 <= j < |bins[b]| && bins[b][j] == w
  }

  /**
   * What board::comb answers for a board x checked against the bins of
   * its cell count: false exactly when the flipped board is stored and
   * a half turn leaves the flipped board unchanged.
   */
  predicate Combs(bins: seq<seq<Word>>, x: Word)
    requires x != ZERO
  {
    FlippedNormal(x);
    !(Holds(bins, Flipped(x)) && Symmetric(Flipped(x)))
  }

  /** comb's answer depends only on the rotation class of the board: turning it first changes nothing. */
  lemma CombsTurned(bins: seq<seq<Word>>, x: Word, k: nat)
    requires x != ZERO && k < 4
    ensures Turned(x, k) != ZERO && Combs(bins, Turned(x, k)) == Combs(bins, x)
  {
    TransformedMirrorTurned(x, k);
  }

  /** A half turn gives f back, compared as unsigned numbers the way comb compares prevBoard == cells. */
  predicate Symmetric(f: Word)
    requires f != ZERO
  {
    Val(HalfTurned(f)) == Val(f)
  }

  /** f is symmetric exactly when its half turn is f itself. */
  lemma SymmetricMeans(f: Word)
    requires f != ZERO
    ensures Symmetric(f) <==> HalfTurned(f) == f
  {
    if Symmetric(f) {
      ValInjective(HalfTurned(f), f);
    }
  }

  /** The table has L * L - 2 rows, one per cell count from 2 to L * L - 1, of BINS bins. */
  predicate Shaped(t: seq<seq<seq<Word>>>)
  {
    |t| == L * L - 2 && forall a :: 0 <= a < |t| ==> |t[a]| == BINS
  }

  /** Board w may be kept under cell count a + 2 in bin b: it is canonical, has a + 2 marked cells and belongs to bin b. */
  ghost predicate Kept(w: Word, a: int, b: int)
  {
    Canonical(w) && Pop(w) == a + 2 && Bin(w) == b
  }

  /** Every board of table t satisfies P for its row and bin. */
  ghost predicate Every(t: seq<seq<seq<Word>>>, P: (Word, int, int) -> bool)
  {
    forall a, b, j :: 0 <= a < |t| && 0 <= b < |t[a]| && 0 <= j < |t[a][b]| ==> P(t[a][b][j], a, b)
  }

  /** No bin of table t holds a board twice. */
  predicate Distinct(t: seq<seq<seq<Word>>>)
  {
    forall a, b, j, k :: 0 <= a < |t| && 0 <= b < |t[a]| && 0 <= j < k < |t[a][b]| ==> t[a][b][j] != t[a][b][k]
  }

  /** The invariant of board::boards: every board is kept where it belongs, and once. */
  ghost predicate ValidTable(t: seq<seq<seq<Word>>>)
  {
    Shaped(t) && Every(t, Kept) && Distinct(t)
  }

  /** The empty table. */
  function EmptyTable(): (t: seq<seq<seq<Word>>>)
    ensures ValidTable(t)
  {
    seq(L * L - 2, a => seq(BINS, b => []))
  }

  /**
   * Bin b of row a with w appended, unless skip holds: what
   * prevBoards.push_back does, or leaves undone.
   */
  function Put(t: seq<seq<seq<Word>>>, a: nat, b: nat, skip: bool, w: Word): (u: seq<seq<seq<Word>>>)
    requires Shaped(t) && a < |t| && b < BINS
    ensures Shaped(u) && u[a][b] == (if skip then t[a][b] else t[a][b] + [w])
    ensures forall a', b' :: 0 <= a' < |t| && 0 <= b' < BINS && (a' != a || b' != b) ==> u[a'][b'] == t[a'][b']
  {
    if skip then t else t[a := t[a][b := t[a][b] + [w]]]
  }

  /**
   * The table after board::compare(n) on a board x: unchanged when the bin
   * of x already holds x or comb answers false; otherwise the board comb
   * leaves behind is appended to that bin. So compare touches one bin, the
   * bin of x under cell count n, and appends at most one board to it.
   */
  function Compared(t: seq<seq<seq<Word>>>, n: int, x: Word): (u: seq<seq<seq<Word>>>)
    requires Shaped(t) && 2 <= n <= L * L - 1 && x != ZERO
    ensures Shaped(u) && Flipped(x) != ZERO
    ensures forall a, b :: 0 <= a < |t| && 0 <= b < BINS && (a != n - 2 || b != Bin(x)) ==> u[a][b] == t[a][b]
    ensures u[n - 2][Bin(x)] == t[n - 2][Bin(x)] || u[n - 2][Bin(x)] == t[n - 2][Bin(x)] + [Flipped(Flipped(x))]
  {
    FlippedNormal(x);
    Put(t, n - 2, Bin(x), x in t[n - 2][Bin(x)] || !Combs(t[n - 2], x), Flipped(Flipped(x)))
  }

  /** On a canonical board, what compare appends, if anything, is the board itself. */
  lemma ComparedCanonical(t: seq<seq<seq<Word>>>, n: int, x: Word)
    requires Shaped(t) && 2 <= n <= L * L - 1 && Canonical(x)
    ensures x != ZERO
    ensures Compared(t, n, x) == Put(t, n - 2, Bin(x), x in t[n - 2][Bin(x)] || !Combs(t[n - 2], x), x)
  {
    CanonicalFixed(x);
  }

  /**
   * A table that keeps canonical boards of the right cell count, each once
   * and in its own bin, still does after compare on a canonical board.
   */
  lemma ComparedValid(t: seq<seq<seq<Word>>>, n: int, x: Word)
    requires ValidTable(t) && 2 <= n <= L * L - 1 && Canonical(x) && Pop(x) == n
    ensures ValidTable(Compared(t, n, x))
  {
    ComparedCanonical(t, n, x);
    PutValid(t, n - 2, Bin(x), x in t[n - 2][Bin(x)] || !Combs(t[n - 2], x), x, Kept);
  }

  /**
   * Appending to bin b of row a a board that satisfies P there and that the
   * bin lacks keeps both properties of the table.
   */
  lemma PutValid(t: seq<seq<seq<Word>>>, a: nat, b: nat, skip: bool, w: Word, P: (Word, int, int) -> bool)
    requires Shaped(t) && Every(t, P) && Distinct(t) && a < |t| && b < BINS
    requires skip || (P(w, a, b) && w !in t[a][b])
    ensures Every(Put(t, a, b, skip, w), P) && Distinct(Put(t, a, b, skip, w))
  {
    if !skip {
      var u := Put(t, a, b, skip, w);
      forall a', b', j | 0 <= a' < |u| && 0 <= b' < |u[a']| && 0 <= j < |u[a'][b']|
        ensures P(u[a'][b'][j], a', b')
      {
        if a' == a && b' == b && j == |t[a][b]| {
          assert u[a'][b'][j] == w;
        } else {
          assert u[a'][b'][j] == t[a'][b'][j];
        }
      }
      forall a', b', j, k | 0 <= a' < |u| && 0 <= b' < |u[a']| && 0 <= j < k < |u[a'][b']|
        ensures u[a'][b'][j] != u[a'][b'][k]
      {
        if a' == a && b' == b && k == |t[a][b]| {
          assert u[a'][b'][j] == t[a][b][j];
        } else {
          assert u[a'][b'][j] == t[a'][b'][j];
        }
      }
    }
  }

  /**
   * After compare on a canonical board x, the bin of x holds x exactly when
   * it held x before or comb answered true.
   */
  lemma ComparedStores(t: seq<seq<seq<Word>>>, n: int, x: Word)
    requires Shaped(t) && 2 <= n <= L * L - 1 && Canonical(x)
    ensures x != ZERO
    ensures x in Compared(t, n, x)[n - 2][Bin(x)] <==> x in t[n - 2][Bin(x)] || Combs(t[n - 2], x)
  {
    CanonicalFixed(x);
  }

  /** board::boards[L*L-2][BINS]: the boards kept so far, by cell count and bin. */
  class Store {
    var boards: seq<seq<seq<Word>>>

    /** The table starts empty. */
    constructor ()
      ensures boards == EmptyTable()
    {
      boards := EmptyTable();
    }
  }

  // ---------------------------------------------------------------------
  // The board

  class Board {
    var cells: Word

    /** board(): the empty board. */
    constructor ()
      ensures cells == ZERO
    {
      cells := ZERO;
    }

    /** board(combo): combo's top L * L bits placed on the grid. */
    constructor FromCombo(combo: Word)
      ensures cells == Placed(combo)
    {
      var mask := ComboMask();
      cells := Pdep(Shr(combo, 64 - L * L), mask);
    }

    /** board::fromCells: a board with the given cells. */
    constructor FromCells(c: Word)
      ensures cells == c
    {
      cells := c;
    }

    /** board::rotate: a quarter turn, gathering one column per pass. */
    method Rotate()
      modifies this
      ensures cells == Rotated(old(cells))
    {
      var x := cells;
      var result := ZERO;
      var i := 0;
      while i < 8
        invariant 0 <= i <= 8
        invariant forall p :: 0 <= p < 64 ==> result[p] == (p < 8 * i && Rotated(x)[p])
      {
        var selected := Pext(x, ROTATE_MASKS[i]);
        RotatePass(x, i);
        result := Or(result, Shl(selected, 8 * i));
        i := i + 1;
      }
      cells := result;
    }

    /** board::translate: shift down a row while row 0 is empty, then left a column while column 0 is. */
    method Translate()
      requires cells != ZERO
      modifies this
      ensures cells == Translated(old(cells))
    {
      ghost var x := cells;
      var c := cells;
      ghost var rows, cols := 0, 0;
      RowTest(c);
      while Val(And(c, RowMask(0))) == 0
        invariant c != ZERO && ShiftedBy(c, x, -rows, 0)
        invariant (Val(And(c, RowMask(0))) == 0) == RowEmpty(c, 0)
        decreases MinRow(c)
      {
        RowStep(c, x, rows);
        c := Shr(c, 8);
        rows := rows + 1;
      }
      ColTest(c);
      while Val(And(c, ColMask(0))) == 0
        invariant c != ZERO && ShiftedBy(c, x, -rows, -cols)
        invariant !RowEmpty(c, 0)
        invariant (Val(And(c, ColMask(0))) == 0) == ColEmpty(c, 0)
        decreases MinCol(c)
      {
        ColStep(c, x, rows, cols);
        c := Shr(c, 1);
        cols := cols + 1;
      }
      TranslatedOfNormal(c, x, -rows, -cols);
      cells := c;
    }

    /** board::flip: reverse the order of the rows, one row per pass, then transform. */
    method Flip()
      requires cells != ZERO
      modifies this
      ensures cells == Flipped(old(cells))
    {
      var x := cells;
      var result := ZERO;
      var i := 0;
      while i < 8
        invariant 0 <= i <= 8
        invariant forall p :: 0 <= p < 64 ==> result[p] == (p < 8 * i && RowsReversed(x)[p])
      {
        var selected := Pext(x, FLIP_MASKS[i]);
        FlipPass(x, i);
        result := Or(result, Shl(selected, 8 * i));
        i := i + 1;
      }
      assert result == RowsReversed(x);
      RowsReversedNonZero(x);
      cells := result;
      Transform();
    }

    /** board::transform: the least, as an unsigned number, of the four translated turns. */
    method Transform()
      requires cells != ZERO
      modifies this
      ensures cells == Transformed(old(cells))
    {
      ghost var x := cells;
      ImagesFirst(x);
      Translate();
      var least := cells;
      var i := 0;
      while i < 3
        invariant 0 <= i <= 3
        invariant cells == Images(x)[i] && least == Images(x)[LeastIndex(Images(x), i)]
      {
        ImagesStep(x, i, cells, least);
        Rotate();
        Translate();
        if Val(cells) < Val(least) {
          least := cells;
        }
        i := i + 1;
      }
      cells := least;
    }

    /** rotate(); rotate(); translate(): the half turn board::comb applies to a match. */
    method HalfTurn()
      requires cells != ZERO
      modifies this
      ensures cells == HalfTurned(old(cells))
    {
      RotatedNonZero(cells);
      RotatedNonZero(Rotated(cells));
      Rotate();
      Rotate();
      Translate();
    }

    /**
     * board::comb: flip, search the bins of cell count n for the flipped
     * board (CombSearch), and flip again before answering, on the path
     * that answers false as after the loops, where it answers true.
     */
    method Comb(store: Store, n: int) returns (ok: bool)
      requires 2 <= n <= L * L - 1 && Shaped(store.boards) && cells != ZERO
      modifies this
      ensures ok == Combs(store.boards[n - 2], old(cells))
      ensures Flipped(old(cells)) != ZERO && cells == Flipped(Flipped(old(cells)))
    {
      ghost var x := cells;
      Flip();
      FlippedNormal(x);
      TranslatedNormal(cells);
      ok := CombSearch(store.boards[n - 2]);
      Flip();
    }

    /**
     * The loop of board::comb over the bins of one cell count, for a
     * translated board f (one that touches row 0 and column 0): on a
     * stored board equal to f, turn f half way round; if that gives f
     * again the answer is false, otherwise turn it back and go on. Without
     * such a match the answer is true. The board ends as it started.
     */
    method CombSearch(bins: seq<seq<Word>>) returns (ok: bool)
      requires cells != ZERO && !RowEmpty(cells, 0) && !ColEmpty(cells, 0)
      modifies this
      ensures ok == !(Holds(bins, old(cells)) && Symmetric(old(cells)))
      ensures cells == old(cells)
    {
      ghost var f := cells;
      ghost var symmetric := Symmetric(f);
      var b := 0;
      while b < |bins|
        invariant 0 <= b <= |bins| && cells == f
        invariant symmetric ==> forall b', k :: 0 <= b' < b && 0 <= k < |bins[b']| ==> Val(bins[b'][k]) != Val(f)
      {
        var prevBoards := bins[b];
        var j := 0;
        while j < |prevBoards|
          invariant 0 <= j <= |prevBoards| && cells == f
          invariant symmetric ==> forall k :: 0 <= k < j ==> Val(prevBoards[k]) != Val(f)
        {
          var prevBoard := prevBoards[j];
          if Val(prevBoard) == Val(cells) {
            ValInjective(prevBoard, cells);
            HalfTurn();
            if Val(prevBoard) == Val(cells) {
              ValInjective(prevBoard, cells);
              assert bins[b][j] == f;
              ok := false;
              return;
            }
            assert !symmetric;
            HalfTurn();
            HalfTurnBack(f);
          }
          j := j + 1;
        }
        assert prevBoards == bins[b];
        b := b + 1;
      }
      return true;
    }

    /**
     * board::compare: if the bin of the board for cell count n already
     * holds it, nothing changes; otherwise comb runs, and when it answers
     * true the board as comb leaves it is appended to that bin.
     */
    method Compare(store: Store, n: int)
      requires 2 <= n <= L * L - 1 && Shaped(store.boards) && cells != ZERO
      modifies this, store
      ensures store.boards == Compared(old(store.boards), n, old(cells))
      ensures Flipped(old(cells)) != ZERO
      ensures cells == if old(cells) in old(store.boards)[n - 2][Bin(old(cells))] then old(cells) else Flipped(Flipped(old(cells)))
    {
      ghost var x := cells;
      var bin := Bin(cells);
      var prevBoards := store.boards[n - 2][bin];
      var i := 0;
      while i < |prevBoards|
        invariant 0 <= i <= |prevBoards| && cells == x
        invariant x !in prevBoards[..i]
      {
        if Val(prevBoards[i]) == Val(cells) {
          ValInjective(prevBoards[i], cells);
          return;
        }
        assert prevBoards[..i + 1] == prevBoards[..i] + [prevBoards[i]];
        i := i + 1;
      }
      assert prevBoards[..i] == prevBoards;
      var ok := Comb(store, n);
      if ok {
        store.boards := store.boards[n - 2 := store.boards[n - 2][bin := prevBoards + [cells]]];
      }
    }
  }

  /**
   * One pass of main's inner loop on a placement combo of n cells in the
   * top 16 bits: board x(combo); x.transform(); x.compare(n). The table
   * keeps its invariant, and it holds the canonical board of the placement
   * afterwards exactly when it did before or comb accepted the board.
   */
  method Visit(store: Store, combo: Word, n: int)
    requires 2 <= n <= L * L - 1 && ValidTable(store.boards)
    requires Combos.InWindow(combo) && Pop(combo) == n
    modifies store
    ensures Placed(combo) != ZERO
    ensures store.boards == Compared(old(store.boards), n, Transformed(Placed(combo)))
    ensures ValidTable(store.boards)
    ensures var x := Transformed(Placed(combo));
      x in store.boards[n - 2][Bin(x)] <==> x in old(store.boards)[n - 2][Bin(x)] || Combs(old(store.boards)[n - 2], x)
  {
    Combos.WindowCount(combo);
    PopPlaced(combo);
    PopZero(combo);
    var x := new Board.FromCombo(combo);
    x.Transform();
    TransformedCanonical(Placed(combo));
    PopTransformed(Placed(combo));
    ComparedValid(store.boards, n, x.cells);
    ComparedStores(store.boards, n, x.cells);
    x.Compare(store, n);
  }
}
