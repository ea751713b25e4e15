# Grid: canonical placements of cells on a 4x4 grid, in Dafny

grid.cpp enumerates every placement of n marked cells on a 4x4 grid, for n
from 2 to 15. It keeps one board per class of placements that differ by
a turn of the square. A board whose mirror image is already stored is
dropped only when that mirror image looks the same after a half turn. A
board is a 64-bit word
read as an 8x8 grid: bit 8*r + c is the cell in row r and column c. The 4x4
grid is the low four bits of the low four bytes. Turning a board gathers
its columns with `_pext_u64`. Translating a board shifts it down to row 0
and column 0. `transform` picks the least of the four translated turns as
the canonical board. The static table `board::boards[n-2][bin]` holds the
canonical boards already seen, hashed into 64 bins by the six cells of
`BINMASK = 0x10307`. `compare` appends a board to its bin unless the bin
already holds it or `comb` rejects it. `comb` looks for the board's mirror
image in the table. `nextComboPossible` steps from one placement of n cells
(in the top 16 bits of a word) to the next.

The project has four modules:

- `Words` (words.dfy): 64-bit words as `seq<bool>` of length 64, least
  significant bit first, with their unsigned value `Val` and population
  count `Pop`/`Count`. It defines the operations of the C code:
  - `&`, `|`, `^` and `~`;
  - `<<` and `>>` on `uint64_t` (`Shl` and `Shr`);
  - `>>` on a negative `int64_t` (`Sar`, arithmetic shift);
  - `_pext_u64` and `_pdep_u64` (`Pext` and `Pdep`);
  - `__builtin_clzll` (`Clz`).
- `Moves` (moves.dfy): what a board's cells mean. It gives the quarter
  turn, the row reversal, the shift to the origin, the canonical transform,
  the flip and the half turn as functions, and proves how they compose.
- `Combos` (combos.dfy): `nextComboPossible` as a pure function,
  `NextCombo`, with lemmas on what one step does to the bits.
- `Grid` (grid.dfy): `comboMask` as a method with its loop. It has the
  board constructors and the bin of a board. `struct board` is a class
  whose methods (`Rotate`, `Translate`, `Flip`, `Transform`, `Comb`,
  `Compare`) update `cells` with the loops of the C code. Each method is
  proved against the Moves function for its result. The table is a class
  `Store` with a `seq` field. It comes with the invariant the table keeps
  (`ValidTable`) and one pass of main's inner loop (`Visit`).

Reducing each class over all eight symmetries of the square would need
the canonical board to be taken over the mirror images as well as the
turns. The code does less, and the model follows the code: `transform`
takes the least of only the four turns; mirror images are handled in
`comb` alone. `comb`
flips the board: it reverses the rows, then transforms. It then searches
the table of that cell count for the flipped board F. On a match it turns
F half way round, and answers false only if that gives F again. So a board
is rejected only when its mirror image is stored and looks the same after
a half turn. Otherwise it is stored even when its mirror image is already
there. `Grid.Combs` states this rule, and `Grid.Board.Comb` is proved to
compute it.

## Model

| member | source | states |
|---|---|---|
| Words.Shl | grid.cpp:15 | a << k on uint64_t for k < 64: bit i is bit i - k of a, and the low k bits are clear |
| Words.ShlVal | grid.cpp:15 | the value of a << k is the value of a times 2^k, modulo 2^64 |
| Words.LowBitsVal | grid.cpp:14 | (1 << k) - 1 has the value 2^k - 1 |
| Words.Shr | grid.cpp:28 | a >> k on uint64_t for k < 64: bit i is bit i + k of a, and the top k bits are clear |
| Words.ShrVal | grid.cpp:28 | the value of a >> k is the value of a divided by 2^k, rounded down |
| Words.Sar | grid.cpp:147 | a >> k on int64_t for k < 64: bit i is bit i + k of a, and the top k bits copy the sign bit |
| Words.SarVal | grid.cpp:147 | the value of a >> k read as int64_t is the signed value of a divided by 2^k, rounded down |
| Words.Pext | grid.cpp:92 | _pext_u64(x, m): the bits of x at the set positions of m, packed into the low bits in order |
| Words.PextBits | grid.cpp:92 | bit j of _pext_u64(x, m) is the bit of x at the j-th set position of m, counted from the lowest, and every bit from the number of set bits of m up is clear |
| Words.Pdep | grid.cpp:29 | _pdep_u64(s, m): the low bits of s written in order to the set positions of m |
| Words.PdepBits | grid.cpp:29 | bit p of _pdep_u64(s, m) is clear off the mask, and at a set position p of m it is bit number (set positions of m below p) of s |
| Words.Clz | grid.cpp:143 | __builtin_clzll(a) for a nonzero: bit 63 - n of a is set and every bit above it is clear |
| Grid.ComboMask | grid.cpp:11-18 | the loop ORs four 4-bit rows into bytes 0 to 3, and the mask it returns is the grid area: bit p set iff p % 8 < 4 and p / 8 < 4 |
| Grid.ComboAreaCells | grid.cpp:11-18 | the cells of the mask are exactly the cells (i, j) with i < 4 and j < 4 |
| Grid.Placed | grid.cpp:26-30 | the cells of board(combo): combo >> 48 deposited by _pdep_u64 into comboMask(); PlacedCells and PopPlaced state what they are |
| Grid.Board.FromCombo | grid.cpp:26-30 | board(combo) has the cells Placed(combo): combo shifted right by 48 and deposited into comboMask() |
| Grid.PlacedCells | grid.cpp:26-30 | cell (i, j) of board(combo) is bit 48 + 4i + j of combo for i, j < 4; every cell outside the grid is empty |
| Grid.PopPlaced | grid.cpp:26-30 | board(combo) has as many cells as combo's top 16 bits have set bits, and it is empty iff those bits are all clear |
| Grid.Board.constructor | grid.cpp:24 | board() has no cells |
| Grid.Board.FromCells | grid.cpp:32-36 | board::fromCells(c) has exactly the cells c |
| Grid.BinMaskCount | grid.cpp:9 | BINMASK 0x10307 has six set bits |
| Grid.Bin | grid.cpp:39 | _pext_u64(cells, BINMASK) is below BINS = 64, so it is always a valid bin index |
| Grid.Store.constructor | grid.cpp:21 | the table starts with 14 rows of 64 empty bins, and that empty table satisfies the table invariant |
| Grid.EmptyTable | grid.cpp:139 | the zero-initialised table satisfies the table invariant: shaped 14 x 64, every board canonical with the right cell count and in its own bin, no bin holding a board twice |
| Grid.Board.Rotate | grid.cpp:87-97 | after the eight pext passes the board is the quarter turn of the old board |
| Moves.RotatePass | grid.cpp:91-93 | pass i gathers column 7 - i and places it as row i of the turned board, setting no other bits |
| Moves.RotatedCell | grid.cpp:87-97 | the cell in row r, column c of the turned board is the old cell in row c, column 7 - r, so bit 8r + c moves to 8(7 - c) + r |
| Moves.RotatedFour | grid.cpp:87-97 | four quarter turns give the board back |
| Moves.PopRotated | grid.cpp:87-97 | a quarter turn keeps the number of cells |
| Grid.Board.Translate | grid.cpp:99-107 | on a nonempty board both loops end, and the board becomes its translate: the same cells moved down to row 0 and left to column 0 |
| Moves.TranslatedIsShift | grid.cpp:99-107 | the translate is one right shift, by 8 times the first nonempty row plus the first nonempty column |
| Moves.TranslatedNormal | grid.cpp:99-107 | the translate is nonempty, has a cell in row 0 and a cell in column 0, and translating it again changes nothing |
| Moves.PopTranslated | grid.cpp:99-107 | translating keeps the number of cells |
| Moves.TranslatedCell | grid.cpp:99-107 | the translate is the board moved MinRow rows down and MinCol columns left, with no cell lost |
| Grid.Board.Flip | grid.cpp:109-121 | after the eight row passes and the final transform, the board is the transform of its row reversal |
| Moves.FlipPass | grid.cpp:113-115 | pass i gathers row 7 - i and places it as row i, setting no other bits |
| Moves.RowsReversedCell | grid.cpp:109-118 | the cell in row r, column c of the reversed board is the old cell in row 7 - r, so bit 8r + c moves to 8(7 - r) + c |
| Moves.RowsReversedTwice | grid.cpp:109-118 | reversing the rows twice gives the board back |
| Moves.PopRowsReversed | grid.cpp:109-118 | reversing the rows keeps the number of cells |
| Moves.FlippedNormal | grid.cpp:109-121 | a flipped board is nonempty, already translated, and has as many cells as the board |
| Moves.FlippedTwice | grid.cpp:109-121 | flipping twice gives the transform of the board, so on a canonical board flip is an involution |
| Grid.Board.Transform | grid.cpp:123-136 | after translate and the three turn-and-translate passes, the board is the transform: the least translated turn, compared as unsigned numbers |
| Moves.TransformedLeast | grid.cpp:123-136 | the transform is one of the four translated turns of the board, and as unsigned numbers it is at most each of them |
| Moves.TransformedRotated | grid.cpp:123-136 | turning the board first does not change its transform |
| Moves.TransformedTurned | grid.cpp:123-136 | one, two or three quarter turns before transform leave the transform unchanged |
| Moves.TransformedTwice | grid.cpp:123-136 | the transform is nonempty, and transforming it again changes nothing |
| Moves.TransformedNormal | grid.cpp:123-136 | the transform is nonempty, its own translate, and has a cell in row 0 and a cell in column 0 |
| Moves.PopTransformed | grid.cpp:123-136 | transform keeps the number of cells |
| Moves.TransformedMirrorTurned | grid.cpp:109-136 | a board and its turns have the same flip, because its mirror images are turns of one another |
| Grid.CanonicalFixed | grid.cpp:123-136 | a canonical board is nonempty and its own transform, and flipping it twice gives it back |
| Grid.TransformedCanonical | grid.cpp:180 | what x.transform() leaves in cells satisfies Canonical, the condition the table keeps on its boards; this holds by the definition of Canonical and only links Visit to the table invariant |
| Grid.Board.HalfTurn | grid.cpp:58-60 | rotate(); rotate(); translate() makes the board the translate of its half turn |
| Moves.HalfTurnBack | grid.cpp:58-68 | on a translated board, a second half turn gives the board back, so the board comb carries on with is unchanged |
| Moves.HalfTurnedTwice | grid.cpp:58-68 | two half turns give the translate of the board |
| Grid.Board.CombSearch | grid.cpp:55-70 | the search answers false iff some bin holds the board f and f is Symmetric: its half turn, compared as a number, is f again; the board is unchanged afterwards |
| Grid.SymmetricMeans | grid.cpp:61 | comparing the half-turned board with the stored one as numbers decides equality of boards: f is Symmetric iff its half turn is f itself |
| Grid.Combs | grid.cpp:53-73 | the answer of comb: false iff the flip F of the board is stored under the cell count and F's half turn is F (its partner lemmas are CombsTurned and Board.Comb) |
| Grid.CombsTurned | grid.cpp:53-73 | comb's answer does not change when the board is turned first: it depends only on the board's rotation class |
| Grid.Board.Comb | grid.cpp:53-73 | comb, which flips back before either return, answers Combs: false iff the flip F of the board is stored under the cell count and F's half turn is F; comb never changes the table and leaves the flip of F in cells, which on a canonical board is the board it started with |
| Grid.Board.Compare | grid.cpp:38-51 | the table becomes Compared(table, n, board), with 2 <= n <= 15; the board is unchanged when its bin already held it, and ends as comb leaves it otherwise |
| Grid.Compared | grid.cpp:38-51 | compare touches only bin Bin(x) of row n - 2: every other bin is unchanged, and that bin stays the same or gets the board left by comb appended |
| Grid.Put | grid.cpp:47 | push_back touches one bin: that bin gains the board at its end, and every other bin and the shape of the table are unchanged |
| Grid.ComparedCanonical | grid.cpp:38-51 | on a canonical board, what compare appends, if anything, is the board itself |
| Grid.ComparedValid | grid.cpp:38-51 | compare on a canonical board of n cells keeps the table invariant: it never appends a board its bin holds, nor one in the wrong row or bin |
| Grid.PutValid | grid.cpp:47 | appending a board that belongs in a bin and is missing from it keeps every board in its place and keeps each bin free of repeats |
| Grid.ComparedStores | grid.cpp:38-51 | after compare on a canonical board x, x's bin holds x iff it held x before or comb accepted x |
| Grid.Visit | grid.cpp:179-181 | one pass of main's loop for a placement of n cells in the top 16 bits keeps the table invariant and leaves the table as compare on the transform of board(combo) |
| Combos.NextCombo | grid.cpp:141-166 | nextComboPossible: both branches on clz(~combo), with the early 0 when no bit is left below the leading ones; the lemmas below state what a step does |
| Combos.High | grid.cpp:162 | 63 - clz(combo) is the highest set bit of a nonzero word |
| Combos.LeadingOnes | grid.cpp:143 | clz(~combo) is the number of leading ones: bit 63 - lo is clear and every higher bit is set |
| Combos.SarTop | grid.cpp:147 | (int64_t)0x8000000000000000 >> k has exactly the top k + 1 bits set |
| Combos.Advance | grid.cpp:147-149 | combo & ~leading_ones_mask keeps the bits of combo below the leading ones and clears the leading ones |
| Combos.Packed | grid.cpp:157-159 | advance_mask >> (advance_leading_zeros - leading_ones - 1) sets leading_ones + 2 bits, starting at bit 63 - advance_leading_zeros |
| Combos.ResetXor | grid.cpp:143-159 | where there is a set bit below the leading ones, advance_leading_zeros exceeds leading_ones, so the shift count is in range, and the step is cell_advance XOR that mask |
| Combos.AdvanceBits | grid.cpp:160-164 | with bit 63 clear, the step clears the highest set bit h, sets bit h + 1 and changes nothing else |
| Combos.ResetBits | grid.cpp:145-159 | with bit 63 set and a set bit h below the leading ones, the step keeps the bits below h, clears h, and sets bits h + 1 to h + lo + 1 with nothing above |
| Combos.LastBits | grid.cpp:150-153 | with bit 63 set, the step answers 0 iff no set bit lies below the leading ones |
| Combos.NextComboZero | grid.cpp:141-166 | the step answers 0 iff the set bits form one block that ends at bit 63 |
| Combos.NextComboPop | grid.cpp:141-166 | unless the step answers 0, it keeps the number of set bits |
| Combos.NextComboAbove | grid.cpp:141-166 | the step never sets a bit below the lowest set bit: bits 0 to k - 1 stay clear |
| Combos.NextComboUp | grid.cpp:160-164 | with bit 63 clear, the highest set bit moves up by one, the value grows by 2^h, and so the result is greater |
| Combos.FirstCombo | grid.cpp:176-177 | main's first placement, built as ((1 << i) - 1) << 48 from LowBits and Shl, has bits 48 to 48 + i - 1 set and nothing else |
| Combos.FirstComboPop | grid.cpp:176-177 | main's first placement has i set bits |
| Combos.WindowCount | grid.cpp:28 | for a placement within the top 16 bits, those bits hold all of its set bits |
| Combos.NextInWindow | grid.cpp:178-182 | main's loop invariant: a nonzero placement in the top 16 bits is a valid argument of the step, and a nonzero step stays in the top 16 bits with the same number of cells |

## Left out

- Printing: `board::print`, `std::cout`, the per-n counts and their sum in `main` are not modelled, because they are output only.
- main's driver loop: only one pass of its body (`Grid.Visit`) and the facts its loop keeps (`Combos.FirstCombo`, `Combos.NextInWindow`) are modelled, because the loop itself only sequences these. Its termination is out of scope: the model proves what each step does, not that the steps reach 0.
- The counts: nothing here claims that the number of boards main stores equals the number of symmetry classes, because the code's `transform` and `comb` do not reduce over all eight symmetries.
- `Grid.Board.Translate` and the functions behind it require a nonempty board, because the first C loop never ends on an empty board.
- `Combos.NextCombo` requires a word that is neither zero nor all ones, because `__builtin_clzll(0)` is undefined.
- `Words.Sar` and `Combos.SarTop` take `(int64_t)0x8000000000000000` to be the most negative `int64_t` and `>>` on a negative `int64_t` to be an arithmetic shift. Before C++20 both are implementation-defined; GCC and Clang, the compilers that provide `x86intrin.h`, behave this way.
- `_pext_u64`, `_pdep_u64` and `__builtin_clzll` are modelled by what they compute, because CPU specifics (BMI2 and its timing) do not change results.
- `Grid.Board.CombSearch` and `Grid.Board.HalfTurn` are not functions of the C code, because they are the body of `comb` split into parts; the program calls them only from `Comb`.
- The table is a field of a `Store` object passed to the methods that use it, because Dafny has no static class fields. The bins are values of type `seq`, so `compare` is modelled as reassigning the field rather than pushing onto a `std::vector` reference.
- `comb` copies each bin as a value in its range-for loop; the model reads the bins as values, and since the loop does not change the table nothing is lost.
