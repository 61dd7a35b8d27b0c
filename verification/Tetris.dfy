/** The board of filesystem/Games/tetris/tetris.c: clearing full lines, and placing a piece. */
module Tetris {

  const WIDTH: nat := 10
  const HEIGHT: nat := 20

  /** A row holds a number per column, 0 for an empty cell; a board lists its rows from the top. */
  type Row = seq<int>

  predicate Board(rows: seq<Row>) { |rows| == HEIGHT && forall y :: 0 <= y < HEIGHT ==> |rows[y]| == WIDTH }

  predicate Full(row: Row) { forall x :: 0 <= x < |row| ==> row[x] != 0 }

  const EMPTY: Row := [0, 0, 0, 0, 0, 0, 0, 0, 0, 0]

  function Blank(n: nat): (r: seq<Row>)
    ensures |r| == n && forall y :: 0 <= y < n ==> r[y] == EMPTY
  {
    seq(n, _ => EMPTY)
  }

  /** The rows that are not full, in order. */
  function Kept(rows: seq<Row>): (r: seq<Row>)
    ensures |r| <= |rows|
  {
    if rows == [] then [] else (if Full(rows[0]) then [] else [rows[0]]) + Kept(rows[1..])
  }

  /** What clearing means: the rows that are not full at the bottom, empty ones above. */
  function Cleared(rows: seq<Row>): seq<Row> { Blank(|rows| - |Kept(rows)|) + Kept(rows) }

  lemma {:induction false} KeptSplit(a: seq<Row>, b: seq<Row>)
    ensures Kept(a + b) == Kept(a) + Kept(b)
  {
    hide Full;
    if a == [] {
      assert a + b == b;
    } else {
      assert (a + b)[1..] == a[1..] + b;
      KeptSplit(a[1..], b);
    }
  }

  lemma {:induction false} NoneFull(rows: seq<Row>)
    requires forall y :: 0 <= y < |rows| ==> !Full(rows[y])
    ensures Kept(rows) == rows
  {
    if rows != [] { NoneFull(rows[1..]); }
  }

  /** The rows above a full row `y`, moved down by one. */
  function Dropped(rows: seq<Row>, y: nat): seq<Row>
    requires y < |rows|
  {
    [EMPTY] + rows[..y] + rows[y + 1..]
  }

  lemma EmptyIsNotFull()
    ensures !Full(EMPTY) && |EMPTY| == WIDTH
  {
    assert EMPTY[0] == 0;
  }

  lemma KeptDropped(rows: seq<Row>, y: nat)
    requires y < |rows| && Full(rows[y])
    ensures Kept(Dropped(rows, y)) == [EMPTY] + Kept(rows)
    ensures |Kept(Dropped(rows, y)[..y + 1])| == |Kept(rows[..y + 1])| + 1
  {
    hide Kept, Full;
    var above, below := rows[..y], rows[y + 1..];
    EmptyIsNotFull();
    assert rows == above + ([rows[y]] + below) && rows[..y + 1] == above + [rows[y]];
    KeptSplit(above, [rows[y]] + below);
    KeptSplit([rows[y]], below);
    KeptSplit(above, [rows[y]]);
    KeptSplit([EMPTY] + above, below);
    KeptSplit([EMPTY], above);
    assert Dropped(rows, y)[..y + 1] == [EMPTY] + above;
    OneKept(rows[y]);
    OneKept(EMPTY);
  }

  lemma {:induction false} KeptRows(rows: seq<Row>)
    requires forall y :: 0 <= y < |rows| ==> |rows[y]| == WIDTH
    ensures forall y :: 0 <= y < |Kept(rows)| ==> |Kept(rows)[y]| == WIDTH && !Full(Kept(rows)[y])
  {
    hide Full;
    if rows != [] { KeptRows(rows[1..]); }
  }

  lemma OneKept(row: Row)
    ensures Kept([row]) == if Full(row) then [] else [row]
  {
    assert [row][1..] == [];
  }

  lemma OneMoreBlank(n: nat, kept: seq<Row>)
    ensures Blank(n + 1) + kept == [EMPTY] + (Blank(n) + kept)
  {
  }

  lemma NotFullNext(rows: seq<Row>, y: nat)
    requires y < |rows| && !Full(rows[y])
    ensures FullRows(rows[..y + 1]) == FullRows(rows[..y])
  {
    hide Kept, Full;
    assert rows[..y + 1] == rows[..y] + [rows[y]];
    KeptSplit(rows[..y], [rows[y]]);
    OneKept(rows[y]);
  }

  /** How many rows of a board are full. */
  function FullRows(rows: seq<Row>): nat { |rows| - |Kept(rows)| }

  // ---- Cells

  function RowCells(row: Row): (n: nat)
    ensures n <= |row| && (n == |row| <==> Full(row))
  {
    if row == [] then 0 else (if row[0] != 0 then 1 else 0) + RowCells(row[1..])
  }

  function Cells(rows: seq<Row>): nat {
    if rows == [] then 0 else RowCells(rows[0]) + Cells(rows[1..])
  }

  lemma {:induction false} CellsSplit(a: seq<Row>, b: seq<Row>)
    ensures Cells(a + b) == Cells(a) + Cells(b)
  {
    if a == [] {
      assert a + b == b;
    } else {
      assert (a + b)[1..] == a[1..] + b;
      CellsSplit(a[1..], b);
    }
  }

  lemma {:induction false} KeptCells(rows: seq<Row>)
    requires forall y :: 0 <= y < |rows| ==> |rows[y]| == WIDTH
    ensures Cells(Kept(rows)) == Cells(rows) - WIDTH * FullRows(rows)
  {
    if rows != [] {
      KeptCells(rows[1..]);
      CellsSplit(Kept([rows[0]]), Kept(rows[1..]));
      OneKept(rows[0]);
      assert Cells([rows[0]]) == RowCells(rows[0]) by { assert [rows[0]][1..] == []; }
    }
  }

  lemma {:induction false} BlankCells(n: nat)
    ensures Cells(Blank(n)) == 0
  {
    if n > 0 {
      BlankCells(n - 1);
      assert Blank(n)[1..] == Blank(n - 1);
      EmptyHasNoCell();
    }
  }

  lemma EmptyHasNoCell()
    ensures RowCells(EMPTY) == 0
  {
    assert EMPTY[0] == EMPTY[1] == EMPTY[2] == EMPTY[3] == EMPTY[4] == 0;
    assert EMPTY[5] == EMPTY[6] == EMPTY[7] == EMPTY[8] == EMPTY[9] == 0;
    forall x | 0 <= x < |EMPTY| ensures EMPTY[x] == 0 {}
    RowOfZeros(EMPTY);
  }

  lemma {:induction false} RowOfZeros(row: Row)
    requires forall x :: 0 <= x < |row| ==> row[x] == 0
    ensures RowCells(row) == 0
  {
    if row != [] { RowOfZeros(row[1..]); }
  }

  /** Clearing leaves no full line, keeps the other lines in order at the bottom, takes exactly ten
      cells per full line, and has nothing left to do a second time. */
  lemma ClearingRemovesLines(rows: seq<Row>)
    requires Board(rows)
    ensures var r, n := Cleared(rows), FullRows(rows);
            && Board(r) && FullRows(r) == 0 && r[n..] == Kept(rows) && r[..n] == Blank(n)
            && Cells(r) == Cells(rows) - WIDTH * n
            && Cleared(r) == r
  {
    hide Kept, Full, Cells;
    var r, n := Cleared(rows), FullRows(rows);
    EmptyIsNotFull();
    KeptRows(rows);
    NoneFull(r);
    CellsSplit(Blank(n), Kept(rows));
    BlankCells(n);
    KeptCells(rows);
    assert Blank(0) + r == r;
  }

  // ---- Pieces

  const TETROMINOES: seq<seq<int>> := [
    [0, 0, 0, 0, 1, 1, 1, 1, 0, 0, 0, 0, 0, 0, 0, 0],
    [0, 0, 0, 0, 0, 1, 1, 0, 0, 1, 1, 0, 0, 0, 0, 0],
    [0, 0, 0, 0, 0, 0, 1, 1, 0, 1, 1, 0, 0, 0, 0, 0],
    [0, 0, 0, 0, 1, 1, 0, 0, 0, 1, 1, 0, 0, 0, 0, 0],
    [0, 0, 0, 0, 0, 1, 0, 0, 1, 1, 1, 0, 0, 0, 0, 0],
    [0, 0, 0, 0, 1, 0, 0, 0, 1, 1, 1, 0, 0, 0, 0, 0],
    [0, 0, 0, 0, 0, 0, 0, 1, 0, 1, 1, 1, 0, 0, 0, 0]]

  /** The place in the unrotated piece that shows at (x, y). */
  function Rotate(x: nat, y: nat, rotation: nat): (i: nat)
    requires x < 4 && y < 4
    ensures i < 16
  {
    match rotation % 4
    case 0 => x + y * 4
    case 1 => 12 + y - x * 4
    case 2 => 15 - y * 4 - x
    case _ => 3 - y + x * 4
  }

  /** A piece: its kind, its rotation, and where its 4 by 4 square lies. */
  datatype Piece = Piece(kind: nat, rotation: nat, x: int, y: int) {
    predicate Known() { kind < 7 }

    predicate Covers(i: nat, j: nat)
      requires Known() && i < 4 && j < 4
    {
      TETROMINOES[kind][Rotate(i, j, rotation)] == 1
    }

    /** The piece has a cell in column `i` and row `j` of the board. */
    predicate At(i: int, j: int)
      requires Known()
    {
      0 <= i - x < 4 && 0 <= j - y < 4 && Covers(i - x, j - y)
    }
  }

  predicate CellFits(rows: seq<Row>, i: int, j: int)
    requires Board(rows)
  {
    0 <= i < WIDTH && j < HEIGHT && (j >= 0 ==> rows[j][i] == 0)
  }

  /** Every cell of the piece is between the walls, above the floor and on no other cell. */
  ghost predicate ValidPos(rows: seq<Row>, p: Piece)
    requires Board(rows) && p.Known()
  {
    forall i, j :: p.At(i, j) ==> CellFits(rows, i, j)
  }

  /** All of the piece is below the upper edge. */
  ghost predicate Visible(p: Piece)
    requires p.Known()
  {
    forall i, j :: p.At(i, j) ==> j >= 0
  }

  /** The board with the cell of the piece in place (i, j) of its square added, if both exist. */
  function CellAdded(rows: seq<Row>, p: Piece, i: nat, j: nat): (r: seq<Row>)
    requires Board(rows) && p.Known() && i < 4 && j < 4
    ensures Board(r)
  {
    if p.Covers(i, j) && 0 <= p.x + i < WIDTH && 0 <= p.y + j < HEIGHT
    then rows[p.y + j := rows[p.y + j][p.x + i := 1]]
    else rows
  }

  /** The board with the first `k` cells of the piece's square added, row by row. */
  function PlacedUpTo(rows: seq<Row>, p: Piece, k: nat): (r: seq<Row>)
    requires Board(rows) && p.Known() && k <= 16
    ensures Board(r)
  {
    if k == 0 then rows
    else CellAdded(PlacedUpTo(rows, p, k - 1), p, (k - 1) % 4, (k - 1) / 4)
  }

  /** Placing fills exactly the cells of the piece. */
  lemma {:induction false} PlacedCells(rows: seq<Row>, p: Piece, k: nat)
    requires Board(rows) && p.Known() && k <= 16
    ensures forall i, j :: 0 <= i < WIDTH && 0 <= j < HEIGHT ==>
              PlacedUpTo(rows, p, k)[j][i] ==
                if p.At(i, j) && (j - p.y) * 4 + (i - p.x) < k then 1 else rows[j][i]
  {
    hide TETROMINOES, Rotate;
    if k > 0 { PlacedCells(rows, p, k - 1); }
  }

  function Bits(p: Piece, k: nat): nat
    requires p.Known() && k <= 16
  {
    if k == 0 then 0 else Bits(p, k - 1) + (if p.Covers((k - 1) % 4, (k - 1) / 4) then 1 else 0)
  }

  lemma {:induction false} FillCell(row: Row, i: nat)
    requires i < |row| && row[i] == 0
    ensures RowCells(row[i := 1]) == RowCells(row) + 1
  {
    if i > 0 {
      FillCell(row[1..], i - 1);
      assert row[i := 1][1..] == row[1..][i - 1 := 1];
    } else {
      assert row[0 := 1][1..] == row[1..];
    }
  }

  lemma {:induction false} ChangeRow(rows: seq<Row>, j: nat, row: Row)
    requires j < |rows|
    ensures Cells(rows[j := row]) == Cells(rows) - RowCells(rows[j]) + RowCells(row)
  {
    if j > 0 {
      ChangeRow(rows[1..], j - 1, row);
      assert rows[j := row][1..] == rows[1..][j - 1 := row];
    } else {
      assert rows[0 := row][1..] == rows[1..];
    }
  }

  /** Cell `m` of the piece's square lands on an empty cell of the board, if the piece has one there. */
  predicate Lands(rows: seq<Row>, p: Piece, m: nat)
    requires Board(rows) && p.Known() && m < 16
  {
    p.Covers(m % 4, m / 4) ==>
      var x, y := p.x + m % 4, p.y + m / 4;
      0 <= x < WIDTH && 0 <= y < HEIGHT && rows[y][x] == 0
  }

  predicate AllLand(rows: seq<Row>, p: Piece, k: nat)
    requires Board(rows) && p.Known() && k <= 16
  {
    forall m: nat :: m < k ==> Lands(rows, p, m)
  }

  lemma {:induction false} RefillCell(row: Row, i: nat)
    requires i < |row| && row[i] != 0
    ensures RowCells(row[i := 1]) == RowCells(row)
  {
    if i > 0 {
      RefillCell(row[1..], i - 1);
      assert row[i := 1][1..] == row[1..][i - 1 := 1];
    } else {
      assert row[0 := 1][1..] == row[1..];
    }
  }

  /** What one cell of the square adds: one if the piece has it and it lands, else nothing. */
  lemma CellAdds(rows: seq<Row>, p: Piece, k: nat)
    requires Board(rows) && p.Known() && k < 16
    ensures Cells(PlacedUpTo(rows, p, k + 1)) == Cells(PlacedUpTo(rows, p, k)) +
              (if p.Covers(k % 4, k / 4) && Lands(rows, p, k) then 1 else 0)
  {
    hide TETROMINOES, Rotate, Cells, RowCells, Piece.Covers;
    PlacedCells(rows, p, k);
    var r, x, y := PlacedUpTo(rows, p, k), p.x + k % 4, p.y + k / 4;
    if p.Covers(k % 4, k / 4) && 0 <= x < WIDTH && 0 <= y < HEIGHT {
      assert r[y][x] == rows[y][x];
      ChangeRow(r, y, r[y][x := 1]);
      if r[y][x] == 0 { FillCell(r[y], x); } else { RefillCell(r[y], x); }
    }
  }

  /** Placing adds at most the cells of the piece, and all of them exactly when all land. */
  lemma {:induction false} PlacingAdds(rows: seq<Row>, p: Piece, k: nat)
    requires Board(rows) && p.Known() && k <= 16
    ensures Cells(PlacedUpTo(rows, p, k)) <= Cells(rows) + Bits(p, k)
    ensures Cells(PlacedUpTo(rows, p, k)) == Cells(rows) + Bits(p, k) <==> AllLand(rows, p, k)
  {
    hide TETROMINOES, Rotate, Cells, RowCells, Piece.Covers, PlacedUpTo;
    if k == 0 {
      assert PlacedUpTo(rows, p, 0) == rows by { NothingPlaced(rows, p); }
    } else {
      PlacingAdds(rows, p, k - 1);
      CellAdds(rows, p, k - 1);
      assert AllLand(rows, p, k) <==> AllLand(rows, p, k - 1) && Lands(rows, p, k - 1);
    }
  }

  lemma NothingPlaced(rows: seq<Row>, p: Piece)
    requires Board(rows) && p.Known()
    ensures PlacedUpTo(rows, p, 0) == rows
  {
  }

  /** All cells land exactly when the piece is in a valid position below the upper edge. */
  lemma LandsWhereValid(rows: seq<Row>, p: Piece)
    requires Board(rows) && p.Known()
    ensures AllLand(rows, p, 16) <==> ValidPos(rows, p) && Visible(p)
  {
    hide TETROMINOES, Rotate, Piece.Covers;
    if AllLand(rows, p, 16) {
      forall i, j | p.At(i, j) ensures CellFits(rows, i, j) && j >= 0 {
        var m := (j - p.y) * 4 + (i - p.x);
        assert m % 4 == i - p.x && m / 4 == j - p.y && Lands(rows, p, m);
      }
    }
    if ValidPos(rows, p) && Visible(p) {
      forall m: nat | m < 16 ensures Lands(rows, p, m) {
        if p.Covers(m % 4, m / 4) {
          assert p.At(p.x + m % 4, p.y + m / 4) && CellFits(rows, p.x + m % 4, p.y + m / 4);
        }
      }
    }
  }

  function Bit(kind: nat, i: nat): nat
    requires kind < 7 && i < 16
  {
    if TETROMINOES[kind][i] == 1 then 1 else 0
  }

  lemma OneBit(p: Piece, k: nat, i: nat, j: nat)
    requires p.Known() && k < 16 && i == k % 4 && j == k / 4
    ensures Bits(p, k + 1) == Bits(p, k) + Bit(p.kind, Rotate(i, j, p.rotation))
  {
    hide TETROMINOES, Rotate;
  }

  function RowBits(p: Piece, j: nat): nat
    requires p.Known() && j < 4
  {
    Bit(p.kind, Rotate(0, j, p.rotation)) + Bit(p.kind, Rotate(1, j, p.rotation))
    + Bit(p.kind, Rotate(2, j, p.rotation)) + Bit(p.kind, Rotate(3, j, p.rotation))
  }

  lemma FourMore(p: Piece, k: nat, j: nat)
    requires p.Known() && j < 4 && k == j * 4
    ensures Bits(p, k + 4) == Bits(p, k) + RowBits(p, j)
  {
    hide Bit, Bits, Rotate;
    OneBit(p, k, 0, j);
    OneBit(p, k + 1, 1, j);
    OneBit(p, k + 2, 2, j);
    OneBit(p, k + 3, 3, j);
  }

  /** Every piece has four cells, however it is rotated. */
  lemma FourBits(p: Piece)
    requires p.Known()
    ensures Bits(p, 16) == 4
  {
    hide RowBits, TETROMINOES;
    FourMore(p, 0, 0);
    FourMore(p, 4, 1);
    FourMore(p, 8, 2);
    FourMore(p, 12, 3);
    RotationKeepsBits(p);
  }

  lemma RotationKeepsBits(p: Piece)
    requires p.Known()
    ensures RowBits(p, 0) + RowBits(p, 1) + RowBits(p, 2) + RowBits(p, 3) == 4
  {
    hide TETROMINOES, Bit;
    var k := p.kind;
    assert Bit(k, 0) + Bit(k, 1) + Bit(k, 2) + Bit(k, 3) + Bit(k, 4) + Bit(k, 5) + Bit(k, 6) + Bit(k, 7)
      + Bit(k, 8) + Bit(k, 9) + Bit(k, 10) + Bit(k, 11) + Bit(k, 12) + Bit(k, 13) + Bit(k, 14) + Bit(k, 15) == 4 by {
      KindBits(k);
    }
  }

  lemma KindBits(k: nat)
    requires k < 7
    ensures Bit(k, 0) + Bit(k, 1) + Bit(k, 2) + Bit(k, 3) + Bit(k, 4) + Bit(k, 5) + Bit(k, 6) + Bit(k, 7)
      + Bit(k, 8) + Bit(k, 9) + Bit(k, 10) + Bit(k, 11) + Bit(k, 12) + Bit(k, 13) + Bit(k, 14) + Bit(k, 15) == 4
  {
  }

  function Placed(rows: seq<Row>, p: Piece): (r: seq<Row>)
    requires Board(rows) && p.Known()
    ensures Board(r)
  {
    PlacedUpTo(rows, p, 16)
  }

  /** The boards after each piece comes to rest and full lines are cleared. */
  function Play(rows: seq<Row>, pieces: seq<Piece>): (r: seq<Row>)
    requires Board(rows) && forall p :: p in pieces ==> p.Known()
    ensures Board(r)
    decreases |pieces|
  {
    if pieces == [] then rows
    else
      ClearingRemovesLines(Placed(rows, pieces[0]));
      Play(Cleared(Placed(rows, pieces[0])), pieces[1..])
  }

  /** Every piece comes to rest in a valid position below the upper edge. */
  ghost predicate Legal(rows: seq<Row>, pieces: seq<Piece>)
    requires Board(rows) && forall p :: p in pieces ==> p.Known()
    decreases |pieces|
  {
    pieces != [] ==>
      (&& ValidPos(rows, pieces[0]) && Visible(pieces[0])
       && (ClearingRemovesLines(Placed(rows, pieces[0])); Legal(Cleared(Placed(rows, pieces[0])), pieces[1..])))
  }

  function LinesCleared(rows: seq<Row>, pieces: seq<Piece>): nat
    requires Board(rows) && forall p :: p in pieces ==> p.Known()
    decreases |pieces|
  {
    if pieces == [] then 0
    else
      ClearingRemovesLines(Placed(rows, pieces[0]));
      FullRows(Placed(rows, pieces[0])) + LinesCleared(Cleared(Placed(rows, pieces[0])), pieces[1..])
  }

  /** Over any game, the cells on the board are at most four per piece less ten per cleared line, and
      exactly that many if and only if every piece came to rest where it fits. */
  lemma {:induction false} CellsAreConserved(rows: seq<Row>, pieces: seq<Piece>)
    requires Board(rows) && forall p :: p in pieces ==> p.Known()
    ensures Cells(Play(rows, pieces)) <= Cells(rows) + 4 * |pieces| - WIDTH * LinesCleared(rows, pieces)
    ensures Cells(Play(rows, pieces)) == Cells(rows) + 4 * |pieces| - WIDTH * LinesCleared(rows, pieces)
       <==> Legal(rows, pieces)
    decreases |pieces|
  {
    hide Placed, Cleared, Cells, FullRows, ValidPos, Visible;
    if pieces != [] {
      var p := pieces[0];
      LockingAdds(rows, p);
      ClearingRemovesLines(Placed(rows, p));
      CellsAreConserved(Cleared(Placed(rows, p)), pieces[1..]);
    }
  }

  /** A piece adds at most four cells, and four exactly when it fits. */
  lemma LockingAdds(rows: seq<Row>, p: Piece)
    requires Board(rows) && p.Known()
    ensures Cells(Placed(rows, p)) <= Cells(rows) + 4
    ensures Cells(Placed(rows, p)) == Cells(rows) + 4 <==> ValidPos(rows, p) && Visible(p)
  {
    hide Cells, ValidPos, Visible, PlacedUpTo, TETROMINOES, AllLand;
    PlacingAdds(rows, p, 16);
    FourBits(p);
    LandsWhereValid(rows, p);
  }

  // ---- Moves

  datatype Input = TurnIt | Down | Left | Right | Neutral

  function Turned(p: Piece): Piece { p.(rotation := (p.rotation + 1) % 4) }

  /** `tetris_move`: the square tried for a move to the right is the one below. */
  ghost function Moved(rows: seq<Row>, p: Piece, input: Input): (r: Piece)
    requires Board(rows) && p.Known()
    ensures r.Known() && r.kind == p.kind
  {
    match input
    case TurnIt => if ValidPos(rows, Turned(p)) then Turned(p) else p
    case Down => if ValidPos(rows, p.(y := p.y + 1)) then p.(y := p.y + 1) else p
    case Left => if ValidPos(rows, p.(x := p.x - 1)) then p.(x := p.x - 1) else p
    case Right => if ValidPos(rows, p.(y := p.y + 1)) then p.(x := p.x + 1) else p
    case Neutral => p
  }

  /** Not a move to the right of a piece that could move down but does not fit on the right. */
  ghost predicate Guarded(rows: seq<Row>, p: Piece, input: Input)
    requires Board(rows) && p.Known()
  {
    input == Right && ValidPos(rows, p.(y := p.y + 1)) ==> ValidPos(rows, p.(x := p.x + 1))
  }

  lemma MoveStaysValid(rows: seq<Row>, p: Piece, input: Input)
    requires Board(rows) && p.Known() && ValidPos(rows, p)
    ensures ValidPos(rows, Moved(rows, p, input)) <==> Guarded(rows, p, input)
  {
    hide ValidPos;
  }

  /** The piece fits after each of the moves. */
  ghost predicate StaysValid(rows: seq<Row>, p: Piece, inputs: seq<Input>)
    requires Board(rows) && p.Known()
    decreases |inputs|
  {
    inputs != [] ==>
      var r := Moved(rows, p, inputs[0]);
      ValidPos(rows, r) && StaysValid(rows, r, inputs[1..])
  }

  ghost predicate AllGuarded(rows: seq<Row>, p: Piece, inputs: seq<Input>)
    requires Board(rows) && p.Known()
    decreases |inputs|
  {
    inputs != [] ==> Guarded(rows, p, inputs[0]) && AllGuarded(rows, Moved(rows, p, inputs[0]), inputs[1..])
  }

  /** Over any fall, a piece that fits at its start goes on to fit exactly when each of its moves is
      guarded. */
  lemma {:induction false} FallStaysValid(rows: seq<Row>, p: Piece, inputs: seq<Input>)
    requires Board(rows) && p.Known() && ValidPos(rows, p)
    ensures StaysValid(rows, p, inputs) <==> AllGuarded(rows, p, inputs)
    decreases |inputs|
  {
    hide ValidPos, Moved, Guarded;
    if inputs != [] {
      MoveStaysValid(rows, p, inputs[0]);
      var r := Moved(rows, p, inputs[0]);
      if ValidPos(rows, r) { FallStaysValid(rows, r, inputs[1..]); }
    }
  }

  /** A turn moves the cell (a, b) of the square to (3 - b, a), and four turns give the piece back. */
  lemma TurnTurns(p: Piece, a: nat, b: nat)
    requires p.Known() && a < 4 && b < 4
    ensures Turned(p).Covers(3 - b, a) <==> p.Covers(a, b)
    ensures Turned(p).x == p.x && Turned(p).y == p.y
    ensures p.rotation < 4 ==> Turned(Turned(Turned(Turned(p)))) == p
  {
    hide TETROMINOES, Rotate;
    QuarterTurn(a, b, p.rotation);
  }

  lemma QuarterTurn(a: nat, b: nat, rotation: nat)
    requires a < 4 && b < 4
    ensures Rotate(3 - b, a, (rotation + 1) % 4) == Rotate(a, b, rotation)
  {
    match rotation % 4
    case 0 => assert (rotation + 1) % 4 == 1;
    case 1 => assert (rotation + 1) % 4 == 2;
    case 2 => assert (rotation + 1) % 4 == 3;
    case _ => assert (rotation + 1) % 4 == 0;
  }

  /** What an input does to a piece: at most one turn or one step in its direction, and none exactly when the
      square tested for it is not free; for a step to the right that is the one below. */
  lemma MoveEffects(rows: seq<Row>, p: Piece, input: Input)
    requires Board(rows) && p.Known()
    ensures var r := Moved(rows, p, input);
            && r.kind == p.kind
            && (input != TurnIt ==> r.rotation == p.rotation)
            && (input == Down && ValidPos(rows, p.(y := p.y + 1)) <==> r.y == p.y + 1)
            && (input == Left && ValidPos(rows, p.(x := p.x - 1)) <==> r.x == p.x - 1)
            && (input == Right && ValidPos(rows, p.(y := p.y + 1)) <==> r.x == p.x + 1)
            && (r.y == p.y || r.y == p.y + 1) && p.x - 1 <= r.x <= p.x + 1
            && (input == TurnIt && !ValidPos(rows, r) ==> r == p)
  {
    hide ValidPos;
  }

  /** The piece after `n` moves down. */
  ghost function Fallen(rows: seq<Row>, p: Piece, n: nat): (r: Piece)
    requires Board(rows) && p.Known()
    ensures r.Known()
    decreases n
  {
    if n == 0 then p else Fallen(rows, Moved(rows, p, Down), n - 1)
  }

  /** Moving down goes straight down through valid positions, and stops only above one that is not valid. */
  lemma {:induction false} FallIsStraight(rows: seq<Row>, p: Piece, n: nat)
    requires Board(rows) && p.Known() && ValidPos(rows, p)
    ensures var r := Fallen(rows, p, n);
            && r == p.(y := r.y) && p.y <= r.y <= p.y + n
            && (forall y :: p.y <= y <= r.y ==> ValidPos(rows, p.(y := y)))
            && (r.y < p.y + n ==> !ValidPos(rows, p.(y := r.y + 1)))
    decreases n
  {
    hide ValidPos;
    if n > 0 {
      var q := Moved(rows, p, Down);
      FallIsStraight(rows, q, n - 1);
      if q != p {
        forall y | p.y < y <= Fallen(rows, p, n).y ensures ValidPos(rows, p.(y := y)) {
          assert q.(y := y) == p.(y := y);
        }
      }
    }
  }

  /** A piece comes to rest: after as many moves down as lie between it and the floor it can go no further. */
  lemma ComesToRest(rows: seq<Row>, p: Piece, n: nat)
    requires Board(rows) && p.Known() && ValidPos(rows, p) && p.y + n >= HEIGHT
    ensures var r := Fallen(rows, p, n);
            ValidPos(rows, r) && Moved(rows, r, Down) == r
  {
    hide ValidPos, Fallen;
    FallIsStraight(rows, p, n);
    var r := Fallen(rows, p, n);
    AboveFloor(rows, r);
    assert p.(y := r.y + 1) == r.(y := r.y + 1) && p.(y := r.y) == r;
  }

  lemma AboveFloor(rows: seq<Row>, p: Piece)
    requires Board(rows) && p.Known() && ValidPos(rows, p)
    ensures p.y < HEIGHT
  {
    var i, j := SomeCell(p);
    assert p.At(p.x + i, p.y + j);
  }

  /** A piece has a cell. */
  lemma SomeCell(p: Piece) returns (i: nat, j: nat)
    requires p.Known()
    ensures i < 4 && j < 4 && p.Covers(i, j)
  {
    FourBits(p);
    i, j := CellAmong(p, 16);
  }

  lemma {:induction false} CellAmong(p: Piece, k: nat) returns (i: nat, j: nat)
    requires p.Known() && k <= 16 && Bits(p, k) > 0
    ensures i < 4 && j < 4 && p.Covers(i, j)
  {
    i, j := (k - 1) % 4, (k - 1) / 4;
    if !p.Covers(i, j) { i, j := CellAmong(p, k - 1); }
  }

  /** A board and a piece for which the move to the right goes into the wall; coming to rest there it
      leaves fewer than four cells. */
  lemma RightMoveLeavesTheBoard()
    ensures var p := Piece(1, 0, 7, 0);
            && Board(Blank(HEIGHT)) && ValidPos(Blank(HEIGHT), p)
            && !ValidPos(Blank(HEIGHT), Moved(Blank(HEIGHT), p, Right))
            && Cells(Placed(Blank(HEIGHT), Moved(Blank(HEIGHT), p, Right))) < 4
  {
    var p := Piece(1, 0, 7, 0);
    EmptyIsNotFull();
    BlankFits(p);
    BlankFits(p.(y := 1));
    assert p.(x := 8).At(10, 1);
    LockingAdds(Blank(HEIGHT), p.(x := 8));
    BlankCells(HEIGHT);
  }

  lemma BlankFits(p: Piece)
    requires p == Piece(1, 0, 7, p.y) && p.y <= 1
    ensures Board(Blank(HEIGHT)) && ValidPos(Blank(HEIGHT), p)
  {
  }

  // ---- The board in memory

  class Game {
    /** Indexed by column, then row. */
    const arena: array2<int>
    /** One byte. */
    var score: nat
    /** The falling piece. */
    var piece: Piece
    var joystickLock: bool

    ghost predicate Shape() { arena.Length0 == WIDTH && arena.Length1 == HEIGHT }

    ghost function RowAt(y: nat): (r: Row)
      requires Shape() && y < HEIGHT
      reads arena
      ensures |r| == WIDTH && forall x :: 0 <= x < WIDTH ==> r[x] == arena[x, y]
    {
      seq(WIDTH, x requires 0 <= x < WIDTH && Shape() reads arena => arena[x, y])
    }

    ghost function View(): (rows: seq<Row>)
      requires Shape()
      reads arena
      ensures Board(rows) && forall y :: 0 <= y < HEIGHT ==> rows[y] == RowAt(y)
    {
      seq(HEIGHT, y requires 0 <= y < HEIGHT && Shape() reads arena => RowAt(y))
    }

    method IsFull(y: nat) returns (full: bool)
      requires Shape() && y < HEIGHT
      ensures full == Full(View()[y])
    {
      full := true;
      var x: nat := 0;
      while x < WIDTH
        invariant x <= WIDTH && full && forall i :: 0 <= i < x ==> arena[i, y] != 0
      {
        if arena[x, y] == 0 {
          assert View()[y][x] == 0;
          return false;
        }
        x := x + 1;
      }
    }

    /** Copies every row above `y` one down and empties the top one. */
    method Drop(y: nat)
      requires Shape() && y < HEIGHT
      modifies arena
      ensures View() == Dropped(old(View()), y)
    {
      CopyRows(y);
      label Copied:
      var x: nat := 0;
      while x < WIDTH
        invariant x <= WIDTH && forall i :: 0 <= i < x ==> arena[i, 0] == 0
        invariant forall i, j :: 0 <= i < WIDTH && 0 < j < HEIGHT ==> arena[i, j] == old@Copied(arena[i, j])
      {
        arena[x, 0] := 0;
        x := x + 1;
      }
      assert View()[0] == EMPTY;
      forall j | 0 < j < HEIGHT ensures View()[j] == old(View())[if j <= y then j - 1 else j] {
        assert RowAt(j) == old@Copied(RowAt(j)) == old(RowAt(if j <= y then j - 1 else j));
      }
    }

    method CopyRows(y: nat)
      requires Shape() && y < HEIGHT
      modifies arena
      ensures forall x, j :: 0 <= x < WIDTH && 0 < j < HEIGHT ==>
                arena[x, j] == old(arena[x, if j <= y then j - 1 else j])
    {
      var yy := y;
      while yy > 0
        invariant 0 <= yy <= y
        invariant forall x, j :: 0 <= x < WIDTH && yy < j <= y ==> arena[x, j] == old(arena[x, j - 1])
        invariant forall x, j :: 0 <= x < WIDTH && (0 <= j <= yy || y < j < HEIGHT) ==> arena[x, j] == old(arena[x, j])
      {
        CopyRow(yy);
        yy := yy - 1;
      }
    }

    method CopyRow(yy: nat)
      requires Shape() && 0 < yy < HEIGHT
      modifies arena
      ensures forall x, j :: 0 <= x < WIDTH && 0 <= j < HEIGHT ==>
                arena[x, j] == old(arena[x, if j == yy then j - 1 else j])
    {
      var xx: nat := 0;
      while xx < WIDTH
        invariant xx <= WIDTH
        invariant forall x, j :: 0 <= x < WIDTH && 0 <= j < HEIGHT ==>
                    arena[x, j] == old(arena[x, if j == yy && x < xx then j - 1 else j])
      {
        arena[xx, yy] := arena[xx, yy - 1];
        xx := xx + 1;
      }
    }

    /** `tetris_checkClear`: after a clear the same row is looked at again. */
    method CheckClear()
      requires Shape() && score < 256
      modifies this`score, arena
      ensures View() == Cleared(old(View()))
      ensures score == (old(score) + 100 * FullRows(old(View()))) % 256
    {
      hide Kept, Full, Blank;
      var cleared: nat := 0;
      var y := HEIGHT - 1;
      while y >= 0
        invariant -1 <= y < HEIGHT
        invariant forall j :: y < j < HEIGHT ==> !Full(View()[j])
        invariant Kept(View()) == Blank(cleared) + Kept(old(View()))
        invariant score == old(score)
        decreases FullRows(View()[..y + 1]), y
      {
        var full := IsFull(y);
        if full {
          KeptDropped(View(), y);
          OneMoreBlank(cleared, Kept(old(View())));
          Drop(y);
          cleared := cleared + 1;
        } else {
          NotFullNext(View(), y);
          y := y - 1;
        }
      }
      NoneFull(View());
      if cleared > 0 { score := (score + 100 * cleared) % 256; }
    }

    /** `tetris_isValidPos`. */
    method IsValidPos(p: Piece) returns (valid: bool)
      requires Shape() && p.Known()
      ensures valid == ValidPos(View(), p)
    {
      hide Rotate, TETROMINOES;
      var x: nat := 0;
      while x < 4
        invariant x <= 4 && forall i, j :: p.At(i, j) && i - p.x < x ==> CellFits(View(), i, j)
      {
        var y: nat := 0;
        while y < 4
          invariant y <= 4 && forall i, j :: p.At(i, j) && i - p.x < x ==> CellFits(View(), i, j)
          invariant forall i, j :: p.At(i, j) && i - p.x == x && j - p.y < y ==> CellFits(View(), i, j)
        {
          if p.Covers(x, y) {
            var arenaX, arenaY := p.x + x, p.y + y;
            assert p.At(arenaX, arenaY);
            if arenaX < 0 || arenaX >= WIDTH || arenaY >= HEIGHT { return false; }
            if arenaY >= 0 && arena[arenaX, arenaY] != 0 {
              assert View()[arenaY][arenaX] != 0;
              return false;
            }
          }
          y := y + 1;
        }
        x := x + 1;
      }
      return true;
    }

    /** `tetris_addBlock`. */
    method AddBlock(p: Piece)
      requires Shape() && p.Known()
      modifies arena
      ensures View() == Placed(old(View()), p)
    {
      hide Rotate, TETROMINOES, CellAdded;
      var y: nat := 0;
      while y < 4
        invariant y <= 4 && View() == PlacedUpTo(old(View()), p, y * 4)
      {
        var x: nat := 0;
        while x < 4
          invariant x <= 4 && View() == PlacedUpTo(old(View()), p, y * 4 + x)
        {
          AddCell(p, x, y);
          x := x + 1;
        }
        y := y + 1;
      }
    }

    method AddCell(p: Piece, x: nat, y: nat)
      requires Shape() && p.Known() && x < 4 && y < 4
      modifies arena
      ensures View() == CellAdded(old(View()), p, x, y)
    {
      hide Rotate, TETROMINOES;
      if p.Covers(x, y) {
        var arenaX, arenaY := p.x + x, p.y + y;
        if 0 <= arenaX < WIDTH && 0 <= arenaY < HEIGHT { arena[arenaX, arenaY] := 1; }
      }
      forall j | 0 <= j < HEIGHT ensures View()[j] == CellAdded(old(View()), p, x, y)[j] {
        assert j != p.y + y ==> RowAt(j) == old(RowAt(j));
      }
    }

    /** `tetris_move`. */
    method Move(input: Input)
      requires Shape() && piece.Known()
      modifies this`piece, this`joystickLock
      ensures piece == Moved(View(), old(piece), input)
      ensures joystickLock == (old(joystickLock) && input != Neutral)
    {
      hide ValidPos;
      match input
      case TurnIt =>
        var valid := IsValidPos(Turned(piece));
        if valid { piece := Turned(piece); }
      case Down =>
        var valid := IsValidPos(piece.(y := piece.y + 1));
        if valid { piece := piece.(y := piece.y + 1); }
      case Left =>
        var valid := IsValidPos(piece.(x := piece.x - 1));
        if valid { piece := piece.(x := piece.x - 1); }
      case Right =>
        var valid := IsValidPos(piece.(y := piece.y + 1));
        if valid { piece := piece.(x := piece.x + 1); }
      case Neutral => joystickLock := false;
    }
  }
}
