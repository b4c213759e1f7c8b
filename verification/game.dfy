/**
  The nine-cell board of "three-piece" tic-tac-toe and the winner check
  (`checkWinner` in server.js).
 */
module Game {
  import opened Wrappers

  /** The display name a player chose; the board stores it in every cell that player occupies. */
  type Pseudo = string

  /** One square: JavaScript `null`, or the pseudo of the player standing on it. */
  datatype Cell = Empty | Mark(owner: Pseudo)

  /** The board array, created as `Array(9).fill(null)` and never resized. */
  type Board = b: seq<Cell> | |b| == 9
    witness [Empty, Empty, Empty, Empty, Empty, Empty, Empty, Empty, Empty]

  /** An index the board array answers for. */
  type Index = i: int | 0 <= i < 9

  const EmptyBoard: Board := [Empty, Empty, Empty, Empty, Empty, Empty, Empty, Empty, Empty]

  /** JavaScript truthiness of a cell value: `null` and the empty string are falsy. */
  predicate Truthy(c: Cell) {
    c.Mark? && c.owner != ""
  }

  /** The set of cells a player occupies. */
  function Pieces(b: Board, p: Pseudo): set<int> {
    set i | 0 <= i < 9 && b[i] == Mark(p)
  }

  datatype Line = Line(a: Index, b: Index, c: Index)

  /** The eight lines `checkWinner` scans, in its order: rows, columns, diagonals. */
  const Lines: seq<Line> := [
    Line(0, 1, 2), Line(3, 4, 5), Line(6, 7, 8),
    Line(0, 3, 6), Line(1, 4, 7), Line(2, 5, 8),
    Line(0, 4, 8), Line(2, 4, 6)
  ]

  /** The test `board[a] && board[a] === board[b] && board[a] === board[c]`. */
  predicate Completes(b: Board, l: Line) {
    Truthy(b[l.a]) && b[l.a] == b[l.b] && b[l.a] == b[l.c]
  }

  /** The loop of `checkWinner` from the k-th line on: the owner of the first completed line, if any. */
  function ScanLines(b: Board, k: nat): (r: Option<Pseudo>)
    requires k <= |Lines|
    ensures r.Some? <==> exists j :: k <= j < |Lines| && Completes(b, Lines[j])
    ensures r.Some? ==>
      exists j :: k <= j < |Lines| && Completes(b, Lines[j]) && b[Lines[j].a] == Mark(r.value)
                  && forall i :: k <= i < j ==> !Completes(b, Lines[i])
    decreases |Lines| - k
  {
    if k == |Lines| then None
    else if Completes(b, Lines[k]) then Some(b[Lines[k].a].owner)
    else ScanLines(b, k + 1)
  }

  /** `checkWinner`: the owner of the first completed line in `Lines`, or `null`. */
  function CheckWinner(b: Board): (r: Option<Pseudo>)
    ensures r.Some? <==> exists j :: 0 <= j < |Lines| && Completes(b, Lines[j])
    ensures r.Some? ==> r.value != ""
  {
    ScanLines(b, 0)
  }

  /** A fresh board has no winner. */
  lemma EmptyBoardHasNoWinner()
    ensures CheckWinner(EmptyBoard).None?
  {
    forall j | 0 <= j < |Lines| ensures !Completes(EmptyBoard, Lines[j]) {
    }
  }

  // An independent description of the winning lines, in grid coordinates.

  /** Cell i of the board array is row i / 3, column i % 3; this is the inverse. */
  function At(row: int, col: int): int {
    3 * row + col
  }

  predicate OnGrid(row: int, col: int) {
    0 <= row < 3 && 0 <= col < 3
  }

  /** The four directions of a line: along a row, down a column, and the two diagonals. */
  predicate Direction(dr: int, dc: int) {
    (dr == 0 && dc == 1) || (dr == 1 && dc == 0) || (dr == 1 && dc == 1) || (dr == 1 && dc == -1)
  }

  /** Three grid cells (row + t*dr, col + t*dc), t = 0, 1, 2, all on the 3x3 grid. */
  predicate GridLine(row: int, col: int, dr: int, dc: int) {
    && Direction(dr, dc)
    && OnGrid(row, col) && OnGrid(row + dr, col + dc) && OnGrid(row + 2 * dr, col + 2 * dc)
  }

  predicate ThreeInARow(b: Board, p: Pseudo, row: int, col: int, dr: int, dc: int) {
    && GridLine(row, col, dr, dc)
    && b[At(row, col)] == Mark(p)
    && b[At(row + dr, col + dc)] == Mark(p)
    && b[At(row + 2 * dr, col + 2 * dc)] == Mark(p)
  }

  /** Player p owns all three cells of some straight line of the grid. */
  ghost predicate HasThree(b: Board, p: Pseudo) {
    exists row, col, dr, dc :: ThreeInARow(b, p, row, col, dr, dc)
  }

  /** Every listed line is a straight line of the grid. */
  lemma ListedLineIsStraight(j: nat) returns (row: int, col: int, dr: int, dc: int)
    requires j < |Lines|
    ensures GridLine(row, col, dr, dc)
    ensures Lines[j] == Line(At(row, col), At(row + dr, col + dc), At(row + 2 * dr, col + 2 * dc))
  {
    if j < 3 {
      row, col, dr, dc := j, 0, 0, 1;
    } else if j < 6 {
      row, col, dr, dc := 0, j - 3, 1, 0;
    } else if j == 6 {
      row, col, dr, dc := 0, 0, 1, 1;
    } else {
      row, col, dr, dc := 0, 2, 1, -1;
    }
  }

  /** Every straight line of the grid is listed: the eight lines are all there are. */
  lemma StraightLineIsListed(row: int, col: int, dr: int, dc: int) returns (j: nat)
    requires GridLine(row, col, dr, dc)
    ensures j < |Lines|
    ensures Lines[j] == Line(At(row, col), At(row + dr, col + dc), At(row + 2 * dr, col + 2 * dc))
  {
    if dr == 0 {
      // along a row: the line must start in column 0
      j := row;
    } else if dc == 0 {
      // down a column: the line must start in row 0
      j := 3 + col;
    } else if dc == 1 {
      j := 6;
    } else {
      j := 7;
    }
  }

  /** A completed listed line is three in a row for its owner. */
  lemma CompletedLineIsThree(b: Board, j: nat, p: Pseudo)
    requires j < |Lines| && Completes(b, Lines[j]) && b[Lines[j].a] == Mark(p)
    ensures HasThree(b, p)
  {
    var row, col, dr, dc := ListedLineIsStraight(j);
    assert ThreeInARow(b, p, row, col, dr, dc);
  }

  /** The winner reported is a real player who owns a straight line. */
  lemma CheckWinnerSound(b: Board)
    ensures CheckWinner(b).Some? ==> CheckWinner(b).value != "" && HasThree(b, CheckWinner(b).value)
  {
    var r := ScanLines(b, 0);
    if r.Some? {
      var j :| 0 <= j < |Lines| && Completes(b, Lines[j]) && b[Lines[j].a] == Mark(r.value);
      CompletedLineIsThree(b, j, r.value);
    }
  }

  /** Every straight line owned by a player with a non-empty pseudo is detected. */
  lemma CheckWinnerComplete(b: Board, p: Pseudo)
    requires p != "" && HasThree(b, p)
    ensures CheckWinner(b).Some?
  {
    var row, col, dr, dc :| ThreeInARow(b, p, row, col, dr, dc);
    var j := StraightLineIsListed(row, col, dr, dc);
    assert Completes(b, Lines[j]);
  }

  /**
    `checkWinner` covers exactly the eight straight lines: it reports a winner iff
    some real player owns a straight line, and when only one player does, it
    reports exactly that player.
   */
  lemma CheckWinnerExact(b: Board)
    ensures CheckWinner(b).Some? <==> exists p :: p != "" && HasThree(b, p)
    ensures (forall p, q :: p != "" && q != "" && HasThree(b, p) && HasThree(b, q) ==> p == q) ==>
              forall p :: CheckWinner(b) == Some(p) <==> p != "" && HasThree(b, p)
  {
    CheckWinnerSound(b);
    forall p | p != "" && HasThree(b, p)
      ensures CheckWinner(b).Some?
    {
      CheckWinnerComplete(b, p);
    }
  }
}
