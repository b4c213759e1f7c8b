/**
  A game room of server.js and its `makeMove` transition: turn enforcement, the
  placement phase, the forced slide of the oldest piece, the winner check and the
  turn flip, taken as one atomic step.
 */
module Session {
  import opened Wrappers
  import opened Game

  type SocketId = string
  type UserId = string

  /** The `user` payload a client sends with `joinQueue`; the server reads `_id` and `pseudo`. */
  datatype User = User(id: UserId, pseudo: Pseudo)

  /** A queue entry, and later a room player: the sending connection and its user payload. */
  datatype Entry = Entry(socket: SocketId, user: User)

  /** A player index: `Math.floor(Math.random() * 2)` and `1 - i` only ever yield 0 or 1. */
  type Turn = i: int | 0 <= i < 2

  /** Board indices a player occupies, oldest first (the arrays in `room.moves`). */
  type History = seq<int>

  /**
    The room record: its players (shrunk by disconnects), the board, the turn
    pointer, and the move history keyed by pseudo. The constant `status: 'closed'`
    field is never read and is not modelled.
   */
  datatype Room = Room(players: seq<Entry>, board: Board, current: Turn, moves: map<Pseudo, History>)

  predicate Distinct(h: History) {
    forall i, j :: 0 <= i < j < |h| ==> h[i] != h[j]
  }

  /** A history is exactly the list of cells its owner occupies, without repetition, at most three. */
  predicate HistoryMatches(b: Board, p: Pseudo, h: History) {
    && Distinct(h)
    && |h| <= 3
    && (forall k :: 0 <= k < |h| ==> 0 <= h[k] < 9 && b[h[k]] == Mark(p))
    && (forall i :: 0 <= i < 9 && b[i] == Mark(p) ==> i in h)
  }

  /** The room invariant kept by every move. */
  predicate Inv(r: Room) {
    && (forall p :: p in r.moves ==> HistoryMatches(r.board, p, r.moves[p]))
    && (forall i :: 0 <= i < 9 && r.board[i].Mark? ==> r.board[i].owner in r.moves)
    && (forall k :: 0 <= k < |r.players| ==> r.players[k].user.pseudo in r.moves)
  }

  /** The room `joinQueue` builds for a pair: empty board, empty histories, a given first player. */
  function NewRoom(p1: Entry, p2: Entry, start: Turn): (r: Room)
    ensures r.players == [p1, p2] && r.current == start
    ensures forall i :: 0 <= i < 9 ==> r.board[i] == Empty
    ensures forall p :: p in r.moves ==> r.moves[p] == []
    ensures Inv(r)
  {
    Room([p1, p2], EmptyBoard, start, map[p1.user.pseudo := [], p2.user.pseudo := []])
  }

  /**
    Reasons a move is refused. `NoCurrentPlayer` and `NoHistory` stand for the
    TypeError the handler raises when `players[currentPlayerIndex]` or the
    mover's history is undefined; the others are the `invalidMove` messages.
   */
  datatype MoveError = NoCurrentPlayer | NotYourTurn | NoHistory | NotYourPiece | InvalidMove

  /**
    What a move leads to. `Rejected` carries the room as the handler leaves it;
    `Won` carries the board that was broadcast before the room was deleted.
   */
  datatype MoveResult =
    | Rejected(room: Room, error: MoveError)
    | Continued(room: Room)
    | Won(room: Room, winner: Pseudo)

  /** `room.board[toIndex] === null`: false for an index outside the array too. */
  predicate IsNull(b: Board, i: int) {
    0 <= i < 9 && b[i] == Empty
  }

  /** The delayed winner check: a win ends the game, otherwise the turn passes. */
  function Settle(room: Room): (r: MoveResult)
    ensures r.Won? || r.Continued?
    ensures r.room.board == room.board && r.room.moves == room.moves && r.room.players == room.players
    ensures r.Won? <==> exists j :: 0 <= j < |Lines| && Completes(room.board, Lines[j])
    ensures r.Continued? ==> r.room.current == 1 - room.current
    ensures r.Won? ==> r.room == room && Some(r.winner) == CheckWinner(room.board) && r.winner != ""
  {
    match CheckWinner(room.board)
    case Some(w) => Won(room, w)
    case None => Continued(room.(current := 1 - room.current))
  }

  /** The `makeMove` handler for the connection `socket` and the requested cell `to`. */
  function MakeMove(room: Room, socket: SocketId, to: int): (r: MoveResult)
    ensures room.current >= |room.players| ==> r == Rejected(room, NoCurrentPlayer)
    ensures room.current < |room.players| && socket != room.players[room.current].socket ==>
              r == Rejected(room, NotYourTurn)
    ensures MoverSent(room, socket) && Mover(room) in room.moves && !IsNull(room.board, to) ==>
              r == Rejected(room, InvalidMove)
    ensures !r.Rejected? ==> IsNull(room.board, to)
    ensures r.Rejected? ==>
              && r.room.board == room.board && r.room.current == room.current
              && r.room.players == room.players
              && (r.error != NotYourPiece ==> r.room == room)
    ensures !r.Rejected? ==>
              && room.current < |room.players| && socket == room.players[room.current].socket
              && r.room.players == room.players
              && (r.Won? <==> CheckWinner(r.room.board).Some?)
              && (r.Won? ==> Some(r.winner) == CheckWinner(r.room.board) && r.room.current == room.current)
              && (r.Continued? ==> r.room.current == 1 - room.current)
  {
    if room.current >= |room.players| then Rejected(room, NoCurrentPlayer)
    else
      var mover := room.players[room.current];
      var p := mover.user.pseudo;
      if socket != mover.socket then Rejected(room, NotYourTurn)
      else if p !in room.moves then Rejected(room, NoHistory)
      else
        var h := room.moves[p];
        if |h| < 3 && IsNull(room.board, to) then
          Settle(room.(board := room.board[to := Mark(p)], moves := room.moves[p := h + [to]]))
        else if |h| >= 3 && IsNull(room.board, to) then
          var from := h[0];
          if 0 <= from < 9 && room.board[from] == Mark(p) then
            Settle(room.(board := room.board[from := Empty][to := Mark(p)], moves := room.moves[p := h[1..] + [to]]))
          else
            Rejected(room.(moves := room.moves[p := h[1..]]), NotYourPiece)
        else Rejected(room, InvalidMove)
  }

  /** The player whose turn it is sent the move. */
  predicate MoverSent(room: Room, socket: SocketId) {
    room.current < |room.players| && socket == room.players[room.current].socket
  }

  function Mover(room: Room): Pseudo
    requires room.current < |room.players|
  {
    room.players[room.current].user.pseudo
  }

  function Elems(h: History): set<int> {
    set x | x in h
  }

  lemma {:induction false} DistinctCard(h: History)
    requires Distinct(h)
    ensures |Elems(h)| == |h|
  {
    if |h| > 0 {
      var t := h[1..];
      assert Distinct(t) by {
        forall i, j | 0 <= i < j < |t| ensures t[i] != t[j] {
          assert t[i] == h[i + 1] && t[j] == h[j + 1];
        }
      }
      DistinctCard(t);
      assert Elems(h) == Elems(t) + {h[0]} by {
        forall x ensures x in Elems(h) <==> x in Elems(t) + {h[0]} {
          assert x in h <==> x == h[0] || x in t by {
            assert h == [h[0]] + t;
          }
        }
      }
      assert h[0] !in Elems(t) by {
        forall k | 0 <= k < |t| ensures t[k] != h[0] {
          assert t[k] == h[k + 1];
        }
      }
    }
  }

  /** Under the invariant, a player's piece count on the board is the length of its history. */
  lemma PieceCount(room: Room, p: Pseudo)
    requires Inv(room) && p in room.moves
    ensures |Pieces(room.board, p)| == |room.moves[p]| <= 3
  {
    var h := room.moves[p];
    assert Pieces(room.board, p) == Elems(h);
    DistinctCard(h);
  }

  /**
    Placement phase: with fewer than three pieces and an empty target, the target
    becomes the mover's, is appended to its history, the mover gains one piece and
    no other cell changes.
   */
  lemma Placement(room: Room, socket: SocketId, to: int)
    requires Inv(room) && MoverSent(room, socket)
    requires |room.moves[Mover(room)]| < 3 && IsNull(room.board, to)
    ensures var r := MakeMove(room, socket, to);
      && !r.Rejected?
      && r.room.board[to] == Mark(Mover(room))
      && (forall i :: 0 <= i < 9 && i != to ==> r.room.board[i] == room.board[i])
      && r.room.moves[Mover(room)] == room.moves[Mover(room)] + [to]
      && (forall q :: q in room.moves && q != Mover(room) ==> q in r.room.moves && r.room.moves[q] == room.moves[q])
      && |Pieces(r.room.board, Mover(room))| == |Pieces(room.board, Mover(room))| + 1
  {
    var r := MakeMove(room, socket, to);
    MoveKeepsInv(room, socket, to);
    PieceCount(room, Mover(room));
    PieceCount(r.room, Mover(room));
  }

  /**
    Movement phase: with three pieces and an empty target, the oldest piece's cell
    is freed, the target is taken, the history drops its head and gains the target,
    and the mover still has exactly three pieces.
   */
  lemma Movement(room: Room, socket: SocketId, to: int)
    requires Inv(room) && MoverSent(room, socket)
    requires |room.moves[Mover(room)]| >= 3 && IsNull(room.board, to)
    ensures var r := MakeMove(room, socket, to);
      var h := room.moves[Mover(room)];
      && !r.Rejected?
      && room.board[h[0]] == Mark(Mover(room)) && r.room.board[h[0]] == Empty
      && r.room.board[to] == Mark(Mover(room))
      && (forall i :: 0 <= i < 9 && i != to && i != h[0] ==> r.room.board[i] == room.board[i])
      && r.room.moves[Mover(room)] == h[1..] + [to]
      && (forall q :: q in room.moves && q != Mover(room) ==> q in r.room.moves && r.room.moves[q] == room.moves[q])
      && |Pieces(r.room.board, Mover(room))| == |Pieces(room.board, Mover(room))| == 3
  {
    var r := MakeMove(room, socket, to);
    MoveKeepsInv(room, socket, to);
    PieceCount(room, Mover(room));
    PieceCount(r.room, Mover(room));
  }

  /** Every move, accepted or refused, keeps the room invariant. */
  lemma MoveKeepsInv(room: Room, socket: SocketId, to: int)
    requires Inv(room)
    ensures Inv(MakeMove(room, socket, to).room)
  {
    if MoverSent(room, socket) {
      var p := Mover(room);
      var b := room.board;
      var h := room.moves[p];
      if IsNull(b, to) {
        assert to !in h;
        if |h| < 3 {
          PlaceKeepsInv(room, p, to);
        } else {
          SlideKeepsInv(room, p, to);
        }
      }
    }
  }

  lemma PlaceKeepsInv(room: Room, p: Pseudo, to: int)
    requires Inv(room) && p in room.moves && |room.moves[p]| < 3 && IsNull(room.board, to)
    ensures Inv(room.(board := room.board[to := Mark(p)], moves := room.moves[p := room.moves[p] + [to]]))
  {
    var b := room.board;
    var h := room.moves[p];
    var b' := b[to := Mark(p)];
    var h' := h + [to];
    var room' := room.(board := b', moves := room.moves[p := h']);
    assert HistoryMatches(b', p, h') by {
      forall k | 0 <= k < |h'| ensures 0 <= h'[k] < 9 && b'[h'[k]] == Mark(p) {
        if k < |h| { assert h'[k] == h[k] && h[k] != to; }
      }
      forall i | 0 <= i < 9 && b'[i] == Mark(p) ensures i in h' {
        if i != to { assert i in h; }
      }
    }
    forall q | q in room'.moves ensures HistoryMatches(b', q, room'.moves[q]) {
      if q != p {
        var hq := room.moves[q];
        forall k | 0 <= k < |hq| ensures b'[hq[k]] == Mark(q) {
          assert hq[k] != to;
        }
      }
    }
  }

  lemma SlideKeepsInv(room: Room, p: Pseudo, to: int)
    requires Inv(room) && p in room.moves && |room.moves[p]| >= 3 && IsNull(room.board, to)
    ensures 0 <= room.moves[p][0] < 9 && room.board[room.moves[p][0]] == Mark(p)
    ensures Inv(room.(board := room.board[room.moves[p][0] := Empty][to := Mark(p)],
                      moves := room.moves[p := room.moves[p][1..] + [to]]))
  {
    var b := room.board;
    var h := room.moves[p];
    var from := h[0];
    var b' := b[from := Empty][to := Mark(p)];
    var h' := h[1..] + [to];
    var room' := room.(board := b', moves := room.moves[p := h']);
    assert from != to;
    assert HistoryMatches(b', p, h') by {
      forall k | 0 <= k < |h'| ensures 0 <= h'[k] < 9 && b'[h'[k]] == Mark(p) {
        if k < |h| - 1 { assert h'[k] == h[k + 1] && h[k + 1] != to && h[k + 1] != from; }
      }
      forall i, j | 0 <= i < j < |h'| ensures h'[i] != h'[j] {
        if j < |h| - 1 { assert h'[i] == h[i + 1] && h'[j] == h[j + 1]; }
        else { assert h'[i] == h[i + 1]; assert h[i + 1] != to; }
      }
      forall i | 0 <= i < 9 && b'[i] == Mark(p) ensures i in h' {
        if i != to {
          assert i in h && i != from;
          var k :| 0 <= k < |h| && h[k] == i;
          assert h'[k - 1] == i;
        }
      }
    }
    forall q | q in room'.moves ensures HistoryMatches(b', q, room'.moves[q]) {
      if q != p {
        var hq := room.moves[q];
        forall k | 0 <= k < |hq| ensures b'[hq[k]] == Mark(q) {
          assert hq[k] != to && hq[k] != from;
        }
      }
    }
  }

  /**
    Under the invariant the "you can only move your own piece" branch is
    unreachable, so every refusal leaves the room exactly as it was.
   */
  lemma RejectionChangesNothing(room: Room, socket: SocketId, to: int)
    requires Inv(room)
    ensures MakeMove(room, socket, to).Rejected? ==>
              MakeMove(room, socket, to).error != NotYourPiece && MakeMove(room, socket, to).room == room
  {
    if MoverSent(room, socket) {
      var p := Mover(room);
      var h := room.moves[p];
      if |h| >= 3 && IsNull(room.board, to) {
        assert 0 <= h[0] < 9 && room.board[h[0]] == Mark(p);
      }
    }
  }

  /** An accepted move changes only cells that end up empty or the mover's. */
  lemma MoveTouchesOnlyMover(room: Room, socket: SocketId, to: int)
    requires Inv(room)
    ensures var r := MakeMove(room, socket, to);
      !r.Rejected? ==>
        forall i :: 0 <= i < 9 && r.room.board[i] != room.board[i] ==>
          r.room.board[i] == Empty || r.room.board[i] == Mark(Mover(room))
  {
    if MoverSent(room, socket) && IsNull(room.board, to) {
      var p := Mover(room);
      var b := room.board;
      var h := room.moves[p];
      var r := MakeMove(room, socket, to);
      if |h| < 3 {
        assert r.room.board == b[to := Mark(p)];
      } else {
        assert 0 <= h[0] < 9 && b[h[0]] == Mark(p);
        assert r.room.board == b[h[0] := Empty][to := Mark(p)];
      }
    }
  }

  /**
    A move on a board without a completed line can only complete a line of the
    mover: the reported winner is always the player who just moved.
   */
  lemma WinnerIsMover(room: Room, socket: SocketId, to: int)
    requires Inv(room) && CheckWinner(room.board).None?
    ensures MakeMove(room, socket, to).Won? ==>
              MoverSent(room, socket) && MakeMove(room, socket, to).winner == Mover(room)
  {
    var r := MakeMove(room, socket, to);
    if r.Won? {
      var p := Mover(room);
      var b := room.board;
      var b' := r.room.board;
      MoveTouchesOnlyMover(room, socket, to);
      forall i | 0 <= i < |Lines| && Completes(b', Lines[i])
        ensures b'[Lines[i].a] == Mark(p)
      {
        var l := Lines[i];
        if b'[l.a] != Mark(p) {
          // all three cells are unchanged, so the line was already complete
          assert false;
        }
      }
      var j :| 0 <= j < |Lines| && Completes(b', Lines[j]);
      ScanFirst(b', j);
    }
  }

  /** Where only one owner has completed lines, the scan reports that owner. */
  lemma ScanFirst(b: Board, j: nat)
    requires j < |Lines| && Completes(b, Lines[j])
    requires forall i :: 0 <= i < |Lines| && Completes(b, Lines[i]) ==> b[Lines[i].a] == b[Lines[j].a]
    ensures CheckWinner(b) == Some(b[Lines[j].a].owner)
  {
  }
}
