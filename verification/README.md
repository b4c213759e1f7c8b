# Morps-Server matchmaking and session engine, in Dafny

This project models the two pieces of sequential logic in the Morps game server.

1. **The real-time session engine of `server.js`.**
   - The push-based matchmaking queue (`joinQueue`, `leaveQueue`).
   - The room registry and its `disconnect` reaping loop.
   - The `makeMove` transition of "three-piece" tic-tac-toe, with its winner check `checkWinner`. Each player places up to three pieces. After that, every move forcibly slides the player's oldest piece to the requested empty cell.
2. **The poll-path matchmaking of `routes/matchmaking.js`.**
   - `/find` joins the first waiting match whose ratings fall in the ±50 search window, or opens a new waiting match.
   - `/leave` takes the user out of its waiting match.
   - The match store is an in-memory sequence of `{players, status}` records.

Every operation is a pure function over immutable datatypes:

- `game.dfy` (module `Game`): the 9-cell board, the eight lines, `CheckWinner`, and an independent description of straight lines by grid row, column and direction.
- `session.dfy` (module `Session`): the room record, the room invariant, `MakeMove`.
- `queue.dfy` (module `Queue`): the push-path queue.
- `server.dfy` (module `Server`): the whole live state, meaning the queue plus the room map. It also holds the four socket events and the invariant that every reachable state keeps.
- `matchmaking.dfy` (module `Matchmaking`): the poll path.
- `wrappers.dfy` (module `Wrappers`): `Option`.

## Modelling decisions

- **The random room id and the random starting player** are parameters of `Server.OnJoin`.
- **The winner check is part of the move.** The source runs it 500 ms after the move. Here the move, the winner check and the turn flip are one atomic step. A win yields `Won` and the room is deleted from the registry.
- **Events are returned values.** Outgoing socket events become values: `MoveResult` tells `Rejected` (with the reason) from `Continued` and `Won`.
- **Histories are keyed by pseudo**, as `room.moves` is. Board cells hold the occupant's pseudo. The room invariant is stated per pseudo, so it holds even when both players picked the same pseudo.
- **Defensive branch.** The "you can only move your own piece" branch (server.js:97-105) drops the head of the mover's history with `shift()` before it refuses. The model reproduces that mutation. `Session.RejectionChangesNothing` proves that the room invariant makes the branch unreachable, so every reachable refusal changes nothing.
- **Out-of-range targets.** A `toIndex` outside 0..8 reads `undefined`, which is not `=== null`, so the move is refused with the generic invalid-move message. The model takes the target as an integer and refuses any target outside the board.
- **Missing current player.** After one player disconnects, a room keeps a single player. `players[currentPlayerIndex]` can then be `undefined`, and the handler throws a TypeError before changing anything (server.js:84). The model returns `Rejected(room, NoCurrentPlayer)` with the room unchanged.
- **Empty pseudo.** `checkWinner` tests `board[a]` for truthiness, so a line of the empty pseudo `""` is never reported. `Game.Truthy` models that.
- **The `/find` query is modelled with MongoDB's array semantics.** The filter `'players.elo': {$gte, $lte}` runs on an array, so the two bounds may be met by different players. `Matchmaking.Selected` models exactly that.
  - Waiting matches only ever have one player, and `Matchmaking.FindKeepsWaitingAlone` and `Matchmaking.LeaveKeepsWaitingAlone` prove this invariant.
  - Under that invariant, selection is the per-rating window test `|elo − other| ≤ range` (`Matchmaking.FindJoinsIffInWindow`).
  - `Matchmaking.SplitBoundsSelect` shows the two readings differ for a two-player match.
- **The search is never widened.** `searchMatch` sends a response on every path, success or error. The `!res.headersSent` guard is therefore false after the first search, and `expandSearch` is never entered. `Matchmaking.Find` is therefore a single search at range 50. The widening arithmetic is still modelled by `Matchmaking.RangeAfter`.
- **A missing user.** If `User.findById` yields `null`, `user.elo` throws inside `searchMatch`, and the catch answers 500. This is `Matchmaking.Find` with `user = None`, which returns `ServerError`.

### Behaviour worth knowing

- **Disconnect and the queue.** The `disconnect` handler (server.js:136-144) only filters the rooms. An entry of the closed connection stays in `matchmakingQueue`. `Server.OnDisconnect` leaves `queue` unchanged.
- **Duplicate queue entries.** `joinQueue` (server.js:39-45) pushes without looking for the user, so the same user can be queued twice. The `/find` query (routes/matchmaking.js:37-40) does not exclude the requester's own waiting match either (`Matchmaking.OwnMatchNotExcluded`).
- **The poll path does not retry.** `searchMatch` (routes/matchmaking.js:42-76) answers on every path, so the range never grows past 50. A requester rated 1000 facing one waiting player rated 1200 opens a second waiting match (`Matchmaking.FarRatingOpensNewMatch`).
- **Not every refusal is state-free.** In `makeMove` the `shift()` of server.js:97 runs before the refusal of server.js:103. The room invariant makes this branch unreachable.
- **No draw outcome.** `makeMove` ends a game only on a completed line (server.js:115-118). Rooms carry a constant `status: 'closed'`.

## Model

| member | source | states |
|---|---|---|
| Game.ScanLines | server.js:154-160 | the scan reports an owner iff one of the remaining lines is completed by a truthy owner; the reported owner is that of the first such line in list order |
| Game.CheckWinner | server.js:147-161 | a winner is returned iff one of the eight listed lines has three equal truthy cells; `null` otherwise; a returned winner is never the empty pseudo |
| Game.ListedLineIsStraight | server.js:148-152 | every listed line is three consecutive grid cells `3·row + col` from a start cell in one of the four directions (along a row, down a column, either diagonal) |
| Game.StraightLineIsListed | server.js:148-152 | every straight line of the 3x3 grid, given by a start cell and a direction with all three cells on the grid, appears in the list: the eight lines are all the lines there are |
| Game.CompletedLineIsThree | server.js:154-157 | a completed listed line means its owner has three in a row |
| Game.EmptyBoardHasNoWinner | server.js:52 | the fresh board `Array(9).fill(null)` has no winner |
| Game.CheckWinnerSound | server.js:147-161 | a reported winner owns all three cells of a straight line |
| Game.CheckWinnerComplete | server.js:147-161 | any straight line owned by a player with a non-empty pseudo is detected |
| Game.CheckWinnerExact | server.js:147-161 | some winner is reported iff some real player has three in a row; when only one player does, exactly that player is reported |
| Session.NewRoom | server.js:49-55 | a new room holds the two paired entries, the given first player, an empty board and empty histories, and satisfies the room invariant |
| Session.Settle | server.js:114-124 | after a move, a completed line ends the game, reporting exactly the owner `checkWinner` returns (never the empty pseudo), with the room kept as broadcast; otherwise the turn pointer becomes `1 - currentPlayerIndex`; board and histories are untouched |
| Session.MakeMove | server.js:80-126 | a sender that is not the current player is refused with everything unchanged; a missing current player is refused unchanged; a move by the current player, who has a history, onto an occupied or out-of-range cell is refused with the invalid-move reason and nothing changed; every refusal keeps board, turn and players; an accepted move targeted an empty cell, came from the current player, flips the turn unless it wins, and reports a win exactly when the new board has a completed line |
| Session.PieceCount | server.js:91-101 | under the room invariant a player's piece count on the board equals its history length, and is at most 3 |
| Session.Placement | server.js:93-95 | with fewer than 3 pieces and an empty target, the move is accepted, the target becomes the mover's and is appended to the mover's history, no other cell or history changes, and the mover gains exactly one piece |
| Session.Movement | server.js:96-101 | with 3 pieces and an empty target, the oldest history cell (the mover's) is freed, the target taken, the history becomes tail plus target, no other cell or history changes, and the mover keeps exactly 3 pieces |
| Session.MoveKeepsInv | server.js:91-109 | every move, accepted or refused, keeps each history distinct, at most 3 long and equal to the cells its owner occupies |
| Session.PlaceKeepsInv | server.js:93-95 | a placement onto an empty cell by a player with fewer than 3 pieces keeps the room invariant |
| Session.SlideKeepsInv | server.js:96-101 | under the invariant the oldest history cell is the mover's own, and the forced slide keeps the room invariant |
| Session.RejectionChangesNothing | server.js:97-108 | under the room invariant the "not your own piece" branch is unreachable, so every refusal leaves the room exactly as it was |
| Session.MoveTouchesOnlyMover | server.js:93-101 | an accepted move only changes cells that end up empty or the mover's |
| Session.WinnerIsMover | server.js:114-118 | on a board with no completed line, a move that ends the game reports the player who just moved |
| Session.ScanFirst | server.js:154-158 | when all completed lines share one owner, that owner is reported |
| Queue.JoinQueue | server.js:41-45 | after a push, a pair is formed iff someone was already waiting; the pair is the two oldest entries in FIFO order; no entry is lost or duplicated (multiset conservation); the queue shrinks by one when a pair forms |
| Queue.FindUser | server.js:129 | the first position whose `user._id` matches, or none iff no entry matches |
| Queue.LeaveQueue | server.js:128-134 | no matching entry leaves the queue unchanged; otherwise exactly the first entry of that user is removed and the others keep their order |
| Queue.LeaveRemovesOne | server.js:128-134 | leaving removes one entry of the user when there is one and none otherwise; nothing else leaves the queue |
| Queue.LeaveUndoesJoin | server.js:128-134 | a join pairs nobody only on an empty queue, and that join is undone by the same user leaving, which empties the queue again |
| Queue.AtMostOneWaiting | server.js:41-45 | from a queue of at most one entry, any sequence of joins and leaves keeps at most one entry waiting |
| Server.OnJoin | server.js:39-55 | a join with nobody waiting only queues the entry; otherwise a room is opened under the given id for the two oldest entries with the given first player and satisfies the room invariant; the new room has an empty board and empty histories; the two paired entries leave the queue, so one waiting entry plus the joiner leaves it empty and a longer queue keeps its tail followed by the joiner; other rooms are untouched; a queue of at most one stays at most one |
| Server.OnLeave | server.js:128-134 | leaving the queue never touches the rooms; if the user is queued exactly its first entry is removed and the others keep their order, otherwise the queue is unchanged |
| Server.OnMove | server.js:80-126 | an unknown room id changes nothing; a winning move deletes the room; any other outcome stores the room as the move leaves it; other rooms and the queue are untouched |
| Server.DropSocket | server.js:139 | the filtered players are exactly those not on the connection, each kept with its multiplicity and in no more places than before; nothing changes if it is not among them; the result is empty iff every player was on it |
| Server.Reap | server.js:138-143 | a room survives iff some player of it is on another connection; survivors keep board, histories and turn and lose exactly the players on the connection, every other player kept with its multiplicity; nonempty rooms without that connection are unchanged |
| Server.OnDisconnect | server.js:136-144 | a room survives iff some player is on another connection, keeping board, histories and turn and every other player with its multiplicity; no surviving room holds the connection, no room is created, and the matchmaking queue is not touched |
| Server.JoinKeepsInv | server.js:39-55 | joining keeps the server invariant |
| Server.MoveKeepsInv | server.js:80-126 | a routed move keeps the server invariant |
| Server.DisconnectKeepsInv | server.js:136-144 | a disconnect keeps the room invariant of every surviving room and leaves no room without players |
| Server.StepKeepsInv | server.js:36-145 | every socket event keeps the server invariant: at most one waiting entry, every room satisfies the room invariant, has a player and has no completed line |
| Server.RunKeepsInv | server.js:33-34 | any sequence of events from a state satisfying the invariant ends in one that satisfies it |
| Server.ReachableInv | server.js:33-34 | every state reachable from start-up (empty queue, no rooms) satisfies the server invariant |
| Server.ReachableRejectionIsNoop | server.js:86-109 | in every reachable state a refused move leaves the whole server state unchanged |
| Server.ReachableWinnerIsMover | server.js:84-118 | in every reachable state a move that ends the game came from the current player, and the reported winner is that player |
| Matchmaking.WithinRangeSymmetric | routes/matchmaking.js:37-40 | the rating window test is symmetric in the two ratings |
| Matchmaking.WithinRangeMonotone | routes/matchmaking.js:37-40 | the rating window test is monotone in the range |
| Matchmaking.Expand | routes/matchmaking.js:62-63 | each widening strictly increases the range, so no rating inside the old window falls outside the new one |
| Matchmaking.RangeAfterIs | routes/matchmaking.js:25-63 | after k widenings from `range = rangeStep` the range is 50·(k+1) |
| Matchmaking.SeatInWindowSelects | routes/matchmaking.js:37-40 | a waiting match with a player inside the window is selected |
| Matchmaking.SingleSeatSelection | routes/matchmaking.js:37-40 | for a one-player match, selection holds iff it is waiting and that player's rating is within the window |
| Matchmaking.SplitBoundsSelect | routes/matchmaking.js:37-40 | a waiting two-player match rated 800 and 1200 is selected for a requester rated 1000 at range 50 although neither player is in the window |
| Matchmaking.SelectedMonotone | routes/matchmaking.js:37-40 | widening the range never drops a match from the selection |
| Matchmaking.FirstSelected | routes/matchmaking.js:37-43 | the first selected match in store order, or none iff no match is selected |
| Matchmaking.Find | routes/matchmaking.js:24-77 | a missing user gives a 500 and nothing else does; if some match is selected at range 50, the first one gets the requester appended and becomes `ongoing` and nothing else changes; otherwise exactly one new `waiting` match holding only the requester is added |
| Matchmaking.FindKeepsWaitingAlone | routes/matchmaking.js:42-54 | `/find` keeps every waiting match at exactly one player |
| Matchmaking.FindJoinsIffInWindow | routes/matchmaking.js:37-54 | under that invariant `/find` joins a match iff some waiting match's player is within 50 of the requester |
| Matchmaking.OwnMatchNotExcluded | routes/matchmaking.js:37-46 | a requester alone in its own waiting match, with nothing earlier selected, is appended to that same match, which becomes `ongoing` with the requester twice |
| Matchmaking.FarRatingOpensNewMatch | routes/matchmaking.js:42-76 | a requester rated 1000 facing one waiting player rated 1200 opens a new waiting match; that player would fall in the window after three widenings, but no widening happens |
| Matchmaking.DefaultRatedUsersPair | models/User.js:18-21 | two users at the default rating 1000: the first opens a waiting match, the second joins it and the match becomes `ongoing` |
| Matchmaking.FirstWaitingWith | routes/matchmaking.js:82-86 | the first waiting match holding the user, or none iff there is no such match |
| Matchmaking.PullSeats | routes/matchmaking.js:84 | exactly the seats of other users remain, each as many times as before; nothing changes if the user holds none; the result is empty iff every seat was the user's |
| Matchmaking.Leave | routes/matchmaking.js:80-97 | no waiting match with the user leaves the store unchanged; the first such match is deleted iff the user held all its seats; otherwise it loses exactly the user's seats, keeps every other seat as many times as before, stays waiting, and every other match is unchanged |
| Matchmaking.LeaveKeepsWaitingAlone | routes/matchmaking.js:82-90 | `/leave` keeps every waiting match at exactly one player |
| Matchmaking.LeaveUndoesFind | routes/matchmaking.js:48-54 | a `/find` that opened a new match is undone by the same user's `/leave`, if the user was not already waiting |

## Left out

- Socket.io emission, room joins and `io.to(...)` broadcasts: outputs are returned values, as `MoveResult` and `Reply`.
- The 500 ms delay before the winner check: a move, its winner check and the turn flip form one atomic step. What interleaves during the delay is a concurrency matter.
- The random room id and the random first player: both are parameters.
- The process-level effect of the TypeErrors at server.js:84 and server.js:121: the model refuses the move or keeps the flipped turn, as the state shows it, and does not model what an uncaught exception does to the process.
- Non-integer or string `toIndex` values: the target is an integer.
- MongoDB/Mongoose calls and their failures, schemas and `await`: the match store is an in-memory sequence. Each request runs atomically. A database error answering 500 is not modelled; only the missing-user 500 is.
- JWT verification and the `auth` middleware: this is a foreign library call.
- Express/HTTP wiring, CORS, `dotenv`, the server bootstrap and `routes/users`: routes/users is not part of this model.
- The `setTimeout` retry loop of `expandSearch`: it is unreachable. Only its range arithmetic (`Matchmaking.RangeAfter`) is modelled.
- The constant `status: 'closed'` room field and the `winner` match field: this code never reads the first or writes the second.
- Ratings are integers. Non-integer `elo` values are not modelled.
- The JSON bodies of replies: `/leave` always answers the same success message, so only its effect on the store is modelled.
