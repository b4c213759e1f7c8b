/**
  The live state of server.js — the matchmaking queue and the room registry — and
  the socket events that change it: `joinQueue`, `leaveQueue`, `makeMove` and
  `disconnect`.
 */
module Server {
  import opened Wrappers
  import opened Game
  import Session
  import Queue

  type RoomId = string

  datatype State = State(queue: seq<Session.Entry>, rooms: map<RoomId, Session.Room>)

  /** The state at start-up: an empty queue and no rooms. */
  const Init: State := State([], map[])

  /**
    `joinQueue`: queue the entry and, once two are waiting, open a room for the
    two oldest under `roomId` with `start` as the first player. The random room
    id and starting index are parameters; an existing room under the same id is
    overwritten, as the assignment `rooms[roomId] = ...` does.
   */
  function OnJoin(s: State, e: Session.Entry, roomId: RoomId, start: Session.Turn): (r: State)
    ensures |s.queue| == 0 ==> r.rooms == s.rooms && r.queue == [e]
    ensures |s.queue| >= 1 ==>
              && roomId in r.rooms
              && r.rooms[roomId].players == [s.queue[0], if |s.queue| >= 2 then s.queue[1] else e]
              && r.rooms[roomId].current == start
              && Session.Inv(r.rooms[roomId])
              && r.rooms[roomId].board == EmptyBoard
              && forall p :: p in r.rooms[roomId].moves ==> r.rooms[roomId].moves[p] == []
    ensures |s.queue| == 1 ==> r.queue == []
    ensures |s.queue| >= 2 ==> r.queue == s.queue[2..] + [e]
    ensures forall k :: k in s.rooms && k != roomId ==> k in r.rooms && r.rooms[k] == s.rooms[k]
    ensures r.rooms.Keys <= s.rooms.Keys + {roomId}
    ensures |s.queue| <= 1 ==> |r.queue| <= 1
  {
    var j := Queue.JoinQueue(s.queue, e);
    match j.paired
    case None => State(j.queue, s.rooms)
    case Some(pair) => State(j.queue, s.rooms[roomId := Session.NewRoom(pair.first, pair.second, start)])
  }

  /** `leaveQueue`: only the queue changes. */
  function OnLeave(s: State, id: Session.UserId): (r: State)
    ensures r.rooms == s.rooms
    ensures |r.queue| <= |s.queue|
    ensures (forall k :: 0 <= k < |s.queue| ==> s.queue[k].user.id != id) ==> r.queue == s.queue
    ensures (exists k :: 0 <= k < |s.queue| && s.queue[k].user.id == id) ==>
              exists i :: 0 <= i < |s.queue| && s.queue[i].user.id == id
                && (forall k :: 0 <= k < i ==> s.queue[k].user.id != id)
                && r.queue == s.queue[..i] + s.queue[i + 1..]
  {
    s.(queue := Queue.LeaveQueue(s.queue, id))
  }

  /**
    `makeMove` routed to the addressed room. An unknown room id is ignored; a
    winning move deletes the room; any other outcome stores the room as the
    handler leaves it.
   */
  function OnMove(s: State, socket: Session.SocketId, roomId: RoomId, to: int): (r: State)
    ensures r.queue == s.queue
    ensures roomId !in s.rooms ==> r == s
    ensures roomId in s.rooms ==>
              var m := Session.MakeMove(s.rooms[roomId], socket, to);
              && (m.Won? <==> roomId !in r.rooms)
              && (!m.Won? ==> r.rooms[roomId] == m.room)
    ensures forall k :: k != roomId ==> (k in r.rooms <==> k in s.rooms)
    ensures forall k :: k in s.rooms && k != roomId ==> r.rooms[k] == s.rooms[k]
  {
    if roomId !in s.rooms then s
    else
      match Session.MakeMove(s.rooms[roomId], socket, to)
      case Won(_, _) => s.(rooms := s.rooms - {roomId})
      case Continued(room) => s.(rooms := s.rooms[roomId := room])
      case Rejected(room, _) => s.(rooms := s.rooms[roomId := room])
  }

  /**
    `kept` holds exactly the entries of `players` that are not on the connection,
    each as many times as `players` does.
   */
  ghost predicate KeptOff(kept: seq<Session.Entry>, players: seq<Session.Entry>, socket: Session.SocketId) {
    forall e :: multiset(kept)[e] == (if e.socket == socket then 0 else multiset(players)[e])
  }

  /** The `filter` of the disconnect handler: the players not on that connection, in order. */
  function DropSocket(players: seq<Session.Entry>, socket: Session.SocketId): (r: seq<Session.Entry>)
    ensures forall e :: e in r <==> e in players && e.socket != socket
    ensures |r| <= |players|
    ensures (forall e :: e in players ==> e.socket != socket) ==> r == players
    ensures r == [] <==> forall e :: e in players ==> e.socket == socket
    ensures KeptOff(r, players, socket)
  {
    if |players| == 0 then []
    else
      var rest := DropSocket(players[1..], socket);
      assert players == [players[0]] + players[1..];
      if players[0].socket == socket then rest else [players[0]] + rest
  }

  /** The disconnect loop over all rooms: drop the connection, delete rooms left without players. */
  function Reap(rooms: map<RoomId, Session.Room>, socket: Session.SocketId): (r: map<RoomId, Session.Room>)
    ensures forall k :: k in r <==>
              k in rooms && !(forall e :: e in rooms[k].players ==> e.socket == socket)
    ensures forall k :: k in r ==>
              && r[k].board == rooms[k].board && r[k].moves == rooms[k].moves
              && r[k].current == rooms[k].current
              && (forall e :: e in r[k].players <==> e in rooms[k].players && e.socket != socket)
              && KeptOff(r[k].players, rooms[k].players, socket)
    ensures forall k :: (k in rooms && |rooms[k].players| > 0
              && forall e :: e in rooms[k].players ==> e.socket != socket) ==> k in r && r[k] == rooms[k]
  {
    var r := map k | k in rooms && DropSocket(rooms[k].players, socket) != [] ::
      rooms[k].(players := DropSocket(rooms[k].players, socket));
    ReapEntries(rooms, socket, r);
    r
  }

  lemma ReapEntries(rooms: map<RoomId, Session.Room>, socket: Session.SocketId, r: map<RoomId, Session.Room>)
    requires forall k :: k in r <==> k in rooms && DropSocket(rooms[k].players, socket) != []
    requires forall k :: k in r ==> r[k] == rooms[k].(players := DropSocket(rooms[k].players, socket))
    ensures forall k :: k in r <==>
              k in rooms && !(forall e :: e in rooms[k].players ==> e.socket == socket)
    ensures forall k :: (k in rooms && |rooms[k].players| > 0
              && forall e :: e in rooms[k].players ==> e.socket != socket) ==> k in r && r[k] == rooms[k]
  {
    forall k | k in rooms
      ensures k in r <==> !(forall e :: e in rooms[k].players ==> e.socket == socket)
      ensures (|rooms[k].players| > 0 && forall e :: e in rooms[k].players ==> e.socket != socket)
                ==> k in r && r[k] == rooms[k]
    {
      var d := DropSocket(rooms[k].players, socket);
      if |rooms[k].players| > 0 && forall e :: e in rooms[k].players ==> e.socket != socket {
        assert rooms[k].players[0] in rooms[k].players;
        assert d == rooms[k].players;
      }
    }
  }

  /** `disconnect`: rooms are reaped; the matchmaking queue is left as it is. */
  function OnDisconnect(s: State, socket: Session.SocketId): (r: State)
    ensures r.queue == s.queue
    ensures forall k, e :: k in r.rooms && e in r.rooms[k].players ==> e.socket != socket
    ensures r.rooms.Keys <= s.rooms.Keys
    ensures forall k :: k in r.rooms ==> k in s.rooms && exists e :: e in s.rooms[k].players && e.socket != socket
    ensures forall k :: k in s.rooms && (exists e :: e in s.rooms[k].players && e.socket != socket) ==>
              && k in r.rooms
              && r.rooms[k].board == s.rooms[k].board && r.rooms[k].moves == s.rooms[k].moves
              && r.rooms[k].current == s.rooms[k].current
              && KeptOff(r.rooms[k].players, s.rooms[k].players, socket)
  {
    s.(rooms := Reap(s.rooms, socket))
  }

  datatype Event =
    | JoinQueue(entry: Session.Entry, roomId: RoomId, start: Session.Turn)
    | LeaveQueue(id: Session.UserId)
    | MakeMove(socket: Session.SocketId, roomId: RoomId, to: int)
    | Disconnect(socket: Session.SocketId)

  function Step(s: State, ev: Event): State {
    match ev
    case JoinQueue(e, roomId, start) => OnJoin(s, e, roomId, start)
    case LeaveQueue(id) => OnLeave(s, id)
    case MakeMove(socket, roomId, to) => OnMove(s, socket, roomId, to)
    case Disconnect(socket) => OnDisconnect(s, socket)
  }

  function Run(s: State, evs: seq<Event>): State
    decreases |evs|
  {
    if |evs| == 0 then s else Run(Step(s, evs[0]), evs[1..])
  }

  /**
    The server invariant: at most one user waits in the queue, every room keeps
    the room invariant, still has a player, and has no completed line (a room
    whose board has one is deleted by the move that completed it).
   */
  predicate Inv(s: State) {
    && |s.queue| <= 1
    && forall k :: k in s.rooms ==>
         && Session.Inv(s.rooms[k]) && |s.rooms[k].players| > 0
         && CheckWinner(s.rooms[k].board).None?
  }

  lemma JoinKeepsInv(s: State, e: Session.Entry, roomId: RoomId, start: Session.Turn)
    requires Inv(s)
    ensures Inv(OnJoin(s, e, roomId, start))
  {
    var r := OnJoin(s, e, roomId, start);
    forall k | k in r.rooms
      ensures Session.Inv(r.rooms[k]) && |r.rooms[k].players| > 0 && CheckWinner(r.rooms[k].board).None?
    {
      if k == roomId && |s.queue| >= 1 {
        var pair := Queue.JoinQueue(s.queue, e).paired.value;
        assert r.rooms[k] == Session.NewRoom(pair.first, pair.second, start);
        EmptyBoardHasNoWinner();
      }
    }
  }

  lemma MoveKeepsInv(s: State, socket: Session.SocketId, roomId: RoomId, to: int)
    requires Inv(s)
    ensures Inv(OnMove(s, socket, roomId, to))
  {
    if roomId in s.rooms {
      Session.MoveKeepsInv(s.rooms[roomId], socket, to);
    }
  }

  /** Keeping board and histories and only losing players keeps the room invariant. */
  lemma FewerPlayersKeepInv(room: Session.Room, room': Session.Room)
    requires Session.Inv(room)
    requires room'.board == room.board && room'.moves == room.moves
    requires forall e :: e in room'.players ==> e in room.players
    ensures Session.Inv(room')
  {
    forall i | 0 <= i < |room'.players| ensures room'.players[i].user.pseudo in room'.moves {
      assert room'.players[i] in room.players;
    }
  }

  lemma DisconnectKeepsInv(s: State, socket: Session.SocketId)
    requires Inv(s)
    ensures Inv(OnDisconnect(s, socket))
  {
    var r := OnDisconnect(s, socket);
    forall k | k in r.rooms
      ensures Session.Inv(r.rooms[k]) && |r.rooms[k].players| > 0 && CheckWinner(r.rooms[k].board).None?
    {
      FewerPlayersKeepInv(s.rooms[k], r.rooms[k]);
      var e :| e in s.rooms[k].players && e.socket != socket;
      assert e in r.rooms[k].players;
    }
  }

  lemma StepKeepsInv(s: State, ev: Event)
    requires Inv(s)
    ensures Inv(Step(s, ev))
  {
    match ev
    case JoinQueue(e, roomId, start) => JoinKeepsInv(s, e, roomId, start);
    case LeaveQueue(id) =>
    case MakeMove(socket, roomId, to) => MoveKeepsInv(s, socket, roomId, to);
    case Disconnect(socket) => DisconnectKeepsInv(s, socket);
  }

  /** Every state reachable from start-up satisfies the server invariant. */
  lemma {:induction false} RunKeepsInv(s: State, evs: seq<Event>)
    requires Inv(s)
    ensures Inv(Run(s, evs))
    decreases |evs|
  {
    if |evs| > 0 {
      StepKeepsInv(s, evs[0]);
      RunKeepsInv(Step(s, evs[0]), evs[1..]);
    }
  }

  lemma ReachableInv(evs: seq<Event>)
    ensures Inv(Run(Init, evs))
  {
    RunKeepsInv(Init, evs);
  }

  /**
    In every reachable state a move is either applied or refused without any
    change: the room the registry keeps after a refusal is the room it had.
   */
  lemma ReachableRejectionIsNoop(evs: seq<Event>, socket: Session.SocketId, roomId: RoomId, to: int)
    requires roomId in Run(Init, evs).rooms
    ensures var room := Run(Init, evs).rooms[roomId];
      Session.MakeMove(room, socket, to).Rejected? ==>
        OnMove(Run(Init, evs), socket, roomId, to) == Run(Init, evs)
  {
    var s := Run(Init, evs);
    ReachableInv(evs);
    Session.RejectionChangesNothing(s.rooms[roomId], socket, to);
    if Session.MakeMove(s.rooms[roomId], socket, to).Rejected? {
      assert s.rooms[roomId := s.rooms[roomId]] == s.rooms;
    }
  }

  /**
    In every reachable state, a move that ends the game reports the player who
    made it: no room in the registry already holds a completed line.
   */
  lemma ReachableWinnerIsMover(evs: seq<Event>, socket: Session.SocketId, roomId: RoomId, to: int)
    requires roomId in Run(Init, evs).rooms
    ensures var room := Run(Init, evs).rooms[roomId];
      Session.MakeMove(room, socket, to).Won? ==>
        Session.MoverSent(room, socket) && Session.MakeMove(room, socket, to).winner == Session.Mover(room)
  {
    var s := Run(Init, evs);
    ReachableInv(evs);
    Session.WinnerIsMover(s.rooms[roomId], socket, to);
  }
}
