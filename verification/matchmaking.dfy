/**
  The poll-path matchmaking of routes/matchmaking.js over an in-memory store of
  match records: `/find` joins the first waiting match whose players' ratings
  fall in the search window or opens a new waiting match; `/leave` takes the user
  out of its waiting match and deletes the match once it is empty.
 */
module Matchmaking {
  import opened Wrappers

  type UserId = string

  /** The `status` enum of a match record. */
  datatype Status = Waiting | Ongoing | Completed

  /** One element of a match's `players` array: `{ id, elo }`. */
  datatype Seat = Seat(id: UserId, elo: int)

  /** A match record; the `winner` field is never written on this path and is not modelled. */
  datatype Match = Match(players: seq<Seat>, status: Status)

  /** The requesting user's record, as far as this path reads it. */
  datatype Account = Account(id: UserId, elo: int)

  /** The rating a user record gets when none is given. */
  const DefaultElo := 1000

  /** The initial search half-width, and the amount each widening adds. */
  const RangeStep := 50

  // ---------------------------------------------------------------------
  // The search window

  /** A rating lies in the window `[elo - range, elo + range]` around `elo`. */
  predicate WithinRange(elo: int, other: int, range: int) {
    elo - range <= other <= elo + range
  }

  lemma WithinRangeSymmetric(a: int, b: int, range: int)
    ensures WithinRange(a, b, range) <==> WithinRange(b, a, range)
  {
  }

  lemma WithinRangeMonotone(a: int, b: int, range: int, wider: int)
    requires range <= wider
    ensures WithinRange(a, b, range) ==> WithinRange(a, b, wider)
  {
  }

  /** One step of `expandSearch`: `range += rangeStep`. */
  function Expand(range: int): (r: int)
    ensures r > range
    ensures forall elo, other :: WithinRange(elo, other, range) ==> WithinRange(elo, other, r)
  {
    range + RangeStep
  }

  /** The window after k widenings, starting from `range = rangeStep`. */
  function RangeAfter(k: nat): int {
    if k == 0 then RangeStep else Expand(RangeAfter(k - 1))
  }

  /** After k widenings the half-width is 50 * (k + 1). */
  lemma {:induction false} RangeAfterIs(k: nat)
    ensures RangeAfter(k) == RangeStep * (k + 1)
  {
    if k > 0 {
      RangeAfterIs(k - 1);
    }
  }

  // ---------------------------------------------------------------------
  // The query of `/find`

  predicate SomeAtLeast(m: Match, lo: int) {
    exists i :: 0 <= i < |m.players| && m.players[i].elo >= lo
  }

  predicate SomeAtMost(m: Match, hi: int) {
    exists i :: 0 <= i < |m.players| && m.players[i].elo <= hi
  }

  /**
    The filter `{ status: 'waiting', 'players.elo': { $gte: elo - range, $lte: elo + range } }`.
    On an array field the two bounds may be met by different elements, so a
    match qualifies when some player is at least `elo - range` and some player
    is at most `elo + range`.
   */
  predicate Selected(m: Match, elo: int, range: int) {
    m.status == Waiting && SomeAtLeast(m, elo - range) && SomeAtMost(m, elo + range)
  }

  /** A waiting match with a player inside the window is always selected. */
  lemma SeatInWindowSelects(m: Match, elo: int, range: int, i: nat)
    requires m.status == Waiting && i < |m.players| && WithinRange(elo, m.players[i].elo, range)
    ensures Selected(m, elo, range)
  {
  }

  /** For a match with a single player, selection is exactly "waiting and within the window". */
  lemma SingleSeatSelection(m: Match, elo: int, range: int)
    requires |m.players| == 1
    ensures Selected(m, elo, range) <==> m.status == Waiting && WithinRange(elo, m.players[0].elo, range)
  {
  }

  /** With two players the bounds can be met by different players, neither inside the window. */
  lemma SplitBoundsSelect()
    ensures var m := Match([Seat("a", 800), Seat("b", 1200)], Waiting);
      && Selected(m, 1000, RangeStep)
      && !WithinRange(1000, 800, RangeStep) && !WithinRange(1000, 1200, RangeStep)
  {
    var m := Match([Seat("a", 800), Seat("b", 1200)], Waiting);
    assert m.players[1].elo >= 1000 - RangeStep;
    assert m.players[0].elo <= 1000 + RangeStep;
  }

  /** Widening the window never drops a match from the selection. */
  lemma SelectedMonotone(m: Match, elo: int, range: int, wider: int)
    requires range <= wider && Selected(m, elo, range)
    ensures Selected(m, elo, wider)
  {
    var i :| 0 <= i < |m.players| && m.players[i].elo >= elo - range;
    var j :| 0 <= j < |m.players| && m.players[j].elo <= elo + range;
    assert m.players[i].elo >= elo - wider;
    assert m.players[j].elo <= elo + wider;
  }

  /** `matches[0]` of the query result: the first selected match in store order. */
  function FirstSelected(store: seq<Match>, elo: int, range: int): (r: Option<nat>)
    ensures r.None? <==> forall i :: 0 <= i < |store| ==> !Selected(store[i], elo, range)
    ensures r.Some? ==> r.value < |store| && Selected(store[r.value], elo, range)
    ensures r.Some? ==> forall i :: 0 <= i < r.value ==> !Selected(store[i], elo, range)
  {
    if |store| == 0 then None
    else if Selected(store[0], elo, range) then Some(0)
    else
      match FirstSelected(store[1..], elo, range)
      case None => None
      case Some(k) => Some(k + 1)
  }

  // ---------------------------------------------------------------------
  // `/find`

  /**
    The response of `/find`: the joined or created match with the store after it,
    or a 500 `Server error` (the store is then unchanged).
   */
  datatype Reply =
    | Joined(store: seq<Match>, index: nat)
    | Created(store: seq<Match>)
    | ServerError

  function StoreAfter(store: seq<Match>, r: Reply): seq<Match> {
    if r.ServerError? then store else r.store
  }

  /**
    The `/find` handler. `user` is the result of `User.findById`: when it is
    `null`, reading `user.elo` throws inside `searchMatch` and the catch answers
    500. Every path of `searchMatch` answers, so the `!res.headersSent` guard is
    false after the first search and `expandSearch` is never entered: the whole
    request is one search with `range = rangeStep`.
   */
  function Find(store: seq<Match>, user: Option<Account>): (r: Reply)
    ensures user.None? <==> r.ServerError?
    ensures r.Joined? ==>
              var u := user.value;
              && |r.store| == |store| && r.index < |store|
              && Selected(store[r.index], u.elo, RangeStep)
              && (forall i :: 0 <= i < r.index ==> !Selected(store[i], u.elo, RangeStep))
              && r.store[r.index] == Match(store[r.index].players + [Seat(u.id, u.elo)], Ongoing)
              && (forall i :: 0 <= i < |store| && i != r.index ==> r.store[i] == store[i])
    ensures r.Created? ==>
              var u := user.value;
              && (forall i :: 0 <= i < |store| ==> !Selected(store[i], u.elo, RangeStep))
              && r.store == store + [Match([Seat(u.id, u.elo)], Waiting)]
  {
    match user
    case None => ServerError
    case Some(u) =>
      match FirstSelected(store, u.elo, RangeStep)
      case Some(i) =>
        Joined(store[i := store[i].(players := store[i].players + [Seat(u.id, u.elo)], status := Ongoing)], i)
      case None =>
        Created(store + [Match([Seat(u.id, u.elo)], Waiting)])
  }

  /** The store invariant of this path: every waiting match has exactly one player. */
  predicate WaitingAlone(store: seq<Match>) {
    forall i :: 0 <= i < |store| && store[i].status == Waiting ==> |store[i].players| == 1
  }

  lemma FindKeepsWaitingAlone(store: seq<Match>, user: Option<Account>)
    requires WaitingAlone(store)
    ensures WaitingAlone(StoreAfter(store, Find(store, user)))
  {
  }

  /**
    Under the store invariant, `/find` joins a waiting match exactly when some
    waiting match's player is within 50 of the requester's rating.
   */
  lemma FindJoinsIffInWindow(store: seq<Match>, u: Account)
    requires WaitingAlone(store)
    ensures Find(store, Some(u)).Joined? <==>
              exists i :: 0 <= i < |store| && store[i].status == Waiting
                          && WithinRange(u.elo, store[i].players[0].elo, RangeStep)
  {
    forall i | 0 <= i < |store|
      ensures Selected(store[i], u.elo, RangeStep) <==>
                store[i].status == Waiting && WithinRange(u.elo, store[i].players[0].elo, RangeStep)
    {
      if store[i].status == Waiting {
        SingleSeatSelection(store[i], u.elo, RangeStep);
      }
    }
  }

  /**
    The requester's own waiting match is not excluded: a user who is already
    waiting, alone, and finds nothing earlier, is appended to that same match.
   */
  lemma OwnMatchNotExcluded(store: seq<Match>, u: Account, i: nat)
    requires i < |store| && store[i] == Match([Seat(u.id, u.elo)], Waiting)
    requires forall j :: 0 <= j < i ==> !Selected(store[j], u.elo, RangeStep)
    ensures Find(store, Some(u)) == Joined(store[i := Match([Seat(u.id, u.elo), Seat(u.id, u.elo)], Ongoing)], i)
  {
    assert Selected(store[i], u.elo, RangeStep) by {
      SeatInWindowSelects(store[i], u.elo, RangeStep, 0);
    }
    var f := FirstSelected(store, u.elo, RangeStep);
    assert f.Some? && f.value == i;
    assert store[i].players + [Seat(u.id, u.elo)] == [Seat(u.id, u.elo), Seat(u.id, u.elo)];
  }

  /**
    A requester rated 1000 facing a single waiting player rated 1200 is not paired:
    a new waiting match is opened instead. The window would include 1200 after
    three widenings, but the widening is never reached.
   */
  lemma FarRatingOpensNewMatch(a: UserId, b: UserId)
    ensures var store := [Match([Seat(b, 1200)], Waiting)];
      && Find(store, Some(Account(a, 1000))) == Created(store + [Match([Seat(a, 1000)], Waiting)])
      && Selected(store[0], 1000, RangeAfter(3))
  {
    var store := [Match([Seat(b, 1200)], Waiting)];
    assert !Selected(store[0], 1000, RangeStep) by {
      SingleSeatSelection(store[0], 1000, RangeStep);
    }
    RangeAfterIs(3);
    SeatInWindowSelects(store[0], 1000, RangeAfter(3), 0);
  }

  /** Two users with the default rating: the first opens a match, the second joins it. */
  lemma DefaultRatedUsersPair(a: UserId, b: UserId)
    ensures var first := Find([], Some(Account(a, DefaultElo)));
      && first == Created([Match([Seat(a, DefaultElo)], Waiting)])
      && Find(first.store, Some(Account(b, DefaultElo)))
           == Joined([Match([Seat(a, DefaultElo), Seat(b, DefaultElo)], Ongoing)], 0)
  {
    var first := Find([], Some(Account(a, DefaultElo)));
    SeatInWindowSelects(first.store[0], DefaultElo, RangeStep, 0);
    assert FirstSelected(first.store, DefaultElo, RangeStep) == Some(0);
    assert first.store[0].players + [Seat(b, DefaultElo)] == [Seat(a, DefaultElo), Seat(b, DefaultElo)];
  }

  // ---------------------------------------------------------------------
  // `/leave`

  predicate HasSeat(m: Match, id: UserId) {
    exists k :: 0 <= k < |m.players| && m.players[k].id == id
  }

  /** `findOneAndUpdate` on `{ 'players.id': id, status: 'waiting' }`: the first such match. */
  function FirstWaitingWith(store: seq<Match>, id: UserId): (r: Option<nat>)
    ensures r.None? <==> forall i :: 0 <= i < |store| ==> !(store[i].status == Waiting && HasSeat(store[i], id))
    ensures r.Some? ==> r.value < |store| && store[r.value].status == Waiting && HasSeat(store[r.value], id)
    ensures r.Some? ==> forall i :: 0 <= i < r.value ==> !(store[i].status == Waiting && HasSeat(store[i], id))
  {
    if |store| == 0 then None
    else if store[0].status == Waiting && HasSeat(store[0], id) then Some(0)
    else
      match FirstWaitingWith(store[1..], id)
      case None => None
      case Some(k) => Some(k + 1)
  }

  /** Every seat not of the user is kept as many times as it occurred; the user's seats are gone. */
  ghost predicate SeatsKept(kept: seq<Seat>, players: seq<Seat>, id: UserId) {
    forall s :: multiset(kept)[s] == (if s.id == id then 0 else multiset(players)[s])
  }

  /** Pulling from a non-empty list: the head goes if it is the user's and stays otherwise. */
  lemma PullHead(head: Seat, rest: seq<Seat>, tail: seq<Seat>, id: UserId)
    requires SeatsKept(rest, tail, id)
    ensures SeatsKept(if head.id == id then rest else [head] + rest, [head] + tail, id)
  {
    assert multiset([head] + tail) == multiset{head} + multiset(tail);
    assert multiset([head] + rest) == multiset{head} + multiset(rest);
  }

  /** A seat survives the pull iff it was there and is not the user's. */
  lemma KeptSeats(kept: seq<Seat>, players: seq<Seat>, id: UserId)
    requires SeatsKept(kept, players, id)
    ensures forall s :: s in kept <==> s in players && s.id != id
  {
    forall s ensures s in kept <==> s in players && s.id != id {
      assert s in kept <==> multiset(kept)[s] > 0;
      assert s in players <==> multiset(players)[s] > 0;
    }
  }

  /** `$pull: { players: { id } }`: every seat of that user goes, the rest keep their order. */
  function PullSeats(players: seq<Seat>, id: UserId): (r: seq<Seat>)
    ensures forall s :: s in r <==> s in players && s.id != id
    ensures SeatsKept(r, players, id)
    ensures |r| <= |players|
    ensures !HasSeat(Match(players, Waiting), id) ==> r == players
    ensures r == [] <==> forall s :: s in players ==> s.id == id
  {
    if |players| == 0 then []
    else
      var rest := PullSeats(players[1..], id);
      var r := if players[0].id == id then rest else [players[0]] + rest;
      assert players == [players[0]] + players[1..];
      PullHead(players[0], rest, players[1..], id);
      KeptSeats(r, players, id);
      r
  }

  /**
    The `/leave` handler: pull the user from the first waiting match that holds
    it and delete that match if no player is left. The reply is the same success
    message whether or not a match was found, so only the store is modelled.
   */
  function Leave(store: seq<Match>, id: UserId): (r: seq<Match>)
    ensures FirstWaitingWith(store, id).None? ==> r == store
    ensures FirstWaitingWith(store, id).Some? ==>
              var i := FirstWaitingWith(store, id).value;
              (forall s :: s in store[i].players ==> s.id == id) ==> r == store[..i] + store[i + 1..]
    ensures FirstWaitingWith(store, id).Some? ==>
              var i := FirstWaitingWith(store, id).value;
              (exists s :: s in store[i].players && s.id != id) ==>
                && |r| == |store| && r[i].status == Waiting && !HasSeat(r[i], id)
                && (forall s :: s in r[i].players <==> s in store[i].players && s.id != id)
                && SeatsKept(r[i].players, store[i].players, id)
                && (forall j :: 0 <= j < |store| && j != i ==> r[j] == store[j])
  {
    match FirstWaitingWith(store, id)
    case None => store
    case Some(i) =>
      var rest := PullSeats(store[i].players, id);
      if |rest| == 0 then store[..i] + store[i + 1..]
      else store[i := store[i].(players := rest)]
  }

  lemma LeaveKeepsWaitingAlone(store: seq<Match>, id: UserId)
    requires WaitingAlone(store)
    ensures WaitingAlone(Leave(store, id))
  {
    match FirstWaitingWith(store, id)
    case None =>
    case Some(i) =>
      var r := Leave(store, id);
      assert store[i].players[0].id == id;
      assert PullSeats(store[i].players, id) == [];
      forall j | 0 <= j < |r| && r[j].status == Waiting ensures |r[j].players| == 1 {
        if j < i { assert r[j] == store[j]; } else { assert r[j] == store[j + 1]; }
      }
  }

  /**
    A `/find` that opened a new match is undone by the same user's `/leave`,
    provided the user was not already waiting somewhere.
   */
  lemma LeaveUndoesFind(store: seq<Match>, u: Account)
    requires forall i :: 0 <= i < |store| ==> !(store[i].status == Waiting && HasSeat(store[i], u.id))
    ensures Find(store, Some(u)).Created? ==> Leave(Find(store, Some(u)).store, u.id) == store
  {
    var r := Find(store, Some(u));
    if r.Created? {
      var s' := r.store;
      assert s'[|store|].players[0].id == u.id;
      assert FirstWaitingWith(s', u.id) == Some(|store|) by {
        forall i | 0 <= i < |store| ensures !(s'[i].status == Waiting && HasSeat(s'[i], u.id)) {
          assert s'[i] == store[i];
        }
      }
      assert PullSeats(s'[|store|].players, u.id) == [];
      assert s'[..|store|] + s'[|store| + 1..] == store;
    }
  }
}
