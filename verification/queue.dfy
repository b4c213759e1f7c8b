/**
  The push-path matchmaking queue of server.js: `joinQueue` pairs the two oldest
  entries as soon as two are waiting, with no rating check; `leaveQueue` drops the
  first entry of a user.
 */
module Queue {
  import opened Wrappers
  import opened Session

  /** Two entries taken off the queue, oldest first. */
  datatype Pair = Pair(first: Entry, second: Entry)

  /** The queue after a join, and the pair that left it, if any. */
  datatype Joined = Joined(queue: seq<Entry>, paired: Option<Pair>)

  function PairedEntries(p: Option<Pair>): multiset<Entry> {
    match p
    case None => multiset{}
    case Some(pair) => multiset{pair.first, pair.second}
  }

  /** `joinQueue`: push the entry; once two are waiting, shift the two oldest. */
  function JoinQueue(q: seq<Entry>, e: Entry): (r: Joined)
    ensures r.paired.Some? <==> |q| >= 1
    ensures multiset(q) + multiset{e} == multiset(r.queue) + PairedEntries(r.paired)
    ensures r.paired.Some? ==> r.paired.value.first == q[0]
    ensures r.paired.Some? ==> r.paired.value.second == (if |q| >= 2 then q[1] else e)
    ensures |q| >= 2 ==> r.queue == q[2..] + [e]
    ensures |q| == 1 ==> r.queue == []
    ensures |r.queue| == if |q| >= 1 then |q| - 1 else 1
  {
    var pushed := q + [e];
    if |pushed| >= 2 then
      assert pushed == [pushed[0], pushed[1]] + pushed[2..];
      assert multiset(pushed) == multiset{pushed[0], pushed[1]} + multiset(pushed[2..]);
      Joined(pushed[2..], Some(Pair(pushed[0], pushed[1])))
    else
      Joined(pushed, None)
  }

  /** `findIndex` on `player.user._id === id`: the first position of that user, if any. */
  function FindUser(q: seq<Entry>, id: UserId): (r: Option<nat>)
    ensures r.None? <==> forall k :: 0 <= k < |q| ==> q[k].user.id != id
    ensures r.Some? ==> r.value < |q| && q[r.value].user.id == id
    ensures r.Some? ==> forall k :: 0 <= k < r.value ==> q[k].user.id != id
  {
    if |q| == 0 then None
    else if q[0].user.id == id then Some(0)
    else
      match FindUser(q[1..], id)
      case None => None
      case Some(k) => Some(k + 1)
  }

  /** How many entries of the queue belong to the user. */
  function CountUser(q: seq<Entry>, id: UserId): nat {
    if |q| == 0 then 0 else (if q[0].user.id == id then 1 else 0) + CountUser(q[1..], id)
  }

  /** `leaveQueue`: remove the first entry of the user; nothing happens if there is none. */
  function LeaveQueue(q: seq<Entry>, id: UserId): (r: seq<Entry>)
    ensures (forall k :: 0 <= k < |q| ==> q[k].user.id != id) ==> r == q
    ensures (exists k :: 0 <= k < |q| && q[k].user.id == id) ==>
              exists i :: 0 <= i < |q| && q[i].user.id == id
                && (forall k :: 0 <= k < i ==> q[k].user.id != id)
                && r == q[..i] + q[i + 1..]
  {
    match FindUser(q, id)
    case None => q
    case Some(i) => q[..i] + q[i + 1..]
  }

  lemma {:induction false} CountUserSplit(a: seq<Entry>, b: seq<Entry>, id: UserId)
    ensures CountUser(a + b, id) == CountUser(a, id) + CountUser(b, id)
  {
    if |a| > 0 {
      assert (a + b)[1..] == a[1..] + b;
      CountUserSplit(a[1..], b, id);
    } else {
      assert a + b == b;
    }
  }

  /**
    Leaving removes exactly one entry of the user when there is one, and the
    removed entry is the only thing that changes: the rest keeps its order.
   */
  lemma LeaveRemovesOne(q: seq<Entry>, id: UserId)
    ensures var r := LeaveQueue(q, id);
      && CountUser(r, id) == (if CountUser(q, id) > 0 then CountUser(q, id) - 1 else 0)
      && multiset(r) <= multiset(q)
      && |multiset(q) - multiset(r)| == (if CountUser(q, id) > 0 then 1 else 0)
  {
    var r := LeaveQueue(q, id);
    match FindUser(q, id)
    case None =>
      CountNone(q, id);
    case Some(i) =>
      assert q == q[..i] + [q[i]] + q[i + 1..];
      CountUserSplit(q[..i] + [q[i]], q[i + 1..], id);
      CountUserSplit(q[..i], [q[i]], id);
      CountUserSplit(q[..i], q[i + 1..], id);
      CountNone(q[..i], id);
      assert CountUser([q[i]], id) == 1 by {
        assert [q[i]][1..] == [];
      }
      assert multiset(q) == multiset(r) + multiset{q[i]};
  }

  lemma {:induction false} CountNone(q: seq<Entry>, id: UserId)
    requires forall k :: 0 <= k < |q| ==> q[k].user.id != id
    ensures CountUser(q, id) == 0
  {
    if |q| > 0 {
      CountNone(q[1..], id);
    }
  }

  /**
    A join pairs nobody only when the queue was empty, so the one join a leave can
    undo is the first: joining an empty queue waits, and leaving again empties it.
   */
  lemma LeaveUndoesJoin(e: Entry)
    ensures JoinQueue([], e).paired.None?
    ensures LeaveQueue(JoinQueue([], e).queue, e.user.id) == []
  {
    assert FindUser([e], e.user.id) == Some(0);
  }

  /** The user-visible queue operations, as events. */
  datatype QueueEvent = Join(entry: Entry) | Leave(id: UserId)

  function ApplyQueue(q: seq<Entry>, ev: QueueEvent): seq<Entry> {
    match ev
    case Join(e) => JoinQueue(q, e).queue
    case Leave(id) => LeaveQueue(q, id)
  }

  function RunQueue(q: seq<Entry>, evs: seq<QueueEvent>): seq<Entry>
    decreases |evs|
  {
    if |evs| == 0 then q else RunQueue(ApplyQueue(q, evs[0]), evs[1..])
  }

  /**
    Starting from a queue holding at most one entry, any sequence of joins and
    leaves leaves at most one entry waiting: nobody waits while a possible partner is queued.
   */
  lemma {:induction false} AtMostOneWaiting(q: seq<Entry>, evs: seq<QueueEvent>)
    requires |q| <= 1
    ensures |RunQueue(q, evs)| <= 1
    decreases |evs|
  {
    if |evs| > 0 {
      var q' := ApplyQueue(q, evs[0]);
      assert |q'| <= 1;
      AtMostOneWaiting(q', evs[1..]);
    }
  }
}
