/**
 The queue of first-contact messages awaiting review, and the sender denylist
 that is kept beside it.
 */
module IntroQueue {
  import opened Prelude
  import opened ReplayCache

  datatype Intro = Intro(spk: Key32, senderLabel: Option<string>, msgId: MsgId, payload: Bytes, receivedAt: int,
                         expiresAt: int)

  datatype Denial = Denial(blockedAt: int, note: string)

  /** Row ids come from a counter and are never given out twice. */
  datatype Queue = Queue(rows: map<nat, Intro>, nextId: nat, denied: map<Key32, Denial>)

  const EMPTY := Queue(map[], 1, map[])

  function PairOf(i: Intro): Pair {
    Pair(i.spk, i.msgId)
  }

  function Pending(q: Queue): set<Pair> {
    set id | id in q.rows :: PairOf(q.rows[id])
  }

  ghost predicate WellFormed(q: Queue) {
    && (forall id :: id in q.rows ==> id < q.nextId)
    && (forall a, b :: a in q.rows && b in q.rows && PairOf(q.rows[a]) == PairOf(q.rows[b]) ==> a == b)
  }

  function Enqueued(q: Queue, i: Intro): (Queue, Option<nat>) {
    if i.spk in q.denied || PairOf(i) in Pending(q) then (q, None)
    else (q.(rows := q.rows[q.nextId := i], nextId := q.nextId + 1), Some(q.nextId))
  }

  function Blocked(q: Queue, spk: Key32, note: string, now: u64): Queue {
    q.(denied := q.denied[spk := Denial(I64Secs(now), note)])
  }

  function Unblocked(q: Queue, spk: Key32): Queue {
    q.(denied := q.denied - {spk})
  }

  function Removed(q: Queue, id: nat): Queue {
    q.(rows := q.rows - {id})
  }

  function Lookup(q: Queue, id: nat): Option<Intro> {
    if id in q.rows then Some(q.rows[id]) else None
  }

  function Cleaned(q: Queue, now: u64): Queue {
    q.(rows := map id | id in q.rows && q.rows[id].expiresAt > I64Secs(now) :: q.rows[id])
  }

  lemma EnqueueKeepsPairsDistinct(q: Queue, i: Intro)
    requires WellFormed(q)
    ensures WellFormed(Enqueued(q, i).0)
    ensures Enqueued(q, i).1.Some? <==> i.spk !in q.denied && PairOf(i) !in Pending(q)
    ensures PairOf(i) in Pending(Enqueued(q, i).0) || i.spk in q.denied
    ensures Pending(Enqueued(q, i).0) == Pending(q) + if Enqueued(q, i).1.Some? then {PairOf(i)} else {}
    ensures Enqueued(q, i).1.None? ==> Enqueued(q, i).0 == q
    ensures Enqueued(q, i).1.Some? ==>
      Enqueued(q, i) == (Queue(q.rows[q.nextId := i], q.nextId + 1, q.denied), Some(q.nextId)) && q.nextId !in q.rows
  {
    var (q', id) := Enqueued(q, i);
    if id.Some? {
      assert q'.rows[q.nextId] == i;
      assert forall id :: id in q.rows ==> q'.rows[id] == q.rows[id];
      forall p ensures p in Pending(q') <==> p in Pending(q) + {PairOf(i)} {
        if p in Pending(q) {
          var a :| a in q.rows && PairOf(q.rows[a]) == p;
          assert a in q'.rows && PairOf(q'.rows[a]) == p;
        }
      }
      forall a, b | a in q'.rows && b in q'.rows && PairOf(q'.rows[a]) == PairOf(q'.rows[b]) ensures a == b {
        assert a in q.rows ==> PairOf(q.rows[a]) in Pending(q);
        assert b in q.rows ==> PairOf(q.rows[b]) in Pending(q);
      }
    }
  }

  class IntroQueue {
    var rows: map<nat, Intro>
    var nextId: nat
    var denied: map<Key32, Denial>

    ghost function Contents(): Queue
      reads this
    {
      Queue(rows, nextId, denied)
    }

    ghost predicate Valid()
      reads this
    {
      WellFormed(Contents())
    }

    constructor ()
      ensures Valid() && Contents() == EMPTY
    {
      rows := map[];
      nextId := 1;
      denied := map[];
    }

    method IsBlocked(spk: Key32) returns (blocked: bool)
      ensures blocked <==> spk in denied
    {
      blocked := spk in denied;
    }

    /** Insert unless the sender is denied or the pair is already pending. */
    method Enqueue(i: Intro) returns (id: Option<nat>)
      requires Valid()
      modifies this
      ensures Valid()
      ensures (Contents(), id) == Enqueued(old(Contents()), i)
    {
      EnqueueKeepsPairsDistinct(Contents(), i);
      var blocked := IsBlocked(i.spk);
      if blocked {
        return None;
      }
      var collides := exists k :: k in rows && rows[k].spk == i.spk && rows[k].msgId == i.msgId;
      assert collides <==> PairOf(i) in Pending(Contents());
      if collides {
        return None;
      }
      rows := rows[nextId := i];
      id := Some(nextId);
      nextId := nextId + 1;
    }

    method BlockSender(spk: Key32, note: string, now: u64)
      requires Valid()
      modifies this`denied
      ensures Valid() && Contents() == Blocked(old(Contents()), spk, note, now)
      ensures denied == old(denied)[spk := Denial(I64Secs(now), note)]
    {
      denied := denied[spk := Denial(I64Secs(now), note)];
    }

    method UnblockSender(spk: Key32) returns (removed: bool)
      requires Valid()
      modifies this`denied
      ensures Valid() && Contents() == Unblocked(old(Contents()), spk)
      ensures removed <==> spk in old(denied)
      ensures denied == old(denied) - {spk}
    {
      removed := spk in denied;
      denied := denied - {spk};
    }

    method Get(id: nat) returns (i: Option<Intro>)
      ensures i == Lookup(Contents(), id)
    {
      i := if id in rows then Some(rows[id]) else None;
    }

    /** Read and delete one row in one step. */
    method Take(id: nat) returns (i: Option<Intro>)
      requires Valid()
      modifies this`rows
      ensures Valid() && Contents() == Removed(old(Contents()), id)
      ensures i == Lookup(old(Contents()), id)
      ensures rows == old(rows) - {id} && (i.Some? <==> id in old(rows)) && (i.Some? ==> i.value == old(rows)[id])
    {
      i := if id in rows then Some(rows[id]) else None;
      rows := rows - {id};
    }

    method Reject(id: nat) returns (removed: bool)
      requires Valid()
      modifies this`rows
      ensures Valid() && Contents() == Removed(old(Contents()), id)
      ensures removed <==> id in old(rows)
      ensures rows == old(rows) - {id}
    {
      removed := id in rows;
      rows := rows - {id};
    }

    method CleanupExpired(now: u64) returns (removed: nat)
      requires Valid()
      modifies this`rows
      ensures Valid() && Contents() == Cleaned(old(Contents()), now)
      ensures forall id :: id in rows <==> id in old(rows) && old(rows)[id].expiresAt > I64Secs(now)
      ensures forall id :: id in rows ==> rows[id] == old(rows)[id]
      ensures removed + |rows| == |old(rows)|
    {
      var kept := map id | id in rows && rows[id].expiresAt > I64Secs(now) :: rows[id];
      var gone := rows.Keys - kept.Keys;
      assert kept.Keys <= rows.Keys;
      assert rows.Keys == kept.Keys + gone;
      removed := |gone|;
      rows := kept;
    }
  }
}
