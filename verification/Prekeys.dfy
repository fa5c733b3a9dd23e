/**
 The store of one-time prekeys. A row is keyed by a random 32-bit id; consuming
 a prekey deletes its row. Each generated prekey also carries its birth number,
 which the program does not have: it lets two prekeys that were given the same
 id at different times be told apart.
 */
module Prekeys {
  import opened Prelude

  const MAX_PREKEY_ID_RETRIES := 16

  datatype Prekey = Prekey(id: u32, publicKey: Key32, exp: u64)

  datatype Row = Row(secret: Key32, publicKey: Key32, exp: int, wire: string, born: nat)

  datatype Generated = Generated(prekey: Prekey, secret: Key32, born: nat)

  type Rows = map<u32, Row>

  function RowOf(g: Generated): Row {
    Row(g.secret, g.prekey.publicKey, I64Secs(g.prekey.exp), "", g.born)
  }

  /** The table after inserting a pool, in order. */
  function Inserted(rows: Rows, pool: seq<Generated>): Rows {
    if pool == [] then rows else Inserted(rows, pool[..|pool| - 1])[Last(pool).prekey.id := RowOf(Last(pool))]
  }

  function WireRecorded(rows: Rows, id: u32, wire: string): Rows {
    if id in rows then rows[id := rows[id].(wire := wire)] else rows
  }

  function Consumed(rows: Rows, id: u32): Rows {
    rows - {id}
  }

  function Unexpired(rows: Rows, now: u64): Rows {
    map id | id in rows && rows[id].exp > I64Secs(now) :: rows[id]
  }

  /** The row whose secret decrypts for `id`, if it is there and not expired. */
  function Usable(rows: Rows, id: u32, now: u64): Option<Row> {
    if id in rows && rows[id].exp > I64Secs(now) then Some(rows[id]) else None
  }

  function WireOf(rows: Rows, id: u32): Option<string> {
    if id in rows && rows[id].wire != "" then Some(rows[id].wire) else None
  }

  /** A new pool: ids that were free and differ from each other, the promised
      expiry, matching key halves, consecutive birth numbers. */
  ghost predicate FreshPool(pool: seq<Generated>, rows: Rows, exp: u64, firstBorn: nat, publicOf: Key32 -> Key32) {
    && (forall i :: 0 <= i < |pool| ==>
          && pool[i].prekey.id !in rows
          && pool[i].prekey.exp == exp
          && pool[i].prekey.publicKey == publicOf(pool[i].secret)
          && pool[i].born == firstBorn + i)
    && (forall i, j :: 0 <= i < j < |pool| ==> pool[i].prekey.id != pool[j].prekey.id)
  }

  lemma {:induction false} InsertedKeys(rows: Rows, pool: seq<Generated>)
    ensures Inserted(rows, pool).Keys == rows.Keys + set i | 0 <= i < |pool| :: pool[i].prekey.id
  {
    if pool != [] {
      var init := pool[..|pool| - 1];
      InsertedKeys(rows, init);
      assert forall i :: 0 <= i < |init| ==> init[i] == pool[i];
      assert (set i | 0 <= i < |pool| :: pool[i].prekey.id)
          == (set i | 0 <= i < |init| :: init[i].prekey.id) + {Last(pool).prekey.id};
    }
  }

  lemma InsertedRows(rows: Rows, pool: seq<Generated>)
    requires forall i, j :: 0 <= i < j < |pool| ==> pool[i].prekey.id != pool[j].prekey.id
    ensures Inserted(rows, pool).Keys == rows.Keys + set i | 0 <= i < |pool| :: pool[i].prekey.id
    ensures forall i :: 0 <= i < |pool| ==> Inserted(rows, pool)[pool[i].prekey.id] == RowOf(pool[i])
    ensures forall id :: id in rows && (forall i :: 0 <= i < |pool| ==> pool[i].prekey.id != id)
              ==> Inserted(rows, pool)[id] == rows[id]
  {
    InsertedKeys(rows, pool);
    forall i | 0 <= i < |pool| ensures Inserted(rows, pool)[pool[i].prekey.id] == RowOf(pool[i]) {
      InsertedOne(rows, pool, i);
    }
    forall id | id in rows && (forall i :: 0 <= i < |pool| ==> pool[i].prekey.id != id)
      ensures Inserted(rows, pool)[id] == rows[id]
    {
      InsertedBeside(rows, pool, id);
    }
  }

  lemma {:induction false} InsertedOne(rows: Rows, pool: seq<Generated>, i: nat)
    requires i < |pool| && forall j :: i < j < |pool| ==> pool[j].prekey.id != pool[i].prekey.id
    ensures pool[i].prekey.id in Inserted(rows, pool) && Inserted(rows, pool)[pool[i].prekey.id] == RowOf(pool[i])
    decreases |pool|
  {
    if i < |pool| - 1 {
      InsertedOne(rows, pool[..|pool| - 1], i);
    }
  }

  lemma {:induction false} InsertedBeside(rows: Rows, pool: seq<Generated>, id: u32)
    requires id in rows && forall i :: 0 <= i < |pool| ==> pool[i].prekey.id != id
    ensures id in Inserted(rows, pool) && Inserted(rows, pool)[id] == rows[id]
    decreases |pool|
  {
    if pool != [] {
      InsertedBeside(rows, pool[..|pool| - 1], id);
    }
  }

  /** Where a run of at most `tries` draws first hits a free id. */
  function FirstFree(rows: Rows, draws: nat -> u32, at: nat, tries: nat): (r: Option<nat>)
    ensures r.Some? ==> at <= r.value < at + tries && draws(r.value) !in rows
    ensures r.Some? ==> forall i :: at <= i < r.value ==> draws(i) in rows
    ensures r.None? ==> forall i :: at <= i < at + tries ==> draws(i) in rows
    decreases tries
  {
    if tries == 0 then None
    else if draws(at) !in rows then Some(at)
    else FirstFree(rows, draws, at + 1, tries - 1)
  }

  method AllocatePrekeyId(rows: Rows, draws: nat -> u32, at: nat) returns (hit: Option<nat>)
    ensures hit == FirstFree(rows, draws, at, MAX_PREKEY_ID_RETRIES)
  {
    for i := 0 to MAX_PREKEY_ID_RETRIES
      invariant forall j :: at <= j < at + i ==> draws(j) in rows
    {
      if draws(at + i) !in rows {
        hit := Some(at + i);
        FirstFreeIs(rows, draws, at, MAX_PREKEY_ID_RETRIES, hit);
        return;
      }
    }
    hit := None;
    FirstFreeIs(rows, draws, at, MAX_PREKEY_ID_RETRIES, hit);
  }

  lemma FirstFreeIs(rows: Rows, draws: nat -> u32, at: nat, tries: nat, hit: Option<nat>)
    requires hit.Some? ==> at <= hit.value < at + tries && draws(hit.value) !in rows
    requires forall i :: at <= i < (if hit.Some? then hit.value else at + tries) ==> draws(i) in rows
    ensures FirstFree(rows, draws, at, tries) == hit
  {
  }

  /** Sixteen consecutive draws, from `at` on, each hit an id that is in the table
      or was drawn earlier in the same transaction. */
  ghost predicate Starved(rows: Rows, draws: nat -> u32, at: nat) {
    forall i :: at <= i < at + 16 ==>
      draws(i) in rows || exists j :: 0 <= j < at && draws(j) == draws(i)
  }

  /** Every id of the pool was among the first `at` draws. */
  ghost predicate Drawn(pool: seq<Generated>, draws: nat -> u32, at: nat) {
    forall i :: 0 <= i < |pool| ==> exists j :: 0 <= j < at && draws(j) == pool[i].prekey.id
  }

  /** Every prekey of the pool has a key pair of its own: the `i`th secret that was drawn. */
  ghost predicate OwnSecrets(pool: seq<Generated>, secrets: nat -> Key32) {
    forall i :: 0 <= i < |pool| ==> pool[i].secret == secrets(i)
  }

  lemma PoolGrows(rows: Rows, pool: seq<Generated>, g: Generated, exp: u64, firstBorn: nat, publicOf: Key32 -> Key32)
    requires FreshPool(pool, rows, exp, firstBorn, publicOf)
    requires g.prekey.id !in Inserted(rows, pool) && g.prekey.exp == exp
    requires g.prekey.publicKey == publicOf(g.secret) && g.born == firstBorn + |pool|
    ensures FreshPool(pool + [g], rows, exp, firstBorn, publicOf)
    ensures Inserted(rows, pool + [g]) == Inserted(rows, pool)[g.prekey.id := RowOf(g)]
  {
    FreeOfPool(rows, pool, g.prekey.id);
    FreshAppends(rows, pool, g, exp, firstBorn, publicOf);
    assert (pool + [g])[..|pool|] == pool;
  }

  lemma FreeOfPool(rows: Rows, pool: seq<Generated>, id: u32)
    requires id !in Inserted(rows, pool)
    ensures id !in rows && forall i :: 0 <= i < |pool| ==> pool[i].prekey.id != id
  {
    InsertedKeys(rows, pool);
    forall i | 0 <= i < |pool| ensures pool[i].prekey.id in Inserted(rows, pool).Keys {
    }
    assert id !in Inserted(rows, pool).Keys;
  }

  lemma FreshAppends(rows: Rows, pool: seq<Generated>, g: Generated, exp: u64, firstBorn: nat, publicOf: Key32 -> Key32)
    requires FreshPool(pool, rows, exp, firstBorn, publicOf)
    requires g.prekey.id !in rows && forall i :: 0 <= i < |pool| ==> pool[i].prekey.id != g.prekey.id
    requires g.prekey.exp == exp && g.prekey.publicKey == publicOf(g.secret) && g.born == firstBorn + |pool|
    ensures FreshPool(pool + [g], rows, exp, firstBorn, publicOf)
  {
  }

  lemma OwnGrows(pool: seq<Generated>, g: Generated, secrets: nat -> Key32)
    requires OwnSecrets(pool, secrets) && g.secret == secrets(|pool|)
    ensures OwnSecrets(pool + [g], secrets)
  {
  }

  lemma DrawnGrows(rows: Rows, pool: seq<Generated>, g: Generated, draws: nat -> u32, at: nat, hit: nat)
    requires Drawn(pool, draws, at) && at <= hit && draws(hit) == g.prekey.id
    ensures Drawn(pool + [g], draws, hit + 1)
  {
    var grown := pool + [g];
    forall i | 0 <= i < |grown| ensures exists j :: 0 <= j < hit + 1 && draws(j) == grown[i].prekey.id {
      if i < |pool| {
        assert grown[i] == pool[i];
        var j :| 0 <= j < at && draws(j) == pool[i].prekey.id;
        assert j < hit + 1 && draws(j) == grown[i].prekey.id;
      } else {
        assert draws(hit) == grown[i].prekey.id;
      }
    }
  }

  lemma ExhaustedIsStarved(rows: Rows, pool: seq<Generated>, draws: nat -> u32, at: nat)
    requires Drawn(pool, draws, at)
    requires forall i, j :: 0 <= i < j < |pool| ==> pool[i].prekey.id != pool[j].prekey.id
    requires FirstFree(Inserted(rows, pool), draws, at, MAX_PREKEY_ID_RETRIES).None?
    ensures Starved(rows, draws, at)
  {
    InsertedRows(rows, pool);
    forall i | at <= i < at + MAX_PREKEY_ID_RETRIES
      ensures draws(i) in rows || exists j :: 0 <= j < at && draws(j) == draws(i)
    {
      assert draws(i) in Inserted(rows, pool);
    }
  }

  class PrekeyStore {
    var rows: Rows
    /** The birth number the next generated prekey gets. */
    var nextBorn: nat

    constructor ()
      ensures rows == map[] && nextBorn == 0
    {
      rows := map[];
      nextBorn := 0;
    }

    /** Generate `count` prekeys in one transaction: either all are inserted or,
        when sixteen draws in a row hit taken ids, none. */
    method GeneratePool(count: nat, ttl: u64, now: u64, draws: nat -> u32, secrets: nat -> Key32,
                        publicOf: Key32 -> Key32)
      returns (pool: Option<seq<Generated>>)
      modifies this
      ensures pool.Some? ==>
        && |pool.value| == count
        && FreshPool(pool.value, old(rows), SatAdd64(now, ttl), old(nextBorn), publicOf)
        && OwnSecrets(pool.value, secrets) && (exists at :: Drawn(pool.value, draws, at))
        && rows == Inserted(old(rows), pool.value)
        && nextBorn == old(nextBorn) + count
      ensures pool.None? ==> rows == old(rows) && nextBorn == old(nextBorn)
      ensures pool.None? ==> exists at :: Starved(old(rows), draws, at)
    {
      var exp := SatAdd64(now, ttl);
      var tx := rows;
      var at: nat := 0;
      var out: seq<Generated> := [];
      for n := 0 to count
        invariant rows == old(rows) && nextBorn == old(nextBorn)
        invariant |out| == n && tx == Inserted(rows, out)
        invariant FreshPool(out, rows, exp, nextBorn, publicOf) && OwnSecrets(out, secrets)
        invariant Drawn(out, draws, at)
      {
        var hit := AllocatePrekeyId(tx, draws, at);
        if hit.None? {
          ExhaustedIsStarved(rows, out, draws, at);
          return None;
        }
        var secret := secrets(n);
        var prekey := Prekey(draws(hit.value), publicOf(secret), exp);
        var generated := Generated(prekey, secret, nextBorn + n);
        PoolGrows(rows, out, generated, exp, nextBorn, publicOf);
        OwnGrows(out, generated, secrets);
        DrawnGrows(rows, out, generated, draws, at, hit.value);
        tx := tx[prekey.id := RowOf(generated)];
        out := out + [generated];
        at := hit.value + 1;
      }
      rows := tx;
      nextBorn := nextBorn + count;
      return Some(out);
    }

    method RecordWire(id: u32, wire: string)
      modifies this`rows
      ensures rows == WireRecorded(old(rows), id, wire)
    {
      if id in rows {
        rows := rows[id := rows[id].(wire := wire)];
      }
    }

    method GetWire(id: u32) returns (wire: Option<string>)
      ensures wire == WireOf(rows, id)
    {
      return if id in rows && rows[id].wire != "" then Some(rows[id].wire) else None;
    }

    /** The row for `id`, unless it is absent or expired. */
    method GetPrivateKey(id: u32, now: u64) returns (row: Option<Row>)
      ensures row == Usable(rows, id, now)
    {
      return if id in rows && rows[id].exp > I64Secs(now) then Some(rows[id]) else None;
    }

    method Consume(id: u32) returns (removed: bool)
      modifies this`rows
      ensures rows == Consumed(old(rows), id) && removed == (id in old(rows))
    {
      removed := id in rows;
      rows := rows - {id};
    }

    method CleanupExpired(now: u64) returns (removed: nat)
      modifies this`rows
      ensures rows == Unexpired(old(rows), now)
      ensures forall id :: id in rows <==> id in old(rows) && old(rows)[id].exp > I64Secs(now)
      ensures forall id :: id in rows ==> rows[id] == old(rows)[id]
      ensures removed + |rows| == |old(rows)|
    {
      var kept := Unexpired(rows, now);
      var gone := rows.Keys - kept.Keys;
      assert kept.Keys <= rows.Keys;
      assert rows.Keys == kept.Keys + gone;
      removed := |gone|;
      rows := kept;
    }
  }

  /** The allocator does not exclude id 0: when the first draw is 0 and the id is
      free, 0 is what it returns. */
  lemma ZeroCanBeAllocated(rows: Rows, draws: nat -> u32)
    requires NO_PREKEY !in rows && draws(0) == NO_PREKEY
    ensures FirstFree(rows, draws, 0, MAX_PREKEY_ID_RETRIES) == Some(0)
  {
  }
}
