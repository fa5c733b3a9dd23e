/**
 The prekey pool as two halves that must agree: signed public prekeys in the DNS
 RRset of the user, and their private halves in the local store.
 */
module PrekeyPool {
  import opened Prelude
  import opened MemoryDns
  import P = Prekeys

  const DEFAULT_PREKEY_TTL_SECONDS: u64 := 86_400

  /** Signing a prekey into a TXT string, and reading one back under the same
      identity key. */
  datatype Codec = Codec(sign: P.Prekey -> string, parse: string -> Option<P.Prekey>, publicOf: Key32 -> Key32)

  ghost predicate Lawful(codec: Codec) {
    && (forall p :: codec.parse(codec.sign(p)) == Some(p))
    && codec.parse("") == None
  }

  datatype State = State(rows: P.Rows, dns: Table)

  /** A TXT string at the pool name that carries one of the user's own prekeys,
      not yet expired. */
  ghost predicate Offered(dns: Table, name: string, codec: Codec, txt: string, p: P.Prekey, now: u64) {
    && (exists until :: Holds(dns, name, txt, until))
    && codec.parse(txt) == Some(p)
    && I64Secs(p.exp) > I64Secs(now)
  }

  /** The private half of `p` is stored. */
  ghost predicate Held(rows: P.Rows, p: P.Prekey) {
    && p.id in rows
    && rows[p.id].publicKey == p.publicKey
    && rows[p.id].exp == I64Secs(p.exp)
  }

  /** The private half of `p` is stored, with the TXT string that offers it. */
  ghost predicate Backed(rows: P.Rows, txt: string, p: P.Prekey) {
    Held(rows, p) && rows[p.id].wire == txt
  }

  ghost predicate Agreement(st: State, name: string, codec: Codec, now: u64) {
    forall txt, p :: Offered(st.dns, name, codec, txt, p, now) ==> Backed(st.rows, txt, p)
  }

  ghost predicate Inv(st: State, name: string, codec: Codec, now: u64) {
    && WellFormed(st.dns)
    && Agreement(st, name, codec, now)
    && (forall id :: id in st.rows ==> st.rows[id].publicKey == codec.publicOf(st.rows[id].secret))
    && (forall id :: id in st.rows && st.rows[id].wire != "" ==>
          codec.parse(st.rows[id].wire).Some? && codec.parse(st.rows[id].wire).value.id == id)
  }

  /** The part of agreement that senders rely on: whatever is offered can be opened,
      even if its TXT string has not been noted in the row. */
  ghost predicate Openable(st: State, name: string, codec: Codec, now: u64) {
    && WellFormed(st.dns)
    && (forall txt, p :: Offered(st.dns, name, codec, txt, p, now) ==> Held(st.rows, p))
    && (forall id :: id in st.rows ==> st.rows[id].publicKey == codec.publicOf(st.rows[id].secret))
  }

  lemma AgreeingIsOpenable(st: State, name: string, codec: Codec, now: u64)
    requires Inv(st, name, codec, now)
    ensures Openable(st, name, codec, now)
  {
    forall txt, p | Offered(st.dns, name, codec, txt, p, now) ensures Held(st.rows, p) {
      assert Backed(st.rows, txt, p);
    }
  }

  /** What agreement is for: a sender that picks any own prekey DNS still serves
      picks one that the user can decrypt with. */
  lemma ServedPrekeysDecrypt(st: State, name: string, codec: Codec, now: u64, txt: string, p: P.Prekey)
    requires Openable(st, name, codec, now)
    requires txt in TxtsOf(Lookup(st.dns, name, now)) && codec.parse(txt) == Some(p)
    requires p.exp > now && now < I64_MAX
    ensures P.Usable(st.rows, p.id, now).Some?
    ensures codec.publicOf(P.Usable(st.rows, p.id, now).value.secret) == p.publicKey
  {
    LookupMeaning(st.dns, name, now);
    StoredLater(p.exp, now);
    assert Offered(st.dns, name, codec, txt, p, now);
  }

  /** Time passing cannot break agreement. */
  lemma AgreementLasts(st: State, name: string, codec: Codec, now: u64, later: u64)
    requires Inv(st, name, codec, now) && now <= later
    ensures Inv(st, name, codec, later)
  {
    forall txt, p | Offered(st.dns, name, codec, txt, p, later) ensures Backed(st.rows, txt, p) {
      assert Offered(st.dns, name, codec, txt, p, now);
    }
  }

  /** The writer's answer. A write that was declined, or whose answer was an error or
      got lost, may have taken effect all the same. */
  datatype Write = Accepted | Declined(landed: bool) | Errored(landed: bool)
  {
    /** The record is in DNS. */
    predicate Landed() {
      Accepted? || landed
    }

    /** The record is in DNS and the client was told otherwise. */
    predicate Hidden() {
      !Accepted? && landed
    }
  }

  /** What the writer's own clock reads at the `i`th write. */
  type Clock = nat -> u64

  /** Publish one prekey and remember its TXT string. */
  function PublishOne(st: State, g: P.Generated, name: string, codec: Codec, ttl: u32, at: u64): State {
    var wire := codec.sign(g.prekey);
    State(P.WireRecorded(st.rows, g.prekey.id, wire), Published(st.dns, name, wire, ttl, at))
  }

  /** Try to publish one prekey. Its TXT string is remembered only if the writer
      accepts it. */
  function Attempted(st: State, g: P.Generated, name: string, codec: Codec, ttl: u32, at: u64, w: Write): State {
    if w.Accepted? then PublishOne(st, g, name, codec, ttl, at)
    else if w.landed then st.(dns := Published(st.dns, name, codec.sign(g.prekey), ttl, at))
    else st
  }

  /** Publish the prekeys from `i` on; the outcome of each write is given. Returns
      the state, how many were accepted, and whether the end was reached. */
  function PublishFrom(st: State, pool: seq<P.Generated>, i: nat, name: string, codec: Codec, ttl: u32, clock: Clock,
                       writes: nat -> Write): (State, nat, bool)
    requires i <= |pool|
    decreases |pool| - i
  {
    if i == |pool| then (st, 0, true)
    else
      var st' := Attempted(st, pool[i], name, codec, ttl, clock(i), writes(i));
      match writes(i)
      case Errored(_) => (st', 0, false)
      case Declined(_) => PublishFrom(st', pool, i + 1, name, codec, ttl, clock, writes)
      case Accepted =>
        var (end, n, done) := PublishFrom(st', pool, i + 1, name, codec, ttl, clock, writes);
        (end, n + 1, done)
  }

  /** The pool's rows are in the table and none of them is offered yet. */
  ghost predicate Pending(st: State, pool: seq<P.Generated>, i: nat, codec: Codec) {
    forall j :: i <= j < |pool| ==> pool[j].prekey.id in st.rows && st.rows[pool[j].prekey.id] == P.RowOf(pool[j])
  }

  lemma PublishOneAgrees(st: State, g: P.Generated, name: string, codec: Codec, ttl: u32, at: u64, now: u64)
    requires Lawful(codec) && Inv(st, name, codec, now)
    requires g.prekey.id in st.rows && st.rows[g.prekey.id] == P.RowOf(g)
    ensures Inv(PublishOne(st, g, name, codec, ttl, at), name, codec, now)
  {
    var wire := codec.sign(g.prekey);
    var st' := PublishOne(st, g, name, codec, ttl, at);
    PublishMeaning(st.dns, name, wire, ttl, at);
    forall txt, p | Offered(st'.dns, name, codec, txt, p, now) ensures Backed(st'.rows, txt, p) {
      var until :| Holds(st'.dns, name, txt, until);
      if txt != wire {
        assert Holds(st.dns, name, txt, until);
        assert Offered(st.dns, name, codec, txt, p, now);
      }
    }
  }

  /** Whatever the writer does and says, what is offered can be opened. */
  lemma AttemptOpenable(st: State, g: P.Generated, name: string, codec: Codec, ttl: u32, at: u64, w: Write, now: u64)
    requires Lawful(codec) && Openable(st, name, codec, now) && Held(st.rows, g.prekey)
    ensures Openable(Attempted(st, g, name, codec, ttl, at, w), name, codec, now)
  {
    var wire := codec.sign(g.prekey);
    var st' := Attempted(st, g, name, codec, ttl, at, w);
    PublishMeaning(st.dns, name, wire, ttl, at);
    forall txt, p | Offered(st'.dns, name, codec, txt, p, now) ensures Held(st'.rows, p) {
      if txt != wire {
        var until :| Holds(st'.dns, name, txt, until);
        assert Holds(st.dns, name, txt, until);
      }
      assert txt == wire || Offered(st.dns, name, codec, txt, p, now);
    }
  }

  lemma {:induction false} PublishOpenable(st: State, pool: seq<P.Generated>, i: nat, name: string, codec: Codec,
                                           ttl: u32, clock: Clock, now: u64, writes: nat -> Write)
    requires Lawful(codec) && Openable(st, name, codec, now) && i <= |pool| && Pending(st, pool, i, codec)
    requires forall j, k :: 0 <= j < k < |pool| ==> pool[j].prekey.id != pool[k].prekey.id
    ensures Openable(PublishFrom(st, pool, i, name, codec, ttl, clock, writes).0, name, codec, now)
    decreases |pool| - i
  {
    if i < |pool| {
      var st' := Attempted(st, pool[i], name, codec, ttl, clock(i), writes(i));
      AttemptOpenable(st, pool[i], name, codec, ttl, clock(i), writes(i), now);
      if !writes(i).Errored? {
        PublishOpenable(st', pool, i + 1, name, codec, ttl, clock, now, writes);
      }
    }
  }

  /** The prekey is offered, and its row does not say under which TXT string. */
  ghost predicate Dangling(st: State, p: P.Prekey, name: string, codec: Codec, now: u64) {
    && Offered(st.dns, name, codec, codec.sign(p), p, now)
    && p.id in st.rows && st.rows[p.id].wire == ""
  }

  lemma AttemptKeepsDangling(st: State, g: P.Generated, p: P.Prekey, name: string, codec: Codec, ttl: u32, at: u64,
                             w: Write, now: u64)
    requires Lawful(codec) && WellFormed(st.dns) && Dangling(st, p, name, codec, now) && g.prekey.id != p.id
    ensures var st' := Attempted(st, g, name, codec, ttl, at, w);
      WellFormed(st'.dns) && Dangling(st', p, name, codec, now)
  {
    var st' := Attempted(st, g, name, codec, ttl, at, w);
    PublishMeaning(st.dns, name, codec.sign(g.prekey), ttl, at);
    var until :| Holds(st.dns, name, codec.sign(p), until);
    assert codec.parse(codec.sign(g.prekey)) != codec.parse(codec.sign(p));
    assert Holds(st'.dns, name, codec.sign(p), until);
  }

  lemma {:induction false} PublishKeepsDangling(st: State, pool: seq<P.Generated>, i: nat, p: P.Prekey, name: string,
                                                codec: Codec, ttl: u32, clock: Clock, now: u64, writes: nat -> Write)
    requires Lawful(codec) && WellFormed(st.dns) && Dangling(st, p, name, codec, now) && i <= |pool|
    requires forall j :: i <= j < |pool| ==> pool[j].prekey.id != p.id
    ensures Dangling(PublishFrom(st, pool, i, name, codec, ttl, clock, writes).0, p, name, codec, now)
    decreases |pool| - i
  {
    if i < |pool| {
      var st' := Attempted(st, pool[i], name, codec, ttl, clock(i), writes(i));
      AttemptKeepsDangling(st, pool[i], p, name, codec, ttl, clock(i), writes(i), now);
      if !writes(i).Errored? {
        PublishKeepsDangling(st', pool, i + 1, p, name, codec, ttl, clock, now, writes);
      }
    }
  }

  /** A hidden write leaves its prekey dangling, unless that has expired. */
  lemma HiddenWrite(st: State, g: P.Generated, name: string, codec: Codec, ttl: u32, at: u64, w: Write, now: u64)
    requires Lawful(codec) && Inv(st, name, codec, now) && w.Hidden()
    requires g.prekey.id in st.rows && st.rows[g.prekey.id] == P.RowOf(g)
    ensures var st' := Attempted(st, g, name, codec, ttl, at, w);
      && WellFormed(st'.dns)
      && if I64Secs(g.prekey.exp) > I64Secs(now) then Dangling(st', g.prekey, name, codec, now)
         else Inv(st', name, codec, now)
  {
    var wire := codec.sign(g.prekey);
    var st' := Attempted(st, g, name, codec, ttl, at, w);
    PublishMeaning(st.dns, name, wire, ttl, at);
    assert Holds(st'.dns, name, wire, SatAdd64(at, ttl));
    forall txt, p | Offered(st'.dns, name, codec, txt, p, now) && txt != wire ensures Backed(st'.rows, txt, p) {
      var until :| Holds(st'.dns, name, txt, until);
      assert Holds(st.dns, name, txt, until);
      assert Offered(st.dns, name, codec, txt, p, now);
    }
  }

  /** The `j`th write is made: no earlier one, from the `i`th on, was an error. */
  ghost predicate Reached(writes: nat -> Write, i: nat, j: nat) {
    forall k :: i <= k < j ==> !writes(k).Errored?
  }

  /** Some write that was made took effect although the client was told otherwise, and
      what it wrote has not expired. */
  ghost predicate Misled(pool: seq<P.Generated>, i: nat, writes: nat -> Write, now: u64) {
    exists j :: i <= j < |pool| && Reached(writes, i, j) && writes(j).Hidden()
             && I64Secs(pool[j].prekey.exp) > I64Secs(now)
  }

  lemma MisledNext(pool: seq<P.Generated>, i: nat, writes: nat -> Write, now: u64)
    requires i < |pool|
    ensures Misled(pool, i, writes, now) <==>
              || (writes(i).Hidden() && I64Secs(pool[i].prekey.exp) > I64Secs(now))
              || (!writes(i).Errored? && Misled(pool, i + 1, writes, now))
  {
    if j :|
      i <= j < |pool| && Reached(writes, i, j) && writes(j).Hidden() && I64Secs(pool[j].prekey.exp) > I64Secs(now)
    {
      assert j > i ==> Reached(writes, i + 1, j) && !writes(i).Errored?;
    }
    assert Reached(writes, i, i);
    if !writes(i).Errored? {
      forall j | i + 1 <= j && Reached(writes, i + 1, j) ensures Reached(writes, i, j) {
      }
    }
  }

  /** Publishing keeps agreement exactly if the writer did not hide a write that took
      effect, of a prekey that has not expired. */
  lemma {:induction false} PublishAgreesIff(st: State, pool: seq<P.Generated>, i: nat, name: string, codec: Codec,
                                            ttl: u32, clock: Clock, now: u64, writes: nat -> Write)
    requires Lawful(codec) && Inv(st, name, codec, now) && i <= |pool| && Pending(st, pool, i, codec)
    requires forall j, k :: 0 <= j < k < |pool| ==> pool[j].prekey.id != pool[k].prekey.id
    ensures Inv(PublishFrom(st, pool, i, name, codec, ttl, clock, writes).0, name, codec, now)
       <==> !Misled(pool, i, writes, now)
    decreases |pool| - i
  {
    if i < |pool| {
      var w := writes(i);
      var st' := Attempted(st, pool[i], name, codec, ttl, clock(i), w);
      MisledNext(pool, i, writes, now);
      if w.Hidden() {
        HiddenWrite(st, pool[i], name, codec, ttl, clock(i), w, now);
      } else if w.Accepted? {
        PublishOneAgrees(st, pool[i], name, codec, ttl, clock(i), now);
      }
      if w.Hidden() && I64Secs(pool[i].prekey.exp) > I64Secs(now) {
        DanglingAtTheEnd(st', pool, i, name, codec, ttl, clock, now, writes);
      } else if !w.Errored? {
        PublishAgreesIff(st', pool, i + 1, name, codec, ttl, clock, now, writes);
      }
    }
  }

  lemma DanglingAtTheEnd(st: State, pool: seq<P.Generated>, i: nat, name: string, codec: Codec, ttl: u32, clock: Clock,
                         now: u64, writes: nat -> Write)
    requires i < |pool| && Lawful(codec) && WellFormed(st.dns) && Dangling(st, pool[i].prekey, name, codec, now)
    requires forall j, k :: 0 <= j < k < |pool| ==> pool[j].prekey.id != pool[k].prekey.id
    ensures !Inv(st, name, codec, now)
    ensures !Inv(PublishFrom(st, pool, i + 1, name, codec, ttl, clock, writes).0, name, codec, now)
  {
    PublishKeepsDangling(st, pool, i + 1, pool[i].prekey, name, codec, ttl, clock, now, writes);
    NotBacked(st, pool[i].prekey, name, codec, now);
    NotBacked(PublishFrom(st, pool, i + 1, name, codec, ttl, clock, writes).0, pool[i].prekey, name, codec, now);
  }

  lemma NotBacked(st: State, p: P.Prekey, name: string, codec: Codec, now: u64)
    requires Lawful(codec) && Dangling(st, p, name, codec, now)
    ensures !Agreement(st, name, codec, now)
  {
    assert codec.parse(codec.sign(p)) == Some(p) && codec.parse("") == None;
    assert !Backed(st.rows, codec.sign(p), p);
  }

  /** The `j`th write was made, and the writer accepted it. */
  ghost predicate Took(writes: nat -> Write, i: nat, j: nat) {
    i <= j && Reached(writes, i, j) && writes(j).Accepted?
  }

  ghost predicate HasLanded(writes: nat -> Write, i: nat, j: nat) {
    i <= j && Reached(writes, i, j) && (writes(j).Accepted? || writes(j).landed)
  }

  lemma ReachedNext(writes: nat -> Write, i: nat, j: nat)
    requires i < j
    ensures Reached(writes, i, j) <==> !writes(i).Errored? && Reached(writes, i + 1, j)
  {
    if Reached(writes, i, j) {
      assert !writes(i).Errored?;
    }
  }

  /** The writes from `i` up to `n` that the writer accepted. */
  ghost function Acceptances(writes: nat -> Write, i: nat, n: nat): set<nat> {
    set j: nat | i <= j < n && Took(writes, i, j)
  }

  lemma AcceptancesNext(writes: nat -> Write, i: nat, n: nat)
    requires i < n
    ensures Acceptances(writes, i, n)
         == (if writes(i).Accepted? then {i} else {})
            + (if writes(i).Errored? then {} else Acceptances(writes, i + 1, n))
  {
    assert Reached(writes, i, i);
    forall j: nat | i < j < n ensures Took(writes, i, j) <==> !writes(i).Errored? && Took(writes, i + 1, j) {
      ReachedNext(writes, i, j);
    }
  }

  /** What publishing returns: it gets to the end unless a write is an error, and the
      number counts the accepted writes. */
  lemma {:induction false} PublishCounts(st: State, pool: seq<P.Generated>, i: nat, name: string, codec: Codec,
                                         ttl: u32, clock: Clock, writes: nat -> Write)
    requires i <= |pool|
    ensures var (end, n, done) := PublishFrom(st, pool, i, name, codec, ttl, clock, writes);
      && (done <==> Reached(writes, i, |pool|))
      && n == |Acceptances(writes, i, |pool|)|
    decreases |pool| - i
  {
    if i < |pool| {
      var st' := Attempted(st, pool[i], name, codec, ttl, clock(i), writes(i));
      PublishCounts(st', pool, i + 1, name, codec, ttl, clock, writes);
      ReachedNext(writes, i, |pool|);
      AcceptancesNext(writes, i, |pool|);
    }
  }

  lemma AttemptMeaning(st: State, g: P.Generated, name: string, codec: Codec, ttl: u32, at: u64, w: Write)
    requires WellFormed(st.dns)
    ensures var st' := Attempted(st, g, name, codec, ttl, at, w);
      && WellFormed(st'.dns) && st'.rows.Keys == st.rows.Keys
      && (forall id :: id in st.rows ==>
            st'.rows[id] == if w.Accepted? && id == g.prekey.id then st.rows[id].(wire := codec.sign(g.prekey))
                            else st.rows[id])
      && (forall n, txt, until :: Holds(st'.dns, n, txt, until) <==>
            if (w.Accepted? || w.landed) && n == name && txt == codec.sign(g.prekey) then until == SatAdd64(at, ttl)
            else Holds(st.dns, n, txt, until))
  {
    PublishMeaning(st.dns, name, codec.sign(g.prekey), ttl, at);
  }

  /** The TXT string is one that publishing put there. */
  ghost predicate PutThere(pool: seq<P.Generated>, i: nat, codec: Codec, writes: nat -> Write, txt: string) {
    exists j :: i <= j < |pool| && HasLanded(writes, i, j) && txt == codec.sign(pool[j].prekey)
  }

  lemma PutThereNext(pool: seq<P.Generated>, i: nat, codec: Codec, writes: nat -> Write, txt: string)
    requires i < |pool|
    ensures PutThere(pool, i, codec, writes, txt) <==>
      || ((writes(i).Accepted? || writes(i).landed) && txt == codec.sign(pool[i].prekey))
      || (!writes(i).Errored? && PutThere(pool, i + 1, codec, writes, txt))
  {
    assert Reached(writes, i, i);
    forall j: nat | i < j < |pool|
      ensures HasLanded(writes, i, j) <==> !writes(i).Errored? && HasLanded(writes, i + 1, j)
    {
      ReachedNext(writes, i, j);
    }
    if PutThere(pool, i, codec, writes, txt) {
      var j :| i <= j < |pool| && HasLanded(writes, i, j) && txt == codec.sign(pool[j].prekey);
      assert j > i ==> HasLanded(writes, i + 1, j);
    }
    if !writes(i).Errored? && PutThere(pool, i + 1, codec, writes, txt) {
      var j :| i + 1 <= j < |pool| && HasLanded(writes, i + 1, j) && txt == codec.sign(pool[j].prekey);
      assert HasLanded(writes, i, j);
    }
    assert writes(i).Accepted? || writes(i).landed ==> HasLanded(writes, i, i);
  }

  ghost predicate Listed(dns: Table, n: string, txt: string) {
    exists until :: Holds(dns, n, txt, until)
  }

  /** Nothing is published anywhere but the writes that landed, and nothing disappears. */
  lemma {:induction false} PublishPuts(st: State, pool: seq<P.Generated>, i: nat, name: string, codec: Codec, ttl: u32,
                                       clock: Clock, writes: nat -> Write, n: string, txt: string)
    requires WellFormed(st.dns) && i <= |pool|
    ensures var end := PublishFrom(st, pool, i, name, codec, ttl, clock, writes).0;
      Listed(end.dns, n, txt) <==> Listed(st.dns, n, txt) || (n == name && PutThere(pool, i, codec, writes, txt))
    decreases |pool| - i
  {
    if i < |pool| {
      var st' := Attempted(st, pool[i], name, codec, ttl, clock(i), writes(i));
      AttemptMeaning(st, pool[i], name, codec, ttl, clock(i), writes(i));
      PutThereNext(pool, i, codec, writes, txt);
      HeldAfterAttempt(st, pool[i], name, codec, ttl, clock(i), writes(i), n, txt);
      if writes(i).Errored? {
        assert PublishFrom(st, pool, i, name, codec, ttl, clock, writes).0 == st';
      } else {
        PublishPuts(st', pool, i + 1, name, codec, ttl, clock, writes, n, txt);
      }
    }
  }

  lemma HeldAfterAttempt(st: State, g: P.Generated, name: string, codec: Codec, ttl: u32, at: u64, w: Write, n: string,
                         txt: string)
    requires WellFormed(st.dns)
    ensures Listed(Attempted(st, g, name, codec, ttl, at, w).dns, n, txt) <==>
      || Listed(st.dns, n, txt)
      || ((w.Accepted? || w.landed) && n == name && txt == codec.sign(g.prekey))
  {
    var st' := Attempted(st, g, name, codec, ttl, at, w);
    AttemptMeaning(st, g, name, codec, ttl, at, w);
    if (w.Accepted? || w.landed) && n == name && txt == codec.sign(g.prekey) {
      assert Holds(st'.dns, n, txt, SatAdd64(at, ttl));
    } else if until :| Holds(st.dns, n, txt, until) {
      assert Holds(st'.dns, n, txt, until);
    } else if until :| Holds(st'.dns, n, txt, until) {
      assert false;
    }
  }

  /** The row and the TXT string of the `j`th prekey are as its own write left them: an
      accepted prekey is noted in its row, one that landed is served for its
      lifetime from the second of its write. */
  lemma {:induction false} PublishKeeps(st: State, pool: seq<P.Generated>, i: nat, name: string, codec: Codec,
                                        ttl: u32, clock: Clock, writes: nat -> Write, p: P.Prekey, until: u64)
    requires Lawful(codec) && WellFormed(st.dns) && i <= |pool| && p.id in st.rows
    requires forall j :: i <= j < |pool| ==> pool[j].prekey.id != p.id
    ensures var end := PublishFrom(st, pool, i, name, codec, ttl, clock, writes).0;
      && p.id in end.rows && end.rows[p.id] == st.rows[p.id]
      && (Holds(end.dns, name, codec.sign(p), until) <==> Holds(st.dns, name, codec.sign(p), until))
    decreases |pool| - i
  {
    if i < |pool| {
      var st' := Attempted(st, pool[i], name, codec, ttl, clock(i), writes(i));
      AttemptMeaning(st, pool[i], name, codec, ttl, clock(i), writes(i));
      assert codec.parse(codec.sign(pool[i].prekey)) != codec.parse(codec.sign(p));
      if !writes(i).Errored? {
        PublishKeeps(st', pool, i + 1, name, codec, ttl, clock, writes, p, until);
      }
    }
  }

  lemma {:induction false} PublishServes(st: State, pool: seq<P.Generated>, i: nat, j: nat, name: string, codec: Codec,
                                         ttl: u32, clock: Clock, writes: nat -> Write)
    requires Lawful(codec) && WellFormed(st.dns) && i <= j < |pool| && pool[j].prekey.id in st.rows
    requires forall k, l :: 0 <= k < l < |pool| ==> pool[k].prekey.id != pool[l].prekey.id
    ensures var end := PublishFrom(st, pool, i, name, codec, ttl, clock, writes).0;
      var (p, row) := (pool[j].prekey, st.rows[pool[j].prekey.id]);
      && p.id in end.rows
      && end.rows[p.id] == (if Took(writes, i, j) then row.(wire := codec.sign(p)) else row)
      && (HasLanded(writes, i, j) ==> Holds(end.dns, name, codec.sign(p), SatAdd64(clock(j), ttl)))
    decreases j - i
  {
    var st' := Attempted(st, pool[i], name, codec, ttl, clock(i), writes(i));
    AttemptMeaning(st, pool[i], name, codec, ttl, clock(i), writes(i));
    if i == j {
      assert Reached(writes, i, i);
      if !writes(i).Errored? {
        PublishKeeps(st', pool, i + 1, name, codec, ttl, clock, writes, pool[j].prekey, SatAdd64(clock(j), ttl));
      }
    } else {
      ReachedNext(writes, i, j);
      if !writes(i).Errored? {
        PublishServes(st', pool, i + 1, j, name, codec, ttl, clock, writes);
      }
    }
  }

  /** New rows under ids that were free disturb nothing that is offered. */
  lemma InsertAgrees(st: State, pool: seq<P.Generated>, exp: u64, firstBorn: nat, name: string, codec: Codec, now: u64)
    requires Inv(st, name, codec, now) && P.FreshPool(pool, st.rows, exp, firstBorn, codec.publicOf)
    ensures Inv(st.(rows := P.Inserted(st.rows, pool)), name, codec, now)
    ensures Pending(st.(rows := P.Inserted(st.rows, pool)), pool, 0, codec)
  {
    P.InsertedRows(st.rows, pool);
    var rows := P.Inserted(st.rows, pool);
    forall id | id in rows
      ensures rows[id].publicKey == codec.publicOf(rows[id].secret)
      ensures rows[id].wire != "" ==> id in st.rows && rows[id] == st.rows[id]
    {
      if i :| 0 <= i < |pool| && pool[i].prekey.id == id {
        assert rows[id] == P.RowOf(pool[i]);
      }
    }
    forall txt, p | Offered(st.dns, name, codec, txt, p, now) ensures Backed(rows, txt, p) {
      assert Backed(st.rows, txt, p);
    }
  }

  lemma InsertOpenable(st: State, pool: seq<P.Generated>, exp: u64, firstBorn: nat, name: string, codec: Codec,
                       now: u64)
    requires Openable(st, name, codec, now) && P.FreshPool(pool, st.rows, exp, firstBorn, codec.publicOf)
    ensures Openable(st.(rows := P.Inserted(st.rows, pool)), name, codec, now)
    ensures Pending(st.(rows := P.Inserted(st.rows, pool)), pool, 0, codec)
  {
    P.InsertedRows(st.rows, pool);
    var rows := P.Inserted(st.rows, pool);
    forall id | id in rows ensures rows[id].publicKey == codec.publicOf(rows[id].secret) {
      if i :| 0 <= i < |pool| && pool[i].prekey.id == id {
        assert rows[id] == P.RowOf(pool[i]);
      }
    }
    forall txt, p | Offered(st.dns, name, codec, txt, p, now) ensures Held(rows, p) {
      assert Held(st.rows, p);
    }
  }

  /** Consuming a prekey; `deleted` says whether the DNS delete went through. */
  function ConsumeOne(st: State, id: u32, name: string, deleted: bool): State {
    var wire := P.WireOf(st.rows, id);
    State(P.Consumed(st.rows, id),
          if wire.Some? && deleted then Deleted(st.dns, name, wire) else st.dns)
  }

  /** Consuming a prekey removes the TXT string of that prekey and of no other. */
  lemma ConsumeRemovesOnlyItsOwn(st: State, id: u32, name: string, codec: Codec, now: u64)
    requires Lawful(codec) && Inv(st, name, codec, now)
    ensures forall n, txt, until :: Holds(ConsumeOne(st, id, name, true).dns, n, txt, until) <==>
              Holds(st.dns, n, txt, until) && !(n == name && P.WireOf(st.rows, id) == Some(txt))
    ensures forall txt, p :: Offered(st.dns, name, codec, txt, p, now) && p.id != id
              ==> Offered(ConsumeOne(st, id, name, true).dns, name, codec, txt, p, now)
    ensures forall txt, p :: Offered(ConsumeOne(st, id, name, true).dns, name, codec, txt, p, now) ==> p.id != id
  {
    var st' := ConsumeOne(st, id, name, true);
    var wire := P.WireOf(st.rows, id);
    if wire.Some? {
      DeleteMeaning(st.dns, name, wire.value);
    }
    forall txt, p | Offered(st.dns, name, codec, txt, p, now) && p.id != id
      ensures Offered(st'.dns, name, codec, txt, p, now)
    {
      var until :| Holds(st.dns, name, txt, until);
      assert Holds(st'.dns, name, txt, until);
    }
    forall txt, p | Offered(st'.dns, name, codec, txt, p, now) ensures p.id != id {
      var until :| Holds(st'.dns, name, txt, until);
      assert Holds(st.dns, name, txt, until);
      assert Offered(st.dns, name, codec, txt, p, now);
      assert Backed(st.rows, txt, p);
    }
  }

  lemma ConsumeAgrees(st: State, id: u32, name: string, codec: Codec, now: u64)
    requires Lawful(codec) && Inv(st, name, codec, now)
    ensures Inv(ConsumeOne(st, id, name, true), name, codec, now)
  {
    var st' := ConsumeOne(st, id, name, true);
    ConsumeRemovesOnlyItsOwn(st, id, name, codec, now);
    if P.WireOf(st.rows, id).Some? {
      DeleteMeaning(st.dns, name, P.WireOf(st.rows, id).value);
    }
    forall txt, p | Offered(st'.dns, name, codec, txt, p, now) ensures Backed(st'.rows, txt, p) {
      var until :| Holds(st'.dns, name, txt, until);
      assert Holds(st.dns, name, txt, until);
      assert Offered(st.dns, name, codec, txt, p, now);
    }
  }

  /** When the DNS delete fails, exactly the consumed prekey is left dangling:
      agreement then fails precisely if that prekey was on offer. */
  lemma FailedDeleteDangles(st: State, id: u32, name: string, codec: Codec, now: u64)
    requires Lawful(codec) && Inv(st, name, codec, now)
    ensures Agreement(ConsumeOne(st, id, name, false), name, codec, now)
       <==> !exists txt, p :: Offered(st.dns, name, codec, txt, p, now) && p.id == id
  {
    var st' := ConsumeOne(st, id, name, false);
    if txt, p :| Offered(st.dns, name, codec, txt, p, now) && p.id == id {
      assert Offered(st'.dns, name, codec, txt, p, now) && !Backed(st'.rows, txt, p);
    } else {
      forall txt, p | Offered(st'.dns, name, codec, txt, p, now) ensures Backed(st'.rows, txt, p) {
        assert Offered(st.dns, name, codec, txt, p, now);
      }
    }
  }

  lemma CleanupAgrees(st: State, name: string, codec: Codec, now: u64)
    requires Inv(st, name, codec, now)
    ensures Inv(st.(rows := P.Unexpired(st.rows, now)), name, codec, now)
  {
    forall txt, p | Offered(st.dns, name, codec, txt, p, now) ensures Backed(P.Unexpired(st.rows, now), txt, p) {
      assert Backed(st.rows, txt, p);
    }
  }

  function EffectiveTtl(ttlSeconds: u64): u64 {
    if ttlSeconds == 0 then DEFAULT_PREKEY_TTL_SECONDS else ttlSeconds
  }

  function ClampTtl(ttl: u64): u32 {
    if ttl < U32_LIMIT then ttl else U32_LIMIT - 1
  }

  /** The publishing half of a client: its prekey store and the DNS store it
      writes to. */
  class PrekeyPublisher {
    const store: P.PrekeyStore
    const dns: InMemoryDnsStore
    const name: string
    const codec: Codec

    ghost function Current(): State
      reads this, store, dns
    {
      State(store.rows, dns.records)
    }

    ghost predicate Valid(now: u64)
      reads this, store, dns
    {
      Lawful(codec) && Inv(Current(), name, codec, now)
    }

    /** What is left of it when the writer has hidden a write. */
    ghost predicate Opens(now: u64)
      reads this, store, dns
    {
      Lawful(codec) && Openable(Current(), name, codec, now)
    }

    constructor (store: P.PrekeyStore, dns: InMemoryDnsStore, name: string, codec: Codec)
      ensures this.store == store && this.dns == dns && this.name == name && this.codec == codec
    {
      this.store := store;
      this.dns := dns;
      this.name := name;
      this.codec := codec;
    }

    /** Sign and publish one prekey, and remember its TXT string if the writer accepts
        it. */
    method AttemptPrekey(g: P.Generated, ttl: u32, at: u64, w: Write)
      requires WellFormed(dns.records)
      modifies store`rows, dns
      ensures WellFormed(dns.records)
      ensures Current() == Attempted(old(Current()), g, name, codec, ttl, at, w)
    {
      var wire := codec.sign(g.prekey);
      if w.Landed() {
        var _ := dns.PublishTxtRecord(name, wire, ttl, at);
      }
      if w.Accepted? {
        store.RecordWire(g.prekey.id, wire);
      }
    }

    /** Sign and publish a generated pool. A failed write ends the loop; a declined
        one is skipped. */
    method PublishPool(pool: seq<P.Generated>, ttl: u32, clock: Clock, writes: nat -> Write)
      returns (published: Option<nat>)
      requires WellFormed(dns.records)
      modifies store`rows, dns
      ensures WellFormed(dns.records)
      ensures var (end, n, done) := PublishFrom(old(Current()), pool, 0, name, codec, ttl, clock, writes);
              Current() == end && published == if done then Some(n) else None
    {
      ghost var start := Current();
      var n := 0;
      for i := 0 to |pool|
        invariant WellFormed(dns.records)
        invariant var (end, m, done) := PublishFrom(Current(), pool, i, name, codec, ttl, clock, writes);
                  PublishFrom(start, pool, 0, name, codec, ttl, clock, writes) == (end, n + m, done)
      {
        AttemptPrekey(pool[i], ttl, clock(i), writes(i));
        if writes(i).Errored? {
          return None;
        }
        if writes(i).Accepted? {
          n := n + 1;
        }
      }
      return Some(n);
    }

    /** Generate, sign and publish `count` prekeys. */
    method RefreshPrekeys(count: u32, ttlSeconds: u64, now: u64, draws: nat -> u32, secrets: nat -> Key32,
                           writes: nat -> Write, clock: Clock)
      returns (published: Option<nat>, ghost pool: Option<seq<P.Generated>>)
      requires Opens(now)
      modifies store, dns
      ensures Opens(now)
      ensures old(Valid(now)) ==> (Valid(now) <==> pool.None? || !Misled(pool.value, 0, writes, now))
      ensures pool.None? ==>
        published == None && Current() == old(Current()) && store.nextBorn == old(store.nextBorn)
      ensures pool.Some? ==>
        && |pool.value| == count && store.nextBorn == old(store.nextBorn) + count
        && P.FreshPool(pool.value, old(store.rows), SatAdd64(now, if ttlSeconds == 0 then 86_400 else ttlSeconds),
                       old(store.nextBorn), codec.publicOf)
        && P.OwnSecrets(pool.value, secrets)
        && var (end, n, done) := PublishFrom(State(P.Inserted(old(store.rows), pool.value), old(dns.records)),
                                             pool.value, 0,
                                             name, codec, if ttlSeconds == 0 then 86_400 else if ttlSeconds < U32_LIMIT
                                             then ttlSeconds else U32_LIMIT - 1, clock, writes);
           Current() == end && published == if done then Some(n) else None
    {
      var ttl := EffectiveTtl(ttlSeconds);
      ghost var before := Current();
      ghost var firstBorn := store.nextBorn;
      var generated := store.GeneratePool(count, ttl, now, draws, secrets, codec.publicOf);
      if generated.None? {
        return None, None;
      }
      pool := generated;
      InsertOpenable(before, generated.value, SatAdd64(now, ttl), firstBorn, name, codec, now);
      PublishOpenable(Current(), generated.value, 0, name, codec, ClampTtl(ttl), clock, now, writes);
      if Inv(before, name, codec, now) {
        InsertAgrees(before, generated.value, SatAdd64(now, ttl), firstBorn, name, codec, now);
        PublishAgreesIff(Current(), generated.value, 0, name, codec, ClampTtl(ttl), clock, now, writes);
      }
      published := PublishPool(generated.value, ClampTtl(ttl), clock, writes);
    }

    /** Drop a used prekey: its TXT string, as far as the writer lets us, and then
        the row, always. */
    method ConsumePrekeyWithDns(id: u32, writerWorks: bool)
      requires WellFormed(dns.records)
      modifies store`rows, dns
      ensures WellFormed(dns.records)
      ensures Current() == ConsumeOne(old(Current()), id, name, writerWorks)
    {
      var wire := store.GetWire(id);
      if wire.Some? && writerWorks {
        var _ := dns.DeleteTxtRecord(name, wire);
      }
      var _ := store.Consume(id);
    }
  }
}
