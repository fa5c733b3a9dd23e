/**
 The in-memory DNS store: owner names map to lists of TXT values, each with the
 second at which it stops being served.
 */
module MemoryDns {
  import opened Prelude
  import opened DnsReader

  datatype Entry = Entry(value: string, expiresAt: u64)

  type Table = map<string, seq<Entry>>

  ghost predicate DistinctValues(entries: seq<Entry>) {
    forall i, j :: 0 <= i < j < |entries| ==> entries[i].value != entries[j].value
  }

  /** No value is listed twice at a name. */
  ghost predicate WellFormed(t: Table) {
    forall name :: name in t ==> DistinctValues(t[name])
  }

  function EntriesAt(t: Table, name: string): seq<Entry> {
    if name in t then t[name] else []
  }

  /** `value` is stored at `name` and stays served until `until`. */
  ghost predicate Holds(t: Table, name: string, value: string, until: u64) {
    Entry(value, until) in EntriesAt(t, name)
  }

  function Upsert(entries: seq<Entry>, e: Entry): seq<Entry> {
    if entries == [] then [e]
    else if entries[0].value == e.value then [e] + entries[1..]
    else [entries[0]] + Upsert(entries[1..], e)
  }

  function Retain(entries: seq<Entry>, value: string): seq<Entry> {
    if entries == [] then []
    else (if entries[0].value != value then [entries[0]] else []) + Retain(entries[1..], value)
  }

  function LiveValues(entries: seq<Entry>, now: u64): seq<string> {
    if entries == [] then []
    else (if entries[0].expiresAt > now then [entries[0].value] else []) + LiveValues(entries[1..], now)
  }

  function Published(t: Table, name: string, value: string, ttl: u32, now: u64): Table {
    t[name := Upsert(EntriesAt(t, name), Entry(value, SatAdd64(now, ttl)))]
  }

  function Deleted(t: Table, name: string, value: Option<string>): Table {
    if name !in t then t
    else if value.None? then t - {name}
    else
      var kept := Retain(t[name], value.value);
      if kept == [] then t - {name} else t[name := kept]
  }

  function Lookup(t: Table, name: string, now: u64): Answer {
    var live := LiveValues(EntriesAt(t, name), now);
    if live == [] then NoRecord else Records(live)
  }

  /** Upsert replaces in place, or appends. */
  lemma {:induction false} UpsertAt(entries: seq<Entry>, e: Entry, i: nat)
    requires i <= |entries| && (forall j :: 0 <= j < i ==> entries[j].value != e.value)
    requires i < |entries| ==> entries[i].value == e.value
    ensures Upsert(entries, e) == if i < |entries| then entries[i := e] else entries + [e]
  {
    if i > 0 {
      UpsertAt(entries[1..], e, i - 1);
    }
  }

  lemma {:induction false} UpsertEntries(entries: seq<Entry>, e: Entry)
    requires DistinctValues(entries)
    ensures DistinctValues(Upsert(entries, e))
    ensures forall x :: x in Upsert(entries, e) <==> x == e || (x in entries && x.value != e.value)
  {
    if entries != [] {
      assert entries == [entries[0]] + entries[1..];
      if entries[0].value != e.value {
        UpsertEntries(entries[1..], e);
        var r := Upsert(entries[1..], e);
        forall j | 0 <= j < |r| ensures r[j].value != entries[0].value {
          assert r[j] in r;
        }
      }
    }
  }

  lemma {:induction false} RetainEntries(entries: seq<Entry>, value: string)
    requires DistinctValues(entries)
    ensures DistinctValues(Retain(entries, value))
    ensures forall x :: x in Retain(entries, value) <==> x in entries && x.value != value
  {
    if entries != [] {
      assert entries == [entries[0]] + entries[1..];
      RetainEntries(entries[1..], value);
      var r := Retain(entries[1..], value);
      forall j | 0 <= j < |r| ensures r[j].value != entries[0].value {
        assert r[j] in r;
      }
    }
  }

  lemma {:induction false} LiveMeaning(entries: seq<Entry>, now: u64)
    ensures forall v :: v in LiveValues(entries, now) <==> exists e :: e in entries && e.value == v && e.expiresAt > now
  {
    if entries != [] {
      LiveMeaning(entries[1..], now);
      assert entries == [entries[0]] + entries[1..];
    }
  }

  /** Publishing sets the lifetime of one value and leaves every other record as
      it was, at that name and elsewhere: publishing never evicts. */
  lemma PublishMeaning(t: Table, name: string, value: string, ttl: u32, now: u64)
    requires WellFormed(t)
    ensures WellFormed(Published(t, name, value, ttl, now))
    ensures forall n, v, until :: Holds(Published(t, name, value, ttl, now), n, v, until) <==>
              if n == name && v == value then until == SatAdd64(now, ttl) else Holds(t, n, v, until)
  {
    UpsertEntries(EntriesAt(t, name), Entry(value, SatAdd64(now, ttl)));
  }

  /** Deleting one value removes that value at that name and nothing else. */
  lemma DeleteMeaning(t: Table, name: string, value: string)
    requires WellFormed(t)
    ensures WellFormed(Deleted(t, name, Some(value)))
    ensures forall n, v, until :: Holds(Deleted(t, name, Some(value)), n, v, until) <==>
              !(n == name && v == value) && Holds(t, n, v, until)
  {
    if name in t {
      RetainEntries(t[name], value);
      var kept := Retain(t[name], value);
      forall n, v, until
        ensures Holds(Deleted(t, name, Some(value)), n, v, until) <==>
          !(n == name && v == value) && Holds(t, n, v, until)
      {
        if n == name {
          assert Entry(v, until) in kept <==> Entry(v, until) in t[name] && v != value;
        }
      }
    }
  }

  /** Deleting without a value removes everything at that name and nothing else. */
  lemma DeleteAllMeaning(t: Table, name: string)
    ensures forall n, v, until :: Holds(Deleted(t, name, None), n, v, until) <==> n != name && Holds(t, n, v, until)
    ensures WellFormed(t) ==> WellFormed(Deleted(t, name, None))
  {
  }

  /** Live values are listed in the order stored: a list's are those of its first part and
      then those of the rest. */
  lemma {:induction false} LiveInOrder(entries: seq<Entry>, more: seq<Entry>, now: u64)
    ensures LiveValues(entries + more, now) == LiveValues(entries, now) + LiveValues(more, now)
    decreases |entries|
  {
    if entries == [] {
      assert entries + more == more;
    } else {
      var first := if entries[0].expiresAt > now then [entries[0].value] else [];
      assert (entries + more)[0] == entries[0] && (entries + more)[1..] == entries[1..] + more;
      LiveInOrder(entries[1..], more, now);
      assert LiveValues(entries, now) == first + LiveValues(entries[1..], now);
    }
  }

  /** A single value is listed exactly before its time has come. */
  lemma LiveAlone(e: Entry, now: u64)
    ensures LiveValues([e], now) == if e.expiresAt > now then [e.value] else []
  {
    assert [e][1..] == [];
  }

  /** A lookup serves exactly the values whose time has not come. */
  lemma LookupMeaning(t: Table, name: string, now: u64)
    ensures forall v :: v in TxtsOf(Lookup(t, name, now)) <==>
      exists until: u64 :: Holds(t, name, v, until) && until > now
    ensures !Lookup(t, name, now).Failed?
  {
    LiveMeaning(EntriesAt(t, name), now);
    forall v ensures v in TxtsOf(Lookup(t, name, now)) <==>
      exists until: u64 :: Holds(t, name, v, until) && until > now {
      if v in TxtsOf(Lookup(t, name, now)) {
        var e :| e in EntriesAt(t, name) && e.value == v && e.expiresAt > now;
        assert Holds(t, name, v, e.expiresAt);
      }
      if until: u64 :| Holds(t, name, v, until) && until > now {
        assert Entry(v, until) in EntriesAt(t, name);
      }
    }
  }

  function TxtsOf(a: Answer): seq<string> {
    if a.Records? then a.txts else []
  }

  class InMemoryDnsStore {
    var records: Table

    ghost predicate Valid()
      reads this
    {
      WellFormed(records)
    }

    constructor ()
      ensures Valid() && records == map[]
    {
      records := map[];
    }

    method PublishTxtRecord(name: string, value: string, ttl: u32, now: u64) returns (ok: bool)
      requires Valid()
      modifies this
      ensures Valid() && ok && records == Published(old(records), name, value, ttl, now)
    {
      PublishMeaning(records, name, value, ttl, now);
      var e := Entry(value, SatAdd64(now, ttl));
      var entries := EntriesAt(records, name);
      for i := 0 to |entries|
        invariant forall j :: 0 <= j < i ==> entries[j].value != value
      {
        if entries[i].value == value {
          UpsertAt(entries, e, i);
          records := records[name := entries[i := e]];
          return true;
        }
      }
      UpsertAt(entries, e, |entries|);
      records := records[name := entries + [e]];
      return true;
    }

    method DeleteTxtRecord(name: string, value: Option<string>) returns (removed: bool)
      requires Valid()
      modifies this
      ensures Valid() && records == Deleted(old(records), name, value)
      ensures value.Some? ==> (removed <==> exists until :: Holds(old(records), name, value.value, until))
      ensures value.None? ==> (removed <==> name in old(records))
    {
      if name !in records {
        return false;
      }
      if value.None? {
        records := records - {name};
        return true;
      }
      DeleteMeaning(records, name, value.value);
      var entries := records[name];
      var kept := Retain(entries, value.value);
      RetainEntries(entries, value.value);
      removed := |kept| != |entries|;
      RetainLength(entries, value.value);
      records := if kept == [] then records - {name} else records[name := kept];
      if removed {
        var i :| 0 <= i < |entries| && entries[i].value == value.value;
        assert Holds(old(records), name, value.value, entries[i].expiresAt);
      }
    }

    method QueryTxtRecord(name: string, now: u64) returns (answer: Answer)
      ensures answer == Lookup(records, name, now)
    {
      if name !in records {
        return NoRecord;
      }
      var live := LiveValues(records[name], now);
      return if live == [] then NoRecord else Records(live);
    }
  }

  lemma {:induction false} RetainLength(entries: seq<Entry>, value: string)
    ensures |Retain(entries, value)| <= |entries|
    ensures |Retain(entries, value)| != |entries| <==> exists i :: 0 <= i < |entries| && entries[i].value == value
  {
    if entries != [] {
      RetainLength(entries[1..], value);
      if i :| 0 <= i < |entries| && entries[i].value == value {
        assert i > 0 ==> entries[1..][i - 1].value == value;
      }
      if i :| 0 <= i < |entries[1..]| && entries[1..][i].value == value {
        assert entries[i + 1].value == value;
      }
    }
  }
}
