/**
 What the two receive paths come across, and in which order.
 */
module Walks {
  import opened Prelude
  import opened DnsReader
  import opened Library
  import opened Addressing
  import opened Delivery

  type Part = nat -> seq<Item>

  /** What is built up part by part is its parts in order. */
  lemma TenParts(whole: Part, part: Part)
    requires whole(0) == [] && forall n: nat :: n < 10 ==> whole(n + 1) == whole(n) + part(n)
    ensures whole(10) == part(0) + part(1) + part(2) + part(3) + part(4) + part(5) + part(6) + part(7) + part(8)
                         + part(9)
  {
    assert whole(0 + 1) == part(0);
    assert whole(1 + 1) == whole(1) + part(1);
    assert whole(2 + 1) == whole(2) + part(2);
    assert whole(3 + 1) == whole(3) + part(3);
    assert whole(4 + 1) == whole(4) + part(4);
    assert whole(5 + 1) == whole(5) + part(5);
    assert whole(6 + 1) == whole(6) + part(6);
    assert whole(7 + 1) == whole(7) + part(7);
    assert whole(8 + 1) == whole(8) + part(8);
    assert whole(9 + 1) == whole(9) + part(9);
  }

  /** A zone is walked slot by slot, and so is a provider. */
  lemma SlotsInOrder(a: Account, reader: Reader, zone: string)
    ensures var slot := (n: nat) => SlotItems(a, reader, zone, n);
      ZoneItems(a, reader, zone, SLOT_COUNT)
      == slot(0) + slot(1) + slot(2) + slot(3) + slot(4) + slot(5) + slot(6) + slot(7) + slot(8) + slot(9)
    ensures var slot := (n: nat) => ClaimItems(a, reader, zone, n);
      ProviderItems(a, reader, zone, SLOT_COUNT)
      == slot(0) + slot(1) + slot(2) + slot(3) + slot(4) + slot(5) + slot(6) + slot(7) + slot(8) + slot(9)
  {
    TenParts((n: nat) => ZoneItems(a, reader, zone, n), (n: nat) => SlotItems(a, reader, zone, n));
    TenParts((n: nat) => ProviderItems(a, reader, zone, n), (n: nat) => ClaimItems(a, reader, zone, n));
  }

  lemma Associates(x: seq<Item>, y: seq<Item>, z: seq<Item>)
    ensures x + (y + z) == (x + y) + z
  {
  }

  /** Zones are walked one after the other. */
  lemma {:induction false} ZonesInOrder(a: Account, reader: Reader, zones: seq<string>, more: seq<string>)
    ensures MailboxItems(a, reader, zones + more) == MailboxItems(a, reader, zones) + MailboxItems(a, reader, more)
    decreases |more|
  {
    if more == [] {
      assert zones + more == zones;
    } else {
      var init := more[..|more| - 1];
      assert (zones + more)[..|zones + more| - 1] == zones + init && Last(zones + more) == Last(more);
      ZonesInOrder(a, reader, zones, init);
      Associates(MailboxItems(a, reader, zones), MailboxItems(a, reader, init),
                 ZoneItems(a, reader, Last(more), SLOT_COUNT));
    }
  }

  /** One slot lists its records in the order of the answer, a failed read as such. */
  lemma SlotLists(a: Account, reader: Reader, zone: string, slot: nat, i: nat)
    ensures var answer := reader(SlotDomain(a.lib, a.lib.userId(a.lib.publicOf(a.seed)), slot, zone));
      var items := SlotItems(a, reader, zone, slot);
      && (answer.Failed? ==> items == [Unreadable])
      && (answer.NoRecord? ==> items == [])
      && (answer.Records? ==> |items| == |answer.txts|)
      && (answer.Records? && i < |items| ==> items[i] == SlotRecord(answer.txts[i], zone))
  {
  }

  lemma ClaimSlotLists(a: Account, reader: Reader, provider: string, slot: nat, i: nat)
    ensures var answer := reader(ClaimName(a.lib, a.lib.userId(a.lib.publicOf(a.seed)), slot, provider));
      var items := ClaimItems(a, reader, provider, slot);
      && (answer.Failed? ==> items == [Unreadable])
      && (answer.NoRecord? ==> items == [])
      && (answer.Records? ==> |items| == |answer.txts|)
      && (answer.Records? && i < |items| ==> items[i] == ClaimRecord(answer.txts[i], slot))
  {
  }

  /** What a mailbox walk can come across: a failed read of one of the ten slot names of a
      walked zone, or a record served there. */
  ghost predicate AtSlot(a: Account, reader: Reader, zone: string, slot: nat, item: Item) {
    var answer := reader(SlotDomain(a.lib, a.lib.userId(a.lib.publicOf(a.seed)), slot, zone));
    match item
    case Unreadable => answer.Failed?
    case SlotRecord(record, z) => z == zone && answer.Records? && record in answer.txts
    case ClaimRecord(_, _) => false
  }

  lemma SlotItemsAre(a: Account, reader: Reader, zone: string, slot: nat, item: Item)
    ensures item in SlotItems(a, reader, zone, slot) <==> AtSlot(a, reader, zone, slot, item)
  {
    var answer := reader(SlotDomain(a.lib, a.UserId(), slot, zone));
    if answer.Records? && item.SlotRecord? && item.zone == zone && item.record in answer.txts {
      var i :| 0 <= i < |answer.txts| && answer.txts[i] == item.record;
      assert SlotItems(a, reader, zone, slot)[i] == item;
    }
  }

  ghost predicate BelowSlot(a: Account, reader: Reader, zone: string, n: nat, item: Item) {
    exists slot: nat :: slot < n && AtSlot(a, reader, zone, slot, item)
  }

  lemma {:induction false} ZoneItemsAre(a: Account, reader: Reader, zone: string, n: nat, item: Item)
    ensures item in ZoneItems(a, reader, zone, n) <==> BelowSlot(a, reader, zone, n, item)
  {
    if n > 0 {
      ZoneItemsAre(a, reader, zone, n - 1, item);
      SlotItemsAre(a, reader, zone, n - 1, item);
    }
  }

  ghost predicate InZones(a: Account, reader: Reader, zones: seq<string>, item: Item) {
    exists zone :: zone in zones && BelowSlot(a, reader, zone, 10, item)
  }

  lemma LastZone(a: Account, reader: Reader, init: seq<string>, last: string, item: Item)
    ensures InZones(a, reader, init + [last], item) <==>
      InZones(a, reader, init, item) || BelowSlot(a, reader, last, 10, item)
  {
    assert last in init + [last];
    assert forall zone :: zone in init ==> zone in init + [last];
  }

  lemma OneMoreZone(a: Account, reader: Reader, zones: seq<string>, item: Item)
    requires zones != []
    ensures item in MailboxItems(a, reader, zones) <==>
      item in MailboxItems(a, reader, zones[..|zones| - 1]) || BelowSlot(a, reader, Last(zones), 10, item)
  {
    ZoneItemsAre(a, reader, Last(zones), SLOT_COUNT, item);
  }

  /** What a mailbox walk comes across: the records served at the slot names of the walked
      zones, and their failed reads. */
  lemma {:induction false} MailboxItemsAre(a: Account, reader: Reader, zones: seq<string>, item: Item)
    ensures item in MailboxItems(a, reader, zones) <==> InZones(a, reader, zones, item)
    decreases |zones|
  {
    if zones != [] {
      var init, last := zones[..|zones| - 1], Last(zones);
      OneMoreZone(a, reader, zones, item);
      MailboxItemsAre(a, reader, init, item);
      LastZone(a, reader, init, last, item);
      assert zones == init + [last];
    }
  }
}
