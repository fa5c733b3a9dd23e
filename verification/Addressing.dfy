/** The DNS names of mailbox slots, claims and chunks. */
module Addressing {
  import opened Prelude
  import opened Text
  import opened TextCodec
  import opened Library

  const SLOT_COUNT := 10
  const DEFAULT_TTL_SECONDS: u32 := 300

  function SlotDomain(lib: Library, recipientId: Key32, slot: nat, zone: string): string {
    "slot-" + DecimalOf(slot) + ".mb-" + lib.hash12(recipientId) + "." + TrimEndDots(zone)
  }

  function ClaimName(lib: Library, recipientId: Key32, slot: nat, providerZone: string): string {
    "claim-" + DecimalOf(slot) + ".mb-" + lib.hash12(recipientId) + "." + TrimEndDots(providerZone)
  }

  function MsgKey(lib: Library, msgId: MsgId, recipientId: Key32, spk: Key32): string {
    lib.hash12(msgId + recipientId + spk)
  }

  /** At least four digits. */
  function Padded(n: nat): string {
    var d := DecimalOf(n);
    if |d| >= 4 then d else "0000"[|d|..] + d
  }

  function ChunkDomain(key: string, chunkNum: nat, zone: string): string {
    "chunk-" + Padded(chunkNum) + ("-" + key + "." + TrimEndDots(zone))
  }

  function SlotForMsgId(msgId: MsgId): (slot: nat)
    ensures slot < SLOT_COUNT
  {
    FromBigEndian(msgId[..4]) % SLOT_COUNT
  }

  lemma {:induction false} LeadingZeros(zeros: string, d: string)
    requires forall i :: 0 <= i < |zeros| ==> zeros[i] == '0'
    requires forall c :: c in d ==> IsDigit(c)
    ensures forall c :: c in zeros + d ==> IsDigit(c)
    ensures ParseDecimal(zeros + d) == ParseDecimal(d)
    decreases |d|
  {
    var s := zeros + d;
    if d == "" {
      assert s == zeros;
      AllZeros(zeros);
    } else {
      assert s[..|s| - 1] == zeros + d[..|d| - 1];
      LeadingZeros(zeros, d[..|d| - 1]);
    }
  }

  lemma {:induction false} AllZeros(zeros: string)
    requires forall i :: 0 <= i < |zeros| ==> zeros[i] == '0'
    ensures forall c :: c in zeros ==> IsDigit(c)
    ensures ParseDecimal(zeros) == 0
  {
    if zeros != "" {
      AllZeros(zeros[..|zeros| - 1]);
    }
  }

  lemma PaddedReads(n: nat)
    ensures forall c :: c in Padded(n) ==> IsDigit(c)
    ensures ParseDecimal(Padded(n)) == n
  {
    var d := DecimalOf(n);
    DecimalRoundTrip(n);
    if |d| < 4 {
      var zeros := "0000"[|d|..];
      LeadingZeros(zeros, d);
    }
  }

  /** A slot comes from the first four bytes of the message id, the first one highest. */
  lemma SlotIs(msgId: MsgId)
    ensures SlotForMsgId(msgId) == (0x100_0000 * (msgId[0] as int) + 0x1_0000 * (msgId[1] as int)
                                    + 0x100 * (msgId[2] as int) + (msgId[3] as int)) % 10
  {
    var b := msgId[..4];
    assert b[..3] == msgId[..3] && b[..3][..2] == msgId[..2] && b[..3][..2][..1] == msgId[..1];
    assert b[..3][..2][..1][..0] == [];
    assert FromBigEndian(msgId[..1]) == msgId[0] as int;
    assert FromBigEndian(msgId[..2]) == 0x100 * (msgId[0] as int) + (msgId[1] as int);
    assert FromBigEndian(msgId[..3]) == 0x1_0000 * (msgId[0] as int) + 0x100 * (msgId[1] as int) + (msgId[2] as int);
  }

  /** How the names look. */
  lemma NamesSpelled(lib: Library, id: Key32)
    requires lib.hash12(id) == "ab"
    ensures SlotDomain(lib, id, 7, "z.") == "slot-7.mb-ab.z"
    ensures ClaimName(lib, id, 7, "z.") == "claim-7.mb-ab.z"
    ensures ChunkDomain("ab", 7, "z.") == "chunk-0007-ab.z"
  {
    DotOff();
    assert DecimalOf(7) == "7";
    assert "0000"[1..] == "000" && Padded(7) == "0007";
  }

  lemma DotOff()
    ensures TrimEndDots("z.") == "z"
  {
    assert "z."[..1] == "z";
    assert TrimEndDots("z") == "z";
  }

  lemma CutAtDash(a: string, x: string, b: string, y: string)
    requires '-' !in a && '-' !in b && a + "-" + x == b + "-" + y
    ensures a == b && x == y
  {
    assert a + "-" + x == a + ['-'] + x && b + "-" + y == b + ['-'] + y;
    FindFirst(a, '-', x);
    FindFirst(b, '-', y);
    var s := a + "-" + x;
    assert a == s[..|a|] && b == s[..|b|] && x == s[|a| + 1..] && y == s[|b| + 1..];
  }

  /** Under keys of one length, two chunk names are equal only for the same key and chunk, in
      zones that differ at most in final dots. */
  lemma ChunkNamesIff(key: string, i: nat, zone: string, key': string, i': nat, zone': string)
    requires |key| == |key'|
    ensures ChunkDomain(key, i, zone) == ChunkDomain(key', i', zone')
       <==> key == key' && i == i' && TrimEndDots(zone) == TrimEndDots(zone')
  {
    ChunkNameParts(key, i, zone);
    ChunkNameParts(key', i', zone');
    if ChunkDomain(key, i, zone) == ChunkDomain(key', i', zone') {
      CutAtDash(Padded(i), key + "." + TrimEndDots(zone), Padded(i'), key' + "." + TrimEndDots(zone'));
      CutAtLength(key, TrimEndDots(zone), key', TrimEndDots(zone'));
    }
  }

  lemma ChunkNameParts(key: string, i: nat, zone: string)
    ensures '-' !in Padded(i) && ParseDecimal(Padded(i)) == i
    ensures ChunkDomain(key, i, zone)[6..] == Padded(i) + "-" + (key + "." + TrimEndDots(zone))
  {
    PaddedReads(i);
    AfterHead("chunk-", Padded(i), key + "." + TrimEndDots(zone), ChunkDomain(key, i, zone));
  }

  lemma CutAtLength(a: string, x: string, b: string, y: string)
    requires |a| == |b| && a + "." + x == b + "." + y
    ensures a == b && x == y
  {
    var (s, t) := (a + "." + x, b + "." + y);
    assert a == s[..|a|] && b == t[..|a|] && x == s[|a| + 1..] && y == t[|a| + 1..];
  }

  lemma AfterHead(head: string, p: string, x: string, name: string)
    requires name == head + p + ("-" + x)
    ensures name[|head|..] == p + "-" + x
  {
  }

  /** Chunks of one message never share an owner name. */
  lemma ChunkNamesDiffer(key: string, zone: string, i: nat, j: nat)
    requires ChunkDomain(key, i, zone) == ChunkDomain(key, j, zone)
    ensures i == j
  {
    SameMiddle("chunk-", Padded(i), Padded(j), "-" + key + "." + TrimEndDots(zone));
    PaddedReads(i);
    PaddedReads(j);
  }

  lemma SameMiddle(head: string, a: string, b: string, tail: string)
    requires head + a + tail == head + b + tail
    ensures a == b
  {
    assert |a| == |b|;
    assert a == (head + a + tail)[|head|..|head| + |a|];
    assert b == (head + b + tail)[|head|..|head| + |b|];
  }

  /** No chunk is ever published at a mailbox slot or a claim name. */
  lemma ChunkNamesAreNoSlots(lib: Library, key: string, i: nat, zone: string, recipientId: Key32, slot: nat,
                             zone': string)
    ensures ChunkDomain(key, i, zone) != SlotDomain(lib, recipientId, slot, zone')
    ensures ChunkDomain(key, i, zone) != ClaimName(lib, recipientId, slot, zone')
    ensures SlotDomain(lib, recipientId, slot, zone) != ClaimName(lib, recipientId, slot, zone')
  {
    assert ChunkDomain(key, i, zone)[1] == 'h';
    assert SlotDomain(lib, recipientId, slot, zone')[0] == 's' && SlotDomain(lib, recipientId, slot, zone)[0] == 's';
    assert ClaimName(lib, recipientId, slot, zone')[1] == 'l';
  }
}
