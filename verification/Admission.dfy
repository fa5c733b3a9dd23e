/**
 Who may write to the inbox, in terms of the contacts, the denylist and what DNS serves
 for the contacts.
 */
module Admission {
  import opened Prelude
  import opened Delivery
  import opened Custody
  import RC = RotationChain
  import Q = IntroQueue

  /** A contact is stored under this key. */
  ghost predicate Contacted(contacts: seq<RC.Contact>, spk: Key32) {
    exists c :: c in contacts && c.spk == spk
  }

  /** A chain of custody leads from a contact's key to this one. */
  ghost predicate Inherits(poll: Poll, c: RC.Contact, spk: Key32) {
    && c.username != "" && c.domain != ""
    && View(poll.reader, poll.verifier, c.username + "@" + c.domain).Leads(c.spk, spk)
  }

  /** There are no contacts yet, the sender is one, or, with the rotation chain on, a
      contact has rotated to its key. */
  ghost predicate Known(a: Account, poll: Poll, spk: Key32) {
    || poll.contacts == []
    || Contacted(poll.contacts, spk)
    || (a.rotationChainEnabled && exists c :: c in poll.contacts && Inherits(poll, c, spk))
  }

  /** The revocation cross-check applies to contacts, if the rotation chain is on. */
  ghost predicate Checked(a: Account, poll: Poll, spk: Key32) {
    Contacted(poll.contacts, spk) && a.rotationChainEnabled
  }

  /** The contacts before the `n`th were all read and have not revoked the key. */
  ghost predicate ClearedBy(poll: Poll, spk: Key32, n: nat) {
    forall i :: 0 <= i < n && i < |poll.contacts| ==>
      && !RC.Unreadable(poll.reader, poll.verifier, poll.contacts[i])
      && !RC.RevokedFor(poll.reader, poll.verifier, poll.contacts[i], spk)
  }

  ghost predicate Cleared(poll: Poll, spk: Key32) {
    ClearedBy(poll, spk, |poll.contacts|)
  }

  /** The check ends with a contact that cannot be read. */
  ghost predicate Stuck(poll: Poll, spk: Key32) {
    exists i: nat :: i < |poll.contacts| && ClearedBy(poll, spk, i)
                     && RC.Unreadable(poll.reader, poll.verifier, poll.contacts[i])
  }

  /** The check ends with a contact that can be read and has revoked the key. */
  ghost predicate Convicted(poll: Poll, spk: Key32) {
    exists i: nat :: i < |poll.contacts| && ClearedBy(poll, spk, i)
                     && !RC.Unreadable(poll.reader, poll.verifier, poll.contacts[i])
                     && RC.RevokedFor(poll.reader, poll.verifier, poll.contacts[i], spk)
  }

  ghost predicate ForInbox(a: Account, poll: Poll, spk: Key32) {
    Known(a, poll, spk) && (Checked(a, poll, spk) ==> Cleared(poll, spk))
  }

  ghost predicate ForQueue(a: Account, poll: Poll, denied: map<Key32, Q.Denial>, spk: Key32) {
    !Known(a, poll, spk) && spk !in denied
  }

  /** The sender's messages are taken in, to the inbox or to the queue. */
  ghost predicate LetIn(a: Account, poll: Poll, st: Stores, spk: Key32) {
    ForInbox(a, poll, spk) || ForQueue(a, poll, st.queue.denied, spk)
  }

  lemma TrustedIff(a: Account, poll: Poll, spk: Key32)
    ensures Trusted(a, poll, spk) <==> Known(a, poll, spk)
    ensures Pinned(poll.contacts, spk) <==> Contacted(poll.contacts, spk)
  {
    forall c | c in poll.contacts
      ensures Inherits(poll, c, spk) <==>
        RC.Walkable(c) && RC.CurrentSpk(poll.reader, poll.verifier, c.spk, RC.SubjectOf(c),
                                        RC.SUBJECT_TYPE_USER_IDENTITY) == Some(spk)
    {
      ResolveIffCustody(poll.reader, poll.verifier, c.spk, RC.SubjectOf(c), spk);
    }
  }

  /** One contact's part in the check. */
  ghost predicate Settles(poll: Poll, spk: Key32, i: nat)
    requires i < |poll.contacts|
  {
    || RC.Unreadable(poll.reader, poll.verifier, poll.contacts[i])
    || RC.RevokedFor(poll.reader, poll.verifier, poll.contacts[i], spk)
  }

  lemma {:induction false} CheckFrom(poll: Poll, spk: Key32, n: nat)
    requires n <= |poll.contacts| && ClearedBy(poll, spk, n)
    ensures var r := RC.RevocationCheck(poll.reader, poll.verifier, poll.contacts[n..], spk);
      && (r == Some(false) <==> Cleared(poll, spk))
      && (r.None? <==> Stuck(poll, spk))
      && (r == Some(true) <==> Convicted(poll, spk))
    decreases |poll.contacts| - n
  {
    if n < |poll.contacts| && !Settles(poll, spk, n) {
      assert poll.contacts[n..][1..] == poll.contacts[n + 1..];
      CheckFrom(poll, spk, n + 1);
    } else if n < |poll.contacts| {
      forall i: nat | i < |poll.contacts| && ClearedBy(poll, spk, i) && Settles(poll, spk, i) ensures i == n {
      }
    }
  }

  /** The verdict on a sender: the four cases. */
  lemma VerdictIff(a: Account, poll: Poll, denied: map<Key32, Q.Denial>, spk: Key32)
    ensures Gate(a, poll, denied, spk).ToInbox? <==> ForInbox(a, poll, spk)
    ensures Gate(a, poll, denied, spk).ToQueue? <==> ForQueue(a, poll, denied, spk)
    ensures Gate(a, poll, denied, spk).Unanswered? <==> Checked(a, poll, spk) && Stuck(poll, spk)
    ensures Gate(a, poll, denied, spk).Drop? <==>
      (!Known(a, poll, spk) && spk in denied) || (Checked(a, poll, spk) && Convicted(poll, spk))
  {
    TrustedIff(a, poll, spk);
    assert poll.contacts[0..] == poll.contacts;
    CheckFrom(poll, spk, 0);
  }
}
