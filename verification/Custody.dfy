/**
 What a resolved key and a revocation check mean in terms of the TXT strings that DNS
 serves, without the lists, graphs and loops in between.
 */
module Custody {
  import opened Prelude
  import opened DnsReader
  import opened RotationGraph
  import opened RotationChain

  /** The rotations published for one user. */
  datatype View = View(reader: Reader, v: Verifier, subject: string)
  {
    ghost predicate Rotation(rot: RotationRecord) {
      Rotates(reader, v, subject, SUBJECT_TYPE_USER_IDENTITY, rot)
    }

    ghost predicate Revoked(spk: Key32) {
      Revokes(reader, v, subject, SUBJECT_TYPE_USER_IDENTITY, spk)
    }

    /** The key has been rotated, and whichever rotation one looks at, to `next`. */
    ghost predicate Succeeds(k: Key32, next: Key32) {
      && (exists rot :: Rotation(rot) && rot.oldSpk == k)
      && (forall rot :: Rotation(rot) && rot.oldSpk == k ==> rot.newSpk == next)
    }

    /** Some rotation of `k` has a lower sequence number than every rotation of `next`. */
    ghost predicate Below(k: Key32, next: Key32) {
      exists rot :: Rotation(rot) && rot.oldSpk == k && Undercuts(rot, next)
    }

    ghost predicate Undercuts(rot: RotationRecord, next: Key32) {
      forall rot' :: Rotation(rot') && rot'.oldSpk == next ==> rot.seqNo < rot'.seqNo
    }

    /** A chain of custody: two to five different keys, none of them revoked, each
        rotated to the next and to no other, under rising sequence numbers, and the
        last not rotated at all. */
    ghost predicate Chain(c: seq<Key32>) {
      && 2 <= |c| <= 5
      && (forall i, j :: 0 <= i < j < |c| ==> c[i] != c[j])
      && (forall i :: 0 <= i < |c| ==> !Revoked(c[i]))
      && (forall i :: 0 <= i < |c| - 1 ==> Succeeds(c[i], c[i + 1]))
      && (forall i :: 0 <= i < |c| - 2 ==> Below(c[i], c[i + 1]))
      && (forall rot :: Rotation(rot) ==> rot.oldSpk != c[|c| - 1])
    }

    ghost predicate Leads(pinned: Key32, head: Key32) {
      exists c :: Chain(c) && c[0] == pinned && c[|c| - 1] == head
    }

    function Published(): Graph {
      PublishedGraph(reader, v, subject, SUBJECT_TYPE_USER_IDENTITY)
    }

    lemma EdgesAre(k: Key32)
      ensures forall next :: next in Successors(Published(), k) <==>
        exists rot :: Rotation(rot) && rot.oldSpk == k && rot.newSpk == next
      ensures forall n :: n in Seqs(Published(), k) <==>
        exists rot :: Rotation(rot) && rot.oldSpk == k && rot.seqNo == n
    {
      GraphIsPublished(reader, v, subject, SUBJECT_TYPE_USER_IDENTITY);
      forall rot | Rotation(rot) ensures Edge(rot.oldSpk, rot.newSpk, rot.seqNo) in Published().edges {
      }
    }

    lemma SucceedsIff(k: Key32, next: Key32)
      ensures Succeeds(k, next) <==> OnlySuccessor(Published(), k, next)
    {
      EdgesAre(k);
      if Succeeds(k, next) {
        var rot :| Rotation(rot) && rot.oldSpk == k;
        assert rot.newSpk in Successors(Published(), k);
      }
      if OnlySuccessor(Published(), k, next) {
        assert next in Successors(Published(), k);
        forall rot | Rotation(rot) && rot.oldSpk == k ensures rot.newSpk == next {
          assert rot.newSpk in Successors(Published(), k);
        }
      }
    }

    lemma BelowIff(k: Key32, next: Key32)
      requires Successors(Published(), k) != {} && Successors(Published(), next) != {}
      ensures Below(k, next) <==> SeqBelow(Published(), k, next)
    {
      var g := Published();
      EdgesAre(k);
      EdgesAre(next);
      if Below(k, next) {
        var rot :| Rotation(rot) && rot.oldSpk == k && Undercuts(rot, next);
        assert rot.seqNo in Seqs(g, k) && LeastSeq(g, next) in Seqs(g, next);
      }
      if SeqBelow(g, k, next) {
        var rot :| Rotation(rot) && rot.oldSpk == k && rot.seqNo == LeastSeq(g, k);
        assert Undercuts(rot, next) by {
          forall rot' | Rotation(rot') && rot'.oldSpk == next ensures rot.seqNo < rot'.seqNo {
            assert rot'.seqNo in Seqs(g, next);
          }
        }
      }
    }

    lemma LinksIff(c: seq<Key32>)
      ensures (forall i :: 0 <= i < |c| - 1 ==> Succeeds(c[i], c[i + 1])) <==> LinkedUp(Published(), c)
    {
      forall i | 0 <= i < |c| - 1 ensures Succeeds(c[i], c[i + 1]) <==> OnlySuccessor(Published(), c[i], c[i + 1]) {
        SucceedsIff(c[i], c[i + 1]);
      }
    }

    lemma RisesIff(c: seq<Key32>)
      requires LinkedUp(Published(), c)
      ensures (forall i :: 0 <= i < |c| - 2 ==> Below(c[i], c[i + 1])) <==> SeqsRise(Published(), c)
    {
      forall i | 0 <= i < |c| - 2 ensures Below(c[i], c[i + 1]) <==> SeqBelow(Published(), c[i], c[i + 1]) {
        assert OnlySuccessor(Published(), c[i], c[i + 1]) && OnlySuccessor(Published(), c[i + 1], c[i + 1 + 1]);
        assert c[i + 1] in Successors(Published(), c[i]) && c[i + 2] in Successors(Published(), c[i + 1]);
        BelowIff(c[i], c[i + 1]);
      }
    }

    lemma LastIff(k: Key32)
      ensures (forall rot :: Rotation(rot) ==> rot.oldSpk != k) <==> Successors(Published(), k) == {}
    {
      EdgesAre(k);
      if rot :| Rotation(rot) && rot.oldSpk == k {
        assert rot.newSpk in Successors(Published(), k);
      }
    }

    lemma UnrevokedIff(c: seq<Key32>)
      ensures (forall i :: 0 <= i < |c| ==> !Revoked(c[i])) <==> forall k :: k in c ==> k !in Published().revoked
    {
      GraphIsPublished(reader, v, subject, SUBJECT_TYPE_USER_IDENTITY);
      forall i | 0 <= i < |c| ensures c[i] in c {
      }
    }

    lemma ChainIff(c: seq<Key32>)
      ensures Chain(c) <==> IsChain(Published(), c)
    {
      if |c| >= 2 {
        LinksIff(c);
        if LinkedUp(Published(), c) {
          RisesIff(c);
        }
        LastIff(Last(c));
        UnrevokedIff(c);
      }
    }
  }

  /** A pinned key resolves to `head` exactly if a chain of custody that DNS serves for
      the contact leads there. */
  lemma ResolveIffCustody(reader: Reader, v: Verifier, pinned: Key32, subject: string, head: Key32)
    ensures CurrentSpk(reader, v, pinned, subject, SUBJECT_TYPE_USER_IDENTITY) == Some(head)
       <==> View(reader, v, subject).Leads(pinned, head)
  {
    var view := View(reader, v, subject);
    ResolveIffChain(view.Published(), pinned, head);
    forall c ensures view.Chain(c) <==> IsChain(view.Published(), c) {
      view.ChainIff(c);
    }
    if view.Leads(pinned, head) {
      var c :| view.Chain(c) && c[0] == pinned && c[|c| - 1] == head;
      assert IsChainFromTo(view.Published(), c, pinned, head);
    }
  }

  /** A key of which DNS serves a verified revocation leads nowhere, and nothing leads to
      it. */
  lemma RevokedLeadsNowhere(reader: Reader, v: Verifier, subject: string, name: string, txt: string,
                            rev: RevocationRecord, other: Key32)
    requires IsNameOf(v, subject, SUBJECT_TYPE_USER_IDENTITY, name)
    requires reader(name).Records? && txt in reader(name).txts && "v=dmp1;t=revocation;" <= txt
    requires v.revocation(txt, subject) == Some(rev) && rev.subjectType == SUBJECT_TYPE_USER_IDENTITY
    ensures CurrentSpk(reader, v, rev.revokedSpk, subject, SUBJECT_TYPE_USER_IDENTITY) == None
    ensures CurrentSpk(reader, v, other, subject, SUBJECT_TYPE_USER_IDENTITY) != Some(rev.revokedSpk)
  {
    var view := View(reader, v, subject);
    assert Serves(reader, v, subject, SUBJECT_TYPE_USER_IDENTITY, txt);
    assert view.Revoked(rev.revokedSpk);
    var head := CurrentSpk(reader, v, rev.revokedSpk, subject, SUBJECT_TYPE_USER_IDENTITY);
    if head.Some? {
      ResolveIffCustody(reader, v, rev.revokedSpk, subject, head.value);
    }
    ResolveIffCustody(reader, v, other, subject, rev.revokedSpk);
  }
}
