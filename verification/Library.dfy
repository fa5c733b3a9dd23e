/**
 The library calls of the protocol, as a record of functions, and what is
 assumed of them. Randomness is an argument of the call that uses it.
 */
module Library {
  import opened Prelude
  import opened Json
  import opened Prekeys

  /** An ephemeral public key and a nonce, before any ciphertext. */
  const MIN_ENCRYPTED := 44
  const BLOCK_LEN := 128

  /** A signature-checked claim record. */
  datatype Claim = Claim(msgId: MsgId, spk: Key32, mailboxDomain: string, slot: nat, ts: u64, exp: u64)

  /** A signature-checked identity record. */
  datatype Identity = Identity(username: string, spk: Key32, versions: seq<nat>)

  datatype Library = Library(
    /** Twelve hex digits of a SHA-256 hash. */
    hash12: Bytes -> string,
    /** SHA-256 of an X25519 public key. */
    userId: Key32 -> Key32,
    /** The X25519 and Ed25519 public keys of a private seed. */
    publicOf: Key32 -> Key32,
    signingKeyOf: Key32 -> Key32,
    sign: (Key32, Bytes) -> Bytes,
    verify: (Bytes, Bytes, Key32) -> bool,
    /** seal(public, plaintext, aad, randomness): ephemeral key, nonce, ciphertext. */
    seal: (Key32, Bytes, Bytes, Bytes) -> Option<Bytes>,
    /** open(seed, sealed, aad). */
    open: (Key32, Bytes, Bytes) -> Option<Bytes>,
    b64: Bytes -> string,
    unb64: string -> Option<Bytes>,
    /** Per-chunk checksum and Reed-Solomon code. */
    wrap: Bytes -> Bytes,
    unwrap: Bytes -> Option<Bytes>,
    /** Erasure coding: all blocks and how many of them suffice. */
    split: Bytes -> Option<(seq<Bytes>, nat)>,
    assemble: (map<nat, Bytes>, nat, nat) -> Option<Bytes>,
    json: Parser,
    /** Record parsers that also check the signature inside. */
    claim: string -> Option<Claim>,
    identity: string -> Option<Identity>,
    identityDomain: (string, string) -> string,
    /** A prekey record that verifies under the identity key given. */
    prekey: (string, Key32) -> Option<Prekey>,
    prekeyName: (string, string) -> string)
  {
    ghost predicate SignLaws() {
      && (forall seed, m :: |sign(seed, m)| == SIG_LEN && verify(m, sign(seed, m), signingKeyOf(seed)))
      && (forall b :: unb64(b64(b)) == Some(b))
    }

    /** Whoever holds the seed opens what was sealed for its public key under the
        same associated data. */
    ghost predicate SealLaws() {
      forall seed, plaintext, aad, rnd :: seal(publicOf(seed), plaintext, aad, rnd).Some? ==>
        && |seal(publicOf(seed), plaintext, aad, rnd).value| >= MIN_ENCRYPTED
        && open(seed, seal(publicOf(seed), plaintext, aad, rnd).value, aad) == Some(plaintext)
    }

    /** Nobody else opens it, nor anybody under other associated data. */
    ghost predicate AuthenticityLaws() {
      forall public, plaintext, aad, rnd, seed, aad' ::
        seal(public, plaintext, aad, rnd).Some?
        && open(seed, seal(public, plaintext, aad, rnd).value, aad').Some?
        ==> publicOf(seed) == public && aad' == aad
    }

    /** `m` is some of the blocks of `data`, enough of them. */
    ghost predicate EnoughOf(m: map<nat, Bytes>, blocks: seq<Bytes>, k: nat) {
      && |m| >= k
      && (forall i :: i in m ==> i < |blocks| && m[i] == blocks[i])
    }

    ghost predicate SplitsInto(data: Bytes, blocks: seq<Bytes>, k: nat) {
      && 0 < k < |blocks|
      && (forall i :: 0 <= i < |blocks| ==> |blocks[i]| == BLOCK_LEN)
      && (forall m :: EnoughOf(m, blocks, k) ==> assemble(m, k, |blocks|) == Some(data))
    }

    ghost predicate ChunkLaws() {
      && (forall b :: |b| == BLOCK_LEN ==> unwrap(wrap(b)) == Some(b))
      && (forall data :: split(data).Some? ==> SplitsInto(data, split(data).value.0, split(data).value.1))
    }

    ghost predicate Laws() {
      SignLaws() && SealLaws() && AuthenticityLaws() && ChunkLaws() && ReadsBack(json)
    }
  }
}
