/**
 The key schedule of the token-refresh ratchet, shared by IdP and RP, as terms of a
 free algebra: two keys are equal exactly when they were derived the same way.
 */
module RatchetKeys {
  import opened Wrappers

  /** A Diffie-Hellman public key, named by its secret scalar. */
  datatype Pub = Pub(sk: nat)

  /** A shared secret: the unordered pair of the two secret scalars. */
  datatype Shared = Shared(lo: nat, hi: nat)

  datatype Key =
    | NoKey                          // the nil slice a chain key starts as
    | ZeroKey                        // 32 zero bytes, the fallback for a nil chain key
    | Seed(id: nat)                  // a session key K_S
    | Root(prev: Key, dh: Shared)    // first half of a DH ratchet step
    | Chain(prev: Key, dh: Shared)   // second half of a DH ratchet step
    | Next(ck: Key)                  // "ck" output of a symmetric step
    | Message(ck: Key)               // "mk" output of a symmetric step

  /** A header as it arrives on the wire. */
  datatype Header = Absent | Malformed | Point(pk: Pub)

  type Uint32 = x: nat | x < 0x1_0000_0000

  /** The associated data of a refresh ciphertext: header bytes followed by the sequence number. */
  datatype Aad = Aad(hdr: Header, seqNo: Uint32)

  datatype Payload = NotJson | Payload(accessToken: string, expiresIn: int)

  /** An ideal authenticated ciphertext, or bytes nobody sealed. */
  datatype Cipher = Garbage | Sealed(key: Key, payload: Payload, aad: Aad)

  datatype Request = Request(hdr: Header, seqNo: Uint32, refreshToken: string)

  datatype Reply = Reply(hdr: Header, seqNo: Uint32, c: Cipher)

  function DH(sk: nat, pk: Pub): Shared {
    if sk <= pk.sk then Shared(sk, pk.sk) else Shared(pk.sk, sk)
  }

  function KdfRK(rk: Key, dh: Shared): (Key, Key) {
    (Root(rk, dh), Chain(rk, dh))
  }

  /** The symmetric step: next chain key and message key. */
  function KdfCK(ck: Key): (Key, Key) {
    var from := if ck == NoKey then ZeroKey else ck;
    (Next(from), Message(from))
  }

  /** Opens a ciphertext: only the key and associated data it was sealed with will do. */
  function Open(key: Key, c: Cipher, aad: Aad): Option<Payload> {
    if c.Sealed? && c.key == key && c.aad == aad then Some(c.payload) else None
  }

  lemma DHCommutes(a: nat, b: nat)
    ensures DH(a, Pub(b)) == DH(b, Pub(a))
  {}

  /** A shared secret is that of one pair of key pairs only. */
  lemma DHSeparates(a: nat, b: nat, c: nat, d: nat)
    ensures DH(a, Pub(b)) == DH(c, Pub(d)) <==> (a == c && b == d) || (a == d && b == c)
  {}

  /** A DH step's two keys depend on the old root key and on the shared secret, and no root key is a chain key. */
  lemma RootStepSeparates(rk: Key, dh: Shared, rk': Key, dh': Shared)
    ensures KdfRK(rk, dh).0 == KdfRK(rk', dh').0 <==> rk == rk' && dh == dh'
    ensures KdfRK(rk, dh).1 == KdfRK(rk', dh').1 <==> rk == rk' && dh == dh'
    ensures KdfRK(rk, dh).0 != KdfRK(rk', dh').1
  {}

  /** A symmetric step's two keys depend on the chain key, and no message key is a chain key or a root key. */
  lemma SymmetricStepSeparates(ck: Key, ck': Key, rk: Key, dh: Shared)
    requires ck != NoKey && ck' != NoKey
    ensures KdfCK(ck).0 == KdfCK(ck').0 <==> ck == ck'
    ensures KdfCK(ck).1 == KdfCK(ck').1 <==> ck == ck'
    ensures KdfCK(ck).1 != KdfCK(ck').0 && KdfCK(ck).1 != KdfRK(rk, dh).0 && KdfCK(ck).1 != KdfRK(rk, dh).1
    ensures KdfCK(ck).1 != ck' || ck'.Message?
  {}

  /** A ciphertext opens to a payload iff it is that payload sealed under this key and this associated data. */
  lemma OpensIff(key: Key, c: Cipher, aad: Aad, payload: Payload)
    ensures Open(key, c, aad) == Some(payload) <==> c == Sealed(key, payload, aad)
  {}

  /** How many DH steps a root key has been through. */
  function Depth(rk: Key): nat {
    if rk.Root? then 1 + Depth(rk.prev) else 0
  }

  /** The chain key `n` symmetric steps after `base`. */
  function Advance(base: Key, n: nat): Key {
    if n == 0 then base else Next(Advance(base, n - 1))
  }

  /** The chain key born in the same DH step as a root key. */
  function ChainBeside(rk: Key): Key
    requires rk.Root?
  {
    Chain(rk.prev, rk.dh)
  }

  /** Chain keys determine the DH step they descend from and their distance from it. */
  lemma {:induction false} AdvanceInjective(rk: Key, n: nat, rk': Key, n': nat)
    requires rk.Root? && rk'.Root?
    ensures Advance(ChainBeside(rk), n) == Advance(ChainBeside(rk'), n') <==> rk == rk' && n == n'
  {
    if n > 0 && n' > 0 {
      AdvanceInjective(rk, n - 1, rk', n' - 1);
    }
  }
}
