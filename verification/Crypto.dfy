/**
  Symbolic cryptography at byte granularity.

  A byte on the wire is either a literal or a named position of the output of a primitive. Outputs have their
  real lengths, so concatenation, slicing and record sizes are those of the program, and two outputs are equal
  exactly when the inputs are. That is the idealisation of the symbolic model: hashes and codes without
  collisions, ciphertexts and signatures nobody can make without the key.
 */
module Crypto {
  import opened Bytes

  /** The order of the curve's group (secp256k1, section 2.4.1 of SEC 2). */
  const ORDER: nat := 0xFFFFFFFF_FFFFFFFF_FFFFFFFF_FFFFFFFE_BAAEDCE6_AF48A03B_BFD25E8C_D0364141

  /** A private key. */
  type Secret = d: nat | 0 < d < ORDER witness 1

  /** A key and its negation share their x coordinate, the only thing encodings, secrets and signatures depend on. */
  function UpToSign(d: Secret): (u: Secret)
    ensures u == d || u == ORDER - d
  {
    if d <= ORDER - d then d else ORDER - d
  }

  /** What scalar multiplication yields: of two known scalars, in either order, or of a scalar and other bytes. */
  datatype Point = Product(lo: Secret, hi: Secret) | Multiple(scalar: Secret, base: seq<Octet>)

  datatype Octet =
    | Lit(v: byte)
    | Digest(input: seq<Octet>, at: int)
    | Mac(macKey: seq<Octet>, input: seq<Octet>, at: int)
    | Public(scalar: Secret, aux: nat, at: int)
    | XOnly(scalar: Secret, at: int)
    | DecodedX(encoding: seq<Octet>, at: int)
    | Shared(initiator: seq<Octet>, responder: seq<Octet>, point: Point, at: int)
    | Sealed(key: seq<Octet>, nonce: Bytes, ad: seq<Octet>, plain: seq<Octet>, at: int)
    | Signed(scalar: Secret, digest: seq<Octet>, at: int)

  type Octets = seq<Octet>

  const HASH_LEN: nat := 32
  const PUBKEY_LEN: nat := 64
  const MAC_LEN: nat := 16

  // ----- literals

  function Clear(bs: Bytes): (os: Octets)
    ensures |os| == |bs|
  {
    seq(|bs|, i requires 0 <= i < |bs| => Lit(bs[i]))
  }

  /** The numeric reading of received bytes; a symbolic byte has no known value and reads as zero. */
  function Values(os: Octets): (bs: Bytes)
    ensures |bs| == |os|
  {
    seq(|os|, i requires 0 <= i < |os| => if os[i].Lit? then os[i].v else 0)
  }

  lemma ValuesOfClear(bs: Bytes)
    ensures Values(Clear(bs)) == bs
  {
  }

  lemma ClearInjective(bs: Bytes, cs: Bytes)
    requires Clear(bs) == Clear(cs)
    ensures bs == cs
  {
    ValuesOfClear(bs);
    ValuesOfClear(cs);
  }

  // ----- hashes

  function Sha256(input: Octets): (h: Octets)
    ensures |h| == HASH_LEN
  {
    seq(HASH_LEN, i => Digest(input, i))
  }

  function HmacHash(key: Octets, data: Octets): (m: Octets)
    ensures |m| == HASH_LEN
  {
    seq(HASH_LEN, i => Mac(key, data, i))
  }

  lemma Sha256Injective(a: Octets, b: Octets)
    requires Sha256(a) == Sha256(b)
    ensures a == b
  {
    assert Sha256(a)[0] == Digest(a, 0);
    assert Sha256(b)[0] == Digest(b, 0);
  }

  lemma HmacInjective(k: Octets, a: Octets, l: Octets, b: Octets)
    requires HmacHash(k, a) == HmacHash(l, b)
    ensures k == l && a == b
  {
    assert HmacHash(k, a)[0] == Mac(k, a, 0);
    assert HmacHash(l, b)[0] == Mac(l, b, 0);
  }

  lemma HashIsNotMac(a: Octets, k: Octets, b: Octets)
    ensures Sha256(a) != HmacHash(k, b)
  {
    assert Sha256(a)[0] == Digest(a, 0);
    assert HmacHash(k, b)[0] == Mac(k, b, 0);
  }

  /** Section 4.3 of the Noise Protocol Framework, with two outputs. */
  function HKDF(chainingKey: Octets, inputKeyMaterial: Octets): (out: (Octets, Octets))
    ensures |out.0| == |out.1| == HASH_LEN
  {
    var temp := HmacHash(chainingKey, inputKeyMaterial);
    var out1 := HmacHash(temp, Clear([1]));
    var out2 := HmacHash(temp, out1 + Clear([2]));
    (out1, out2)
  }

  /** Either output determines both inputs. */
  lemma HKDFInjective(ck: Octets, ikm: Octets, ck': Octets, ikm': Octets)
    requires HKDF(ck, ikm).0 == HKDF(ck', ikm').0 || HKDF(ck, ikm).1 == HKDF(ck', ikm').1
    ensures ck == ck' && ikm == ikm'
  {
    var temp, temp' := HmacHash(ck, ikm), HmacHash(ck', ikm');
    if HKDF(ck, ikm).0 == HKDF(ck', ikm').0 {
      HmacInjective(temp, Clear([1]), temp', Clear([1]));
    } else {
      HmacInjective(temp, HKDF(ck, ikm).0 + Clear([2]), temp', HKDF(ck', ikm').0 + Clear([2]));
    }
    HmacInjective(ck, ikm, ck', ikm');
  }

  /** First and second outputs never coincide, whatever the inputs. */
  lemma HKDFOutputsDiffer(ck: Octets, ikm: Octets, ck': Octets, ikm': Octets)
    ensures HKDF(ck, ikm).0 != HKDF(ck', ikm').1
  {
    var one, two := Clear([1]), HKDF(ck', ikm').0 + Clear([2]);
    assert |one| == 1 && |two| == 33;
    if HKDF(ck, ikm).0 == HKDF(ck', ikm').1 {
      HmacInjective(HmacHash(ck, ikm), one, HmacHash(ck', ikm'), two);
    }
  }

  // ----- keys

  /** A private key and the randomness its ElligatorSwift encoding was drawn with. */
  datatype Keypair = Keypair(scalar: Secret, aux: nat)

  function EllSwift(k: Keypair): (e: Octets)
    ensures |e| == PUBKEY_LEN
  {
    seq(PUBKEY_LEN, i => Public(UpToSign(k.scalar), k.aux, i))
  }

  /** The x coordinate of the public point. */
  function PublicX(scalar: Secret): (x: Octets)
    ensures |x| == 32
  {
    seq(32, i => XOnly(UpToSign(scalar), i))
  }

  /** The key pair a 64-byte encoding comes from, up to sign, when it comes from one. */
  function KeyOf(e: Octets): (k: Option<Keypair>)
    ensures k.Some? ==> EllSwift(k.value) == e
  {
    if |e| == PUBKEY_LEN && e[0].Public? && e == EllSwift(Keypair(e[0].scalar, e[0].aux))
    then Some(Keypair(e[0].scalar, e[0].aux)) else None
  }

  lemma KeyOfEllSwift(k: Keypair)
    ensures KeyOf(EllSwift(k)) == Some(Keypair(UpToSign(k.scalar), k.aux))
  {
    assert EllSwift(k)[0] == Public(UpToSign(k.scalar), k.aux, 0);
  }

  /** The x coordinate an encoding decodes to; every 64 bytes decode to one. */
  function XOf(e: Octets): (x: Octets)
    ensures |x| == 32
  {
    match KeyOf(e)
    case Some(k) => PublicX(k.scalar)
    case None => seq(32, i => DecodedX(e, i))
  }

  lemma XOfEllSwift(k: Keypair)
    ensures XOf(EllSwift(k)) == PublicX(k.scalar)
  {
    KeyOfEllSwift(k);
  }

  /** Two private keys share their x coordinate exactly when they are equal or each other's negation. */
  lemma SameXExactly(s: Secret, t: Secret)
    ensures PublicX(s) == PublicX(t) <==> s == t || s + t == ORDER
  {
    assert PublicX(s)[0] == XOnly(UpToSign(s), 0);
    assert PublicX(t)[0] == XOnly(UpToSign(t), 0);
  }

  /** One's own scalar times the remote point. */
  function Multiply(scalar: Secret, remote: Octets): Point
  {
    var own := UpToSign(scalar);
    match KeyOf(remote)
    case Some(k) => if own <= k.scalar then Product(own, k.scalar) else Product(k.scalar, own)
    case None => Multiple(own, remote)
  }

  /** The hashed shared secret of BIP 324: both encodings, the initiator's first, and the shared point. */
  function ECDH(k: Keypair, remote: Octets, isInitiator: bool): (s: Octets)
    ensures |s| == HASH_LEN
  {
    var ini := if isInitiator then EllSwift(k) else remote;
    var resp := if isInitiator then remote else EllSwift(k);
    var point := Multiply(k.scalar, remote);
    seq(HASH_LEN, i => Shared(ini, resp, point, i))
  }

  /** Both roles compute the same secret. */
  lemma ECDHSymmetric(i: Keypair, r: Keypair)
    ensures ECDH(i, EllSwift(r), true) == ECDH(r, EllSwift(i), false)
  {
    KeyOfEllSwift(i);
    KeyOfEllSwift(r);
  }

  /** The shared point of two key pairs is the product of their keys, up to sign; of other bytes, a multiple of them. */
  lemma SharedPoint(k: Keypair, remote: Octets, isInitiator: bool, i: nat)
    requires i < HASH_LEN
    ensures var s := ECDH(k, remote, isInitiator)[i];
            && s.Shared?
            && (forall r: Keypair :: remote == EllSwift(r) ==>
                  s.point == if UpToSign(k.scalar) <= UpToSign(r.scalar)
                             then Product(UpToSign(k.scalar), UpToSign(r.scalar))
                             else Product(UpToSign(r.scalar), UpToSign(k.scalar)))
            && ((forall r: Keypair :: remote != EllSwift(r)) ==> s.point == Multiple(UpToSign(k.scalar), remote))
  {
    forall r: Keypair | remote == EllSwift(r)
      ensures KeyOf(remote) == Some(Keypair(UpToSign(r.scalar), r.aux))
    {
      KeyOfEllSwift(r);
    }
  }

  /** A secret determines both encodings that went into it. */
  lemma ECDHBindsKeys(k: Keypair, remote: Octets, k': Keypair, remote': Octets)
    requires ECDH(k, remote, true) == ECDH(k', remote', false)
    ensures EllSwift(k) == remote' && remote == EllSwift(k')
  {
    assert ECDH(k, remote, true)[0] == Shared(EllSwift(k), remote, Multiply(k.scalar, remote), 0);
    assert ECDH(k', remote', false)[0] == Shared(remote', EllSwift(k'), Multiply(k'.scalar, remote'), 0);
  }

  // ----- authenticated encryption

  /** The ciphertext: as long as the plaintext, and a 16-byte tag (section 2.8 of RFC 8439). */
  function Seal(key: Octets, nonce: Bytes, ad: Octets, plain: Octets): (ct: Octets)
    ensures |ct| == |plain| + MAC_LEN
  {
    seq(|plain| + MAC_LEN, i => Sealed(key, nonce, ad, plain, i))
  }

  function Open(key: Octets, nonce: Bytes, ad: Octets, ct: Octets): (plain: Option<Octets>)
    ensures plain.Some? ==> |ct| == |plain.value| + MAC_LEN
  {
    if ct != [] && ct[0].Sealed? && ct == Seal(key, nonce, ad, ct[0].plain) then Some(ct[0].plain) else None
  }

  /** Opening succeeds exactly on what sealing produced with the same key, nonce and associated data. */
  lemma OpenExactly(key: Octets, nonce: Bytes, ad: Octets, ct: Octets, plain: Octets)
    ensures Open(key, nonce, ad, ct) == Some(plain) <==> ct == Seal(key, nonce, ad, plain)
  {
    assert Seal(key, nonce, ad, plain)[0] == Sealed(key, nonce, ad, plain, 0);
  }

  /** A ciphertext opens under no other key, nonce or associated data, and to nothing else. */
  lemma SealInjective(key: Octets, nonce: Bytes, ad: Octets, plain: Octets,
                      key': Octets, nonce': Bytes, ad': Octets, plain': Octets)
    requires Seal(key, nonce, ad, plain) == Seal(key', nonce', ad', plain')
    ensures key == key' && nonce == nonce' && ad == ad' && plain == plain'
  {
    assert Seal(key, nonce, ad, plain)[0] == Sealed(key, nonce, ad, plain, 0);
    assert Seal(key', nonce', ad', plain')[0] == Sealed(key', nonce', ad', plain', 0);
  }

  // ----- signatures

  function Sign(scalar: Secret, digest: Octets): (s: Octets)
    ensures |s| == 64
  {
    seq(64, i => Signed(UpToSign(scalar), digest, i))
  }

  /** A signature verifies under the x coordinate of the point of the scalar that made it. */
  function Verify(signature: Octets, digest: Octets, publicX: Octets): bool
  {
    && publicX != [] && publicX[0].XOnly? && publicX == PublicX(publicX[0].scalar)
    && signature == Sign(publicX[0].scalar, digest)
  }

  /** A signature verifies exactly for the digest signed, under the x coordinate of the key that signed it. */
  lemma VerifiesExactly(scalar: Secret, digest: Octets, scalar': Secret, digest': Octets)
    ensures Verify(Sign(scalar, digest), digest', PublicX(scalar'))
       <==> PublicX(scalar) == PublicX(scalar') && digest == digest'
  {
    assert PublicX(scalar)[0] == XOnly(UpToSign(scalar), 0);
    assert PublicX(scalar')[0] == XOnly(UpToSign(scalar'), 0);
    assert Sign(scalar, digest)[0] == Signed(UpToSign(scalar), digest, 0);
    assert Sign(scalar', digest')[0] == Signed(UpToSign(scalar'), digest', 0);
  }
}
