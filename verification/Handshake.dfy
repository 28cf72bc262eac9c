/**
  The NX handshake (sections 5.2 and 5.3 of the Noise Protocol Framework; sections 4.5.1 and 4.5.2 of Stratum
  V2) between an initiator and a responder, and the certificate it carries.
 */
module Handshake {
  import opened Bytes
  import opened Crypto
  import opened Ciphers

  const PROTOCOL_NAME: string := "Noise_NX_Secp256k1+EllSwift_ChaChaPoly_SHA256"

  function Ascii(s: string): Bytes
  {
    seq(|s|, i requires 0 <= i < |s| => s[i] as int % 0x100)
  }

  // ----- the symmetric state

  datatype Symmetric = Symmetric(ck: Octets, h: Octets, cs: Cipher) {
    predicate Valid()
    {
      |ck| == HASH_LEN && |h| == HASH_LEN
    }

    function MixHash(data: Octets): Symmetric
    {
      this.(h := Sha256(h + data))
    }

    function MixKey(inputKeyMaterial: Octets): Symmetric
    {
      var (next, temp) := HKDF(ck, inputKeyMaterial);
      this.(ck := next, cs := Fresh(temp, cs.limit))
    }

    /** Without a key the data passes through; a refused encryption would leave an empty ciphertext. */
    function EncryptAndHash(plain: Octets): (Octets, Symmetric)
    {
      if cs.key != [] then
        var (ct, cs') := cs.EncryptWithAd(h, plain);
        var out := if ct.Some? then ct.value else [];
        (out, this.(cs := cs').MixHash(out))
      else (plain, MixHash(plain))
    }

    function DecryptAndHash(ct: Octets): (Option<Octets>, Symmetric)
    {
      if cs.key != [] then
        var (plain, cs') := cs.DecryptWithAd(h, ct);
        if plain.None? then (None, this.(cs := cs')) else (plain, this.(cs := cs').MixHash(ct))
      else (Some(ct), MixHash(ct))
    }
  }

  function Start(limit: u64): Symmetric
  {
    var digest := Sha256(Clear(Ascii(PROTOCOL_NAME)));
    Symmetric(digest, Sha256(digest), Cipher([], 0, limit))
  }

  // ----- the certificate

  type Signature = s: Octets | |s| == 64 witness seq(64, _ => Lit(0))

  datatype Certificate = Certificate(version: u16, validFrom: u32, notValidAfter: u32, signature: Signature)

  const CERTIFICATE_LEN: nat := 74
  const CERTIFICATE_VERSION: u16 := 0

  function EncodeNoSig(c: Certificate): (bs: Bytes)
    ensures |bs| == 10
  {
    ToLE(2, c.version) + ToLE(4, c.validFrom) + ToLE(4, c.notValidAfter)
  }

  function EncodeCertificate(c: Certificate): (os: Octets)
    ensures |os| == CERTIFICATE_LEN
  {
    Clear(EncodeNoSig(c)) + c.signature
  }

  /** Any 74 bytes decode; any other length is an error. */
  function DecodeCertificate(os: Octets): (c: Option<Certificate>)
    ensures c.Some? <==> |os| == CERTIFICATE_LEN
  {
    if |os| != CERTIFICATE_LEN then None
    else
      var bs := Values(os[..10]);
      FromLEBound(bs[..2]);
      FromLEBound(bs[2..6]);
      FromLEBound(bs[6..10]);
      Capacities();
      Some(Certificate(FromLE(bs[..2]), FromLE(bs[2..6]), FromLE(bs[6..10]), os[10..]))
  }

  lemma CertificateRoundTrip(c: Certificate)
    ensures DecodeCertificate(EncodeCertificate(c)) == Some(c)
  {
    var bs := EncodeNoSig(c);
    ValuesOfClear(bs);
    assert EncodeCertificate(c)[..10] == Clear(bs);
    assert EncodeCertificate(c)[10..] == c.signature;
    assert bs[..2] == ToLE(2, c.version);
    assert bs[2..6] == ToLE(4, c.validFrom);
    assert bs[6..10] == ToLE(4, c.notValidAfter);
    Capacities();
    RoundTripLE(2, c.version);
    RoundTripLE(4, c.validFrom);
    RoundTripLE(4, c.notValidAfter);
  }

  /** What the authority signs: the certificate without its signature, and the server's static x coordinate. */
  function SignedDigest(c: Certificate, staticX: Octets): Octets
  {
    Sha256(Clear(EncodeNoSig(c)) + staticX)
  }

  function NewSignedCertificate(authority: Secret, staticX: Octets, validFrom: u32, notValidAfter: u32): Certificate
  {
    var blank := Certificate(CERTIFICATE_VERSION, validFrom, notValidAfter, seq(64, _ => Lit(0)));
    blank.(signature := Sign(authority, SignedDigest(blank, staticX)))
  }

  datatype Verdict = Unsupported | NotYetValid | Expired | Checked(ok: bool)

  /** Verification at a given Unix time, which is cut to 32 bits. */
  function VerifyCertificate(c: Certificate, authorityX: Octets, staticX: Octets, now: nat): Verdict
  {
    var t := now % 0x1_0000_0000;
    if c.version != CERTIFICATE_VERSION then Unsupported
    else if c.validFrom > t then NotYetValid
    else if c.notValidAfter < t then Expired
    else Checked(Verify(c.signature, SignedDigest(c, staticX), authorityX))
  }

  /** The bytes of a certificate, signature excepted, and of the whole. */
  lemma CertificateLayout(c: Certificate)
    ensures EncodeNoSig(c) == ToLE(2, c.version) + ToLE(4, c.validFrom) + ToLE(4, c.notValidAfter)
    ensures EncodeCertificate(c)
         == Clear(ToLE(2, c.version) + ToLE(4, c.validFrom) + ToLE(4, c.notValidAfter)) + c.signature
  {
  }

  /** What a new certificate holds, and the bytes its signature covers. */
  lemma NewCertificateSigns(authority: Secret, staticX: Octets, validFrom: u32, notValidAfter: u32)
    ensures var c := NewSignedCertificate(authority, staticX, validFrom, notValidAfter);
            && c.version == 0 && c.validFrom == validFrom && c.notValidAfter == notValidAfter
            && c.signature
                == Sign(authority, Sha256(Clear(ToLE(2, 0) + ToLE(4, validFrom) + ToLE(4, notValidAfter)) + staticX))
  {
  }

  /** The verdict spelled out: version, then window, then the signature over fields and static key. */
  ghost predicate VerdictIs(verdict: Verdict, c: Certificate, authorityX: Octets, staticX: Octets, now: nat)
  {
    var t := now % 0x1_0000_0000;
    var signedBytes := Clear(ToLE(2, c.version) + ToLE(4, c.validFrom) + ToLE(4, c.notValidAfter)) + staticX;
    && (verdict == Unsupported <==> c.version != 0)
    && (verdict == NotYetValid <==> c.version == 0 && t < c.validFrom)
    && (verdict == Expired <==> c.version == 0 && c.validFrom <= t && c.notValidAfter < t)
    && (verdict == Checked(true) <==>
          && c.version == 0 && c.validFrom <= t <= c.notValidAfter
          && exists a: Secret :: authorityX == PublicX(a) && c.signature == Sign(a, Sha256(signedBytes)))
  }

  lemma VerifiesForSomeKey(signature: Octets, digest: Octets, publicX: Octets)
    ensures Verify(signature, digest, publicX)
       <==> exists a: Secret :: publicX == PublicX(a) && signature == Sign(a, digest)
  {
    if Verify(signature, digest, publicX) {
      var a := publicX[0].scalar;
      assert publicX == PublicX(a) && signature == Sign(a, digest);
    }
    if a: Secret :| publicX == PublicX(a) && signature == Sign(a, digest) {
      VerifiesExactly(a, digest, a, digest);
    }
  }

  /** When each verdict is given. */
  lemma Verdicts(c: Certificate, authorityX: Octets, staticX: Octets, now: nat)
    ensures VerdictIs(VerifyCertificate(c, authorityX, staticX, now), c, authorityX, staticX, now)
  {
    hide Verify, Sign, PublicX, Sha256, ToLE;
    VerifiesForSomeKey(c.signature, SignedDigest(c, staticX), authorityX);
  }

  lemma SignedDigestInjective(c: Certificate, x: Octets, d: Certificate, y: Octets)
    requires SignedDigest(c, x) == SignedDigest(d, y)
    ensures x == y && c.(signature := d.signature) == d
  {
    var bs, cs := EncodeNoSig(c), EncodeNoSig(d);
    Sha256Injective(Clear(bs) + x, Clear(cs) + y);
    assert Clear(bs) == (Clear(bs) + x)[..10] == (Clear(cs) + y)[..10] == Clear(cs);
    assert x == (Clear(bs) + x)[10..] == (Clear(cs) + y)[10..] == y;
    ClearInjective(bs, cs);
    CertificateRoundTrip(c.(signature := d.signature));
    CertificateRoundTrip(d);
    assert EncodeNoSig(c.(signature := d.signature)) == bs;
  }

  /**
    A signed certificate verifies exactly for the key that signed it, the static key it was made for, and the
    times in its window.
   */
  lemma SignedCertificateVerifiesExactly(a: Secret, s: Secret, validFrom: u32, notValidAfter: u32,
                                         a': Secret, s': Secret, now: nat)
    ensures VerifyCertificate(NewSignedCertificate(a, PublicX(s), validFrom, notValidAfter), PublicX(a'), PublicX(s'), now)
         == Checked(true)
       <==> && PublicX(a) == PublicX(a') && PublicX(s) == PublicX(s')
            && validFrom <= now % 0x1_0000_0000 <= notValidAfter
  {
    var c := NewSignedCertificate(a, PublicX(s), validFrom, notValidAfter);
    var blank := Certificate(CERTIFICATE_VERSION, validFrom, notValidAfter, seq(64, _ => Lit(0)));
    assert SignedDigest(blank, PublicX(s)) == SignedDigest(c, PublicX(s)) by {
      assert EncodeNoSig(blank) == EncodeNoSig(c);
    }
    VerifiesExactly(a, SignedDigest(c, PublicX(s)), a', SignedDigest(c, PublicX(s')));
    if SignedDigest(c, PublicX(s)) == SignedDigest(c, PublicX(s')) {
      SignedDigestInjective(c, PublicX(s), c, PublicX(s'));
    }
  }

  // ----- the two roles

  const ACT_TWO_LEN: nat := 234

  /** The state both roles hash the initiator's key into, as the initiator does. */
  function InitiatorHello(e: Keypair, limit: u64): Symmetric
  {
    Start(limit).MixHash(EllSwift(e)).EncryptAndHash([]).1
  }

  function ResponderHello(ie: Octets, limit: u64): Symmetric
  {
    Start(limit).MixHash(ie).DecryptAndHash([]).1
  }

  /** Both sides just before the static key travels. */
  function InitiatorBeforeStatic(e: Keypair, re: Octets, limit: u64): Symmetric
  {
    InitiatorHello(e, limit).MixHash(re).MixKey(ECDH(e, re, true))
  }

  function ResponderBeforeStatic(er: Keypair, ie: Octets, limit: u64): Symmetric
  {
    ResponderHello(ie, limit).MixHash(EllSwift(er)).MixKey(ECDH(er, ie, false))
  }

  datatype InitiatorEnd = InitiatorEnd(sym: Symmetric, serverStatic: Octets, cert: Certificate,
                                       send: Cipher, recv: Cipher)

  datatype ResponderEnd = ResponderEnd(sym: Symmetric, sent: Octets, recv: Cipher, send: Cipher)

  /** The initiator's run on whatever bytes arrive; none is an error. */
  function InitiatorRun(e: Keypair, incoming: Octets, limit: u64): Option<InitiatorEnd>
  {
    if |incoming| < ACT_TWO_LEN then None
    else
      var (learned, s3) := InitiatorBeforeStatic(e, incoming[..64], limit).DecryptAndHash(incoming[64..144]);
      if learned.None? then None
      else
        var s4 := s3.MixKey(ECDH(e, learned.value, true));
        var (plain, s5) := s4.DecryptAndHash(incoming[144..234]);
        if plain.None? then None
        else
          var cert := DecodeCertificate(plain.value);
          if cert.None? then None
          else
            var (k1, k2) := HKDF(s5.ck, []);
            Some(InitiatorEnd(s5, learned.value, cert.value, Fresh(k1, limit), Fresh(k2, limit)))
  }

  /** What the initiator's state object holds after a run. */
  datatype InitiatorState = InitiatorState(sym: Symmetric, serverStatic: Octets, cert: Option<Certificate>)

  /**
    The last steps of the initiator, completed or not, and what they leave: a static key that was accepted stays,
    even when the certificate record behind it is refused.
   */
  function LearnServer(s2: InitiatorState, e: Keypair, ctStatic: Octets, ctCert: Octets): (bool, InitiatorState)
  {
    var (learned, s3) := s2.sym.DecryptAndHash(ctStatic);
    if learned.None? then (false, s2.(sym := s3))
    else
      var (plain, s5) := s3.MixKey(ECDH(e, learned.value, true)).DecryptAndHash(ctCert);
      var left := InitiatorState(s5, learned.value, s2.cert);
      if plain.None? then (false, left)
      else
        var cert := DecodeCertificate(plain.value);
        if cert.None? then (false, left) else (true, left.(cert := cert))
  }

  /** What a run leaves in the state, whatever arrives. */
  function InitiatorLeaves(e: Keypair, incoming: Octets, limit: u64, old': InitiatorState): InitiatorState
  {
    if |incoming| < ACT_TWO_LEN then old'.(sym := InitiatorHello(e, limit))
    else
      var s2 := old'.(sym := InitiatorBeforeStatic(e, incoming[..64], limit));
      LearnServer(s2, e, incoming[64..144], incoming[144..234]).1
  }

  /** A run completes exactly when those steps do, and ends with what they leave and two fresh ciphers. */
  lemma InitiatorRunLearns(e: Keypair, incoming: Octets, limit: u64, old': InitiatorState)
    requires |incoming| >= ACT_TWO_LEN
    ensures var s2 := old'.(sym := InitiatorBeforeStatic(e, incoming[..64], limit));
            var (done, left) := LearnServer(s2, e, incoming[64..144], incoming[144..234]);
            var run := InitiatorRun(e, incoming, limit);
            && (run.Some? <==> done)
            && (done ==>
                  && left.cert.Some?
                  && var (k1, k2) := HKDF(left.sym.ck, []);
                     run.value == InitiatorEnd(left.sym, left.serverStatic, left.cert.value,
                                               Fresh(k1, limit), Fresh(k2, limit)))
  {
    hide InitiatorBeforeStatic, Symmetric.MixKey, Symmetric.DecryptAndHash, ECDH, HKDF, DecodeCertificate;
  }

  lemma ShortRun(e: Keypair, incoming: Octets, limit: u64)
    requires |incoming| < ACT_TWO_LEN
    ensures InitiatorRun(e, incoming, limit).None?
  {
  }

  lemma BeforeStatic(e: Keypair, re: Octets, limit: u64)
    ensures InitiatorBeforeStatic(e, re, limit) == InitiatorHello(e, limit).MixHash(re).MixKey(ECDH(e, re, true))
  {
  }

  /** The responder's run; it fails only when fewer than 64 bytes arrive. */
  function ResponderRun(er: Keypair, server: Keypair, cert: Certificate, incoming: Octets, limit: u64): Option<ResponderEnd>
  {
    if |incoming| < 64 then None
    else
      var ie := incoming[..64];
      var (ctStatic, s3) := ResponderBeforeStatic(er, ie, limit).EncryptAndHash(EllSwift(server));
      var (ctCert, s5) := s3.MixKey(ECDH(server, ie, false)).EncryptAndHash(EncodeCertificate(cert));
      var (k1, k2) := HKDF(s5.ck, []);
      Some(ResponderEnd(s5, EllSwift(er) + ctStatic + ctCert, Fresh(k1, limit), Fresh(k2, limit)))
  }

  lemma NoHello(er: Keypair, server: Keypair, cert: Certificate, incoming: Octets, limit: u64)
    requires |incoming| < 64
    ensures ResponderRun(er, server, cert, incoming, limit).None?
  {
  }

  /** The run step by step, as the responder's state goes through it. */
  lemma ResponderSteps(er: Keypair, server: Keypair, cert: Certificate, ie: Octets, more: Octets, limit: u64)
    requires |ie| == 64
    ensures var s1 := Start(limit).MixHash(ie).DecryptAndHash([]).1;
            var s2 := s1.MixHash(EllSwift(er)).MixKey(ECDH(er, ie, false));
            var (ctStatic, s3) := s2.EncryptAndHash(EllSwift(server));
            var (ctCert, s5) := s3.MixKey(ECDH(server, ie, false)).EncryptAndHash(EncodeCertificate(cert));
            ResponderRun(er, server, cert, ie + more, limit)
              == Some(ResponderEnd(s5, EllSwift(er) + (ctStatic + ctCert), Fresh(HKDF(s5.ck, []).0, limit),
                                   Fresh(HKDF(s5.ck, []).1, limit)))
  {
    hide Symmetric.MixHash, Symmetric.MixKey, Symmetric.EncryptAndHash, Symmetric.DecryptAndHash, ECDH, HKDF;
    hide EllSwift, EncodeCertificate, Start;
    assert (ie + more)[..64] == ie;
    var s2 := ResponderBeforeStatic(er, ie, limit);
    var (ctStatic, s3) := s2.EncryptAndHash(EllSwift(server));
    var (ctCert, s5) := s3.MixKey(ECDH(server, ie, false)).EncryptAndHash(EncodeCertificate(cert));
    assert EllSwift(er) + ctStatic + ctCert == EllSwift(er) + (ctStatic + ctCert);
  }

  // ----- agreement

  /** A freshly keyed cipher seals at counter zero and its twin opens it. */
  lemma FirstRecord(s: Symmetric, plain: Octets)
    requires s.cs.key != [] && s.cs.n == 0 && s.cs.limit > 0
    ensures var (ct, s') := s.EncryptAndHash(plain);
            && ct == Seal(s.cs.key, Nonce(0), s.h, plain)
            && s.DecryptAndHash(ct) == (Some(plain), s')
            && s' == Symmetric(s.ck, Sha256(s.h + ct), s.cs.(n := 1))
  {
    EncryptStep(s.cs, s.h, plain);
    DecryptStep(s.cs, s.h, Seal(s.cs.key, Nonce(0), s.h, plain));
    OpenExactly(s.cs.key, Nonce(0), s.h, Seal(s.cs.key, Nonce(0), s.h, plain), plain);
  }

  /** The same with a twin whose counter limit may differ. */
  function WithLimit(s: Symmetric, limit: u64): Symmetric
  {
    s.(cs := s.cs.(limit := limit))
  }

  lemma SameBeforeStatic(e: Keypair, er: Keypair, li: u64, lr: u64)
    ensures InitiatorBeforeStatic(e, EllSwift(er), li)
         == WithLimit(ResponderBeforeStatic(er, EllSwift(e), lr), li)
  {
    ECDHSymmetric(e, er);
  }

  /** The three parts of the responder's message. */
  lemma ResponderMessage(er: Keypair, server: Keypair, cert: Certificate, incoming: Octets, limit: u64)
    requires |incoming| >= 64 && limit > 0
    ensures var r := ResponderRun(er, server, cert, incoming, limit);
            var s2 := ResponderBeforeStatic(er, incoming[..64], limit);
            var (ctStatic, s3) := s2.EncryptAndHash(EllSwift(server));
            var s4 := s3.MixKey(ECDH(server, incoming[..64], false));
            && r.Some? && |r.value.sent| == ACT_TWO_LEN
            && r.value.sent[..64] == EllSwift(er)
            && r.value.sent[64..144] == ctStatic == Seal(s2.cs.key, Nonce(0), s2.h, EllSwift(server))
            && r.value.sent[144..234] == Seal(s4.cs.key, Nonce(0), s4.h, EncodeCertificate(cert))
            && s3 == Symmetric(s2.ck, Sha256(s2.h + ctStatic), s2.cs.(n := 1))
            && r.value.sym == s4.EncryptAndHash(EncodeCertificate(cert)).1
  {
    var s2 := ResponderBeforeStatic(er, incoming[..64], limit);
    FirstRecord(s2, EllSwift(server));
    var (ctStatic, s3) := s2.EncryptAndHash(EllSwift(server));
    var s4 := s3.MixKey(ECDH(server, incoming[..64], false));
    FirstRecord(s4, EncodeCertificate(cert));
  }

  /**
    Both roles complete on each other's messages, whatever follows them, with equal chaining key and hash; the
    initiator holds the responder's static key and certificate, and the transport keys are crossed.
   */
  lemma HandshakeAgreement(e: Keypair, er: Keypair, server: Keypair, cert: Certificate,
                           rest: Octets, rest': Octets, li: u64, lr: u64)
    requires li > 0 && lr > 0
    ensures var r := ResponderRun(er, server, cert, EllSwift(e) + rest, lr);
            && r.Some?
            && var i := InitiatorRun(e, r.value.sent + rest', li);
            && i.Some?
            && i.value.sym.h == r.value.sym.h && i.value.sym.ck == r.value.sym.ck
            && i.value.serverStatic == EllSwift(server) && i.value.cert == cert
            && i.value.send.key == r.value.recv.key && i.value.recv.key == r.value.send.key
            && i.value.send.n == i.value.recv.n == r.value.send.n == r.value.recv.n == 0
  {
    assert (EllSwift(e) + rest)[..64] == EllSwift(e);
    ResponderMessage(er, server, cert, EllSwift(e) + rest, lr);
    var sent := ResponderRun(er, server, cert, EllSwift(e) + rest, lr).value.sent;
    var incoming := sent + rest';
    assert incoming[..64] == sent[..64];
    assert incoming[64..144] == sent[64..144];
    assert incoming[144..234] == sent[144..234];
    SameBeforeStatic(e, er, li, lr);
    var s2 := InitiatorBeforeStatic(e, EllSwift(er), li);
    FirstRecord(s2, EllSwift(server));
    var s3 := s2.EncryptAndHash(EllSwift(server)).1;
    ECDHSymmetric(e, server);
    var s4 := s3.MixKey(ECDH(e, EllSwift(server), true));
    FirstRecord(s4, EncodeCertificate(cert));
    CertificateRoundTrip(cert);
  }

  /** Both transport ciphers are fresh, under the two outputs for the final chaining key. */
  lemma InitiatorCiphers(e: Keypair, incoming: Octets, limit: u64)
    requires InitiatorRun(e, incoming, limit).Some?
    ensures var i := InitiatorRun(e, incoming, limit).value;
            && i.send == Fresh(HKDF(i.sym.ck, []).0, limit) && i.recv == Fresh(HKDF(i.sym.ck, []).1, limit)
  {
  }

  lemma ResponderCiphers(er: Keypair, server: Keypair, cert: Certificate, incoming: Octets, limit: u64)
    requires ResponderRun(er, server, cert, incoming, limit).Some?
    ensures var r := ResponderRun(er, server, cert, incoming, limit).value;
            && r.recv == Fresh(HKDF(r.sym.ck, []).0, limit) && r.send == Fresh(HKDF(r.sym.ck, []).1, limit)
  {
  }

  // ----- binding: what acceptance says about the other side

  lemma HashBinds(h: Octets, data: Octets, h': Octets, data': Octets)
    requires |h| == |h'| && Sha256(h + data) == Sha256(h' + data')
    ensures h == h' && data == data'
  {
    Sha256Injective(h + data, h' + data');
    assert h == (h + data)[..|h|] == (h' + data')[..|h|] == h';
    assert data == (h + data)[|h|..] == (h' + data')[|h|..] == data';
  }

  /** Equal keys before the static key travels come from the same two ephemeral keys. */
  lemma StaticKeyBinds(e: Keypair, re: Octets, er: Keypair, ie: Octets, li: u64, lr: u64)
    requires InitiatorBeforeStatic(e, re, li).ck == ResponderBeforeStatic(er, ie, lr).ck
          || InitiatorBeforeStatic(e, re, li).cs.key == ResponderBeforeStatic(er, ie, lr).cs.key
    ensures ie == EllSwift(e) && re == EllSwift(er)
  {
    var ck := Start(li).ck;
    HKDFInjective(ck, ECDH(e, re, true), ck, ECDH(er, ie, false));
    ECDHBindsKeys(e, re, er, ie);
  }

  /**
    The initiator accepts the static-key record a responder sealed exactly when both hashed the same two
    ephemeral keys; then they hold the same chaining key and hash, and it learns the responder's key.
   */
  lemma StaticRecordBinds(e: Keypair, re: Octets, er: Keypair, ie: Octets, server: Keypair, li: u64, lr: u64)
    requires li > 0 && lr > 0
    ensures var i2 := InitiatorBeforeStatic(e, re, li);
            var r2 := ResponderBeforeStatic(er, ie, lr);
            var (learned, i3) := i2.DecryptAndHash(r2.EncryptAndHash(EllSwift(server)).0);
            && (learned.Some? <==> ie == EllSwift(e) && re == EllSwift(er))
            && (learned.Some? ==> learned.value == EllSwift(server) && i2 == WithLimit(r2, li))
  {
    var i2, r2 := InitiatorBeforeStatic(e, re, li), ResponderBeforeStatic(er, ie, lr);
    FirstRecord(r2, EllSwift(server));
    var ct := r2.EncryptAndHash(EllSwift(server)).0;
    DecryptStep(i2.cs, i2.h, ct);
    if i2.DecryptAndHash(ct).0.Some? {
      var plain := i2.DecryptAndHash(ct).0.value;
      SealInjective(i2.cs.key, Nonce(0), i2.h, plain, r2.cs.key, Nonce(0), r2.h, EllSwift(server));
      StaticKeyBinds(e, re, er, ie, li, lr);
      SameBeforeStatic(e, er, li, lr);
    }
    if ie == EllSwift(e) && re == EllSwift(er) {
      SameBeforeStatic(e, er, li, lr);
      FirstRecord(i2, EllSwift(server));
    }
  }

  /** What a completed initiator run says about its records. */
  lemma InitiatorAccepted(e: Keypair, incoming: Octets, limit: u64)
    requires InitiatorRun(e, incoming, limit).Some? && limit > 0
    ensures var i := InitiatorRun(e, incoming, limit).value;
            var s2 := InitiatorBeforeStatic(e, incoming[..64], limit);
            var s3 := s2.DecryptAndHash(incoming[64..144]).1;
            var s4 := s3.MixKey(ECDH(e, i.serverStatic, true));
            var plain := s4.DecryptAndHash(incoming[144..234]).0;
            && incoming[64..144] == Seal(s2.cs.key, Nonce(0), s2.h, i.serverStatic) && |i.serverStatic| == 64
            && s3.ck == s2.ck && s3.h == Sha256(s2.h + incoming[64..144])
            && plain.Some? && incoming[144..234] == Seal(s4.cs.key, Nonce(0), s4.h, plain.value)
            && DecodeCertificate(plain.value) == Some(i.cert)
            && i.sym.ck == s4.ck && i.sym.h == Sha256(s4.h + incoming[144..234])
  {
    var s2 := InitiatorBeforeStatic(e, incoming[..64], limit);
    DecryptStep(s2.cs, s2.h, incoming[64..144]);
    var (learned, s3) := s2.DecryptAndHash(incoming[64..144]);
    var s4 := s3.MixKey(ECDH(e, learned.value, true));
    DecryptStep(s4.cs, s4.h, incoming[144..234]);
  }

  /**
    Transcript binding: an initiator that completes with a responder's certificate record saw that responder's
    whole message unchanged, the responder saw the initiator's key unchanged, and they agree on everything.
   */
  lemma CertificateRecordBinds(e: Keypair, incoming: Octets, er: Keypair, server: Keypair, cert: Certificate,
                               toResponder: Octets, li: u64, lr: u64)
    requires li > 0 && lr > 0 && |toResponder| >= 64
    requires InitiatorRun(e, incoming, li).Some?
    requires incoming[144..234] == ResponderRun(er, server, cert, toResponder, lr).value.sent[144..234]
    ensures toResponder[..64] == EllSwift(e)
    ensures var i, r := InitiatorRun(e, incoming, li).value, ResponderRun(er, server, cert, toResponder, lr).value;
            && incoming[..234] == r.sent
            && i.serverStatic == EllSwift(server) && i.cert == cert
            && i.sym.h == r.sym.h && i.sym.ck == r.sym.ck
            && i.send.key == r.recv.key && i.recv.key == r.send.key
  {
    var ie := toResponder[..64];
    InitiatorAccepted(e, incoming, li);
    ResponderMessage(er, server, cert, toResponder, lr);
    var i, r := InitiatorRun(e, incoming, li).value, ResponderRun(er, server, cert, toResponder, lr).value;
    var i2, r2 := InitiatorBeforeStatic(e, incoming[..64], li), ResponderBeforeStatic(er, ie, lr);
    var i3 := i2.DecryptAndHash(incoming[64..144]).1;
    var r3 := r2.EncryptAndHash(EllSwift(server)).1;
    var i4, r4 := i3.MixKey(ECDH(e, i.serverStatic, true)), r3.MixKey(ECDH(server, ie, false));
    var plain := i4.DecryptAndHash(incoming[144..234]).0.value;
    SealInjective(i4.cs.key, Nonce(0), i4.h, plain, r4.cs.key, Nonce(0), r4.h, EncodeCertificate(cert));
    HKDFInjective(i3.ck, ECDH(e, i.serverStatic, true), r3.ck, ECDH(server, ie, false));
    ECDHBindsKeys(e, i.serverStatic, server, ie);
    StaticKeyBinds(e, incoming[..64], er, ie, li, lr);
    HashBinds(i2.h, incoming[64..144], r2.h, r.sent[64..144]);
    CertificateRoundTrip(cert);
    ThreeParts(incoming);
    ThreeParts(r.sent);
    assert r.sent[..234] == r.sent;
  }

  lemma ThreeParts(message: Octets)
    requires |message| >= 234
    ensures message[..234] == message[..64] + message[64..144] + message[144..234]
  {
  }

  // ----- the whole transcript, spelled out

  /** The name both roles start from. */
  ghost predicate ProtocolName(name: Bytes)
  {
    var literal := "Noise_NX_Secp256k1+EllSwift_ChaChaPoly_SHA256";
    |name| == |literal| && forall i :: 0 <= i < |literal| ==> name[i] == literal[i] as int
  }

  lemma NameIs(name: Bytes)
    requires ProtocolName(name)
    ensures Ascii(PROTOCOL_NAME) == name
  {
  }

  /** Both roles start from the hash of the name, and from the hash of that, without a key. */
  lemma StartLayout(name: Bytes, limit: u64)
    requires ProtocolName(name)
    ensures var ck0 := Sha256(Clear(name));
            Start(limit) == Symmetric(ck0, Sha256(ck0), Cipher([], 0, limit))
  {
    NameIs(name);
  }

  /** Every hash, chaining key and cipher key of a handshake. */
  datatype Transcript = Transcript(ck0: Octets, h2: Octets, h3: Octets, h4: Octets, h: Octets,
                                   ck1: Octets, k1: Octets, ck2: Octets, k2: Octets,
                                   toServer: Octets, toClient: Octets)

  /**
    The transcript as hashes and HMACs of what travels: the name, both ephemeral keys e and re, and both records;
    and of the two secrets, ee and es.
   */
  function TranscriptOf(name: Bytes, e: Octets, re: Octets, ee: Octets, es: Octets, ctStatic: Octets, ctCert: Octets)
    : Transcript
  {
    var ck0 := Sha256(Clear(name));
    var h2 := Sha256(Sha256(Sha256(ck0) + e));
    var h3 := Sha256(h2 + re);
    var h4 := Sha256(h3 + ctStatic);
    var t1 := HmacHash(ck0, ee);
    var ck1 := HmacHash(t1, [Lit(1)]);
    var t2 := HmacHash(ck1, es);
    var ck2 := HmacHash(t2, [Lit(1)]);
    var t3 := HmacHash(ck2, []);
    var toServer := HmacHash(t3, [Lit(1)]);
    Transcript(ck0, h2, h3, h4, Sha256(h4 + ctCert),
               ck1, HmacHash(t1, ck1 + [Lit(2)]), ck2, HmacHash(t2, ck2 + [Lit(2)]),
               toServer, HmacHash(t3, toServer + [Lit(2)]))
  }

  /** A secret is that of the initiator's and the responder's encodings, in this order. */
  ghost predicate SecretOf(secret: Octets, initiator: Octets, responder: Octets)
  {
    |secret| == 32 && forall i :: 0 <= i < 32 ==>
      secret[i].Shared? && secret[i].initiator == initiator && secret[i].responder == responder && secret[i].at == i
  }

  lemma SecretsAreOf(k: Keypair, remote: Octets)
    ensures SecretOf(ECDH(k, remote, true), EllSwift(k), remote)
    ensures SecretOf(ECDH(k, remote, false), remote, EllSwift(k))
  {
  }

  const ZERO_NONCE: Bytes := [0, 0, 0, 0, 0, 0, 0, 0, 0, 0, 0, 0]

  lemma FirstNonce()
    ensures Nonce(0) == ZERO_NONCE
  {
    forall i | 0 <= i < 8 ensures ToLE(8, 0)[i] == 0 {
      ByteOfNumber(8, 0, i);
    }
  }

  lemma KeyedBy(ck: Octets, secret: Octets)
    ensures var t := HmacHash(ck, secret);
            HKDF(ck, secret) == (HmacHash(t, [Lit(1)]), HmacHash(t, HmacHash(t, [Lit(1)]) + [Lit(2)]))
  {
    assert Clear([1]) == [Lit(1)] && Clear([2]) == [Lit(2)];
  }

  /** The state of either role before the static key travels. */
  lemma BeforeStaticLayout(name: Bytes, e: Octets, re: Octets, ee: Octets, es: Octets, ctStatic: Octets,
                           ctCert: Octets, limit: u64, s: Symmetric)
    requires ProtocolName(name)
    requires s == Start(limit).MixHash(e).MixHash([]).MixHash(re).MixKey(ee)
    ensures var t := TranscriptOf(name, e, re, ee, es, ctStatic, ctCert);
            s == Symmetric(t.ck1, t.h3, Cipher(t.k1, 0, limit))
  {
    StartLayout(name, limit);
    hide Sha256, HmacHash;
    KeyedBy(Sha256(Clear(name)), ee);
    var h1 := Sha256(Sha256(Sha256(Clear(name))) + e);
    assert h1 + [] == h1;
  }

  lemma HelloLayout(e: Keypair, ie: Octets, limit: u64)
    ensures InitiatorHello(e, limit) == Start(limit).MixHash(EllSwift(e)).MixHash([])
    ensures ResponderHello(ie, limit) == Start(limit).MixHash(ie).MixHash([])
  {
  }

  /**
    The responder's run on the wire: its key, the static key sealed under k1 with h3 as associated data, the
    certificate under k2 with h4, each at counter zero; the final hash and chaining key; the transport keys.
   */
  lemma ResponderTranscript(er: Keypair, server: Keypair, cert: Certificate, incoming: Octets, limit: u64, name: Bytes)
    requires |incoming| >= 64 && limit > 0 && ProtocolName(name)
    ensures ResponderRun(er, server, cert, incoming, limit).Some?
    ensures var r := ResponderRun(er, server, cert, incoming, limit).value;
            var e, re := incoming[..64], EllSwift(er);
            var ee, es := ECDH(er, e, false), ECDH(server, e, false);
            && |r.sent| == 234
            && var t := TranscriptOf(name, e, re, ee, es, r.sent[64..144], r.sent[144..234]);
            && SecretOf(ee, e, re) && SecretOf(es, e, EllSwift(server))
            && r.sent[..64] == re
            && r.sent[64..144] == Seal(t.k1, ZERO_NONCE, t.h3, EllSwift(server))
            && r.sent[144..234] == Seal(t.k2, ZERO_NONCE, t.h4,
                 Clear(ToLE(2, cert.version) + ToLE(4, cert.validFrom) + ToLE(4, cert.notValidAfter)) + cert.signature)
            && r.sym.h == t.h && r.sym.ck == t.ck2
            && r.recv == Cipher(t.toServer, 0, limit) && r.send == Cipher(t.toClient, 0, limit)
  {
    var e, re := incoming[..64], EllSwift(er);
    var ee, es := ECDH(er, e, false), ECDH(server, e, false);
    ResponderMessage(er, server, cert, incoming, limit);
    ResponderCiphers(er, server, cert, incoming, limit);
    var r := ResponderRun(er, server, cert, incoming, limit).value;
    var t := TranscriptOf(name, e, re, ee, es, r.sent[64..144], r.sent[144..234]);
    var s2 := ResponderBeforeStatic(er, e, limit);
    HelloLayout(er, e, limit);
    BeforeStaticLayout(name, e, re, ee, es, r.sent[64..144], r.sent[144..234], limit, s2);
    SecretsAreOf(er, e);
    SecretsAreOf(server, e);
    FirstNonce();
    CertificateLayout(cert);
    var s4 := s2.EncryptAndHash(EllSwift(server)).1.MixKey(es);
    FirstRecord(s4, EncodeCertificate(cert));
    hide Sha256, HmacHash, ECDH, ResponderRun, Seal, EncodeCertificate, Nonce;
    KeyedBy(t.ck1, es);
    KeyedBy(t.ck2, []);
  }

  /** The bytes are some plaintext sealed at counter zero under that key, with that associated data. */
  ghost predicate SealedFirst(ct: Octets, key: Octets, ad: Octets)
  {
    ct != [] && ct[0].Sealed? && ct == Seal(key, ZERO_NONCE, ad, ct[0].plain)
  }

  function PlainOf(ct: Octets): Octets
  {
    if ct != [] && ct[0].Sealed? then ct[0].plain else []
  }

  /** A freshly keyed cipher opens exactly such bytes, and hashes them; anything else leaves the state alone. */
  lemma FirstOpening(ck: Octets, h: Octets, key: Octets, limit: u64, ct: Octets)
    requires key != [] && limit > 0
    ensures Symmetric(ck, h, Cipher(key, 0, limit)).DecryptAndHash(ct)
         == if SealedFirst(ct, key, h)
            then (Some(PlainOf(ct)), Symmetric(ck, Sha256(h + ct), Cipher(key, 1, limit)))
            else (None, Symmetric(ck, h, Cipher(key, 0, limit)))
  {
    FirstNonce();
    DecryptStep(Cipher(key, 0, limit), h, ct);
    if SealedFirst(ct, key, h) {
      OpenExactly(key, ZERO_NONCE, h, ct, PlainOf(ct));
    }
  }

  /** The transcript of an initiator's run on incoming bytes. */
  function InitiatorTranscriptOf(name: Bytes, e: Keypair, incoming: Octets): Transcript
    requires |incoming| >= 234
  {
    var re, ctStatic, ctCert := incoming[..64], incoming[64..144], incoming[144..234];
    TranscriptOf(name, EllSwift(e), re, ECDH(e, re, true), ECDH(e, PlainOf(ctStatic), true), ctStatic, ctCert)
  }

  /** What the initiator's last steps do, in terms of the transcript. */
  lemma LearnLayout(name: Bytes, e: Keypair, incoming: Octets, limit: u64, old': InitiatorState)
    requires |incoming| >= 234 && limit > 0 && ProtocolName(name)
    ensures var ctStatic, ctCert := incoming[64..144], incoming[144..234];
            var t := InitiatorTranscriptOf(name, e, incoming);
            var s2 := old'.(sym := InitiatorBeforeStatic(e, incoming[..64], limit));
            var (done, left) := LearnServer(s2, e, ctStatic, ctCert);
            && (done <==> SealedFirst(ctStatic, t.k1, t.h3) && SealedFirst(ctCert, t.k2, t.h4))
            && left ==
                 if !SealedFirst(ctStatic, t.k1, t.h3) then
                   old'.(sym := Symmetric(t.ck1, t.h3, Cipher(t.k1, 0, limit)))
                 else if !SealedFirst(ctCert, t.k2, t.h4) then
                   InitiatorState(Symmetric(t.ck2, t.h4, Cipher(t.k2, 0, limit)), PlainOf(ctStatic), old'.cert)
                 else
                   InitiatorState(Symmetric(t.ck2, t.h, Cipher(t.k2, 1, limit)), PlainOf(ctStatic),
                                  DecodeCertificate(PlainOf(ctCert)))
  {
    var re, ctStatic, ctCert := incoming[..64], incoming[64..144], incoming[144..234];
    var ee, es := ECDH(e, re, true), ECDH(e, PlainOf(ctStatic), true);
    var t := InitiatorTranscriptOf(name, e, incoming);
    var s2 := InitiatorBeforeStatic(e, re, limit);
    HelloLayout(e, [], limit);
    BeforeStaticLayout(name, EllSwift(e), re, ee, es, ctStatic, ctCert, limit, s2);
    FirstOpening(t.ck1, t.h3, t.k1, limit, ctStatic);
    FirstOpening(t.ck2, t.h4, t.k2, limit, ctCert);
    assert |PlainOf(ctCert)| == 74 || !SealedFirst(ctCert, t.k2, t.h4);
    hide Sha256, HmacHash, ECDH, InitiatorBeforeStatic, SealedFirst, PlainOf, Symmetric.DecryptAndHash;
    KeyedBy(t.ck1, es);
  }

  /**
    The initiator's run on the wire, whatever arrives: it completes exactly when both records are seals of some
    plaintext under k1 with h3 and under k2 with h4, at counter zero; and with the final hash, chaining key and
    transport keys of the transcript.
   */
  lemma InitiatorTranscript(name: Bytes, e: Keypair, incoming: Octets, limit: u64)
    requires |incoming| >= 234 && limit > 0 && ProtocolName(name)
    ensures var ctStatic, ctCert := incoming[64..144], incoming[144..234];
            var t := InitiatorTranscriptOf(name, e, incoming);
            var run := InitiatorRun(e, incoming, limit);
            && SecretOf(ECDH(e, incoming[..64], true), EllSwift(e), incoming[..64])
            && SecretOf(ECDH(e, PlainOf(ctStatic), true), EllSwift(e), PlainOf(ctStatic))
            && (run.Some? <==> SealedFirst(ctStatic, t.k1, t.h3) && SealedFirst(ctCert, t.k2, t.h4))
            && (run.Some? ==>
                  var i := run.value;
                  && i.serverStatic == PlainOf(ctStatic) && DecodeCertificate(PlainOf(ctCert)) == Some(i.cert)
                  && i.sym.h == t.h && i.sym.ck == t.ck2
                  && i.send == Cipher(t.toServer, 0, limit) && i.recv == Cipher(t.toClient, 0, limit))
  {
    var old' := InitiatorState(Start(limit), [], None);
    LearnLayout(name, e, incoming, limit, old');
    InitiatorRunLearns(e, incoming, limit, old');
    SecretsAreOf(e, incoming[..64]);
    SecretsAreOf(e, PlainOf(incoming[64..144]));
    var t := InitiatorTranscriptOf(name, e, incoming);
    KeyedBy(t.ck2, []);
    hide Sha256, HmacHash, ECDH, InitiatorBeforeStatic, SealedFirst, PlainOf, SecretOf, HKDF, LearnServer;
  }

  /** What the initiator's object holds after a run that completed or failed at either record or before. */
  lemma InitiatorStateLeft(name: Bytes, e: Keypair, incoming: Octets, limit: u64, old': InitiatorState)
    requires limit > 0 && ProtocolName(name)
    ensures var left := InitiatorLeaves(e, incoming, limit, old');
            if |incoming| < 234 then
              var ck0 := Sha256(Clear(name));
              left == old'.(sym := Symmetric(ck0, Sha256(Sha256(Sha256(ck0) + EllSwift(e))), Cipher([], 0, limit)))
            else
              var ctStatic, ctCert := incoming[64..144], incoming[144..234];
              var t := InitiatorTranscriptOf(name, e, incoming);
              left == if !SealedFirst(ctStatic, t.k1, t.h3) then
                        old'.(sym := Symmetric(t.ck1, t.h3, Cipher(t.k1, 0, limit)))
                      else if !SealedFirst(ctCert, t.k2, t.h4) then
                        InitiatorState(Symmetric(t.ck2, t.h4, Cipher(t.k2, 0, limit)), PlainOf(ctStatic), old'.cert)
                      else
                        InitiatorState(Symmetric(t.ck2, t.h, Cipher(t.k2, 1, limit)), PlainOf(ctStatic),
                                       DecodeCertificate(PlainOf(ctCert)))
  {
    if |incoming| < 234 {
      StartLayout(name, limit);
      HelloLayout(e, [], limit);
      var h1 := Sha256(Sha256(Sha256(Clear(name))) + EllSwift(e));
      assert h1 + [] == h1;
    } else {
      LearnLayout(name, e, incoming, limit, old');
    }
  }

  // ----- the certificate, once the handshake is done

  function VerifyServer(i: InitiatorEnd, authorityX: Octets, now: nat): Verdict
  {
    VerifyCertificate(i.cert, authorityX, XOf(i.serverStatic), now)
  }

  /** After an honest handshake the server verifies exactly for the signing authority, within the window. */
  lemma HandshakeVerifiesExactly(e: Keypair, er: Keypair, server: Keypair, a: Secret, validFrom: u32,
                                 notValidAfter: u32, li: u64, lr: u64, a': Secret, now: nat)
    requires li > 0 && lr > 0
    ensures var cert := NewSignedCertificate(a, PublicX(server.scalar), validFrom, notValidAfter);
            var r := ResponderRun(er, server, cert, EllSwift(e), lr);
            && r.Some?
            && var i := InitiatorRun(e, r.value.sent, li);
            && i.Some?
            && (VerifyServer(i.value, PublicX(a'), now) == Checked(true)
                <==> PublicX(a) == PublicX(a') && validFrom <= now % 0x1_0000_0000 <= notValidAfter)
  {
    var cert := NewSignedCertificate(a, PublicX(server.scalar), validFrom, notValidAfter);
    HandshakeAgreement(e, er, server, cert, [], [], li, lr);
    assert EllSwift(e) + [] == EllSwift(e);
    var sent := ResponderRun(er, server, cert, EllSwift(e), lr).value.sent;
    assert sent + [] == sent;
    XOfEllSwift(server);
    SignedCertificateVerifiesExactly(a, server.scalar, validFrom, notValidAfter, a', server.scalar, now);
  }

  /**
    Whatever the initiator received: if the server verifies with a signature some authority made for a static
    key, then it is the expected authority, that certificate, and that static key.
   */
  lemma VerifiedMeansSignedFor(i: InitiatorEnd, authority: Secret, now: nat, a: Secret, s: Secret,
                               validFrom: u32, notValidAfter: u32)
    requires VerifyServer(i, PublicX(authority), now) == Checked(true)
    requires i.cert.signature == NewSignedCertificate(a, PublicX(s), validFrom, notValidAfter).signature
    ensures PublicX(a) == PublicX(authority) && XOf(i.serverStatic) == PublicX(s)
    ensures i.cert == NewSignedCertificate(a, PublicX(s), validFrom, notValidAfter)
  {
    var c := NewSignedCertificate(a, PublicX(s), validFrom, notValidAfter);
    var blank := Certificate(CERTIFICATE_VERSION, validFrom, notValidAfter, seq(64, _ => Lit(0)));
    assert EncodeNoSig(blank) == EncodeNoSig(c);
    assert PublicX(authority)[0] == XOnly(UpToSign(authority), 0);
    assert i.cert.signature == Sign(authority, SignedDigest(i.cert, XOf(i.serverStatic)));
    assert Sign(a, SignedDigest(c, PublicX(s)))[0] == Signed(UpToSign(a), SignedDigest(c, PublicX(s)), 0);
    assert i.cert.signature[0] == Signed(UpToSign(authority), SignedDigest(i.cert, XOf(i.serverStatic)), 0);
    SignedDigestInjective(i.cert, XOf(i.serverStatic), c, PublicX(s));
  }

  // ----- one use of every key and nonce over a session

  /** The keys of the responder's two records. */
  function StaticKey(er: Keypair, ie: Octets, limit: u64): Octets
  {
    ResponderBeforeStatic(er, ie, limit).cs.key
  }

  function CertificateKey(er: Keypair, server: Keypair, ie: Octets, limit: u64): Octets
  {
    HKDF(ResponderBeforeStatic(er, ie, limit).ck, ECDH(server, ie, false)).1
  }

  /** The four keys a responder derives are different from one another, and so is any initiator's sending key. */
  lemma KeysDistinct(er: Keypair, server: Keypair, cert: Certificate, incoming: Octets, lr: u64, ck: Octets)
    requires |incoming| >= 64 && lr > 0
    ensures var r := ResponderRun(er, server, cert, incoming, lr).value;
            var k1 := StaticKey(er, incoming[..64], lr);
            var k2 := CertificateKey(er, server, incoming[..64], lr);
            && k1 != k2 && k1 != r.send.key && k2 != r.send.key
            && r.recv.key !in {k1, k2, r.send.key}
            && HKDF(ck, []).0 !in {k1, k2, r.send.key}
  {
    var ie := incoming[..64];
    var ck0, ee, es := Start(lr).ck, ECDH(er, ie, false), ECDH(server, ie, false);
    var ck1 := HKDF(ck0, ee).0;
    var ck2 := HKDF(ck1, es).0;
    ResponderMessage(er, server, cert, incoming, lr);
    if HKDF(ck0, ee).1 == HKDF(ck1, es).1 {
      HKDFInjective(ck0, ee, ck1, es);
      HashIsNotMac(Clear(Ascii(PROTOCOL_NAME)), HmacHash(ck0, ee), Clear([1]));
    }
    if HKDF(ck0, ee).1 == HKDF(ck2, []).1 { HKDFInjective(ck0, ee, ck2, []); }
    if HKDF(ck1, es).1 == HKDF(ck2, []).1 { HKDFInjective(ck1, es, ck2, []); }
    HKDFOutputsDiffer(ck2, [], ck0, ee);
    HKDFOutputsDiffer(ck2, [], ck1, es);
    HKDFOutputsDiffer(ck2, [], ck2, []);
    HKDFOutputsDiffer(ck, [], ck0, ee);
    HKDFOutputsDiffer(ck, [], ck1, es);
    HKDFOutputsDiffer(ck, [], ck2, []);
  }

  /** Every ciphertext of a session: the responder's two records and what both sending ciphers produce. */
  function SessionSeals(er: Keypair, server: Keypair, incoming: Octets, lr: u64,
                        initiatorSend: Cipher, iCalls: seq<Call>, responderSend: Cipher, rCalls: seq<Call>): seq<Use>
    requires |incoming| >= 64
  {
    [Use(StaticKey(er, incoming[..64], lr), Nonce(0)), Use(CertificateKey(er, server, incoming[..64], lr), Nonce(0))]
      + Seals(initiatorSend, iCalls) + Seals(responderSend, rCalls)
  }

  /** No key and nonce pair seals twice in a session, whatever each side encrypts and is asked to decrypt. */
  lemma SessionSealsOnce(e: Keypair, toInitiator: Octets, er: Keypair, server: Keypair, cert: Certificate,
                         toResponder: Octets, li: u64, lr: u64, iCalls: seq<Call>, rCalls: seq<Call>)
    requires li > 0 && lr > 0 && |toResponder| >= 64
    requires InitiatorRun(e, toInitiator, li).Some?
    ensures AllDistinct(SessionSeals(er, server, toResponder, lr,
                                     InitiatorRun(e, toInitiator, li).value.send, iCalls,
                                     ResponderRun(er, server, cert, toResponder, lr).value.send, rCalls))
  {
    var i, r := InitiatorRun(e, toInitiator, li).value, ResponderRun(er, server, cert, toResponder, lr).value;
    KeysDistinct(er, server, cert, toResponder, lr, i.sym.ck);
    RunSealsOnce(i.send, iCalls);
    RunSealsOnce(r.send, rCalls);
    var k1, k2 := StaticKey(er, toResponder[..64], lr), CertificateKey(er, server, toResponder[..64], lr);
    DistinctKeysDistinctUses(k1, k2, Seals(i.send, iCalls), i.send.key, Seals(r.send, rCalls), r.send.key);
  }

  lemma DistinctKeysDistinctUses(k1: Octets, k2: Octets, us: seq<Use>, ku: Octets, vs: seq<Use>, kv: Octets)
    requires k1 != k2 && ku !in {k1, k2, kv} && kv !in {k1, k2}
    requires AllDistinct(us) && AllDistinct(vs)
    requires forall i :: 0 <= i < |us| ==> us[i].key == ku
    requires forall i :: 0 <= i < |vs| ==> vs[i].key == kv
    ensures AllDistinct([Use(k1, Nonce(0)), Use(k2, Nonce(0))] + us + vs)
  {
    var all := [Use(k1, Nonce(0)), Use(k2, Nonce(0))] + us + vs;
    forall i, j | 0 <= i < j < |all|
      ensures all[i] != all[j]
    {
      if 2 <= i && j < 2 + |us| {
        assert all[i] == us[i - 2] && all[j] == us[j - 2];
      } else if 2 + |us| <= i {
        assert all[i] == vs[i - 2 - |us|] && all[j] == vs[j - 2 - |us|];
      }
    }
  }
}
