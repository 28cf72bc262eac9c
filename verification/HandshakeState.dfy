/**
  The handshake as the program runs it: a state object updated step by step over a connection, proved against
  the runs of module Handshake.
 */
module HandshakeObjects {
  import opened Bytes
  import opened Crypto
  import opened Ciphers
  import opened Handshake

  /** A connection: what is still to be read, and what has been written. */
  class Connection {
    var inbox: Octets
    var outbox: Octets

    constructor (incoming: Octets)
      ensures inbox == incoming && outbox == []
    {
      inbox, outbox := incoming, [];
    }

    method Write(data: Octets)
      modifies this`outbox
      ensures outbox == old(outbox) + data
    {
      outbox := outbox + data;
    }

    /** Exactly count bytes, or none, with whatever was left consumed. */
    method ReadFull(count: nat) returns (data: Option<Octets>)
      modifies this`inbox
      ensures data == if |old(inbox)| < count then None else Some(old(inbox)[..count])
      ensures inbox == if |old(inbox)| < count then [] else old(inbox)[count..]
    {
      if |inbox| < count {
        inbox := [];
        return None;
      }
      data := Some(inbox[..count]);
      inbox := inbox[count..];
    }
  }

  class HandshakeState {
    var cs: CipherState
    var h: Octets
    var ck: Octets
    var cert: Option<Certificate>
    var serverStatic: Octets
    const limit: u64

    ghost function Value(): Symmetric
      reads this, cs
    {
      Symmetric(ck, h, cs.Value())
    }

    ghost function State(): InitiatorState
      reads this, cs
    {
      InitiatorState(Value(), serverStatic, cert)
    }

    constructor (limit: u64)
      ensures this.limit == limit && fresh(cs)
    {
      cs := new CipherState(limit);
      h, ck, cert, serverStatic := [], [], None, [];
      this.limit := limit;
    }

    method Begin()
      modifies this
      ensures fresh(cs) && Value() == Start(limit)
      ensures cert == old(cert) && serverStatic == old(serverStatic)
    {
      ck := Sha256(Clear(Ascii(PROTOCOL_NAME)));
      h := Sha256(ck);
      cs := new CipherState(limit);
    }

    method MixHash(data: Octets)
      modifies this`h
      ensures Value() == old(Value()).MixHash(data)
    {
      h := Sha256(h + data);
    }

    method MixKey(inputKeyMaterial: Octets)
      modifies this`ck, cs
      ensures Value() == old(Value()).MixKey(inputKeyMaterial)
    {
      var (next, temp) := HKDF(ck, inputKeyMaterial);
      ck := next;
      cs.InitializeKey(temp);
    }

    method EncryptAndHash(plain: Octets) returns (ct: Octets)
      modifies this`h, cs
      ensures (ct, Value()) == old(Value()).EncryptAndHash(plain)
    {
      if |cs.k| != 0 {
        var sealed := cs.EncryptWithAd(h, plain);
        ct := if sealed.Some? then sealed.value else [];
      } else {
        ct := plain;
      }
      MixHash(ct);
    }

    method DecryptAndHash(ct: Octets) returns (plain: Option<Octets>)
      modifies this`h, cs
      ensures (plain, Value()) == old(Value()).DecryptAndHash(ct)
    {
      if |cs.k| != 0 {
        plain := cs.DecryptWithAd(h, ct);
        if plain.None? {
          return;
        }
      } else {
        plain := Some(ct);
      }
      MixHash(ct);
    }

    /** Starts over and sends the ephemeral key with an empty payload. */
    method SendHello(rw: Connection, ephemeral: Keypair)
      modifies this, rw`outbox
      ensures fresh(cs) && Value() == InitiatorHello(ephemeral, limit)
      ensures cert == old(cert) && serverStatic == old(serverStatic)
      ensures rw.outbox == old(rw.outbox) + EllSwift(ephemeral)
    {
      hide Symmetric.MixHash, Symmetric.EncryptAndHash, EllSwift, Start;
      Begin();
      MixHash(EllSwift(ephemeral));
      var empty := EncryptAndHash([]);
      rw.Write(EllSwift(ephemeral));
    }

    /** Hashes a key that travelled and keys the cipher with the secret shared with it. */
    method MixEphemeral(public': Octets, secret: Octets)
      modifies this`h, this`ck, cs
      ensures Value() == old(Value()).MixHash(public').MixKey(secret)
    {
      hide Symmetric.MixHash, Symmetric.MixKey;
      MixHash(public');
      MixKey(secret);
    }

    /** Keys the two transport ciphers from the final chaining key. */
    method Split(first: CipherState, second: CipherState)
      requires first != second && first.limit == second.limit == limit
      modifies first, second
      ensures first.Value() == Fresh(HKDF(ck, []).0, limit) && second.Value() == Fresh(HKDF(ck, []).1, limit)
    {
      hide HKDF;
      var (k1, k2) := HKDF(ck, []);
      first.InitializeKey(k1);
      second.InitializeKey(k2);
    }

    /** Opens the responder's two records, keeping the static key and the certificate they carry. */
    method Learn(ephemeral: Keypair, encryptedStatic: Octets, encryptedCert: Octets) returns (done: bool)
      modifies this`h, this`ck, this`cert, this`serverStatic, cs
      ensures (done, State()) == LearnServer(old(State()), ephemeral, encryptedStatic, encryptedCert)
    {
      hide Symmetric.MixHash, Symmetric.MixKey, Symmetric.EncryptAndHash, Symmetric.DecryptAndHash, ECDH, HKDF;
      hide DecodeCertificate;
      var plainStatic := DecryptAndHash(encryptedStatic);
      if plainStatic.None? {
        return false;
      }
      serverStatic := plainStatic.value;
      MixKey(ECDH(ephemeral, plainStatic.value, true));
      var plainCert := DecryptAndHash(encryptedCert);
      if plainCert.None? {
        return false;
      }
      var decoded := DecodeCertificate(plainCert.value);
      if decoded.None? {
        return false;
      }
      cert := decoded;
      return true;
    }

    /** Sends the ephemeral key, reads the responder's message, and returns both transport ciphers. */
    method PerformHandshakeInitiator(rw: Connection, ephemeral: Keypair)
      returns (done: bool, send: CipherState, recv: CipherState)
      modifies this, rw
      ensures rw.outbox == old(rw.outbox) + EllSwift(ephemeral)
      ensures rw.inbox == if |old(rw.inbox)| < ACT_TWO_LEN then [] else old(rw.inbox)[ACT_TWO_LEN..]
      ensures fresh(send) && fresh(recv) && send != recv
      ensures done <==> InitiatorRun(ephemeral, old(rw.inbox), limit).Some?
      ensures State() == InitiatorLeaves(ephemeral, old(rw.inbox), limit, old(State()))
      ensures done ==> cert.Some?
      ensures done ==> InitiatorRun(ephemeral, old(rw.inbox), limit).value
                       == InitiatorEnd(Value(), serverStatic, cert.value, send.Value(), recv.Value())
    {
      hide InitiatorBeforeStatic, InitiatorHello, InitiatorRun, LearnServer, ECDH, HKDF, EllSwift;
      ghost var incoming := rw.inbox;
      send := new CipherState(limit);
      recv := new CipherState(limit);
      done := false;
      SendHello(rw, ephemeral);
      var pt2 := rw.ReadFull(ACT_TWO_LEN);
      if pt2.None? {
        ShortRun(ephemeral, incoming, limit);
        return;
      }
      var re, encryptedStatic, encryptedCert := pt2.value[..64], pt2.value[64..144], pt2.value[144..];
      assert re == incoming[..64];
      assert encryptedStatic == incoming[64..144];
      assert encryptedCert == incoming[144..234];
      BeforeStatic(ephemeral, re, limit);
      MixEphemeral(re, ECDH(ephemeral, re, true));
      InitiatorRunLearns(ephemeral, incoming, limit, old(State()));
      done := Learn(ephemeral, encryptedStatic, encryptedCert);
      if done {
        Split(send, recv);
      }
    }

    /** Reads the initiator's key, answers with keys and certificate, and returns both transport ciphers. */
    method PerformHandshakeResponder(rw: Connection, signedCert: Certificate, serverKeys: Keypair, ephemeral: Keypair)
      returns (done: bool, recv: CipherState, send: CipherState)
      modifies this, rw
      ensures rw.inbox == if |old(rw.inbox)| < 64 then [] else old(rw.inbox)[64..]
      ensures fresh(send) && fresh(recv) && send != recv
      ensures cert == old(cert) && serverStatic == old(serverStatic)
      ensures |old(rw.inbox)| < 64 ==> Value() == Start(limit)
      ensures var run := ResponderRun(ephemeral, serverKeys, signedCert, old(rw.inbox), limit);
              && (done <==> run.Some?)
              && (done ==> run.value.sym == Value() && run.value.recv == recv.Value() && run.value.send == send.Value())
              && rw.outbox == if done then old(rw.outbox) + run.value.sent else old(rw.outbox)
    {
      hide Symmetric.MixHash, Symmetric.MixKey, Symmetric.EncryptAndHash, Symmetric.DecryptAndHash, ECDH, HKDF;
      hide Start, EllSwift, EncodeCertificate, ResponderRun;
      ghost var incoming := rw.inbox;
      recv := new CipherState(limit);
      send := new CipherState(limit);
      done := false;
      Begin();
      var re := rw.ReadFull(64);
      if re.None? {
        NoHello(ephemeral, serverKeys, signedCert, incoming, limit);
        return;
      }
      assert incoming == re.value + incoming[64..];
      ResponderSteps(ephemeral, serverKeys, signedCert, re.value, incoming[64..], limit);
      MixHash(re.value);
      var empty := DecryptAndHash([]);
      MixEphemeral(EllSwift(ephemeral), ECDH(ephemeral, re.value, false));
      var records := Answer(serverKeys, signedCert, re.value);
      rw.Write(EllSwift(ephemeral) + records);
      Split(recv, send);
      done := true;
    }

    /** The static key and the certificate, each sealed under a key of its own. */
    method Answer(serverKeys: Keypair, signedCert: Certificate, re: Octets) returns (records: Octets)
      modifies this`h, this`ck, cs
      ensures var (ctStatic, s3) := old(Value()).EncryptAndHash(EllSwift(serverKeys));
              var (ctCert, s5) := s3.MixKey(ECDH(serverKeys, re, false)).EncryptAndHash(EncodeCertificate(signedCert));
              records == ctStatic + ctCert && Value() == s5
    {
      hide Symmetric.MixHash, Symmetric.MixKey, Symmetric.EncryptAndHash, ECDH, EllSwift, EncodeCertificate;
      var encryptedStatic := EncryptAndHash(EllSwift(serverKeys));
      MixKey(ECDH(serverKeys, re, false));
      var encryptedCert := EncryptAndHash(EncodeCertificate(signedCert));
      return encryptedStatic + encryptedCert;
    }

    /** Checks the certificate received against the authority, at a given time. */
    method VerifyServerCertificate(authorityX: Octets, now: nat) returns (verdict: Verdict)
      requires cert.Some?
      ensures verdict == VerifyCertificate(cert.value, authorityX, XOf(serverStatic), now)
      ensures VerdictIs(verdict, cert.value, authorityX, XOf(serverStatic), now)
    {
      Verdicts(cert.value, authorityX, XOf(serverStatic), now);
      var c := cert.value;
      var t := now % 0x1_0000_0000;
      if c.version != CERTIFICATE_VERSION {
        return Unsupported;
      }
      if c.validFrom > t {
        return NotYetValid;
      }
      if c.notValidAfter < t {
        return Expired;
      }
      var buf := Clear(EncodeNoSig(c)) + XOf(serverStatic);
      return Checked(Verify(c.signature, Sha256(buf), authorityX));
    }
  }

  /**
    Both roles against each other, as over a pipe: the server reads the client's key and its answer is what the
    client reads. Each sending cipher is the twin of the other side's receiving cipher, keyed and at zero.
   */
  method FullHandshake(clientKey: Keypair, serverKey: Keypair, serverStatic: Keypair, cert: Certificate, limit: u64)
    returns (client: HandshakeState, clientSend: CipherState, clientRecv: CipherState,
             serverRecv: CipherState, serverSend: CipherState)
    requires limit > 0
    ensures fresh(client) && client.cert == Some(cert) && client.serverStatic == EllSwift(serverStatic)
    ensures fresh(clientSend) && fresh(clientRecv) && fresh(serverRecv) && fresh(serverSend)
    ensures clientSend.Value() == serverRecv.Value() && clientRecv.Value() == serverSend.Value()
    ensures clientSend.Value().Keyed() && clientRecv.Value().Keyed()
    ensures clientSend.n == clientRecv.n == 0 && clientSend.limit == clientRecv.limit == limit
    ensures clientSend.k != clientRecv.k
  {
    hide InitiatorRun, ResponderRun;
    var toServer := new Connection(EllSwift(clientKey));
    var server := new HandshakeState(limit);
    HandshakeAgreement(clientKey, serverKey, serverStatic, cert, [], [], limit, limit);
    assert EllSwift(clientKey) + [] == EllSwift(clientKey);
    var done, sr, ss := server.PerformHandshakeResponder(toServer, cert, serverStatic, serverKey);
    serverRecv, serverSend := sr, ss;
    ghost var sent := ResponderRun(serverKey, serverStatic, cert, EllSwift(clientKey), limit).value.sent;
    assert sent + [] == sent && [] + sent == sent;
    assert toServer.outbox == sent;
    var toClient := new Connection(toServer.outbox);
    client := new HandshakeState(limit);
    var done', cs, cr := client.PerformHandshakeInitiator(toClient, clientKey);
    clientSend, clientRecv := cs, cr;
    InitiatorCiphers(clientKey, toServer.outbox, limit);
    ResponderCiphers(serverKey, serverStatic, cert, EllSwift(clientKey), limit);
    HKDFOutputsDiffer(client.ck, [], client.ck, []);
  }
}
