/**
  Frames over an encrypted stream: two sealed records per frame, header and payload, and everything from a
  message on one side to the same message on the other.
 */
module Transport {
  import opened Bytes
  import opened Codec
  import opened Crypto
  import opened Ciphers
  import opened Frames
  import opened Messages
  import opened Handshake
  import HandshakeObjects

  const NOISE_HEADER_SIZE: nat := 22

  // ----- one frame

  /** The ciphertext or none, the cipher afterwards, and the frame its encoding leaves behind. */
  function EncryptFrame(c: Cipher, f: FrameValue): (Option<Octets>, Cipher, FrameValue)
  {
    var (encoded, g) := EncodeFrame(f);
    if encoded.None? then (None, c, g)
    else
      var (header, c1) := c.EncryptWithAd([], Clear(encoded.value[..FRAME_HEADER_SIZE]));
      if header.None? then (None, c1, g)
      else
        var (payload, c2) := c1.EncryptWithAd([], Clear(encoded.value[FRAME_HEADER_SIZE..]));
        if payload.None? then (None, c2, g)
        else (Some(header.value + payload.value), c2, g)
  }

  /** The frame or none, the cipher afterwards, and what is left of the stream. */
  function DecryptFrame(c: Cipher, stream: Octets): (res: (Option<FrameValue>, Cipher, Octets))
    ensures res.0.Some? ==> |res.2| < |stream|
  {
    if |stream| < NOISE_HEADER_SIZE then (None, c, [])
    else
      var (header, c1) := c.DecryptWithAd([], stream[..NOISE_HEADER_SIZE]);
      var rest := stream[NOISE_HEADER_SIZE..];
      if header.None? then (None, c1, rest)
      else
        var f := DecodeHeader(ZERO_FRAME, Values(header.value));
        var l := PlainTextLenToCipherTextLen(f.messageLength);
        if |rest| < l then (None, c1, [])
        else
          var (payload, c2) := c1.DecryptWithAd([], rest[..l]);
          if payload.None? then (None, c2, rest[l..])
          else (Some(f.(payload := Values(payload.value))), c2, rest[l..])
  }

  /** Encodes the frame, then seals the first six bytes and the rest. */
  method EncryptFrameObject(cs: CipherState, frame: Frame) returns (out: Option<Octets>)
    modifies cs, frame
    ensures (out, cs.Value(), frame.Value()) == EncryptFrame(old(cs.Value()), old(frame.Value()))
  {
    var encoded := frame.Encode();
    if encoded.None? {
      return None;
    }
    var header := cs.EncryptWithAd([], Clear(encoded.value[..FRAME_HEADER_SIZE]));
    if header.None? {
      return None;
    }
    var payload := cs.EncryptWithAd([], Clear(encoded.value[FRAME_HEADER_SIZE..]));
    if payload.None? {
      return None;
    }
    return Some(header.value + payload.value);
  }

  /** Reads and opens a header record, then the payload record whose length the header announces. */
  method DecryptFrameFromReader(cs: CipherState, r: HandshakeObjects.Connection) returns (frame: Frame?)
    modifies cs, r`inbox
    ensures var (f, c, rest) := DecryptFrame(old(cs.Value()), old(r.inbox));
            && cs.Value() == c && r.inbox == rest
            && (frame != null <==> f.Some?) && (frame != null ==> fresh(frame) && frame.Value() == f.value)
  {
    var header := r.ReadFull(NOISE_HEADER_SIZE);
    if header.None? {
      return null;
    }
    var decrypted := cs.DecryptWithAd([], header.value);
    if decrypted.None? {
      return null;
    }
    frame := new Frame(ZERO_FRAME);
    var plain := Values(decrypted.value);
    SameHeader(ZERO_FRAME, plain);
    frame.DecodeHeaderBytes(plain[..FRAME_HEADER_SIZE]);
    var payload := r.ReadFull(PlainTextLenToCipherTextLen(frame.messageLength));
    if payload.None? {
      return null;
    }
    decrypted := cs.DecryptWithAd([], payload.value);
    if decrypted.None? {
      return null;
    }
    frame.payload := Values(decrypted.value);
  }

  /** Two ciphers with the same key at the same counter, each with its own limit. */
  predicate Lockstep(c: Cipher, d: Cipher)
  {
    c.Keyed() && d.Keyed() && c.key == d.key && c.n == d.n
  }

  predicate HasRoom(c: Cipher, records: nat)
  {
    c.n + records <= c.limit
  }

  /** The payload lengths that fit one record and are not empty. */
  predicate OneRecord(f: FrameValue)
  {
    1 <= f.messageLength <= MAX_PLAINTEXT_CHUNK
  }

  function FrameRecords(c: Cipher, f: FrameValue): Octets
    requires c.n + 1 < TWO_TO_64
  {
    Seal(c.key, Nonce(c.n), [], Clear(Header(f))) + Seal(c.key, Nonce(c.n + 1), [], Clear(f.payload))
  }

  lemma EncryptedFrame(c: Cipher, f: FrameValue)
    requires c.Keyed() && HasRoom(c, 2) && Plain(f)
    ensures EncryptFrame(c, f) == (Some(FrameRecords(c, f)), c.(n := c.n + 2), f)
  {
    PlainFrameRoundTrip(f, []);
    var e := Header(f) + f.payload;
    assert e[..FRAME_HEADER_SIZE] == Header(f) && e[FRAME_HEADER_SIZE..] == f.payload;
    EncryptStep(c, [], Clear(Header(f)));
    EncryptStep(c.(n := c.n + 1), [], Clear(f.payload));
  }

  /**
    The bytes a frame travels as, spelled out: the first six bytes of its encoding and the rest, each sealed
    without associated data, under the nonces of two successive counters.
   */
  lemma FrameOnTheWire(c: Cipher, f: FrameValue, first: Bytes, second: Bytes)
    requires c.Keyed() && HasRoom(c, 2) && NonceFor(first, c.n) && NonceFor(second, c.n + 1)
    ensures var encoded := EncodeFrame(f).0;
            EncryptFrame(c, f) ==
              if encoded.None? then (None, c, EncodeFrame(f).1)
              else (Some(Seal(c.key, first, [], Clear(encoded.value[..6]))
                         + Seal(c.key, second, [], Clear(encoded.value[6..]))),
                    c.(n := c.n + 2), EncodeFrame(f).1)
  {
    hide EncodeFrame, Cipher.EncryptWithAd, Seal, Clear;
    var encoded := EncodeFrame(f).0;
    if encoded.Some? {
      EncodedSize(f);
      SealedUnder(c, [], Clear(encoded.value[..6]), first);
      SealedUnder(c.(n := c.n + 1), [], Clear(encoded.value[6..]), second);
    }
  }

  lemma EncodedSize(f: FrameValue)
    requires EncodeFrame(f).0.Some?
    ensures |EncodeFrame(f).0.value| >= 6
  {
  }

  /**
    Which bytes decrypt to a frame, and to which: a record sealed under the cipher's nonce, whose plaintext is
    read as a header, and behind it as many bytes as one record of the announced length, sealed under the next
    nonce. Anything else is an error, with the counter behind the last record accepted and the stream behind the
    last bytes read.
   */
  lemma DecryptedFrame(d: Cipher, stream: Octets, first: Bytes, second: Bytes)
    requires d.Keyed() && HasRoom(d, 2) && NonceFor(first, d.n) && NonceFor(second, d.n + 1)
    ensures DecryptionIs(DecryptFrame(d, stream), d, stream, first, second)
  {
    hide Cipher.DecryptWithAd, DecodeHeader, PlainTextLenToCipherTextLen, Cipher.Keyed, SealedUnderNonce;
    hide LE16, LE24, Values, PayloadIs;
    if |stream| >= 22 {
      var header, more := stream[..22], stream[22..];
      RecordOutcome(d, header, first);
      if SealedUnderNonce(header, d.key, first) {
        RecordPlainSize(header, d.key, first);
        var plain := Values(header[0].plain);
        HeaderRead(ZERO_FRAME, plain);
        var h := DecodeHeader(ZERO_FRAME, plain);
        PayloadOutcome(d.(n := d.n + 1), more, h, second);
      }
    }
  }

  /** How decryption leaves, record by record. */
  ghost predicate DecryptionIs(res: (Option<FrameValue>, Cipher, Octets), d: Cipher, stream: Octets,
                               first: Bytes, second: Bytes)
  {
    if |stream| < 22 then res == (None, d, [])
    else
      var header, more := stream[..22], stream[22..];
      if !SealedUnderNonce(header, d.key, first) then res == (None, d, more)
      else
        var plain := Values(header[0].plain);
        && |plain| == 6 && d.n + 1 < TWO_TO_64
        && PayloadIs(res, d.(n := d.n + 1), more,
                     FrameValue(LE16(plain[0], plain[1]), plain[2], LE24(plain[3], plain[4], plain[5]), [], []), second)
  }

  ghost predicate PayloadIs(res: (Option<FrameValue>, Cipher, Octets), d: Cipher, more: Octets, header: FrameValue,
                            nonce: Bytes)
  {
    var l := header.messageLength + 16 * ((header.messageLength + 65518) / 65519);
    if |more| < l then res == (None, d, [])
    else if !SealedUnderNonce(more[..l], d.key, nonce) then res == (None, d, more[l..])
    else
      && d.n + 1 < TWO_TO_64
      && res == (Some(header.(payload := Values(more[0].plain))), d.(n := d.n + 1), more[l..])
  }

  lemma PayloadOutcome(d: Cipher, more: Octets, header: FrameValue, nonce: Bytes)
    requires d.Keyed() && HasRoom(d, 1) && NonceFor(nonce, d.n)
    ensures var l := PlainTextLenToCipherTextLen(header.messageLength);
            PayloadIs(if |more| < l then (None, d, [])
                      else
                        var (payload, d') := d.DecryptWithAd([], more[..l]);
                        if payload.None? then (None, d', more[l..])
                        else (Some(header.(payload := Values(payload.value))), d', more[l..]),
                      d, more, header, nonce)
  {
    hide Cipher.DecryptWithAd, PlainTextLenToCipherTextLen, Cipher.Keyed, SealedUnderNonce, Values;
    LengthFormula(header.messageLength);
    var l := PlainTextLenToCipherTextLen(header.messageLength);
    if l <= |more| {
      RecordOutcome(d, more[..l], nonce);
      if SealedUnderNonce(more[..l], d.key, nonce) {
        RecordPlainSize(more[..l], d.key, nonce);
      }
    }
  }

  /** The bytes are some plaintext sealed under that key and nonce without associated data. */
  ghost predicate SealedUnderNonce(ct: Octets, key: Octets, nonce: Bytes)
  {
    ct != [] && ct[0].Sealed? && ct == Seal(key, nonce, [], ct[0].plain)
  }

  lemma RecordPlainSize(ct: Octets, key: Octets, nonce: Bytes)
    requires SealedUnderNonce(ct, key, nonce)
    ensures ct != [] && ct[0].Sealed? && |ct[0].plain| + 16 == |ct|
  {
  }

  lemma RecordOutcome(d: Cipher, ct: Octets, nonce: Bytes)
    requires d.Keyed() && d.n < d.limit && NonceFor(nonce, d.n)
    ensures d.DecryptWithAd([], ct)
         == if SealedUnderNonce(ct, d.key, nonce) then (Some(ct[0].plain), d.(n := d.n + 1)) else (None, d)
    ensures d.(n := d.n + 1).Keyed()
  {
    NonceLayout(nonce, d.n);
    DecryptStep(d, [], ct);
    if SealedUnderNonce(ct, d.key, nonce) {
      OpenExactly(d.key, nonce, [], ct, ct[0].plain);
    }
  }

  /** The header record is accepted and tells how many more bytes to read. */
  lemma HeaderAccepted(d: Cipher, f: FrameValue, more: Octets)
    requires d.Keyed() && HasRoom(d, 2) && Plain(f) && f.messageLength <= MAX_U24
    ensures var record := Seal(d.key, Nonce(d.n), [], Clear(Header(f)));
            && |record| == NOISE_HEADER_SIZE
            && (record + more)[..NOISE_HEADER_SIZE] == record && (record + more)[NOISE_HEADER_SIZE..] == more
            && d.DecryptWithAd([], record) == (Some(Clear(Header(f))), d.(n := d.n + 1))
            && DecodeHeader(ZERO_FRAME, Values(Clear(Header(f)))) == f.(payload := [])
  {
    var record := Seal(d.key, Nonce(d.n), [], Clear(Header(f)));
    DecryptStep(d, [], record);
    OpenExactly(d.key, Nonce(d.n), [], record, Clear(Header(f)));
    ValuesOfClear(Header(f));
    HeaderRoundTrip(f, ZERO_FRAME, []);
    assert Header(f) + [] == Header(f);
  }

  /** A record opens only when exactly its own bytes are read. */
  lemma PayloadAccepted(d: Cipher, plain: Bytes, read: Octets, more: Octets, l: nat)
    requires d.Keyed() && HasRoom(d, 1)
    requires read == Seal(d.key, Nonce(d.n), [], Clear(plain)) + more && l <= |read|
    ensures d.DecryptWithAd([], read[..l])
         == if l == |plain| + MAC_LEN then (Some(Clear(plain)), d.(n := d.n + 1)) else (None, d)
  {
    var record := Seal(d.key, Nonce(d.n), [], Clear(plain));
    DecryptStep(d, [], read[..l]);
    if l == |plain| + MAC_LEN {
      assert read[..l] == record;
      OpenExactly(d.key, Nonce(d.n), [], record, Clear(plain));
    } else if l > 0 {
      assert read[..l][0] == record[0] == Sealed(d.key, Nonce(d.n), [], Clear(plain), 0);
    }
  }

  /**
    Exact reach: with room for both records, a frame without TLVs comes out of the peer, with whatever follows it
    left unread, exactly when its payload is neither empty nor longer than one record; otherwise the peer has
    spent one counter value and returns an error.
   */
  lemma ExactReach(c: Cipher, d: Cipher, f: FrameValue, more: Octets)
    requires Lockstep(c, d) && HasRoom(c, 2) && HasRoom(d, 2)
    requires Plain(f) && f.messageLength <= MAX_U24
    ensures var (ct, c', _) := EncryptFrame(c, f);
            && ct.Some? && c' == c.(n := c.n + 2)
            && var (g, d', rest) := DecryptFrame(d, ct.value + more);
            && (g == Some(f) <==> OneRecord(f)) && (g.Some? <==> OneRecord(f))
            && d' == d.(n := if OneRecord(f) then d.n + 2 else d.n + 1)
            && (OneRecord(f) ==> rest == more)
  {
    hide Cipher.EncryptWithAd, Cipher.DecryptWithAd, EncryptFrame, DecodeHeader, Header, Values, Clear;
    hide PlainTextLenToCipherTextLen;
    EncryptedFrame(c, f);
    HeaderAccepted(d, f, Seal(c.key, Nonce(c.n + 1), [], Clear(f.payload)) + more);
    var header := Seal(c.key, Nonce(c.n), [], Clear(Header(f)));
    var payload := Seal(c.key, Nonce(c.n + 1), [], Clear(f.payload));
    assert FrameRecords(c, f) + more == header + (payload + more);
    var l := PlainTextLenToCipherTextLen(f.messageLength);
    OneRecordExactly(f.messageLength);
    if l <= |payload + more| {
      PayloadAccepted(d.(n := d.n + 1), f.payload, payload + more, more, l);
      ValuesOfClear(f.payload);
      if OneRecord(f) {
        assert (payload + more)[l..] == more;
      }
    }
  }

  // ----- streams

  /** Encrypting a list of frames one after the other; only defined results are kept. */
  function EncryptAll(c: Cipher, fs: seq<FrameValue>): (Octets, Cipher)
    decreases |fs|
  {
    hide EncryptFrame;
    if fs == [] then ([], c)
    else
      var sent := EncryptFrame(c, fs[0]);
      var more := EncryptAll(sent.1, fs[1..]);
      ((if sent.0.Some? then sent.0.value else []) + more.0, more.1)
  }

  /** Decrypting frames from a stream until a call fails. */
  function ReceiveAll(d: Cipher, stream: Octets): (seq<FrameValue>, Cipher, Octets)
    decreases |stream|
  {
    hide DecryptFrame;
    var got := DecryptFrame(d, stream);
    if got.0.None? then ([], got.1, got.2)
    else
      var more := ReceiveAll(got.1, got.2);
      ([got.0.value] + more.0, more.1, more.2)
  }

  predicate AllPlain(fs: seq<FrameValue>)
  {
    forall i :: 0 <= i < |fs| ==> Plain(fs[i]) && fs[i].messageLength <= MAX_U24
  }

  /** The frames before the first one that does not fit one record. */
  function Deliverable(fs: seq<FrameValue>): (good: seq<FrameValue>)
    ensures |good| <= |fs|
  {
    if fs == [] || !OneRecord(fs[0]) then [] else [fs[0]] + Deliverable(fs[1..])
  }

  /**
    For every list of frames without TLVs the receiver gets exactly the frames before the first one that is empty
    or too long for one record: all of them, with no byte left, when there is none.
   */
  lemma {:induction false} StreamTransport(c: Cipher, d: Cipher, fs: seq<FrameValue>)
    requires Lockstep(c, d) && HasRoom(c, 2 * |fs|) && HasRoom(d, 2 * |fs|) && AllPlain(fs)
    ensures var (stream, c') := EncryptAll(c, fs);
            var (got, d', rest) := ReceiveAll(d, stream);
            && c' == c.(n := c.n + 2 * |fs|)
            && got == Deliverable(fs)
            && (|got| == |fs| ==> d' == d.(n := d.n + 2 * |fs|) && rest == [])
            && (|got| < |fs| ==> d' == d.(n := d.n + 2 * |got| + 1))
    decreases |fs|
  {
    hide EncryptFrame, DecryptFrame;
    if fs == [] {
      NothingToRead(d);
    } else {
      var c1 := EncryptFrame(c, fs[0]).1;
      ExactReach(c, d, fs[0], EncryptAll(c1, fs[1..]).0);
      StreamTransport(c1, d.(n := d.n + 2), fs[1..]);
    }
  }

  lemma NothingToRead(d: Cipher)
    ensures ReceiveAll(d, []) == ([], d, [])
  {
  }

  lemma {:induction false} AllDeliverable(fs: seq<FrameValue>)
    ensures Deliverable(fs) == fs <==> forall i :: 0 <= i < |fs| ==> OneRecord(fs[i])
  {
    if fs != [] {
      AllDeliverable(fs[1..]);
      assert fs == [fs[0]] + fs[1..];
    }
  }

  // ----- what any stream at all can deliver

  /** The plaintext of a sender's record, counted from the start: headers and payloads in turn. */
  function RecordPlain(fs: seq<FrameValue>, j: nat): Octets
    requires j < 2 * |fs|
  {
    if j % 2 == 0 then Clear(Header(fs[j / 2])) else Clear(fs[j / 2].payload)
  }

  /** The sender sealed this byte under the key, as part of record j from counter n0 on. */
  ghost predicate SentAs(o: Octet, n0: u64, fs: seq<FrameValue>, j: nat)
    requires o.Sealed? && j < 2 * |fs| && n0 + j < TWO_TO_64
  {
    o.nonce == Nonce(n0 + j) && o.ad == [] && o.plain == RecordPlain(fs, j)
  }

  /** Bytes sealed under the key occur in the stream only as the sender made them, in any order, any number of times. */
  ghost predicate OnlySent(stream: Octets, key: Octets, n0: u64, fs: seq<FrameValue>)
    requires n0 + 2 * |fs| <= TWO_TO_64
  {
    forall i :: 0 <= i < |stream| && stream[i].Sealed? && stream[i].key == key ==>
      exists j: nat :: j < 2 * |fs| && SentAs(stream[i], n0, fs, j)
  }

  /** A record accepted at a counter is the sender's record of that number. */
  lemma AcceptedRecord(d: Cipher, record: Octets, n0: u64, fs: seq<FrameValue>, j: nat)
    requires d.Keyed() && n0 + 2 * |fs| <= TWO_TO_64 && d.n == n0 + j
    requires OnlySent(record, d.key, n0, fs)
    requires d.DecryptWithAd([], record).0.Some?
    ensures j < 2 * |fs| && d.n < d.limit
    ensures d.DecryptWithAd([], record) == (Some(RecordPlain(fs, j)), d.(n := d.n + 1))
  {
    DecryptStep(d, [], record);
    var plain := d.DecryptWithAd([], record).0.value;
    hide Cipher.DecryptWithAd, RecordPlain;
    assert record[0] == Sealed(d.key, Nonce(d.n), [], plain, 0);
    var m: nat :| m < 2 * |fs| && SentAs(record[0], n0, fs, m);
    NonceInjective(d.n, n0 + m);
  }

  /** Any part of a genuine stream is genuine. */
  lemma PartOnlySent(stream: Octets, from: nat, to: nat, key: Octets, n0: u64, fs: seq<FrameValue>)
    requires n0 + 2 * |fs| <= TWO_TO_64 && OnlySent(stream, key, n0, fs) && from <= to <= |stream|
    ensures OnlySent(stream[from..to], key, n0, fs)
  {
    var part := stream[from..to];
    forall i | 0 <= i < |part| && part[i].Sealed? && part[i].key == key
      ensures exists j: nat :: j < 2 * |fs| && SentAs(part[i], n0, fs, j)
    {
      assert part[i] == stream[from + i];
    }
  }

  lemma AcceptedHeader(d: Cipher, record: Octets, n0: u64, fs: seq<FrameValue>, t: nat)
    requires d.Keyed() && n0 + 2 * |fs| <= TWO_TO_64 && d.n == n0 + 2 * t && AllPlain(fs)
    requires OnlySent(record, d.key, n0, fs) && |record| == NOISE_HEADER_SIZE
    requires d.DecryptWithAd([], record).0.Some?
    ensures var (plain, d') := d.DecryptWithAd([], record);
            && t < |fs| && d' == d.(n := d.n + 1) && d'.Keyed()
            && DecodeHeader(ZERO_FRAME, Values(plain.value)) == fs[t].(payload := [])
  {
    hide OnlySent, Cipher.DecryptWithAd, Header, DecodeHeader, Values;
    AcceptedRecord(d, record, n0, fs, 2 * t);
    ValuesOfClear(Header(fs[t]));
    HeaderRoundTrip(fs[t], ZERO_FRAME, []);
    assert Header(fs[t]) + [] == Header(fs[t]);
  }

  lemma AcceptedPayload(d: Cipher, record: Octets, n0: u64, fs: seq<FrameValue>, t: nat)
    requires d.Keyed() && n0 + 2 * |fs| <= TWO_TO_64 && d.n == n0 + 2 * t + 1
    requires OnlySent(record, d.key, n0, fs) && d.DecryptWithAd([], record).0.Some?
    ensures var (plain, d') := d.DecryptWithAd([], record);
            t < |fs| && d' == d.(n := d.n + 1) && d'.Keyed() && Values(plain.value) == fs[t].payload
  {
    hide OnlySent, Cipher.DecryptWithAd, Values;
    AcceptedRecord(d, record, n0, fs, 2 * t + 1);
    ValuesOfClear(fs[t].payload);
  }

  /** What decryption returned is the sender's frame t, two counter values later, before a genuine stream. */
  ghost predicate IsNext(res: (Option<FrameValue>, Cipher, Octets), d: Cipher, n0: u64, fs: seq<FrameValue>, t: nat)
    requires n0 + 2 * |fs| <= TWO_TO_64
  {
    && t < |fs| && d.n + 2 < TWO_TO_64 && res.0 == Some(fs[t]) && res.1 == d.(n := d.n + 2) && res.1.Keyed()
    && OnlySent(res.2, d.key, n0, fs)
  }

  /** One accepted frame is the frame the sender sent at that place, and the rest of the stream is still genuine. */
  lemma AcceptedFrame(d: Cipher, stream: Octets, n0: u64, fs: seq<FrameValue>, t: nat)
    requires d.Keyed() && n0 + 2 * |fs| <= TWO_TO_64 && d.n == n0 + 2 * t && AllPlain(fs)
    requires OnlySent(stream, d.key, n0, fs) && DecryptFrame(d, stream).0.Some?
    ensures IsNext(DecryptFrame(d, stream), d, n0, fs, t)
  {
    hide OnlySent, Cipher.DecryptWithAd, DecodeHeader, Values, PlainTextLenToCipherTextLen, Cipher.Keyed;
    var header, rest := stream[..NOISE_HEADER_SIZE], stream[NOISE_HEADER_SIZE..];
    PartOnlySent(stream, 0, NOISE_HEADER_SIZE, d.key, n0, fs);
    assert stream[0..NOISE_HEADER_SIZE] == header;
    AcceptedHeader(d, header, n0, fs, t);
    var l := PlainTextLenToCipherTextLen(fs[t].messageLength);
    PartOnlySent(stream, NOISE_HEADER_SIZE, |stream|, d.key, n0, fs);
    assert stream[NOISE_HEADER_SIZE..|stream|] == rest;
    PartOnlySent(rest, 0, l, d.key, n0, fs);
    assert rest[0..l] == rest[..l];
    AcceptedPayload(d.(n := d.n + 1), rest[..l], n0, fs, t);
    PartOnlySent(rest, l, |rest|, d.key, n0, fs);
    assert rest[l..|rest|] == rest[l..];
  }

  /**
    Integrity of any stream: whatever bytes arrive, dropped, repeated, reordered, spliced or made up, as long as
    only the sender sealed under the key, the frames received until the first error are the first frames sent,
    in order.
   */
  lemma {:induction false} ReceivedIsPrefix(d: Cipher, stream: Octets, n0: u64, fs: seq<FrameValue>, t: nat)
    requires d.Keyed() && n0 + 2 * |fs| <= TWO_TO_64 && d.n == n0 + 2 * t && AllPlain(fs) && t <= |fs|
    requires OnlySent(stream, d.key, n0, fs)
    ensures ReceiveAll(d, stream).0 <= fs[t..]
    decreases |stream|
  {
    hide DecryptFrame, OnlySent;
    var got := DecryptFrame(d, stream);
    if got.0.Some? {
      AcceptedFrame(d, stream, n0, fs, t);
      ReceivedIsPrefix(got.1, got.2, n0, fs, t + 1);
      assert fs[t..] == [fs[t]] + fs[t + 1..];
    }
  }

  lemma SealOnlySent(key: Octets, plain: Octets, fs: seq<FrameValue>, j: nat, n0: u64)
    requires j < 2 * |fs| && n0 + 2 * |fs| <= TWO_TO_64 && plain == RecordPlain(fs, j)
    ensures OnlySent(Seal(key, Nonce(n0 + j), [], plain), key, n0, fs)
  {
    hide RecordPlain, Nonce;
    var s := Seal(key, Nonce(n0 + j), [], plain);
    forall i | 0 <= i < |s| && s[i].Sealed? && s[i].key == key
      ensures exists j: nat :: j < 2 * |fs| && SentAs(s[i], n0, fs, j)
    {
      assert SentAs(s[i], n0, fs, j);
    }
  }

  lemma FrameRecordsOnlySent(c: Cipher, fs: seq<FrameValue>, t: nat, n0: u64)
    requires c.Keyed() && t < |fs| && n0 + 2 * |fs| <= TWO_TO_64 && c.n == n0 + 2 * t
    ensures OnlySent(FrameRecords(c, fs[t]), c.key, n0, fs)
  {
    hide OnlySent, Seal, Header;
    SealOnlySent(c.key, Clear(Header(fs[t])), fs, 2 * t, n0);
    SealOnlySent(c.key, Clear(fs[t].payload), fs, 2 * t + 1, n0);
    BothOnlySent(Seal(c.key, Nonce(c.n), [], Clear(Header(fs[t]))),
                 Seal(c.key, Nonce(c.n + 1), [], Clear(fs[t].payload)), c.key, n0, fs);
  }

  /** What the sender itself puts on the wire satisfies that assumption. */
  lemma {:induction false} SenderOnlySent(c: Cipher, fs: seq<FrameValue>, t: nat, n0: u64)
    requires t <= |fs| && c.Keyed() && HasRoom(c, 2 * (|fs| - t)) && AllPlain(fs)
    requires n0 + 2 * |fs| <= TWO_TO_64 && c.n == n0 + 2 * t
    ensures OnlySent(EncryptAll(c, fs[t..]).0, c.key, n0, fs)
    decreases |fs| - t
  {
    hide EncryptFrame, FrameRecords;
    if t < |fs| {
      EncryptedFrame(c, fs[t]);
      FrameRecordsOnlySent(c, fs, t, n0);
      assert fs[t..][1..] == fs[t + 1..];
      var c1 := c.(n := c.n + 2);
      SenderOnlySent(c1, fs, t + 1, n0);
      BothOnlySent(FrameRecords(c, fs[t]), EncryptAll(c1, fs[t + 1..]).0, c.key, n0, fs);
    }
  }

  lemma BothOnlySent(a: Octets, b: Octets, key: Octets, n0: u64, fs: seq<FrameValue>)
    requires n0 + 2 * |fs| <= TWO_TO_64 && OnlySent(a, key, n0, fs) && OnlySent(b, key, n0, fs)
    ensures OnlySent(a + b, key, n0, fs)
  {
    var s := a + b;
    forall i | 0 <= i < |s| && s[i].Sealed? && s[i].key == key
      ensures exists j: nat :: j < 2 * |fs| && SentAs(s[i], n0, fs, j)
    {
      assert s[i] == if i < |a| then a[i] else b[i - |a|];
    }
  }

  // ----- from message to message

  /** NewFrameFromParams: none when the message does not encode or exceeds the 24-bit length. */
  function FrameOf(m: Message, extension: u16): Option<FrameValue>
  {
    match Encode(m)
    case None => None
    case Some(b) =>
      if |b| > MAX_U24 then None
      else Some(FrameValue(extension, TypeNumber(MessageKindOf(m)), |b|, b, []))
  }

  /** The two limits never meet: an encodable message always makes a plain frame. */
  lemma FrameOfEncodable(m: Message, extension: u16)
    ensures FrameOf(m, extension).Some? <==> Encode(m).Some?
    ensures Encode(m).Some? ==>
            var f := FrameOf(m, extension);
            && Plain(f.value) && 1 <= f.value.messageLength <= MAX_U24
            && f.value.payload == Encode(m).value && f.value.messageType == TypeNumber(MessageKindOf(m))
            && f.value.extensionType == extension && f.value.tlvs == []
            && (OneRecord(f.value) <==> |Encode(m).value| <= MAX_PLAINTEXT_CHUNK)
            && (!MayExceedRecord(MessageKindOf(m)) ==> OneRecord(f.value))
  {
    if Encode(m).Some? {
      MessageSize(m);
    }
  }

  /** What a receiver makes of a frame: the message decoded as the type the header names. */
  function Receive(f: FrameValue): Option<Message>
  {
    match KindOfNumber(f.messageType)
    case None => None
    case Some(k) =>
      var decoded := Decode(k, f.payload, false);
      if decoded.Done? then Some(decoded.m) else None
  }

  /** A frame is received as a message exactly when it names its type and its payload begins with the encoding. */
  lemma ReceivesExactly(f: FrameValue, m: Message)
    ensures Receive(f) == Some(m)
       <==> && f.messageType == TypeNumber(MessageKindOf(m))
            && exists end :: 0 <= end <= |f.payload| && Encode(m) == Some(f.payload[..end])
  {
    hide Decode, Encode, KindOfNumber, TypeNumber;
    var k := MessageKindOf(m);
    KindOfTypeNumber(k);
    if Receive(f) == Some(m) {
      var kind := KindOfNumber(f.messageType).value;
      CanonicalDecoding(kind, f.payload, false);
      assert kind == k;
    }
    if end :| f.messageType == TypeNumber(k) && 0 <= end <= |f.payload| && Encode(m) == Some(f.payload[..end]) {
      DecodesExactly(m, f.payload, false, end);
    }
  }

  /** The frame of a message is received as that message. */
  lemma FrameReceived(m: Message, f: FrameValue)
    requires Encode(m).Some?
    requires f.messageType == TypeNumber(MessageKindOf(m)) && f.payload == Encode(m).value
    ensures Receive(f) == Some(m)
    ensures Decode(MessageKindOf(m), f.payload, false) == Done(m, |f.payload|)
  {
    hide Decode, Encode, KindOfNumber, TypeNumber;
    KindOfTypeNumber(MessageKindOf(m));
    MessageRoundTrip(m, []);
    assert Encode(m).value + [] == Encode(m).value;
  }

  /**
    End to end: an encodable message, framed, encrypted, decrypted by the peer and decoded, is the same message
    with its type, exactly when it fits one record; every type but two always does.
   */
  lemma MessageEndToEnd(m: Message, extension: u16, c: Cipher, d: Cipher, more: Octets)
    requires Encode(m).Some? && Lockstep(c, d) && HasRoom(c, 2) && HasRoom(d, 2)
    ensures FrameOf(m, extension).Some?
    ensures var sent := EncryptFrame(c, FrameOf(m, extension).value).0;
            && sent.Some?
            && var (f, _, rest) := DecryptFrame(d, sent.value + more);
            && (f.Some? <==> |Encode(m).value| <= MAX_PLAINTEXT_CHUNK)
            && (f.Some? ==> rest == more && Receive(f.value) == Some(m))
            && (f.Some? ==> f.value.extensionType == extension && f.value.tlvs == [])
            && (f.Some? ==> Decode(MessageKindOf(m), f.value.payload, false) == Done(m, |f.value.payload|))
            && (!MayExceedRecord(MessageKindOf(m)) ==> f.Some?)
  {
    hide EncryptFrame, DecryptFrame, Decode, Encode, Receive;
    FrameOfEncodable(m, extension);
    ExactReach(c, d, FrameOf(m, extension).value, more);
    FrameReceived(m, FrameOf(m, extension).value);
  }

  // ----- a whole session

  /** Every message fits its prefixes. */
  ghost predicate Encodable(ms: seq<Message>)
  {
    forall i :: 0 <= i < |ms| ==> Encode(ms[i]).Some?
  }

  /** And one record. */
  ghost predicate Sendable(ms: seq<Message>)
  {
    Encodable(ms) && forall i :: 0 <= i < |ms| ==> |Encode(ms[i]).value| <= MAX_PLAINTEXT_CHUNK
  }

  function FramesOf(ms: seq<Message>, extension: u16): (fs: seq<FrameValue>)
    requires forall i :: 0 <= i < |ms| ==> FrameOf(ms[i], extension).Some?
    ensures |fs| == |ms|
  {
    seq(|ms|, i requires 0 <= i < |ms| => FrameOf(ms[i], extension).value)
  }

  /** The frames are received as the messages, one each, in order, under that extension and without TLVs. */
  ghost predicate Carries(fs: seq<FrameValue>, ms: seq<Message>, extension: u16)
  {
    && |fs| == |ms|
    && forall i :: 0 <= i < |ms| ==>
         Receive(fs[i]) == Some(ms[i]) && fs[i].extensionType == extension && fs[i].tlvs == []
  }

  lemma FramesCarry(ms: seq<Message>, extension: u16)
    requires Encodable(ms)
    ensures forall i :: 0 <= i < |ms| ==> FrameOf(ms[i], extension).Some?
    ensures AllPlain(FramesOf(ms, extension)) && Carries(FramesOf(ms, extension), ms, extension)
    ensures Sendable(ms) ==> Deliverable(FramesOf(ms, extension)) == FramesOf(ms, extension)
  {
    hide Encode, FrameOf, Receive;
    forall i | 0 <= i < |ms|
      ensures FrameOf(ms[i], extension).Some?
      ensures var f := FrameOf(ms[i], extension).value;
              && Plain(f) && f.messageLength <= MAX_U24 && Receive(f) == Some(ms[i])
              && f.extensionType == extension
              && (OneRecord(f) <==> |Encode(ms[i]).value| <= MAX_PLAINTEXT_CHUNK)
    {
      FrameOfEncodable(ms[i], extension);
      FrameReceived(ms[i], FrameOf(ms[i], extension).value);
    }
    AllDeliverable(FramesOf(ms, extension));
  }

  /** Messages sent over a fresh pair of ciphers all arrive, in order, with no byte left. */
  lemma MessagesDelivered(c: Cipher, d: Cipher, ms: seq<Message>, extension: u16)
    requires Lockstep(c, d) && HasRoom(c, 2 * |ms|) && HasRoom(d, 2 * |ms|) && Sendable(ms)
    ensures forall i :: 0 <= i < |ms| ==> FrameOf(ms[i], extension).Some?
    ensures var (got, _, rest) := ReceiveAll(d, EncryptAll(c, FramesOf(ms, extension)).0);
            Carries(got, ms, extension) && rest == []
  {
    hide ReceiveAll, EncryptAll, Carries, AllPlain;
    FramesCarry(ms, extension);
    StreamTransport(c, d, FramesOf(ms, extension));
  }

  /**
    The whole stack: after a handshake between any two parties, the messages each side sends are the messages the
    other side decodes.
   */
  lemma SessionDelivers(e: Keypair, er: Keypair, server: Keypair, cert: Certificate, li: u64, lr: u64,
                        toServer: seq<Message>, toClient: seq<Message>, extension: u16)
    requires 0 < li && 2 * |toServer| <= li && 2 * |toClient| <= li
    requires 0 < lr && 2 * |toServer| <= lr && 2 * |toClient| <= lr
    requires Sendable(toServer) && Sendable(toClient)
    ensures forall i :: 0 <= i < |toServer| ==> FrameOf(toServer[i], extension).Some?
    ensures forall i :: 0 <= i < |toClient| ==> FrameOf(toClient[i], extension).Some?
    ensures var r := ResponderRun(er, server, cert, EllSwift(e), lr);
            && r.Some?
            && var i := InitiatorRun(e, r.value.sent, li);
            && i.Some?
            && Carries(ReceiveAll(r.value.recv, EncryptAll(i.value.send, FramesOf(toServer, extension)).0).0,
                       toServer, extension)
            && Carries(ReceiveAll(i.value.recv, EncryptAll(r.value.send, FramesOf(toClient, extension)).0).0,
                       toClient, extension)
  {
    HandshakeAgreement(e, er, server, cert, [], [], li, lr);
    assert EllSwift(e) + [] == EllSwift(e);
    var r := ResponderRun(er, server, cert, EllSwift(e), lr).value;
    assert r.sent + [] == r.sent;
    var i := InitiatorRun(e, r.sent, li).value;
    InitiatorCiphers(e, r.sent, li);
    ResponderCiphers(er, server, cert, EllSwift(e), lr);
    assert i.send.key != [] && i.recv.key != [];
    hide InitiatorRun, ResponderRun, EncryptAll, ReceiveAll, Carries, Sendable;
    MessagesDelivered(i.send, r.recv, toServer, extension);
    MessagesDelivered(r.send, i.recv, toClient, extension);
  }

  /** The frames received are received as the first messages sent. */
  ghost predicate CarriesFirst(got: seq<FrameValue>, ms: seq<Message>, extension: u16)
  {
    |got| <= |ms| && Carries(got, ms[..|got|], extension)
  }

  /** Over any stream in which only the sender sealed under the key, a receiver decodes a prefix of what was sent. */
  lemma MessagesPrefix(d: Cipher, stream: Octets, ms: seq<Message>, extension: u16)
    requires d.Keyed() && d.n == 0 && 2 * |ms| <= TWO_TO_64 && Encodable(ms)
    requires forall i :: 0 <= i < |ms| ==> FrameOf(ms[i], extension).Some?
    requires OnlySent(stream, d.key, 0, FramesOf(ms, extension))
    ensures CarriesFirst(ReceiveAll(d, stream).0, ms, extension)
  {
    hide ReceiveAll, OnlySent, AllPlain, Receive;
    var fs := FramesOf(ms, extension);
    FramesCarry(ms, extension);
    ReceivedIsPrefix(d, stream, 0, fs, 0);
    assert fs[0..] == fs;
  }

  /**
    Integrity of a whole session on a wire that can do anything: if the initiator completed with a certificate
    record of the responder, then, whatever else happened to the handshake and to both streams, as long as only
    the two parties sealed under their sending keys, the messages each side decodes until the first error are the
    first messages the other side sent, in order.
   */
  lemma SessionIntegrity(e: Keypair, incoming: Octets, er: Keypair, server: Keypair, cert: Certificate,
                         toResponder: Octets, li: u64, lr: u64, toServer: seq<Message>, toClient: seq<Message>,
                         extension: u16, wireToServer: Octets, wireToClient: Octets)
    requires li > 0 && lr > 0 && |toResponder| >= 64 && InitiatorRun(e, incoming, li).Some?
    requires incoming[144..234] == ResponderRun(er, server, cert, toResponder, lr).value.sent[144..234]
    requires Encodable(toServer) && 2 * |toServer| <= TWO_TO_64
    requires Encodable(toClient) && 2 * |toClient| <= TWO_TO_64
    requires forall i :: 0 <= i < |toServer| ==> FrameOf(toServer[i], extension).Some?
    requires forall i :: 0 <= i < |toClient| ==> FrameOf(toClient[i], extension).Some?
    requires OnlySent(wireToServer, InitiatorRun(e, incoming, li).value.send.key, 0, FramesOf(toServer, extension))
    requires OnlySent(wireToClient, ResponderRun(er, server, cert, toResponder, lr).value.send.key, 0,
                      FramesOf(toClient, extension))
    ensures CarriesFirst(ReceiveAll(ResponderRun(er, server, cert, toResponder, lr).value.recv, wireToServer).0,
                         toServer, extension)
    ensures CarriesFirst(ReceiveAll(InitiatorRun(e, incoming, li).value.recv, wireToClient).0, toClient, extension)
  {
    var i, r := InitiatorRun(e, incoming, li).value, ResponderRun(er, server, cert, toResponder, lr).value;
    CertificateRecordBinds(e, incoming, er, server, cert, toResponder, li, lr);
    InitiatorCiphers(e, incoming, li);
    ResponderCiphers(er, server, cert, toResponder, lr);
    assert i.recv.key != [] && r.recv.key != [];
    hide InitiatorRun, ResponderRun, ReceiveAll, OnlySent, Encodable, CarriesFirst, HKDF;
    MessagesPrefix(r.recv, wireToServer, toServer, extension);
    MessagesPrefix(i.recv, wireToClient, toClient, extension);
  }

  // ----- the objects together

  /** One message from one side to the other, through the objects; none when it cannot be sent or received. */
  method SendMessage(m: Message, extension: u16, sender: CipherState, receiver: CipherState)
    returns (got: Option<Message>, arrived: Frame?)
    requires sender != receiver && Lockstep(sender.Value(), receiver.Value())
    requires HasRoom(sender.Value(), 2) && HasRoom(receiver.Value(), 2)
    modifies sender, receiver
    ensures got == if Encode(m).Some? && |Encode(m).value| <= MAX_PLAINTEXT_CHUNK then Some(m) else None
    ensures got.Some? ==> arrived != null && fresh(arrived) && arrived.extensionType == extension && arrived.tlvs == []
    ensures got.Some? ==> sender.n == old(sender.n) + 2 && Lockstep(sender.Value(), receiver.Value())
  {
    hide EncryptFrame, DecryptFrame, Encode, Decode, TypeNumber, KindOfNumber;
    var value := FrameOf(m, extension);
    if Encode(m).None? {
      return None, null;
    }
    FrameOfEncodable(m, extension);
    MessageEndToEnd(m, extension, sender.Value(), receiver.Value(), []);
    ExactReach(sender.Value(), receiver.Value(), value.value, []);
    var frame := new Frame(value.value);
    var ct := EncryptFrameObject(sender, frame);
    assert ct.value + [] == ct.value;
    var wire := new HandshakeObjects.Connection(ct.value);
    arrived := DecryptFrameFromReader(receiver, wire);
    if arrived == null {
      return None, null;
    }
    var kind := KindOfNumber(arrived.messageType);
    if kind.None? {
      return None, arrived;
    }
    var decoded := Decode(kind.value, arrived.payload, false);
    return if decoded.Done? then Some(decoded.m) else None, arrived;
  }
}
