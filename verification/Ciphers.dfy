/**
  The cipher state (section 5.1 of the Noise Protocol Framework): nonce counter, encryption and decryption with
  associated data, and every sequential run of them.
 */
module Ciphers {
  import opened Bytes
  import opened Crypto

  const MAX_PLAINTEXT_CHUNK: nat := 65519
  const MAX_NOISE_FRAME: nat := 65535

  // ----- record lengths

  /** The ciphertext length the decryptor expects for a plaintext length. */
  function PlainTextLenToCipherTextLen(n: nat): nat
  {
    var rem := n % MAX_PLAINTEXT_CHUNK;
    var padded := if rem > 0 then rem + MAC_LEN else rem;
    n / MAX_PLAINTEXT_CHUNK * MAX_NOISE_FRAME + padded
  }

  /** The total over the chunks a plaintext splits into, a tag for each. */
  function ChunkedLen(n: nat): nat
  {
    if n == 0 then 0
    else if n <= MAX_PLAINTEXT_CHUNK then n + MAC_LEN
    else MAX_PLAINTEXT_CHUNK + MAC_LEN + ChunkedLen(n - MAX_PLAINTEXT_CHUNK)
  }

  function Chunks(n: nat): nat
  {
    (n + MAX_PLAINTEXT_CHUNK - 1) / MAX_PLAINTEXT_CHUNK
  }

  /** The formula is the sum over the chunks, that is one tag per started chunk. */
  lemma {:induction false} LengthFormula(n: nat)
    ensures PlainTextLenToCipherTextLen(n) == ChunkedLen(n) == n + MAC_LEN * Chunks(n)
  {
    if n > MAX_PLAINTEXT_CHUNK {
      LengthFormula(n - MAX_PLAINTEXT_CHUNK);
      OneMoreChunk(n - MAX_PLAINTEXT_CHUNK);
      hide PlainTextLenToCipherTextLen, Chunks;
    }
  }

  lemma OneMoreChunk(n: nat)
    ensures PlainTextLenToCipherTextLen(n + MAX_PLAINTEXT_CHUNK) == PlainTextLenToCipherTextLen(n) + MAX_NOISE_FRAME
    ensures Chunks(n + MAX_PLAINTEXT_CHUNK) == Chunks(n) + 1
  {
  }

  lemma {:induction false} LengthIncreases(n: nat, m: nat)
    requires n < m
    ensures PlainTextLenToCipherTextLen(n) < PlainTextLenToCipherTextLen(m)
  {
    LengthFormula(n);
    LengthFormula(m);
  }

  /** The expected length is that of one sealed record exactly for these plaintext lengths. */
  lemma OneRecordExactly(n: nat)
    ensures PlainTextLenToCipherTextLen(n) == n + MAC_LEN <==> 1 <= n <= MAX_PLAINTEXT_CHUNK
    ensures n > MAX_PLAINTEXT_CHUNK ==> PlainTextLenToCipherTextLen(n) > n + MAC_LEN
  {
    LengthFormula(n);
  }

  // ----- the state

  /** Thirty-two zero bits and the counter, little-endian. */
  function Nonce(n: u64): (bs: Bytes)
    ensures |bs| == 12
  {
    [0, 0, 0, 0] + ToLE(8, n)
  }

  lemma NonceInjective(n: u64, m: u64)
    requires Nonce(n) == Nonce(m)
    ensures n == m
  {
    assert Nonce(n)[4..] == ToLE(8, n) && Nonce(m)[4..] == ToLE(8, m);
    Capacities();
    InjectiveLE(8, n, m);
  }

  /** The nonce of section 5.1 of the Noise Protocol Framework: 32 zero bits, then the counter, little-endian. */
  ghost predicate NonceFor(nonce: Bytes, n: u64)
  {
    |nonce| == 12 && nonce[..4] == [0, 0, 0, 0] && FromLE(nonce[4..]) == n
  }

  lemma NonceLayout(nonce: Bytes, n: u64)
    ensures nonce == Nonce(n) <==> NonceFor(nonce, n)
  {
    Capacities();
    RoundTripLE(8, n);
    if NonceFor(nonce, n) {
      ToFromLE(nonce[4..]);
      assert nonce == nonce[..4] + nonce[4..];
    }
    if nonce == Nonce(n) {
      assert nonce[4..] == ToLE(8, n);
    }
  }

  function Wrap64(n: int): u64
  {
    n % TWO_TO_64
  }

  /** A cipher without a key passes data through; limit is the counter value no longer used. */
  datatype Cipher = Cipher(key: Octets, n: u64, limit: u64) {
    predicate Keyed()
    {
      key != [] && n <= limit
    }

    function EncryptWithAd(ad: Octets, plain: Octets): (Option<Octets>, Cipher)
    {
      if key == [] then (Some(plain), this)
      else if n == limit then (None, this)
      else (Some(Seal(key, Nonce(n), ad, plain)), this.(n := Wrap64(n + 1)))
    }

    /** The counter is moved on first and moved back when opening fails. */
    function DecryptWithAd(ad: Octets, ct: Octets): (Option<Octets>, Cipher)
    {
      if key == [] then (Some(ct), this)
      else if n == limit then (None, this)
      else
        var moved := this.(n := Wrap64(n + 1));
        match Open(key, Nonce(n), ad, ct)
        case None => (None, moved.(n := Wrap64(moved.n + (TWO_TO_64 - 1))))
        case Some(plain) => (Some(plain), moved)
    }
  }

  function Fresh(key: Octets, limit: u64): Cipher
  {
    Cipher(key, 0, limit)
  }

  lemma WrapFits(n: int)
    requires 0 <= n < TWO_TO_64
    ensures Wrap64(n) == n && Wrap64(n + TWO_TO_64) == n
  {
  }

  /** Moving on and back. */
  lemma MovedBack(n: u64)
    ensures Wrap64(n + 1) == (n + 1) % TWO_TO_64
    ensures Wrap64(Wrap64(n + 1) + (TWO_TO_64 - 1)) == n
  {
    if n + 1 < TWO_TO_64 {
      WrapFits(n + 1);
      WrapFits(n);
    }
  }

  lemma EncryptStep(c: Cipher, ad: Octets, plain: Octets)
    requires c.Keyed()
    ensures var (ct, c') := c.EncryptWithAd(ad, plain);
            && (ct.Some? <==> c.n < c.limit)
            && c' == (if ct.Some? then c.(n := c.n + 1) else c)
            && (ct.Some? ==> ct.value == Seal(c.key, Nonce(c.n), ad, plain))
  {
    if c.n < c.limit { WrapFits(c.n + 1); }
  }

  lemma DecryptStep(c: Cipher, ad: Octets, ct: Octets)
    requires c.Keyed()
    ensures var (plain, c') := c.DecryptWithAd(ad, ct);
            && c' == (if plain.Some? then c.(n := c.n + 1) else c)
            && (plain.Some? <==> c.n < c.limit && Open(c.key, Nonce(c.n), ad, ct).Some?)
            && (plain.Some? ==> ct == Seal(c.key, Nonce(c.n), ad, plain.value))
  {
    if c.n < c.limit {
      WrapFits(c.n + 1);
      WrapFits(c.n);
      if Open(c.key, Nonce(c.n), ad, ct).Some? {
        OpenExactly(c.key, Nonce(c.n), ad, ct, Open(c.key, Nonce(c.n), ad, ct).value);
      }
    }
  }

  /** A keyed cipher below its limit seals under the nonce of its counter, and counts up. */
  lemma SealedUnder(c: Cipher, ad: Octets, plain: Octets, nonce: Bytes)
    requires c.Keyed() && c.n < c.limit && NonceFor(nonce, c.n)
    ensures c.EncryptWithAd(ad, plain) == (Some(Seal(c.key, nonce, ad, plain)), c.(n := c.n + 1))
  {
    NonceLayout(nonce, c.n);
    EncryptStep(c, ad, plain);
  }

  /** It opens exactly what was sealed under that nonce, and anything else leaves it as it was. */
  lemma OpenedUnder(c: Cipher, ad: Octets, ct: Octets, plain: Octets, nonce: Bytes)
    requires c.Keyed() && c.n < c.limit && NonceFor(nonce, c.n)
    ensures c.DecryptWithAd(ad, ct).0 == Some(plain) <==> ct == Seal(c.key, nonce, ad, plain)
    ensures c.DecryptWithAd(ad, ct).1 == if c.DecryptWithAd(ad, ct).0.Some? then c.(n := c.n + 1) else c
  {
    NonceLayout(nonce, c.n);
    DecryptStep(c, ad, ct);
    OpenExactly(c.key, nonce, ad, ct, plain);
  }

  /** The object: its counter is an atomic 64-bit number, each call one atomic step. */
  class CipherState {
    var k: Octets
    var n: u64
    const limit: u64

    ghost function Value(): Cipher
      reads this
    {
      Cipher(k, n, limit)
    }

    constructor (limit: u64)
      ensures Value() == Cipher([], 0, limit)
    {
      k, n, this.limit := [], 0, limit;
    }

    method InitializeKey(key: Octets)
      modifies this
      ensures Value() == Fresh(key, limit) && k == key && n == 0
    {
      k := key;
      n := 0;
    }

    /** The nonce of the current counter, which moves on. */
    method GetNonce() returns (nonce: Bytes)
      modifies this`n
      ensures NonceFor(nonce, old(n)) && n == Wrap64(old(n) + 1)
    {
      nonce := seq(4, _ => 0) + ToLE(8, n);
      NonceLayout(nonce, n);
      n := Wrap64(n + 1);
    }

    method EncryptWithAd(ad: Octets, plain: Octets) returns (ct: Option<Octets>)
      modifies this`n
      ensures (ct, Value()) == old(Value()).EncryptWithAd(ad, plain)
      ensures old(k) == [] ==> ct == Some(plain) && n == old(n)
      ensures old(k) != [] && old(n) == limit ==> ct == None && n == old(n)
      ensures old(k) != [] && old(n) != limit ==>
                && n == (old(n) + 1) % TWO_TO_64
                && exists nonce :: NonceFor(nonce, old(n)) && ct == Some(Seal(old(k), nonce, ad, plain))
    {
      hide Wrap64, NonceFor, Nonce;
      MovedBack(n);
      if |k| == 0 {
        return Some(plain);
      }
      if n == limit {
        return None;
      }
      var nonce := GetNonce();
      NonceLayout(nonce, old(n));
      return Some(Seal(k, nonce, ad, plain));
    }

    method DecryptWithAd(ad: Octets, ct: Octets) returns (plain: Option<Octets>)
      modifies this`n
      ensures (plain, Value()) == old(Value()).DecryptWithAd(ad, ct)
      ensures old(k) == [] ==> plain == Some(ct) && n == old(n)
      ensures old(k) != [] && old(n) == limit ==> plain == None && n == old(n)
      ensures old(k) != [] && old(n) != limit ==>
                && n == (if plain.Some? then (old(n) + 1) % TWO_TO_64 else old(n))
                && exists nonce :: NonceFor(nonce, old(n)) && plain == Open(old(k), nonce, ad, ct)
    {
      hide Wrap64, NonceFor, Nonce, Open;
      MovedBack(n);
      if |k| == 0 {
        return Some(ct);
      }
      if n == limit {
        return None;
      }
      var nonce := GetNonce();
      NonceLayout(nonce, old(n));
      plain := Open(k, nonce, ad, ct);
      if plain.None? {
        n := Wrap64(n + (TWO_TO_64 - 1));
      }
    }
  }

  // ----- runs

  datatype Call = Encrypt(ad: Octets, data: Octets) | Decrypt(ad: Octets, data: Octets)

  function Perform(c: Cipher, call: Call): (Option<Octets>, Cipher)
  {
    match call
    case Encrypt(ad, data) => c.EncryptWithAd(ad, data)
    case Decrypt(ad, data) => c.DecryptWithAd(ad, data)
  }

  /** A sequential run: how many calls succeeded, and the state after it. */
  function Run(c: Cipher, calls: seq<Call>): (nat, Cipher)
  {
    if calls == [] then (0, c)
    else
      var (ok, before) := Run(c, calls[..|calls| - 1]);
      var (res, after) := Perform(before, calls[|calls| - 1]);
      (if res.Some? then ok + 1 else ok, after)
  }

  /** A successful call counts one up, a failed one changes nothing; at the limit every call fails. */
  lemma PerformStep(c: Cipher, call: Call)
    requires c.Keyed()
    ensures var (res, c') := Perform(c, call);
            && c' == (if res.Some? then c.(n := c.n + 1) else c)
            && (res.Some? ==> c.n < c.limit)
            && c'.Keyed()
  {
    match call
    case Encrypt(ad, data) => EncryptStep(c, ad, data);
    case Decrypt(ad, data) => DecryptStep(c, ad, data);
  }

  /**
    Over every run, failures included, the counter is the starting value plus the number of successes, never
    passes the limit, and the key stays.
   */
  lemma {:induction false} NonceMachine(c: Cipher, calls: seq<Call>)
    requires c.Keyed()
    ensures var (ok, c') := Run(c, calls);
            c.n + ok <= c.limit && c' == c.(n := c.n + ok)
  {
    if calls != [] {
      NonceMachine(c, calls[..|calls| - 1]);
      PerformStep(Run(c, calls[..|calls| - 1]).1, calls[|calls| - 1]);
    }
  }

  /** Once the limit is reached nothing succeeds any more and nothing changes. */
  lemma {:induction false} ExhaustedForever(c: Cipher, calls: seq<Call>)
    requires c.Keyed() && c.n == c.limit
    ensures Run(c, calls) == (0, c)
  {
    NonceMachine(c, calls);
  }

  // ----- one use per key and nonce

  datatype Use = Use(key: Octets, nonce: Bytes)

  /** The key and nonce of every ciphertext a run produced. */
  function Seals(c: Cipher, calls: seq<Call>): seq<Use>
  {
    if calls == [] then []
    else
      var front, last := calls[..|calls| - 1], calls[|calls| - 1];
      var before := Run(c, front).1;
      if last.Encrypt? && Perform(before, last).0.Some?
      then Seals(c, front) + [Use(before.key, Nonce(before.n))]
      else Seals(c, front)
  }

  predicate AllDistinct(us: seq<Use>)
  {
    forall i, j :: 0 <= i < j < |us| ==> us[i] != us[j]
  }

  /** Every use in a run is of the run's key, with a counter the run passed. */
  ghost predicate UsedBy(u: Use, c: Cipher, before: nat)
  {
    u.key == c.key && exists m: u64 :: c.n <= m < before && u.nonce == Nonce(m)
  }

  lemma {:induction false} RunSealsOnce(c: Cipher, calls: seq<Call>)
    requires c.Keyed()
    ensures AllDistinct(Seals(c, calls))
    ensures forall i :: 0 <= i < |Seals(c, calls)| ==> UsedBy(Seals(c, calls)[i], c, Run(c, calls).1.n)
  {
    if calls != [] {
      var front, last := calls[..|calls| - 1], calls[|calls| - 1];
      var before := Run(c, front).1;
      RunSealsOnce(c, front);
      NonceMachine(c, front);
      PerformStep(before, last);
      var past, us := Seals(c, front), Seals(c, calls);
      forall i | 0 <= i < |past|
        ensures UsedBy(past[i], c, Run(c, calls).1.n)
        ensures past[i] != Use(before.key, Nonce(before.n))
      {
        var m: u64 :| c.n <= m < before.n && past[i].nonce == Nonce(m);
        if past[i] == Use(before.key, Nonce(before.n)) {
          NonceInjective(m, before.n);
        }
      }
    }
  }

  /** What call i of a run returns. */
  function Output(c: Cipher, calls: seq<Call>, i: nat): Option<Octets>
    requires i < |calls|
  {
    Perform(Run(c, calls[..i]).1, calls[i]).0
  }

  lemma {:induction false} SuccessesGrow(c: Cipher, calls: seq<Call>, i: nat)
    requires i < |calls|
    ensures Run(c, calls[..i]).0 + (if Output(c, calls, i).Some? then 1 else 0) <= Run(c, calls).0
  {
    hide Perform;
    var last := |calls| - 1;
    if i < last {
      assert calls[..last][..i] == calls[..i];
      SuccessesGrow(c, calls[..last], i);
    }
  }

  /** Every ciphertext a run returns is sealed under one of these uses. */
  lemma {:induction false} SealsCoverOutputs(c: Cipher, calls: seq<Call>, i: nat)
    requires c.Keyed() && i < |calls| && calls[i].Encrypt? && Output(c, calls, i).Some?
    ensures exists k :: 0 <= k < |Seals(c, calls)|
              && Output(c, calls, i)
                  == Some(Seal(Seals(c, calls)[k].key, Seals(c, calls)[k].nonce, calls[i].ad, calls[i].data))
  {
    var last := |calls| - 1;
    var before := Run(c, calls[..last]).1;
    if i == last {
      NonceMachine(c, calls[..last]);
      EncryptStep(before, calls[i].ad, calls[i].data);
      assert Seals(c, calls)[|Seals(c, calls)| - 1] == Use(before.key, Nonce(before.n));
    } else {
      assert calls[..last][..i] == calls[..i];
      SealsCoverOutputs(c, calls[..last], i);
      var past := Seals(c, calls[..last]);
      var k :| 0 <= k < |past|
               && Output(c, calls, i) == Some(Seal(past[k].key, past[k].nonce, calls[i].ad, calls[i].data));
      assert Seals(c, calls)[k] == past[k];
    }
  }

  /** No two ciphertexts of a run are sealed under the same nonce. */
  lemma OutputsUseDistinctNonces(c: Cipher, calls: seq<Call>, i: nat, j: nat, nonce: Bytes, nonce': Bytes,
                                 ad: Octets, plain: Octets, ad': Octets, plain': Octets)
    requires c.Keyed() && i < j < |calls| && calls[i].Encrypt? && calls[j].Encrypt?
    requires Output(c, calls, i) == Some(Seal(c.key, nonce, ad, plain))
    requires Output(c, calls, j) == Some(Seal(c.key, nonce', ad', plain'))
    ensures nonce != nonce'
  {
    NonceMachine(c, calls[..i]);
    NonceMachine(c, calls[..j]);
    assert calls[..j][..i] == calls[..i];
    SuccessesGrow(c, calls[..j], i);
    var ci, cj := Run(c, calls[..i]).1, Run(c, calls[..j]).1;
    EncryptStep(ci, calls[i].ad, calls[i].data);
    EncryptStep(cj, calls[j].ad, calls[j].data);
    SealInjective(c.key, nonce, ad, plain, c.key, Nonce(ci.n), calls[i].ad, calls[i].data);
    SealInjective(c.key, nonce', ad', plain', c.key, Nonce(cj.n), calls[j].ad, calls[j].data);
    if nonce == nonce' {
      NonceInjective(ci.n, cj.n);
    }
  }
}
