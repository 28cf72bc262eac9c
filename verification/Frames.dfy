/**
  Frames and their TLV fields (sections 3.2 and 3.4 of the Stratum V2 specification): the stable sort, the
  encoder that changes its receiver, and the decoder's scan of the bytes behind the payload.
 */
module Frames {
  import opened Bytes
  import opened Codec
  import opened Binary
  import Messages

  const FRAME_HEADER_SIZE: nat := 6
  const TWO_TO_32: nat := 0x1_0000_0000

  datatype TLV = TLV(extensionType: u16, fieldType: u8, length: u16, value: Bytes)

  datatype FrameValue = FrameValue(extensionType: u16, messageType: u8, messageLength: u32, payload: Bytes,
                                   tlvs: seq<TLV>)

  const ZERO_FRAME: FrameValue := FrameValue(0, 0, 0, [], [])

  // ----- the stable sort

  predicate Sorted(ts: seq<TLV>)
  {
    forall i, j :: 0 <= i < j < |ts| ==> ts[i].extensionType <= ts[j].extensionType
  }

  /** The fields of one extension type, in their order. */
  function OfType(ts: seq<TLV>, e: u16): seq<TLV>
  {
    if ts == [] then []
    else
      var last := ts[|ts| - 1];
      OfType(ts[..|ts| - 1], e) + if last.extensionType == e then [last] else []
  }

  /** Two lists with the same fields in the same order within every extension type. */
  ghost predicate SameByType(ts: seq<TLV>, us: seq<TLV>)
  {
    forall e: u16 :: OfType(ts, e) == OfType(us, e)
  }

  /** Puts t behind every field of its own or a smaller type. */
  function Insert(ts: seq<TLV>, t: TLV): seq<TLV>
  {
    if ts == [] || ts[|ts| - 1].extensionType <= t.extensionType then ts + [t]
    else Insert(ts[..|ts| - 1], t) + [ts[|ts| - 1]]
  }

  function StableSort(ts: seq<TLV>): seq<TLV>
  {
    if ts == [] then [] else Insert(StableSort(ts[..|ts| - 1]), ts[|ts| - 1])
  }

  lemma OfTypeSnoc(ts: seq<TLV>, t: TLV, e: u16)
    ensures OfType(ts + [t], e) == OfType(ts, e) + if t.extensionType == e then [t] else []
  {
    assert (ts + [t])[..|ts|] == ts;
  }

  /** In a sorted list the fields of a type below every element are none. */
  lemma {:induction false} NoneOfType(ts: seq<TLV>, e: u16)
    requires forall i :: 0 <= i < |ts| ==> ts[i].extensionType != e
    ensures OfType(ts, e) == []
  {
    if ts != [] {
      NoneOfType(ts[..|ts| - 1], e);
    }
  }

  lemma {:induction false} InsertKeepsFields(ts: seq<TLV>, t: TLV)
    ensures |Insert(ts, t)| == |ts| + 1
    ensures multiset(Insert(ts, t)) == multiset(ts) + multiset{t}
  {
    if ts != [] && ts[|ts| - 1].extensionType > t.extensionType {
      InsertKeepsFields(ts[..|ts| - 1], t);
      assert ts == ts[..|ts| - 1] + [ts[|ts| - 1]];
    }
  }

  lemma {:induction false} InsertSorts(ts: seq<TLV>, t: TLV)
    requires Sorted(ts)
    ensures Sorted(Insert(ts, t))
  {
    if ts != [] && ts[|ts| - 1].extensionType > t.extensionType {
      var front, last := ts[..|ts| - 1], ts[|ts| - 1];
      InsertSorts(front, t);
      InsertKeepsFields(front, t);
      assert ts == front + [last];
      var sorted := Insert(front, t);
      forall i | 0 <= i < |sorted|
        ensures sorted[i].extensionType <= last.extensionType
      {
        assert sorted[i] in multiset(sorted);
        assert sorted[i] in multiset(front) + multiset{t};
        if sorted[i] != t {
          assert sorted[i] in front;
        }
      }
    }
  }

  lemma {:induction false} InsertKeepsTypes(ts: seq<TLV>, t: TLV, e: u16)
    ensures OfType(Insert(ts, t), e) == OfType(ts + [t], e)
  {
    hide OfType;
    if ts != [] && ts[|ts| - 1].extensionType > t.extensionType {
      var front, last := ts[..|ts| - 1], ts[|ts| - 1];
      OfTypeSnoc(ts, t, e);
      InsertKeepsTypes(front, t, e);
      OfTypeSnoc(front, t, e);
      OfTypeSnoc(Insert(front, t), last, e);
      OfTypeSnoc(front, last, e);
      assert ts == front + [last];
    }
  }

  /** The result is sorted, holds the same fields as often, and keeps the order within each extension type. */
  lemma {:induction false} StableSortSpec(ts: seq<TLV>)
    ensures Sorted(StableSort(ts))
    ensures multiset(StableSort(ts)) == multiset(ts)
    ensures SameByType(StableSort(ts), ts)
  {
    if ts != [] {
      var front, last := ts[..|ts| - 1], ts[|ts| - 1];
      assert ts == front + [last];
      StableSortSpec(front);
      InsertSorts(StableSort(front), last);
      InsertKeepsFields(StableSort(front), last);
      forall e: u16
        ensures OfType(StableSort(ts), e) == OfType(ts, e)
      {
        InsertKeepsTypes(StableSort(front), last, e);
        OfTypeSnoc(StableSort(front), last, e);
        OfTypeSnoc(front, last, e);
      }
    }
  }

  /** A sorted list is determined by its fields of each type: any stable sort returns the same list. */
  lemma {:induction false} SortedUnique(ts: seq<TLV>, us: seq<TLV>)
    requires Sorted(ts) && Sorted(us) && SameByType(ts, us)
    ensures ts == us
  {
    if ts == [] || us == [] {
      if us != [] { OneOfItsType(us); }
      if ts != [] { OneOfItsType(ts); }
    } else {
      LastsAgree(ts, us);
      LastsAgree(us, ts);
      var t, u := ts[|ts| - 1], us[|us| - 1];
      var e := t.extensionType;
      assert OfType(ts, e)[|OfType(ts, e)| - 1] == t && OfType(us, e)[|OfType(us, e)| - 1] == u;
      var front, front' := ts[..|ts| - 1], us[..|us| - 1];
      forall e: u16
        ensures OfType(front, e) == OfType(front', e)
      {
        var tail := if t.extensionType == e then [t] else [];
        assert OfType(front, e) == OfType(ts, e)[..|OfType(ts, e)| - |tail|];
        assert OfType(front', e) == OfType(us, e)[..|OfType(us, e)| - |tail|];
      }
      SortedUnique(front, front');
      assert ts == front + [t] && us == front' + [u];
    }
  }

  lemma OneOfItsType(ts: seq<TLV>)
    requires ts != []
    ensures OfType(ts, ts[|ts| - 1].extensionType) != []
    ensures OfType([], ts[|ts| - 1].extensionType) == []
  {
  }

  /** The last type of one sorted list occurs in the other, so it is at most that one's last type. */
  lemma LastsAgree(ts: seq<TLV>, us: seq<TLV>)
    requires ts != [] && us != [] && Sorted(us) && SameByType(ts, us)
    ensures ts[|ts| - 1].extensionType <= us[|us| - 1].extensionType
  {
    var e := ts[|ts| - 1].extensionType;
    OneOfItsType(ts);
    if e > us[|us| - 1].extensionType {
      NoneOfType(us, e);
    }
  }

  /** Inserting t into ts is inserting it somewhere before index at. */
  ghost predicate GoesBefore(ts: seq<TLV>, t: TLV, at: nat)
  {
    at <= |ts| && Insert(ts, t) == Insert(ts[..at], t) + ts[at..]
  }

  lemma GoesBeforeEnd(ts: seq<TLV>, t: TLV)
    ensures GoesBefore(ts, t, |ts|)
  {
    hide Insert;
    assert ts[..|ts|] == ts && ts[|ts|..] == [];
    assert Insert(ts, t) + [] == Insert(ts, t);
  }

  lemma GoesFurther(ts: seq<TLV>, t: TLV, at: nat)
    requires GoesBefore(ts, t, at) && at > 0 && ts[at - 1].extensionType > t.extensionType
    ensures GoesBefore(ts, t, at - 1)
  {
    assert ts[..at][..at - 1] == ts[..at - 1];
    assert Insert(ts[..at], t) == Insert(ts[..at - 1], t) + [ts[at - 1]];
    hide Insert;
    assert [ts[at - 1]] + ts[at..] == ts[at - 1..];
  }

  lemma GoesHere(ts: seq<TLV>, t: TLV, at: nat)
    requires GoesBefore(ts, t, at) && (at == 0 || ts[at - 1].extensionType <= t.extensionType)
    ensures Insert(ts, t) == ts[..at] + [t] + ts[at..]
  {
    assert Insert(ts[..at], t) == ts[..at] + [t];
  }

  lemma SortNext(ts: seq<TLV>, i: nat)
    requires i < |ts|
    ensures StableSort(ts[..i + 1]) == Insert(StableSort(ts[..i]), ts[i])
  {
    assert ts[..i + 1][..i] == ts[..i];
  }

  /** Sorting by insertion, as any stable sort must leave it. */
  method SortStable(ts: seq<TLV>) returns (sorted: seq<TLV>)
    ensures sorted == StableSort(ts)
  {
    sorted := [];
    assert ts[..|ts|] == ts && StableSort(ts[..0]) == [];
    hide StableSort, Insert, GoesBefore;
    for i := 0 to |ts|
      invariant sorted == StableSort(ts[..i])
    {
      SortNext(ts, i);
      var at := FindPlace(sorted, ts[i]);
      sorted := sorted[..at] + [ts[i]] + sorted[at..];
    }
  }

  /** Looks from the end for the first field of the same or a smaller type. */
  method FindPlace(ts: seq<TLV>, t: TLV) returns (at: nat)
    ensures at <= |ts| && Insert(ts, t) == ts[..at] + [t] + ts[at..]
  {
    hide Insert, GoesBefore;
    at := |ts|;
    GoesBeforeEnd(ts, t);
    while at > 0 && ts[at - 1].extensionType > t.extensionType
      invariant at <= |ts| && GoesBefore(ts, t, at)
    {
      GoesFurther(ts, t, at);
      at := at - 1;
    }
    GoesHere(ts, t, at);
  }

  // ----- TLV wire forms

  /** Type and length: the first five bytes. */
  function TLVHead(t: TLV): (h: Bytes)
    ensures |h| == 5
  {
    ToLE(2, t.extensionType) + ToLE(1, t.fieldType) + ToLE(2, t.length)
  }

  /** What the encoder writes: the length field, then the value with a length prefix of its own. */
  function TLVWire(t: TLV): Option<Bytes>
  {
    if |t.value| > 0xFFFF then None else Some(TLVHead(t) + ToLE(2, |t.value|) + t.value)
  }

  /** What the decoder reads: the length field, then that many bytes. */
  function TLVForm(t: TLV): Bytes
  {
    TLVHead(t) + t.value
  }

  function TLVBlock(ts: seq<TLV>): Option<Bytes>
  {
    if ts == [] then Some([])
    else
      match (TLVBlock(ts[..|ts| - 1]), TLVWire(ts[|ts| - 1]))
      case (Some(block), Some(w)) => Some(block + w)
      case _ => None
  }

  /** The wire forms the decoder reads, one after the other. */
  function Forms(ts: seq<TLV>): Bytes
  {
    if ts == [] then [] else TLVForm(ts[0]) + Forms(ts[1..])
  }

  lemma {:induction false} BlockNeedsAll(ts: seq<TLV>, i: nat)
    requires i <= |ts| && TLVBlock(ts[..i]).None?
    ensures TLVBlock(ts).None?
  {
    if i < |ts| {
      assert ts[..|ts| - 1][..i] == ts[..i];
      BlockNeedsAll(ts[..|ts| - 1], i);
    } else {
      assert ts[..i] == ts;
    }
  }

  method EncodeTLV(t: TLV) returns (enc: Bytes, failed: bool)
    ensures failed <==> TLVWire(t).None?
    ensures !failed ==> enc == TLVWire(t).value
  {
    var out := new BinaryBuilder();
    out.AddU16(t.extensionType);
    out.AddU8(t.fieldType);
    out.AddU16(t.length);
    out.AddBlob(Bin64K, t.value);
    ghost var head := [Messages.Number(2, t.extensionType), Messages.Number(1, t.fieldType), Messages.Number(2, t.length)];
    assert out.log == head + [FBlob(Bin64K, t.value)];
    PutAfterSnoc(EMPTY, head, FBlob(Bin64K, t.value));
    ThreeFields(head[0], head[1], head[2]);
    enc, failed := out.Bytes();
    assert !failed ==> enc == TLVHead(t) + (ToLE(2, |t.value|) + t.value);
  }

  /** Every field's bytes in turn; the first one that does not fit fails them all. */
  method BuildBlock(ts: seq<TLV>) returns (block: Option<Bytes>)
    ensures block == TLVBlock(ts)
  {
    var tlvOut := new BinaryBuilder();
    for i := 0 to |ts|
      invariant fresh(tlvOut) && !tlvOut.err && TLVBlock(ts[..i]) == Some(tlvOut.data)
    {
      hide TLVWire;
      var enc, failed := EncodeTLV(ts[i]);
      assert ts[..i + 1][..i] == ts[..i];
      if failed {
        BlockNeedsAll(ts, i + 1);
        return None;
      }
      tlvOut.AddBytes(enc);
    }
    assert ts[..|ts|] == ts;
    return Some(tlvOut.data);
  }

  lemma ThreeFields(f: Field, g: Field, h: Field)
    requires f.FScalar? && g.FScalar? && h.FScalar?
    ensures PutAfter(EMPTY, [f, g, h])
         == Builder(ScalarWire(f.s) + ScalarWire(g.s) + ScalarWire(h.s), false)
  {
    PutAfterSnoc(EMPTY, [], f);
    PutAfterSnoc(EMPTY, [f], g);
    PutAfterSnoc(EMPTY, [f, g], h);
    assert [] + [f] == [f] && [f] + [g] == [f, g] && [f, g] + [h] == [f, g, h];
    assert [] + ScalarWire(f.s) == ScalarWire(f.s);
  }

  // ----- encoding

  function Header(f: FrameValue): (h: Bytes)
    ensures |h| == FRAME_HEADER_SIZE
  {
    ToLE(2, f.extensionType) + ToLE(1, f.messageType) + ToLE(3, f.messageLength)
  }

  /** The bytes a frame encodes to, or none on error, and the frame the call leaves behind. */
  function EncodeFrame(f: FrameValue): (Option<Bytes>, FrameValue)
  {
    if f.messageLength != |f.payload| then (None, f)
    else
      var sorted := StableSort(f.tlvs);
      match TLVBlock(sorted)
      case None => (None, f.(tlvs := sorted))
      case Some(block) =>
        var g := f.(messageLength := (f.messageLength + |block|) % TWO_TO_32,
                    payload := f.payload + block, tlvs := sorted);
        (Some(Header(g) + g.payload), g)
  }

  // ----- the bytes of an encoded frame, spelled out

  /** The six bytes of a header, one by one. */
  ghost predicate HeaderBytes(b: Bytes, extensionType: u16, messageType: u8, messageLength: u32)
  {
    && |b| >= FRAME_HEADER_SIZE
    && b[0] == extensionType % 0x100 && b[1] == extensionType / 0x100
    && b[2] == messageType
    && b[3] == messageLength % 0x100 && b[4] == messageLength / 0x100 % 0x100
    && b[5] == messageLength / 0x1_0000 % 0x100
  }

  lemma HeaderLayout(f: FrameValue, more: Bytes)
    ensures HeaderBytes(Header(f) + more, f.extensionType, f.messageType, f.messageLength)
  {
    Capacities();
    ByteOfNumber(2, f.extensionType, 0);
    ByteOfNumber(2, f.extensionType, 1);
    ByteOfNumber(1, f.messageType, 0);
    ByteOfNumber(3, f.messageLength, 0);
    ByteOfNumber(3, f.messageLength, 1);
    ByteOfNumber(3, f.messageLength, 2);
    var b := Header(f) + more;
    assert b[0] == ToLE(2, f.extensionType)[0] && b[1] == ToLE(2, f.extensionType)[1];
    assert b[2] == ToLE(1, f.messageType)[0];
    assert b[3] == ToLE(3, f.messageLength)[0] && b[4] == ToLE(3, f.messageLength)[1];
    assert b[5] == ToLE(3, f.messageLength)[2];
  }

  /** What the encoder makes of each field: type, length, then a length of its own and the value. */
  function EncodedPieces(ts: seq<TLV>): (pieces: seq<Bytes>)
    ensures |pieces| == |ts|
  {
    seq(|ts|, i requires 0 <= i < |ts| =>
      ToLE(2, ts[i].extensionType) + ToLE(1, ts[i].fieldType) + ToLE(2, ts[i].length)
        + ToLE(2, |ts[i].value|) + ts[i].value)
  }

  /** What the decoder reads for each field: type, length, value. */
  function DecodedPieces(ts: seq<TLV>): (pieces: seq<Bytes>)
    ensures |pieces| == |ts|
  {
    seq(|ts|, i requires 0 <= i < |ts| =>
      ToLE(2, ts[i].extensionType) + ToLE(1, ts[i].fieldType) + ToLE(2, ts[i].length) + ts[i].value)
  }

  predicate ValuesFit(ts: seq<TLV>)
  {
    forall i :: 0 <= i < |ts| ==> |ts[i].value| <= 65535
  }

  lemma {:induction false} BlockLayout(ts: seq<TLV>)
    ensures TLVBlock(ts) == if ValuesFit(ts) then Some(Concat(EncodedPieces(ts))) else None
  {
    hide ToLE;
    if ts != [] {
      var front, last := ts[..|ts| - 1], ts[|ts| - 1];
      BlockLayout(front);
      ConcatSnoc(EncodedPieces(front), EncodedPieces(ts)[|ts| - 1]);
      assert EncodedPieces(ts) == EncodedPieces(front) + [EncodedPieces(ts)[|ts| - 1]];
      assert ts == front + [last];
      assert ValuesFit(ts) <==> ValuesFit(front) && |last.value| <= 65535;
    }
  }

  lemma {:induction false} FormsLayout(ts: seq<TLV>)
    ensures Forms(ts) == Concat(DecodedPieces(ts))
  {
    if ts != [] {
      FormsLayout(ts[1..]);
      assert DecodedPieces(ts)[1..] == DecodedPieces(ts[1..]);
    }
  }

  lemma FitInAnyOrder(ts: seq<TLV>, us: seq<TLV>)
    requires multiset(ts) == multiset(us)
    ensures ValuesFit(ts) <==> ValuesFit(us)
  {
    if ValuesFit(ts) {
      forall i | 0 <= i < |us| ensures |us[i].value| <= 65535 {
        assert us[i] in multiset(us);
        assert us[i] in multiset(ts);
      }
    }
    if ValuesFit(us) {
      forall i | 0 <= i < |ts| ensures |ts[i].value| <= 65535 {
        assert ts[i] in multiset(ts);
        assert ts[i] in multiset(us);
      }
    }
  }

  /** The TLVs a call leaves: sorted by extension type, the same ones, in their order within each type. */
  ghost predicate StablySorted(us: seq<TLV>, ts: seq<TLV>)
  {
    && (forall i, j :: 0 <= i < j < |us| ==> us[i].extensionType <= us[j].extensionType)
    && multiset(us) == multiset(ts)
    && SameByType(us, ts)
  }

  /**
    Every outcome of encoding. A wrong length changes nothing. Otherwise the TLVs are left stably sorted, and it
    succeeds exactly when every value fits its length; then the block, one piece for every TLV in that order, is
    behind the old payload, and the bytes are the header's six and the new payload.
   */
  lemma EncodeOutcome(f: FrameValue)
    ensures var (out, g) := EncodeFrame(f);
            && (out.Some? <==> f.messageLength == |f.payload| && ValuesFit(f.tlvs))
            && (f.messageLength != |f.payload| ==> g == f)
            && (f.messageLength == |f.payload| ==> StablySorted(g.tlvs, f.tlvs))
            && (out.None? ==> g == f.(tlvs := g.tlvs))
            && (out.Some? ==>
                  var block := Concat(EncodedPieces(g.tlvs));
                  && g == f.(payload := f.payload + block,
                             messageLength := (f.messageLength + |block|) % 0x1_0000_0000, tlvs := g.tlvs)
                  && HeaderBytes(out.value, f.extensionType, f.messageType, g.messageLength)
                  && out.value[6..] == f.payload + block)
  {
    hide StableSort, TLVBlock, Header, HeaderBytes, ValuesFit, EncodedPieces, SameByType;
    StableSortSpec(f.tlvs);
    FitInAnyOrder(StableSort(f.tlvs), f.tlvs);
    BlockLayout(StableSort(f.tlvs));
    var g := EncodeFrame(f).1;
    HeaderLayout(g, g.payload);
    assert (Header(g) + g.payload)[6..] == g.payload;
  }

  // ----- decoding

  /** The TLV at the start of b, or none when its value is cut short. */
  function DecodeTLV(b: Bytes): (t: Option<TLV>)
    requires |b| >= 5
    ensures t.Some? ==> |t.value.value| == t.value.length && |b| >= 5 + |t.value.value|
  {
    FromLEBound(b[..2]);
    FromLEBound(b[2..3]);
    FromLEBound(b[3..5]);
    Capacities();
    var length := FromLE(b[3..5]);
    if 5 + length > |b| then None
    else Some(TLV(FromLE(b[..2]), FromLE(b[2..3]), length, b[5..5 + length]))
  }

  /** The scan behind the payload: the fields found, and whether it ended without an error. */
  function Scan(b: Bytes): (seq<TLV>, bool)
  {
    if |b| < 5 then ([], true)
    else
      match DecodeTLV(b)
      case None => ([], false)
      case Some(t) =>
        var (ts, ok) := Scan(b[5 + |t.value|..]);
        ([t] + ts, ok)
  }

  function DecodeHeader(f: FrameValue, b: Bytes): FrameValue
    requires |b| >= FRAME_HEADER_SIZE
  {
    FromLEBound(b[..2]);
    FromLEBound(b[2..3]);
    FromLEBound(b[3..6]);
    Capacities();
    f.(extensionType := FromLE(b[..2]), messageType := FromLE(b[2..3]), messageLength := FromLE(b[3..6]))
  }

  /**
    How Decode leaves, and the frame it leaves behind; fields scanned before an error are kept. Slicing a Go
    slice reaches its spare capacity, so header and payload may come from the bytes behind b; the scan may not.
   */
  function DecodeFrame(f: FrameValue, b: Bytes, spare: Bytes): (Status, FrameValue)
  {
    var whole := b + spare;
    if |whole| < FRAME_HEADER_SIZE then (Panicked, f)
    else
      var g := DecodeHeader(f, whole);
      var n := FRAME_HEADER_SIZE + g.messageLength;
      if n > |whole| then (Panicked, g)
      else
        var h := g.(payload := whole[FRAME_HEADER_SIZE..n]);
        if |b| <= n + 5 then (Fine, h)
        else
          var (ts, ok) := Scan(b[n..]);
          (if ok then Fine else Failed, h.(tlvs := h.tlvs + ts))
  }

  class Frame {
    var extensionType: u16
    var messageType: u8
    var messageLength: u32
    var payload: Bytes
    var tlvs: seq<TLV>

    ghost function Value(): FrameValue
      reads this
    {
      FrameValue(extensionType, messageType, messageLength, payload, tlvs)
    }

    constructor (f: FrameValue)
      ensures Value() == f
    {
      extensionType, messageType, messageLength := f.extensionType, f.messageType, f.messageLength;
      payload, tlvs := f.payload, f.tlvs;
    }

    /** Sorts the TLVs and moves their bytes into the payload for good, then writes header and payload. */
    method Encode() returns (out: Option<Bytes>)
      modifies this
      ensures (out, Value()) == EncodeFrame(old(Value()))
    {
      hide StableSort, TLVBlock;
      if messageLength != |payload| {
        return None;
      }
      tlvs := SortStable(tlvs);
      var block := BuildBlock(tlvs);
      if block.None? {
        return None;
      }
      messageLength := (messageLength + |block.value|) % TWO_TO_32;
      payload := payload + block.value;
      var bytes := Write();
      return Some(bytes);
    }

    /** The header and the payload as they stand. */
    method Write() returns (bytes: Bytes)
      ensures bytes == Header(Value()) + payload
    {
      var out := new BinaryBuilder();
      out.AddU16(extensionType);
      out.AddU8(messageType);
      out.AddU24(messageLength);
      ghost var f, g := Messages.Number(2, extensionType), Messages.Number(1, messageType);
      ghost var h := Messages.Number(3, messageLength);
      ThreeFields(f, g, h);
      assert out.log == [f, g, h];
      out.AddBytes(payload);
      return out.data;
    }

    /** Reads the header fields; six bytes are always enough. */
    method DecodeHeaderBytes(b: Bytes)
      requires |b| == FRAME_HEADER_SIZE
      modifies this
      ensures Value() == DecodeHeader(old(Value()), b)
    {
      Capacities();
      var r := new BinaryReader(b, false);
      extensionType := r.ReadNum(2);
      messageType := r.ReadNum(1);
      messageLength := r.ReadNum(3);
    }

    /** Header, payload, then every TLV behind it; fewer than six trailing bytes are ignored as a whole. */
    method Decode(b: Bytes, spare: Bytes) returns (status: Status)
      modifies this
      ensures (status, Value()) == DecodeFrame(old(Value()), b, spare)
    {
      var whole := b + spare;
      if |whole| < FRAME_HEADER_SIZE {
        return Panicked;
      }
      ghost var was := Value();
      DecodeHeaderBytes(whole[..FRAME_HEADER_SIZE]);
      SameHeader(was, whole);
      var n := FRAME_HEADER_SIZE + messageLength;
      if n > |whole| {
        return Panicked;
      }
      payload := whole[FRAME_HEADER_SIZE..n];
      if |b| > n + 5 {
        status := ScanTLVs(b, n);
      } else {
        status := Fine;
      }
    }

    /** Appends the fields behind index n one by one, until fewer than five bytes are left or one is cut short. */
    method ScanTLVs(b: Bytes, n: nat) returns (status: Status)
      requires n <= |b|
      modifies this`tlvs
      ensures tlvs == old(tlvs) + Scan(b[n..]).0
      ensures status == if Scan(b[n..]).1 then Fine else Failed
    {
      hide DecodeTLV;
      var lastLen := 0;
      while |b| - (n + lastLen) >= 5
        invariant n + lastLen <= |b|
        invariant Scan(b[n..]).1 == Scan(b[n + lastLen..]).1
        invariant old(tlvs) + Scan(b[n..]).0 == tlvs + Scan(b[n + lastLen..]).0
        decreases |b| - lastLen
      {
        var tail := b[n + lastLen..];
        var t := DecodeTLVBytes(tail);
        if t.None? {
          assert tlvs + [] == tlvs;
          return Failed;
        }
        assert tail[5 + |t.value.value|..] == b[n + lastLen + 5 + t.value.length..];
        tlvs := tlvs + [t.value];
        lastLen := lastLen + t.value.length + 5;
      }
      return Fine;
    }
  }

  lemma SameHeader(f: FrameValue, b: Bytes)
    requires |b| >= FRAME_HEADER_SIZE
    ensures DecodeHeader(f, b[..FRAME_HEADER_SIZE]) == DecodeHeader(f, b)
  {
    assert b[..FRAME_HEADER_SIZE][..2] == b[..2];
    assert b[..FRAME_HEADER_SIZE][2..3] == b[2..3];
    assert b[..FRAME_HEADER_SIZE][3..6] == b[3..6];
  }

  /** One TLV read by a cursor over the rest of the frame. */
  method DecodeTLVBytes(b: Bytes) returns (t: Option<TLV>)
    requires |b| >= 5
    ensures t == DecodeTLV(b)
  {
    Capacities();
    var r := new BinaryReader(b, false);
    var extensionType := r.ReadNum(2);
    var fieldType := r.ReadNum(1);
    var length := r.ReadNum(2);
    var value := r.Read(length);
    if r.status != Fine {
      return None;
    }
    return Some(TLV(extensionType, fieldType, length, value.value));
  }

  /** The header fields as numbers, from the bytes one by one. */
  lemma HeaderRead(f: FrameValue, b: Bytes)
    requires |b| >= FRAME_HEADER_SIZE
    ensures DecodeHeader(f, b) == f.(extensionType := LE16(b[0], b[1]), messageType := b[2],
                                     messageLength := LE24(b[3], b[4], b[5]))
  {
    TwoBytes(b[..2]);
    assert FromLE(b[2..3]) == b[2] + 0x100 * FromLE([]);
    assert FromLE(b[3..6]) == b[3] + 0x100 * FromLE(b[3..6][1..]);
    TwoBytes(b[3..6][1..]);
  }

  lemma TwoBytes(b: Bytes)
    requires |b| == 2
    ensures FromLE(b) == LE16(b[0], b[1])
  {
    assert FromLE(b[1..]) == b[1] + 0x100 * FromLE([]);
  }

  /** A TLV as it is read: two bytes of extension type, one of field type, two of length, then that many. */
  lemma TLVRead(b: Bytes)
    requires |b| >= 5
    ensures var length := LE16(b[3], b[4]);
            DecodeTLV(b) == if |b| < 5 + length then None
                            else Some(TLV(LE16(b[0], b[1]), b[2], length, b[5..5 + length]))
  {
    TwoBytes(b[..2]);
    TwoBytes(b[3..5]);
    assert FromLE(b[2..3]) == b[2] + 0x100 * FromLE([]);
  }

  // ----- what the scan finds

  /** A field whose length says how long its value is. */
  predicate WellFormedTLV(t: TLV)
  {
    |t.value| == t.length
  }

  predicate AllWellFormedTLVs(ts: seq<TLV>)
  {
    forall i :: 0 <= i < |ts| ==> WellFormedTLV(ts[i])
  }

  lemma DecodeTLVForm(t: TLV, rest: Bytes)
    requires WellFormedTLV(t)
    ensures DecodeTLV(TLVForm(t) + rest) == Some(t)
  {
    Capacities();
    var b := TLVForm(t) + rest;
    assert b[..2] == ToLE(2, t.extensionType);
    assert b[2..3] == ToLE(1, t.fieldType);
    assert b[3..5] == ToLE(2, t.length);
    assert b[5..5 + t.length] == t.value;
    RoundTripLE(2, t.extensionType);
    RoundTripLE(1, t.fieldType);
    RoundTripLE(2, t.length);
  }

  lemma DecodedTLVForm(b: Bytes)
    requires |b| >= 5 && DecodeTLV(b).Some?
    ensures var t := DecodeTLV(b).value;
            WellFormedTLV(t) && b == TLVForm(t) + b[5 + |t.value|..]
  {
    var t := DecodeTLV(b).value;
    ToFromLE(b[..2]);
    ToFromLE(b[2..3]);
    ToFromLE(b[3..5]);
    assert TLVHead(t) == b[..2] + b[2..3] + b[3..5] == b[..5];
    assert b == b[..5] + b[5..5 + |t.value|] + b[5 + |t.value|..];
  }

  /** Where the scan stops: fewer than five bytes, or a field that is cut short. */
  function ScanRest(b: Bytes): Bytes
  {
    if |b| < 5 then b
    else
      match DecodeTLV(b)
      case None => b
      case Some(t) => ScanRest(b[5 + |t.value|..])
  }

  lemma ScanStep(b: Bytes)
    requires |b| >= 5 && DecodeTLV(b).Some?
    ensures var t := DecodeTLV(b).value;
            var tail := b[5 + |t.value|..];
            && WellFormedTLV(t) && b == TLVForm(t) + tail
            && Scan(b) == ([t] + Scan(tail).0, Scan(tail).1) && ScanRest(b) == ScanRest(tail)
  {
    DecodedTLVForm(b);
  }

  lemma ScanStops(b: Bytes)
    requires |b| < 5 || DecodeTLV(b).None?
    ensures Scan(b) == ([], |b| < 5) && ScanRest(b) == b && b == Forms([]) + b
  {
  }

  /**
    Every scan splits the bytes into the wire forms of the fields it found and the rest it stopped at; it ends
    without an error exactly when fewer than five bytes are left.
   */
  lemma {:induction false} ScanSound(b: Bytes)
    ensures AllWellFormedTLVs(Scan(b).0)
    ensures b == Forms(Scan(b).0) + ScanRest(b)
    ensures Scan(b).1 <==> |ScanRest(b)| < 5
    decreases |b|
  {
    hide DecodeTLV, TLVForm, WellFormedTLV, Forms, Scan, ScanRest;
    if |b| < 5 || DecodeTLV(b).None? {
      ScanStops(b);
    } else {
      var t := DecodeTLV(b).value;
      var tail := b[5 + |t.value|..];
      ScanStep(b);
      ScanSound(tail);
      FormsCons(t, Scan(tail).0);
      assert TLVForm(t) + (Forms(Scan(tail).0) + ScanRest(tail)) == TLVForm(t) + Forms(Scan(tail).0) + ScanRest(tail);
    }
  }

  lemma FormsCons(t: TLV, ts: seq<TLV>)
    ensures Forms([t] + ts) == TLVForm(t) + Forms(ts)
  {
    assert ([t] + ts)[1..] == ts;
  }

  /** Any concatenation of well-formed fields, with fewer than five bytes behind it, scans to exactly them. */
  lemma {:induction false} ScanComplete(ts: seq<TLV>, rest: Bytes)
    requires AllWellFormedTLVs(ts) && |rest| < 5
    ensures Scan(Forms(ts) + rest) == (ts, true)
  {
    if ts == [] {
      assert Forms(ts) + rest == rest;
    } else {
      var t, tail := ts[0], Forms(ts[1..]) + rest;
      assert Forms(ts) + rest == TLVForm(t) + tail;
      DecodeTLVForm(t, tail);
      assert (TLVForm(t) + tail)[5 + |t.value|..] == tail;
      ScanComplete(ts[1..], rest);
      assert ts == [t] + ts[1..];
    }
  }

  // ----- whole frames

  /** The bytes of a frame followed by more. */
  lemma HeaderRoundTrip(f: FrameValue, g: FrameValue, more: Bytes)
    requires f.messageLength <= MAX_U24
    ensures DecodeHeader(g, Header(f) + more)
         == g.(extensionType := f.extensionType, messageType := f.messageType, messageLength := f.messageLength)
  {
    Capacities();
    var b := Header(f) + more;
    assert b[..2] == ToLE(2, f.extensionType);
    assert b[2..3] == ToLE(1, f.messageType);
    assert b[3..6] == ToLE(3, f.messageLength);
    RoundTripLE(2, f.extensionType);
    RoundTripLE(1, f.messageType);
    RoundTripLE(3, f.messageLength);
  }

  /** The bytes are those of the fields, with fewer than five bytes behind them. */
  ghost predicate FieldsAndRest(b: Bytes, ts: seq<TLV>, rest: Bytes)
  {
    AllWellFormedTLVs(ts) && |rest| < 5 && b == Forms(ts) + rest
  }

  /** A scan ends without an error exactly when the bytes are some fields and a short rest. */
  lemma ScanSucceedsExactly(b: Bytes)
    ensures Scan(b).1 <==> exists ts, rest :: FieldsAndRest(b, ts, rest)
  {
    ScanSound(b);
    if Scan(b).1 {
      assert FieldsAndRest(b, Scan(b).0, ScanRest(b));
    }
    if ts, rest :| FieldsAndRest(b, ts, rest) {
      ScanComplete(ts, rest);
    }
  }

  /**
    Every outcome of decoding, for every buffer: a panic exactly when header or announced payload is not there,
    not even in spare capacity; success exactly when at most five bytes follow the payload or what follows is
    some fields and a short rest; an error otherwise.
   */
  lemma DecodeOutcome(f: FrameValue, b: Bytes, spare: Bytes)
    ensures var status := DecodeFrame(f, b, spare).0;
            && (status == Panicked <==> || |b + spare| < FRAME_HEADER_SIZE
                                        || |b + spare| < FRAME_HEADER_SIZE + DecodeHeader(f, b + spare).messageLength)
            && (status != Panicked ==>
                  var n := FRAME_HEADER_SIZE + DecodeHeader(f, b + spare).messageLength;
                  status == Fine <==> |b| <= n + 5 || exists ts, rest :: FieldsAndRest(b[n..], ts, rest))
  {
    hide DecodeHeader, FieldsAndRest, Scan;
    if |b + spare| >= FRAME_HEADER_SIZE {
      var n := FRAME_HEADER_SIZE + DecodeHeader(f, b + spare).messageLength;
      if n + 5 < |b| {
        ScanSucceedsExactly(b[n..]);
      }
    }
  }

  lemma HeaderReadBytes(f: FrameValue, b: Bytes)
    requires |b| >= FRAME_HEADER_SIZE
    ensures var g := DecodeHeader(f, b);
            HeaderBytes(b, g.extensionType, g.messageType, g.messageLength) && g.messageLength <= MAX_U24
  {
    hide DecodeHeader;
    HeaderRead(f, b);
  }

  /** The tail is the fields added and a rest; too long a rest is a field that announces more than there is. */
  ghost predicate Scanned(tail: Bytes, added: seq<TLV>, rest: Bytes, status: Status)
  {
    && AllWellFormedTLVs(added) && tail == Concat(DecodedPieces(added)) + rest
    && (|rest| < 5 || |rest| < 5 + LE16(rest[3], rest[4]))
    && status == if |rest| < 5 then Fine else Failed
  }

  lemma ScanScans(tail: Bytes)
    ensures Scanned(tail, Scan(tail).0, ScanRest(tail), if Scan(tail).1 then Fine else Failed)
  {
    hide Scan, ScanRest, AllWellFormedTLVs, Forms, DecodedPieces;
    ScanSound(tail);
    RestCutShort(tail);
    FormsLayout(Scan(tail).0);
  }

  /**
    The frame a decoding without a panic leaves: header fields from the first six bytes, the payload behind them,
    and, appended to the TLVs it had, the fields at the front of what follows. On an error these are all the
    fields before one that is cut short.
   */
  lemma DecodedFrame(f: FrameValue, b: Bytes, spare: Bytes)
    requires DecodeFrame(f, b, spare).0 != Panicked
    ensures var whole := b + spare;
            var (status, g) := DecodeFrame(f, b, spare);
            var n := 6 + g.messageLength;
            && |whole| >= n && HeaderBytes(whole, g.extensionType, g.messageType, g.messageLength)
            && g.messageLength <= MAX_U24 && g.payload == whole[6..n]
            && f.tlvs <= g.tlvs
            && if |b| <= n + 5 then g.tlvs == f.tlvs && status == Fine
               else Scanned(b[n..], g.tlvs[|f.tlvs|..], ScanRest(b[n..]), status)
  {
    hide Scan, ScanRest, Scanned, HeaderBytes;
    HeaderReadBytes(f, b + spare);
    var g := DecodeFrame(f, b, spare).1;
    var n := 6 + g.messageLength;
    if |b| > n + 5 {
      ScanScans(b[n..]);
      assert (f.tlvs + Scan(b[n..]).0)[|f.tlvs|..] == Scan(b[n..]).0;
    }
  }

  /** A scan that does not end with a short rest ends at a field announcing more bytes than there are. */
  lemma {:induction false} RestCutShort(b: Bytes)
    ensures var rest := ScanRest(b); |rest| >= 5 ==> |rest| < 5 + LE16(rest[3], rest[4])
    decreases |b|
  {
    if |b| >= 5 {
      TLVRead(b);
      if DecodeTLV(b).Some? {
        RestCutShort(b[5 + |DecodeTLV(b).value.value|..]);
      }
    }
  }

  /** When more than five bytes follow the payload and decoding succeeds, they are the fields found and a rest. */
  lemma TailIsFields(b: Bytes, spare: Bytes)
    requires DecodeFrame(ZERO_FRAME, b, spare).0 == Fine
    requires |b| > FRAME_HEADER_SIZE + DecodeFrame(ZERO_FRAME, b, spare).1.messageLength + 5
    ensures var f := DecodeFrame(ZERO_FRAME, b, spare).1;
            var tail := b[FRAME_HEADER_SIZE + f.messageLength..];
            FieldsAndRest(tail, f.tlvs, ScanRest(tail))
  {
    hide Scan, ScanRest, AllWellFormedTLVs, Forms;
    var tail := b[FRAME_HEADER_SIZE + DecodeFrame(ZERO_FRAME, b, spare).1.messageLength..];
    ScanSound(tail);
    assert [] + Scan(tail).0 == Scan(tail).0;
  }

  predicate Plain(f: FrameValue)
  {
    f.tlvs == [] && f.messageLength == |f.payload|
  }

  /** Header and payload come back; what is behind them is scanned when it is longer than five bytes. */
  lemma DecodePlain(f: FrameValue, tail: Bytes, spare: Bytes)
    requires Plain(f) && f.messageLength <= MAX_U24
    ensures DecodeFrame(ZERO_FRAME, Header(f) + f.payload + tail, spare)
         == if |tail| <= 5 then (Fine, f) else (if Scan(tail).1 then Fine else Failed, f.(tlvs := Scan(tail).0))
  {
    hide Header, DecodeHeader, Scan;
    FrameParts(Header(f), f.payload, tail, spare);
    HeaderRoundTrip(f, ZERO_FRAME, f.payload + tail + spare);
    NoFieldsBefore(Scan(tail).0);
  }

  lemma FrameParts(header: Bytes, payload: Bytes, tail: Bytes, spare: Bytes)
    ensures var b := header + payload + tail;
            && b + spare == header + (payload + tail + spare)
            && (b + spare)[|header|..|header| + |payload|] == payload
            && b[|header| + |payload|..] == tail
  {
  }

  lemma NoFieldsBefore(ts: seq<TLV>)
    ensures [] + ts == ts
  {
  }

  lemma SomeForms(ts: seq<TLV>)
    ensures if ts == [] then Forms(ts) == [] else |Forms(ts)| >= 5
  {
  }

  /**
    A payload followed by any well-formed fields decodes to that payload and those fields, except that a tail of
    exactly five bytes, a single field without a value, is dropped.
   */
  lemma FieldsBehindPayload(f: FrameValue, ts: seq<TLV>, rest: Bytes, spare: Bytes)
    requires Plain(f) && f.messageLength <= MAX_U24 && AllWellFormedTLVs(ts) && |rest| < 5
    ensures DecodeFrame(ZERO_FRAME, Header(f) + f.payload + Forms(ts) + rest, spare) == (Fine, f.(tlvs := ts))
       <==> ts == [] || |Forms(ts) + rest| > 5
  {
    SomeForms(ts);
    hide Header, DecodeFrame, Scan, Forms, AllWellFormedTLVs;
    assert Header(f) + f.payload + Forms(ts) + rest == Header(f) + f.payload + (Forms(ts) + rest);
    DecodePlain(f, Forms(ts) + rest, spare);
    ScanComplete(ts, rest);
  }

  lemma PlainEncodes(f: FrameValue)
    requires Plain(f)
    ensures EncodeFrame(f) == (Some(Header(f) + f.payload), f)
  {
    assert f.payload + [] == f.payload;
  }

  lemma DecodedLength(f: FrameValue, spare: Bytes)
    ensures DecodeFrame(ZERO_FRAME, Header(f) + f.payload, spare).1.messageLength <= MAX_U24
  {
    hide Header, Scan;
    Capacities();
    FromLEBound((Header(f) + f.payload + spare)[3..6]);
  }

  /** A frame without TLVs survives encoding and decoding exactly when its length fits 24 bits. */
  lemma PlainFrameRoundTrip(f: FrameValue, spare: Bytes)
    requires Plain(f)
    ensures EncodeFrame(f) == (Some(Header(f) + f.payload), f)
    ensures DecodeFrame(ZERO_FRAME, Header(f) + f.payload, spare) == (Fine, f) <==> f.messageLength <= MAX_U24
  {
    hide Header, DecodeFrame, EncodeFrame;
    PlainEncodes(f);
    if f.messageLength <= MAX_U24 {
      DecodePlain(f, [], spare);
      assert Header(f) + f.payload + [] == Header(f) + f.payload;
    } else {
      DecodedLength(f, spare);
    }
  }

  /** Reordering TLVs across extension types changes neither the bytes nor the frame left behind. */
  lemma OrderIndependence(f: FrameValue, us: seq<TLV>)
    requires SameByType(f.tlvs, us)
    ensures EncodeFrame(f.(tlvs := us)).0 == EncodeFrame(f).0
    ensures f.messageLength == |f.payload| ==> EncodeFrame(f.(tlvs := us)).1 == EncodeFrame(f).1
  {
    hide StableSort, TLVBlock, Sorted, OfType;
    StableSortSpec(f.tlvs);
    StableSortSpec(us);
    assert SameByType(StableSort(us), StableSort(f.tlvs)) by {
      forall e: u16
        ensures OfType(StableSort(us), e) == OfType(StableSort(f.tlvs), e)
      {
      }
    }
    SortedUnique(StableSort(us), StableSort(f.tlvs));
  }

  /**
    What encoding does to TLVs: decoding the bytes gives the old payload with the sorted block behind it and no
    TLVs, and that frame encodes to the same bytes.
   */
  lemma EncodeFixpoint(f: FrameValue, spare: Bytes)
    requires EncodeFrame(f).0.Some? && |EncodeFrame(f).1.payload| <= MAX_U24
    ensures var (e, g) := EncodeFrame(f);
            var block := TLVBlock(StableSort(f.tlvs)).value;
            && g == f.(payload := f.payload + block, messageLength := |f.payload + block|, tlvs := StableSort(f.tlvs))
            && DecodeFrame(ZERO_FRAME, e.value, spare) == (Fine, g.(tlvs := []))
            && EncodeFrame(g.(tlvs := [])) == (e, g.(tlvs := []))
  {
    var g := EncodeFrame(f).1;
    EncodedFrame(f);
    hide *;
    PlainFrameRoundTrip(g.(tlvs := []), spare);
  }

  lemma EncodedFrame(f: FrameValue)
    requires EncodeFrame(f).0.Some? && |EncodeFrame(f).1.payload| <= MAX_U24
    ensures TLVBlock(StableSort(f.tlvs)).Some?
    ensures var (e, g) := EncodeFrame(f);
            var block := TLVBlock(StableSort(f.tlvs)).value;
            && g == f.(payload := f.payload + block, messageLength := |f.payload + block|, tlvs := StableSort(f.tlvs))
            && e.value == Header(g.(tlvs := [])) + g.(tlvs := []).payload && Plain(g.(tlvs := []))
            && g.messageLength <= MAX_U24
  {
    hide TLVBlock, StableSort;
  }

  // ----- repeated encoding

  function EncodeTimes(f: FrameValue, k: nat): FrameValue
  {
    if k == 0 then f else EncodeFrame(EncodeTimes(f, k - 1)).1
  }

  function Repeat(block: Bytes, k: nat): Bytes
  {
    if k == 0 then [] else Repeat(block, k - 1) + block
  }

  lemma {:induction false} RepeatLength(block: Bytes, k: nat)
    ensures |Repeat(block, k)| == k * |block|
  {
    if k > 0 {
      RepeatLength(block, k - 1);
      NextCount(k - 1, |block|);
    }
  }

  lemma SortIdempotent(ts: seq<TLV>)
    ensures StableSort(StableSort(ts)) == StableSort(ts)
  {
    StableSortSpec(ts);
    StableSortSpec(StableSort(ts));
    SortedUnique(StableSort(StableSort(ts)), StableSort(ts));
  }

  lemma EncodeNext(f: FrameValue, k: nat, block: Bytes)
    requires k > 0
    ensures EncodeTimes(f, k) == EncodeFrame(EncodeTimes(f, k - 1)).1
    ensures f.payload + Repeat(block, k - 1) + block == f.payload + Repeat(block, k)
    ensures |f.payload + Repeat(block, k - 1)| <= |f.payload + Repeat(block, k)|
  {
    hide EncodeFrame;
  }

  lemma EncodeOnce(g: FrameValue, block: Bytes)
    requires g.messageLength == |g.payload| && TLVBlock(StableSort(g.tlvs)) == Some(block)
    requires |g.payload + block| < TWO_TO_32
    ensures EncodeFrame(g).1
         == g.(payload := g.payload + block, messageLength := |g.payload + block|, tlvs := StableSort(g.tlvs))
  {
  }

  /** Each encoding appends the block once more and keeps the length field right. */
  lemma RepeatedEncoding(f: FrameValue, k: nat, block: Bytes)
    requires f.messageLength == |f.payload| && TLVBlock(StableSort(f.tlvs)) == Some(block)
    requires |f.payload| + k * |block| < TWO_TO_32
    ensures var g := EncodeTimes(f, k);
            && g.payload == f.payload + Repeat(block, k) && g.messageLength == |g.payload|
            && g.tlvs == if k == 0 then f.tlvs else StableSort(f.tlvs)
  {
    RepeatLength(block, k);
    EncodedRepeatedly(f, k, block);
  }

  lemma {:induction false} EncodedRepeatedly(f: FrameValue, k: nat, block: Bytes)
    requires f.messageLength == |f.payload| && TLVBlock(StableSort(f.tlvs)) == Some(block)
    requires |f.payload + Repeat(block, k)| < TWO_TO_32
    ensures var g := EncodeTimes(f, k);
            && g.payload == f.payload + Repeat(block, k) && g.messageLength == |g.payload|
            && g.tlvs == if k == 0 then f.tlvs else StableSort(f.tlvs)
  {
    hide StableSort, TLVBlock, EncodeFrame, EncodeTimes, Repeat;
    if k == 0 {
      NotEncoded(f, block);
    } else {
      EncodeNext(f, k, block);
      EncodedRepeatedly(f, k - 1, block);
      SortIdempotent(f.tlvs);
      EncodeOnce(EncodeTimes(f, k - 1), block);
    }
  }

  lemma NotEncoded(f: FrameValue, block: Bytes)
    ensures EncodeTimes(f, 0) == f && f.payload == f.payload + Repeat(block, 0)
  {
  }
}
