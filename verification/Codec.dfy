/**
  The data types of the binary format (section 3.1 of the Stratum V2 specification): what each field looks
  like on the wire, and what a reader makes of any input, short or malformed ones included.

  A message is a list of fields. Round trips, prefix stability and truncation are proved once here, for every
  list, and carry over to each message.
 */
module Codec {
  import opened Bytes

  // ----- values and their kinds

  /** The widths of the unsigned integers U8, U16, U24, U32 and U64; a float travels as its four bytes. */
  type IntWidth = w: nat | w in {1, 2, 3, 4, 8} witness 1

  datatype Elem = EBool | EInt(width: IntWidth) | EHash

  datatype Scalar = Bool(flag: bool) | Int(width: IntWidth, v: nat) | Hash(bytes: Bytes32)

  datatype Blob = Str255 | Bin32 | Bin255 | Bin64K | Bin16M

  datatype Prefix = UpTo1 | UpTo255 | UpTo64K

  /** How a decoder reads a sequence: through the reader and a type assertion, or by its own loop. */
  datatype Style = Asserted | Looped

  datatype Kind =
    | KScalar(e: Elem)
    | KBlob(blob: Blob)
    | KSeq(prefix: Prefix, e: Elem, style: Style)

  datatype Field =
    | FScalar(s: Scalar)
    | FBlob(blob: Blob, bytes: Bytes)
    | FSeq(prefix: Prefix, e: Elem, style: Style, items: seq<Scalar>)

  function ElemOf(s: Scalar): Elem
  {
    match s
    case Bool(_) => EBool
    case Int(width, _) => EInt(width)
    case Hash(_) => EHash
  }

  function KindOf(f: Field): Kind
  {
    match f
    case FScalar(s) => KScalar(ElemOf(s))
    case FBlob(b, _) => KBlob(b)
    case FSeq(p, e, style, _) => KSeq(p, e, style)
  }

  function KindsOf(fs: seq<Field>): seq<Kind>
  {
    seq(|fs|, i requires 0 <= i < |fs| => KindOf(fs[i]))
  }

  /** The builder drops the high bytes of a number; this one has none that matter. */
  predicate Fits(s: Scalar)
  {
    s.Int? ==> s.v < Capacity(s.width)
  }

  predicate Homogeneous(e: Elem, items: seq<Scalar>)
  {
    forall i :: 0 <= i < |items| ==> ElemOf(items[i]) == e && Fits(items[i])
  }

  predicate WellFormed(f: Field)
  {
    match f
    case FScalar(s) => Fits(s)
    case FBlob(_, _) => true
    case FSeq(_, e, _, items) => Homogeneous(e, items)
  }

  function ScalarWidth(e: Elem): (w: nat)
  {
    match e
    case EBool => 1
    case EInt(width) => width
    case EHash => 32
  }

  function BlobWidth(b: Blob): nat
  {
    match b
    case Bin64K => 2
    case Bin16M => 3
    case _ => 1
  }

  /** The longest body the builder accepts. */
  function BlobLimit(b: Blob): nat
  {
    match b
    case Str255 => 255
    case Bin32 => 32
    case Bin255 => 255
    case Bin64K => 0xFFFF
    case Bin16M => LIMIT_16M
  }

  /** In Go `2 ^ 24 - 1` is an exclusive or, (0b00010 xor 0b11000) - 1 = 0b11010 - 1. */
  const LIMIT_16M: nat := 25

  function PrefixWidth(p: Prefix): nat
  {
    if p == UpTo64K then 2 else 1
  }

  function PrefixLimit(p: Prefix): nat
  {
    match p
    case UpTo1 => 1
    case UpTo255 => 255
    case UpTo64K => 0xFFFF
  }

  // ----- the wire form

  function ScalarWire(s: Scalar): Bytes
  {
    match s
    case Bool(flag) => if flag then [1] else [0]
    case Int(width, v) => ToLE(width, v)
    case Hash(bytes) => bytes
  }

  function ItemsWire(items: seq<Scalar>): Bytes
  {
    if items == [] then [] else ItemsWire(items[..|items| - 1]) + ScalarWire(items[|items| - 1])
  }

  /** The bytes of a field, or none when its length exceeds what the prefix allows. */
  function Wire(f: Field): Option<Bytes>
  {
    match f
    case FScalar(s) => Some(ScalarWire(s))
    case FBlob(b, bytes) =>
      if |bytes| > BlobLimit(b) then None else Some(ToLE(BlobWidth(b), |bytes|) + bytes)
    case FSeq(p, e, _, items) =>
      if |items| > PrefixLimit(p) then None else Some(ToLE(PrefixWidth(p), |items|) + ItemsWire(items))
  }

  /** An appending builder: the first field that does not fit stops it for good. */
  datatype Builder = Builder(data: Bytes, failed: bool) {
    function Put(f: Field): Builder
    {
      if failed then this
      else match Wire(f)
        case None => this.(failed := true)
        case Some(w) => this.(data := data + w)
    }
  }

  const EMPTY: Builder := Builder([], false)

  function PutAll(fs: seq<Field>): Builder
  {
    if fs == [] then EMPTY else PutAll(fs[..|fs| - 1]).Put(fs[|fs| - 1])
  }

  // ----- the bytes of every kind of field, spelled out

  lemma {:induction false} ItemsLayout(items: seq<Scalar>, pieces: seq<Bytes>)
    requires |pieces| == |items| && forall i :: 0 <= i < |items| ==> pieces[i] == ScalarWire(items[i])
    ensures ItemsWire(items) == Concat(pieces)
  {
    if items != [] {
      var front := pieces[..|pieces| - 1];
      ItemsLayout(items[..|items| - 1], front);
      ConcatSnoc(front, pieces[|pieces| - 1]);
      assert pieces == front + [pieces[|pieces| - 1]];
    }
  }

  /** A byte string: its length in one, two or three bytes, then the bytes; none when it is too long. */
  lemma BlobLayout(b: Blob, bytes: Bytes)
    ensures Wire(FBlob(b, bytes)) ==
      match b
      case Str255 => if |bytes| <= 255 then Some(ToLE(1, |bytes|) + bytes) else None
      case Bin32 => if |bytes| <= 32 then Some(ToLE(1, |bytes|) + bytes) else None
      case Bin255 => if |bytes| <= 255 then Some(ToLE(1, |bytes|) + bytes) else None
      case Bin64K => if |bytes| <= 65535 then Some(ToLE(2, |bytes|) + bytes) else None
      case Bin16M => if |bytes| <= 25 then Some(ToLE(3, |bytes|) + bytes) else None
  {
  }

  /** A sequence: its count in one or two bytes, then its elements one after the other. */
  lemma SequenceLayout(p: Prefix, e: Elem, style: Style, items: seq<Scalar>, pieces: seq<Bytes>)
    requires |pieces| == |items| && forall i :: 0 <= i < |items| ==> pieces[i] == ScalarWire(items[i])
    ensures Wire(FSeq(p, e, style, items)) ==
      match p
      case UpTo1 => if |items| <= 1 then Some(ToLE(1, |items|) + Concat(pieces)) else None
      case UpTo255 => if |items| <= 255 then Some(ToLE(1, |items|) + Concat(pieces)) else None
      case UpTo64K => if |items| <= 65535 then Some(ToLE(2, |items|) + Concat(pieces)) else None
  {
    ItemsLayout(items, pieces);
  }

  /** A built list is the concatenation of its fields' bytes; one field that has none fails them all. */
  lemma {:induction false} FieldsLayout(fs: seq<Field>, pieces: seq<Bytes>)
    requires |pieces| == |fs| && forall i :: 0 <= i < |fs| && Wire(fs[i]).Some? ==> Wire(fs[i]) == Some(pieces[i])
    ensures PutAll(fs).failed <==> exists i :: 0 <= i < |fs| && Wire(fs[i]).None?
    ensures !PutAll(fs).failed ==> PutAll(fs).data == Concat(pieces)
  {
    hide Wire;
    if fs != [] {
      var front, last := fs[..|fs| - 1], fs[|fs| - 1];
      var before := pieces[..|pieces| - 1];
      FieldsLayout(front, before);
      ConcatSnoc(before, pieces[|pieces| - 1]);
      assert pieces == before + [pieces[|pieces| - 1]];
      if PutAll(front).failed {
        var i :| 0 <= i < |front| && Wire(front[i]).None?;
        assert Wire(fs[i]).None?;
      }
      if i :| 0 <= i < |fs| && Wire(fs[i]).None? {
        assert i < |front| ==> Wire(front[i]).None?;
      }
    }
  }

  // ----- the reader

  /** Go's three ways to leave a decoder: no error, an error value, or a run-time panic. */
  datatype Status = Fine | Failed | Panicked

  /** A cursor over a byte slice; absent marks Go's nil slice, which is empty too. */
  datatype Reader = Reader(data: Bytes, absent: bool, pos: nat, status: Status) {
    predicate Valid()
    {
      pos <= |data| && (absent ==> data == [])
    }

    /** The slice the next l bytes, or, past the end, what is left after failing: nothing, or nil. */
    function Take(l: nat): (Option<Bytes>, Reader)
    {
      if status != Fine then (None, this)
      else if pos + l > |data| then
        (if absent then None else Some([]), this.(pos := |data|, status := Failed))
      else (Some(data[pos..pos + l]), this.(pos := pos + l))
    }

    /** A fixed-width number. Indexing a short slice is a panic; a nil slice reads as zero. */
    function Num(width: nat): (nat, Reader)
      requires width > 0
    {
      var (b, r) := Take(width);
      match b
      case None => (0, r)
      case Some(bs) => if |bs| < width then (0, r.(status := Panicked)) else (FromLE(bs), r)
    }

    function Hash32(): (Bytes32, Reader)
    {
      var (b, r) := Take(32);
      match b
      case None => (Zeros32(), r)
      case Some(bs) => if |bs| != 32 then (Zeros32(), r.(status := Failed)) else (bs, r)
    }

    function Boolean(): (bool, Reader)
    {
      var (v, r) := Num(1);
      if r.status != Fine then (false, r)
      else if v > 1 then (false, r.(status := Failed))
      else (v == 1, r)
    }

    function GetScalar(e: Elem): (Scalar, Reader)
    {
      match e
      case EBool => var (v, r) := Boolean(); (Bool(v), r)
      case EInt(width) => var (v, r) := Num(width); (Int(width, v), r)
      case EHash => var (v, r) := Hash32(); (Hash(v), r)
    }

    function Items(e: Elem, count: nat): (res: (seq<Scalar>, Reader))
      ensures |res.0| == count
    {
      if count == 0 then ([], this)
      else
        var (items, r) := Items(e, count - 1);
        var (s, r') := r.GetScalar(e);
        (items + [s], r')
    }

    /** A prefixed sequence through the reader; none is the nil interface it returns on any error. */
    function ReadSeq(p: Prefix, e: Elem): (Option<seq<Scalar>>, Reader)
    {
      if status != Fine then (None, this)
      else
        var (count, r) := Num(PrefixWidth(p));
        if r.status == Panicked then (None, r)
        else if p == UpTo1 && count > 1 then (None, r.(status := Failed))
        else
          r.ReadItems(e, count)
    }

    /** What a sequence's own decode loop returns to the reader: none when it left an error. */
    function ReadItems(e: Elem, count: nat): (Option<seq<Scalar>>, Reader)
    {
      var (items, r) := Items(e, count);
      if r.status == Fine then (Some(items), r) else (None, r)
    }

    /** A sequence as the message decoders read it: asserting the type of nil is a panic. */
    function Sequence(p: Prefix, e: Elem, style: Style): (seq<Scalar>, Reader)
    {
      match style
      case Asserted =>
        var (items, r) := ReadSeq(p, e);
        if items.Some? then (items.value, r) else ([], r.(status := Panicked))
      case Looped =>
        var (count, r) := Num(PrefixWidth(p));
        r.Items(e, count)
    }

    function GetBlob(b: Blob): (Bytes, Reader)
    {
      var (l, r) := Num(BlobWidth(b));
      if r.status == Fine && b == Bin32 && l > 32 then ([], r.(status := Failed))
      else
        var (bs, r') := r.Take(l);
        (if bs.Some? then bs.value else [], r')
    }

    function Get(k: Kind): (Field, Reader)
    {
      match k
      case KScalar(e) => var (s, r) := GetScalar(e); (FScalar(s), r)
      case KBlob(b) => var (bs, r) := GetBlob(b); (FBlob(b, bs), r)
      case KSeq(p, e, style) => var (items, r) := Sequence(p, e, style); (FSeq(p, e, style, items), r)
    }

    function GetAll(ks: seq<Kind>): (res: (seq<Field>, Reader))
      ensures |res.0| == |ks|
    {
      if ks == [] then ([], this)
      else
        var (fs, r) := GetAll(ks[..|ks| - 1]);
        var (f, r') := r.Get(ks[|ks| - 1]);
        (fs + [f], r')
    }

    /** The same cursor that many bytes further on. */
    function Skip(count: nat): Reader
    {
      this.(pos := pos + count)
    }

    /** The same cursor with more bytes behind it. */
    function Extend(more: Bytes): Reader
    {
      this.(data := data + more, absent := absent && more == [])
    }
  }

  function NewReader(data: Bytes, absent: bool): Reader
  {
    Reader(data, absent, 0, Fine)
  }

  // ----- validity and sticky errors

  /** r' stands where r stood or further on, over the same bytes. */
  ghost predicate Advanced(r: Reader, r': Reader)
  {
    r'.Valid() && r'.data == r.data && r'.absent == r.absent && r'.pos >= r.pos
  }

  lemma NumKeepsCursor(r: Reader, width: IntWidth)
    requires r.Valid()
    ensures Advanced(r, r.Num(width).1)
    ensures r.status != Fine ==> r.Num(width).1 == r
  {
  }

  lemma ScalarKeepsCursor(r: Reader, e: Elem)
    requires r.Valid()
    ensures Advanced(r, r.GetScalar(e).1)
    ensures r.status != Fine ==> r.GetScalar(e).1 == r
  {
  }

  lemma {:induction false} ItemsKeepCursor(r: Reader, e: Elem, count: nat)
    requires r.Valid()
    ensures Advanced(r, r.Items(e, count).1)
    ensures r.status != Fine ==> r.Items(e, count).1 == r
  {
    if count > 0 {
      ItemsKeepCursor(r, e, count - 1);
      ScalarKeepsCursor(r.Items(e, count - 1).1, e);
    }
  }

  lemma SequenceKeepsCursor(r: Reader, p: Prefix, e: Elem, style: Style)
    requires r.Valid()
    ensures Advanced(r, r.Sequence(p, e, style).1)
    ensures r.status != Fine ==> r.Sequence(p, e, style).1.status != Fine
  {
    hide Reader.GetScalar, Reader.Items, Reader.Num;
    var (count, r1) := r.Num(PrefixWidth(p));
    NumKeepsCursor(r, PrefixWidth(p));
    ItemsKeepCursor(r1, e, count);
  }

  /** Every read keeps the cursor inside the data, never moves it back and never clears an error. */
  lemma GetKeepsCursor(r: Reader, k: Kind)
    requires r.Valid()
    ensures Advanced(r, r.Get(k).1)
    ensures r.status != Fine ==> r.Get(k).1.status != Fine
  {
    match k
    case KScalar(e) => ScalarKeepsCursor(r, e);
    case KBlob(b) =>
    case KSeq(p, e, style) => SequenceKeepsCursor(r, p, e, style);
  }

  lemma {:induction false} GetAllKeepsCursor(r: Reader, ks: seq<Kind>)
    requires r.Valid()
    ensures Advanced(r, r.GetAll(ks).1)
    ensures r.status != Fine ==> r.GetAll(ks).1.status != Fine
  {
    if ks != [] {
      GetAllKeepsCursor(r, ks[..|ks| - 1]);
      GetKeepsCursor(r.GetAll(ks[..|ks| - 1]).1, ks[|ks| - 1]);
    }
  }

  // ----- prefix stability: success depends only on the bytes consumed

  lemma TakeStable(r: Reader, l: nat, more: Bytes)
    requires r.Valid() && r.Take(l).1.status == Fine
    ensures r.Extend(more).Take(l) == (r.Take(l).0, r.Take(l).1.Extend(more))
  {
    assert (r.data + more)[r.pos..r.pos + l] == r.data[r.pos..r.pos + l];
  }

  lemma ScalarStable(r: Reader, e: Elem, more: Bytes)
    requires r.Valid() && r.GetScalar(e).1.status == Fine
    ensures r.status == Fine
    ensures r.Extend(more).GetScalar(e) == (r.GetScalar(e).0, r.GetScalar(e).1.Extend(more))
  {
    assert r.status == Fine;
    TakeStable(r, ScalarWidth(e), more);
  }

  lemma NoItems(r: Reader, e: Elem)
    ensures r.Items(e, 0) == ([], r)
  {
  }

  lemma {:induction false} ItemsStable(r: Reader, e: Elem, count: nat, more: Bytes)
    requires r.Valid() && r.Items(e, count).1.status == Fine
    ensures r.status == Fine
    ensures r.Extend(more).Items(e, count) == (r.Items(e, count).0, r.Items(e, count).1.Extend(more))
  {
    hide *;
    if count == 0 {
      NoItems(r, e);
      NoItems(r.Extend(more), e);
    } else {
      ItemsStableStep(r, e, count - 1, more);
      ItemsStable(r, e, count - 1, more);
      NextItemStable(r, e, count - 1, more);
    }
  }

  lemma ItemsStableStep(r: Reader, e: Elem, count: nat, more: Bytes)
    requires r.Valid() && r.Items(e, count + 1).1.status == Fine
    ensures r.Items(e, count).1.Valid() && r.Items(e, count).1.status == Fine
  {
    ItemsKeepCursor(r, e, count);
    ScalarStable(r.Items(e, count).1, e, more);
  }

  lemma NextItemStable(r: Reader, e: Elem, count: nat, more: Bytes)
    requires r.Items(e, count).1.Valid() && r.Items(e, count + 1).1.status == Fine
    requires r.Extend(more).Items(e, count) == (r.Items(e, count).0, r.Items(e, count).1.Extend(more))
    ensures r.Extend(more).Items(e, count + 1) == (r.Items(e, count + 1).0, r.Items(e, count + 1).1.Extend(more))
  {
    hide Reader.GetScalar, Reader.Extend;
    var mid := r.Items(e, count).1;
    ScalarStable(mid, e, more);
  }

  lemma GetStable(r: Reader, k: Kind, more: Bytes)
    requires r.Valid() && r.Get(k).1.status == Fine
    ensures r.status == Fine
    ensures r.Extend(more).Get(k) == (r.Get(k).0, r.Get(k).1.Extend(more))
  {
    GetKeepsCursor(r, k);
    match k
    case KScalar(e) => ScalarStable(r, e, more);
    case KBlob(b) =>
      TakeStable(r, BlobWidth(b), more);
      var (l, r1) := r.Num(BlobWidth(b));
      TakeStable(r1, l, more);
    case KSeq(p, e, style) =>
      TakeStable(r, PrefixWidth(p), more);
      var (count, r1) := r.Num(PrefixWidth(p));
      ItemsStable(r1, e, count, more);
  }

  /** If a list of fields decodes, it decodes to the same values and the same position whatever follows. */
  lemma {:induction false} GetAllStable(r: Reader, ks: seq<Kind>, more: Bytes)
    requires r.Valid() && r.GetAll(ks).1.status == Fine
    ensures r.status == Fine
    ensures r.Extend(more).GetAll(ks) == (r.GetAll(ks).0, r.GetAll(ks).1.Extend(more))
  {
    if ks != [] {
      var front := ks[..|ks| - 1];
      GetAllKeepsCursor(r, front);
      GetStable(r.GetAll(front).1, ks[|ks| - 1], more);
      GetAllStable(r, front, more);
    }
  }

  // ----- round trips

  /** The chunk lies in data at that index, whatever surrounds it. */
  ghost predicate Holds(data: Bytes, at: nat, chunk: Bytes)
  {
    at + |chunk| <= |data| && data[at..at + |chunk|] == chunk
  }

  lemma HoldsSplit(data: Bytes, at: nat, a: Bytes, b: Bytes)
    requires Holds(data, at, a + b)
    ensures Holds(data, at, a) && Holds(data, at + |a|, b)
  {
    var all := data[at..at + |a + b|];
    assert all[..|a|] == a && all[|a|..] == b;
    assert data[at..at + |a|] == all[..|a|];
    assert data[at + |a|..at + |a| + |b|] == all[|a|..];
  }

  lemma TakeHeld(r: Reader, chunk: Bytes)
    requires r.status == Fine && Holds(r.data, r.pos, chunk)
    ensures r.Take(|chunk|) == (Some(chunk), r.Skip(|chunk|))
  {
  }

  lemma NumRoundTrip(r: Reader, width: IntWidth, v: nat)
    requires r.status == Fine && v < Capacity(width) && Holds(r.data, r.pos, ToLE(width, v))
    ensures r.Num(width) == (v, r.Skip(width))
  {
    TakeHeld(r, ToLE(width, v));
    RoundTripLE(width, v);
  }

  lemma ScalarRoundTrip(r: Reader, s: Scalar)
    requires r.status == Fine && Fits(s) && Holds(r.data, r.pos, ScalarWire(s))
    ensures r.GetScalar(ElemOf(s)) == (s, r.Skip(|ScalarWire(s)|))
  {
    match s
    case Bool(flag) =>
      Capacities();
      assert ToLE(1, if flag then 1 else 0) == ScalarWire(s) + ToLE(0, 0);
      NumRoundTrip(r, 1, if flag then 1 else 0);
    case Int(width, v) => NumRoundTrip(r, width, v);
    case Hash(bytes) => TakeHeld(r, bytes);
  }

  lemma ScalarWireLength(s: Scalar)
    ensures |ScalarWire(s)| == ScalarWidth(ElemOf(s))
  {
  }

  lemma {:induction false} ItemsWireLength(e: Elem, items: seq<Scalar>)
    requires forall i :: 0 <= i < |items| ==> ElemOf(items[i]) == e
    ensures |ItemsWire(items)| == |items| * ScalarWidth(e)
  {
    if items != [] {
      ItemsWireLength(e, items[..|items| - 1]);
      ScalarWireLength(items[|items| - 1]);
      NextCount(|items| - 1, ScalarWidth(e));
    }
  }

  lemma NextCount(n: nat, width: nat)
    ensures (n + 1) * width == n * width + width
  {
  }

  /** Skipping twice is skipping once by the sum. */
  lemma SkipTwice(r: Reader, a: nat, b: nat, sum: nat)
    requires sum == a + b
    ensures r.Skip(a).Skip(b) == r.Skip(sum)
  {
  }

  /** The decode loop undoes the encode loop, for every element type. */
  lemma {:induction false} ItemsRoundTrip(r: Reader, e: Elem, items: seq<Scalar>)
    requires r.status == Fine && Homogeneous(e, items) && Holds(r.data, r.pos, ItemsWire(items))
    ensures r.Items(e, |items|) == (items, r.Skip(|ItemsWire(items)|))
  {
    hide Reader.Items, Reader.GetScalar, Holds, ScalarWire, ElemOf, Fits;
    if items == [] {
      NoItems(r, e);
    } else {
      var front, last := items[..|items| - 1], items[|items| - 1];
      var mid := r.Skip(|ItemsWire(front)|);
      assert items == front + [last];
      HoldsSplit(r.data, r.pos, ItemsWire(front), ScalarWire(last));
      ItemsRoundTrip(r, e, front);
      ScalarRoundTrip(mid, last);
      ItemsThenScalar(r, e, |front|, front, mid, last, mid.Skip(|ScalarWire(last)|));
      SkipTwice(r, |ItemsWire(front)|, |ScalarWire(last)|, |ItemsWire(items)|);
    }
  }

  /** What is left of a scalar on the wire: the low bytes of a number too large for its width. */
  function Reduced(s: Scalar): Scalar
  {
    if s.Int? then Int(s.width, s.v % Capacity(s.width)) else s
  }

  function AllReduced(items: seq<Scalar>): (rs: seq<Scalar>)
    ensures |rs| == |items|
  {
    seq(|items|, i requires 0 <= i < |items| => Reduced(items[i]))
  }

  lemma ReducedWire(s: Scalar)
    ensures ScalarWire(Reduced(s)) == ScalarWire(s)
  {
    if s.Int? {
      FromToLE(s.width, s.v);
      ToFromLE(ToLE(s.width, s.v));
    }
  }

  lemma {:induction false} AllReducedWire(items: seq<Scalar>)
    ensures ItemsWire(AllReduced(items)) == ItemsWire(items)
  {
    hide ScalarWire, Reduced;
    if items != [] {
      assert AllReduced(items)[..|items| - 1] == AllReduced(items[..|items| - 1]);
      AllReducedWire(items[..|items| - 1]);
      ReducedWire(items[|items| - 1]);
    }
  }

  /** Elements that do not fit, such as 24-bit ones with a top byte, read back without their high bytes. */
  lemma ItemsReadBackReduced(r: Reader, e: Elem, items: seq<Scalar>)
    requires r.status == Fine && Holds(r.data, r.pos, ItemsWire(items))
    requires forall i :: 0 <= i < |items| ==> ElemOf(items[i]) == e
    ensures r.Items(e, |items|) == (AllReduced(items), r.Skip(|ItemsWire(items)|))
  {
    hide Reader.Items, Holds, ItemsWire;
    AllReducedWire(items);
    ItemsRoundTrip(r, e, AllReduced(items));
  }

  lemma ItemsThenScalar(r: Reader, e: Elem, count: nat, front: seq<Scalar>, mid: Reader, last: Scalar, end: Reader)
    requires r.Items(e, count) == (front, mid) && mid.GetScalar(e) == (last, end)
    ensures r.Items(e, count + 1) == (front + [last], end)
  {
  }

  lemma BlobRoundTrip(r: Reader, b: Blob, bytes: Bytes)
    requires r.status == Fine && |bytes| <= BlobLimit(b)
    requires Holds(r.data, r.pos, ToLE(BlobWidth(b), |bytes|))
    requires Holds(r.data, r.pos + BlobWidth(b), bytes)
    ensures r.GetBlob(b) == (bytes, r.Skip(BlobWidth(b) + |bytes|))
  {
    Capacities();
    NumRoundTrip(r, BlobWidth(b), |bytes|);
    LengthThenBody(r, b, bytes);
  }

  lemma LengthThenBody(r: Reader, b: Blob, bytes: Bytes)
    requires r.status == Fine && |bytes| <= BlobLimit(b)
    requires r.Num(BlobWidth(b)) == (|bytes|, r.Skip(BlobWidth(b)))
    requires Holds(r.data, r.pos + BlobWidth(b), bytes)
    ensures r.GetBlob(b) == (bytes, r.Skip(BlobWidth(b) + |bytes|))
  {
    TakeHeld(r.Skip(BlobWidth(b)), bytes);
    SkipTwice(r, BlobWidth(b), |bytes|, BlobWidth(b) + |bytes|);
  }

  lemma SequenceRoundTrip(r: Reader, p: Prefix, e: Elem, style: Style, items: seq<Scalar>)
    requires r.status == Fine && Homogeneous(e, items) && |items| <= PrefixLimit(p)
    requires Holds(r.data, r.pos, ToLE(PrefixWidth(p), |items|))
    requires Holds(r.data, r.pos + PrefixWidth(p), ItemsWire(items))
    ensures r.Sequence(p, e, style) == (items, r.Skip(PrefixWidth(p) + |ItemsWire(items)|))
  {
    Capacities();
    NumRoundTrip(r, PrefixWidth(p), |items|);
    CountThenItems(r, p, e, style, items);
  }

  lemma CountThenItems(r: Reader, p: Prefix, e: Elem, style: Style, items: seq<Scalar>)
    requires r.status == Fine && Homogeneous(e, items) && |items| <= PrefixLimit(p)
    requires r.Num(PrefixWidth(p)) == (|items|, r.Skip(PrefixWidth(p)))
    requires Holds(r.data, r.pos + PrefixWidth(p), ItemsWire(items))
    ensures r.Sequence(p, e, style) == (items, r.Skip(PrefixWidth(p) + |ItemsWire(items)|))
  {
    hide Reader.Items, Holds;
    ItemsRoundTrip(r.Skip(PrefixWidth(p)), e, items);
    SkipTwice(r, PrefixWidth(p), |ItemsWire(items)|, PrefixWidth(p) + |ItemsWire(items)|);
  }

  /** Reading a field back from where it was written gives the field and ends right behind it. */
  lemma FieldRoundTrip(r: Reader, f: Field)
    requires r.status == Fine && WellFormed(f) && Wire(f).Some? && Holds(r.data, r.pos, Wire(f).value)
    ensures r.Get(KindOf(f)) == (f, r.Skip(|Wire(f).value|))
  {
    hide Reader.GetScalar, Reader.GetBlob, Reader.Sequence, Holds;
    match f
    case FScalar(s) =>
      ScalarRoundTrip(r, s);
      ScalarWireLength(s);
    case FBlob(b, bytes) =>
      HoldsSplit(r.data, r.pos, ToLE(BlobWidth(b), |bytes|), bytes);
      BlobRoundTrip(r, b, bytes);
    case FSeq(p, e, style, items) =>
      HoldsSplit(r.data, r.pos, ToLE(PrefixWidth(p), |items|), ItemsWire(items));
      SequenceRoundTrip(r, p, e, style, items);
  }

  predicate AllWellFormed(fs: seq<Field>)
  {
    forall i :: 0 <= i < |fs| ==> WellFormed(fs[i])
  }

  /**
    Decoding a built list of fields, wherever it lies and whatever follows, gives the list back and leaves the
    cursor right behind it.
   */
  lemma {:induction false} FieldsRoundTrip(r: Reader, fs: seq<Field>)
    requires AllWellFormed(fs) && !PutAll(fs).failed
    requires r.status == Fine && Holds(r.data, r.pos, PutAll(fs).data)
    ensures r.GetAll(KindsOf(fs)) == (fs, r.Skip(|PutAll(fs).data|))
  {
    if fs != [] {
      var front, last := fs[..|fs| - 1], fs[|fs| - 1];
      var before, w := PutAll(front).data, Wire(last).value;
      assert fs == front + [last];
      assert KindsOf(fs) == KindsOf(front) + [KindOf(last)];
      HoldsSplit(r.data, r.pos, before, w);
      FieldsRoundTrip(r, front);
      var mid := r.Skip(|before|);
      hide Reader.Get, Reader.GetAll, Holds;
      FieldRoundTrip(mid, last);
      FieldsThenField(r, KindsOf(front), front, mid, KindOf(last), last, mid.Skip(|w|));
      SkipTwice(r, |before|, |w|, |PutAll(fs).data|);
    }
  }

  lemma FieldsThenField(r: Reader, ks: seq<Kind>, front: seq<Field>, mid: Reader, k: Kind, last: Field, end: Reader)
    requires r.GetAll(ks) == (front, mid) && mid.Get(k) == (last, end)
    ensures r.GetAll(ks + [k]) == (front + [last], end)
  {
    assert (ks + [k])[..|ks|] == ks;
  }

  /** No strict prefix of an encoding decodes: it always ends in an error or a panic. */
  lemma TruncationNeverDecodes(fs: seq<Field>, cut: nat, absent: bool)
    requires AllWellFormed(fs) && !PutAll(fs).failed
    requires cut < |PutAll(fs).data| && (absent ==> cut == 0)
    ensures NewReader(PutAll(fs).data[..cut], absent).GetAll(KindsOf(fs)).1.status != Fine
  {
    var w := PutAll(fs).data;
    var r := NewReader(w[..cut], absent);
    GetAllKeepsCursor(r, KindsOf(fs));
    FieldsRoundTrip(NewReader(w, false), fs);
    assert r.Extend(w[cut..]).data == w;
    if r.GetAll(KindsOf(fs)).1.status == Fine {
      GetAllStable(r, KindsOf(fs), w[cut..]);
    }
  }

  // ----- canonical encodings: what decodes was encoded that way

  /** The reader accepts no more than the builder: all kinds but Bin16M, and a hand-written loop over an option. */
  predicate Bounded(k: Kind)
  {
    k != KBlob(Bin16M) && !(k.KSeq? && k.prefix == UpTo1 && k.style == Looped)
  }

  /** A field of that kind, written as the given bytes. */
  ghost predicate WrittenAs(f: Field, k: Kind, bytes: Bytes)
  {
    KindOf(f) == k && WellFormed(f) && Wire(f) == Some(bytes)
  }

  lemma NumCanonical(r: Reader, width: IntWidth)
    requires r.Valid() && r.Num(width).1.status == Fine
    ensures r.status == Fine && r.pos + width <= |r.data| && r.Num(width).1 == r.Skip(width)
    ensures r.Num(width).0 < Capacity(width)
    ensures ToLE(width, r.Num(width).0) == r.data[r.pos..r.pos + width]
  {
    var bytes := r.data[r.pos..r.pos + width];
    FromLEBound(bytes);
    ToFromLE(bytes);
  }

  lemma ScalarCanonical(r: Reader, e: Elem)
    requires r.Valid() && r.GetScalar(e).1.status == Fine
    ensures var (s, r') := r.GetScalar(e);
            && ElemOf(s) == e && Fits(s) && r.pos <= r'.pos <= |r.data|
            && ScalarWire(s) == r.data[r.pos..r'.pos]
  {
    ScalarKeepsCursor(r, e);
    match e
    case EBool =>
      NumCanonical(r, 1);
      var v := r.Num(1).0;
      assert ToLE(1, v) == [v % 0x100] + ToLE(0, v / 0x100);
    case EInt(width) => NumCanonical(r, width);
    case EHash =>
  }

  /** Reading across a boundary in the middle. */
  lemma SlicesJoin(data: Bytes, from: nat, mid: nat, to: nat)
    requires from <= mid <= to <= |data|
    ensures data[from..mid] + data[mid..to] == data[from..to]
  {
  }

  lemma {:induction false} ItemsCanonical(r: Reader, e: Elem, count: nat)
    requires r.Valid() && r.Items(e, count).1.status == Fine
    ensures var (items, r') := r.Items(e, count);
            && Homogeneous(e, items) && r.pos <= r'.pos <= |r.data|
            && ItemsWire(items) == r.data[r.pos..r'.pos]
  {
    hide Reader.GetScalar, Reader.Items, ScalarWire, ElemOf, Fits, ItemsWire, Homogeneous;
    if count == 0 {
      NoItems(r, e);
      NoItemsWire(e);
    } else {
      var (front, mid) := r.Items(e, count - 1);
      var (s, end) := mid.GetScalar(e);
      ItemsThenScalar(r, e, count - 1, front, mid, s, end);
      ItemsKeepCursor(r, e, count - 1);
      ScalarKeepsCursor(mid, e);
      ItemsCanonical(r, e, count - 1);
      ScalarCanonical(mid, e);
      ItemsWireSnoc(e, front, s);
      SlicesJoin(r.data, r.pos, mid.pos, end.pos);
    }
  }

  lemma NoItemsWire(e: Elem)
    ensures ItemsWire([]) == [] && Homogeneous(e, [])
  {
  }

  lemma ItemsWireSnoc(e: Elem, items: seq<Scalar>, s: Scalar)
    requires Homogeneous(e, items) && ElemOf(s) == e && Fits(s)
    ensures ItemsWire(items + [s]) == ItemsWire(items) + ScalarWire(s) && Homogeneous(e, items + [s])
  {
    assert (items + [s])[..|items|] == items;
  }

  lemma BlobCanonical(r: Reader, b: Blob)
    requires r.Valid() && r.GetBlob(b).1.status == Fine
    requires b == Bin16M ==> |r.GetBlob(b).0| <= LIMIT_16M
    ensures var (bytes, r') := r.GetBlob(b);
            && r.pos <= r'.pos <= |r.data|
            && Wire(FBlob(b, bytes)) == Some(r.data[r.pos..r'.pos])
  {
    var (l, mid) := r.Num(BlobWidth(b));
    Capacities();
    NumKeepsCursor(r, BlobWidth(b));
    NumCanonical(r, BlobWidth(b));
    SlicesJoin(r.data, r.pos, mid.pos, mid.pos + l);
  }

  lemma SequenceCanonical(r: Reader, p: Prefix, e: Elem, style: Style)
    requires r.Valid() && r.Sequence(p, e, style).1.status == Fine
    requires p == UpTo1 && style == Looped ==> |r.Sequence(p, e, style).0| <= 1
    ensures var (items, r') := r.Sequence(p, e, style);
            && r.pos <= r'.pos <= |r.data|
            && WrittenAs(FSeq(p, e, style, items), KSeq(p, e, style), r.data[r.pos..r'.pos])
  {
    hide Reader.Items, Reader.Num, ItemsWire;
    Capacities();
    var (count, mid) := r.Num(PrefixWidth(p));
    NumKeepsCursor(r, PrefixWidth(p));
    ItemsKeepCursor(mid, e, count);
    NumCanonical(r, PrefixWidth(p));
    ItemsCanonical(mid, e, count);
    SlicesJoin(r.data, r.pos, mid.pos, r.Sequence(p, e, style).1.pos);
  }

  /** A field that was read is well-formed, and the bytes consumed are its wire form. */
  lemma GetCanonical(r: Reader, k: Kind)
    requires r.Valid() && r.Get(k).1.status == Fine && (Bounded(k) || Wire(r.Get(k).0).Some?)
    ensures var (f, r') := r.Get(k);
            r.pos <= r'.pos <= |r.data| && WrittenAs(f, k, r.data[r.pos..r'.pos])
  {
    hide Reader.GetScalar, Reader.GetBlob, Reader.Sequence;
    match k
    case KScalar(e) => ScalarCanonical(r, e);
    case KBlob(b) => BlobCanonical(r, b);
    case KSeq(p, e, style) => SequenceCanonical(r, p, e, style);
  }

  /** The same for a list of fields. */
  lemma {:induction false} GetAllCanonical(r: Reader, ks: seq<Kind>)
    requires r.Valid() && r.GetAll(ks).1.status == Fine
    requires forall i :: 0 <= i < |ks| ==> Bounded(ks[i]) || Wire(r.GetAll(ks).0[i]).Some?
    ensures var (fs, r') := r.GetAll(ks);
            && KindsOf(fs) == ks && AllWellFormed(fs) && r.pos <= r'.pos <= |r.data|
            && PutAll(fs) == Builder(r.data[r.pos..r'.pos], false)
  {
    hide Reader.Get, Reader.GetAll, PutAll, WellFormed, KindOf, Wire, Bounded;
    if ks == [] {
      NoFields(r);
    } else {
      var front, k := ks[..|ks| - 1], ks[|ks| - 1];
      var (fs, mid) := r.GetAll(front);
      var (f, end) := mid.Get(k);
      FieldsThenField(r, front, fs, mid, k, f, end);
      assert front + [k] == ks;
      GetAllKeepsCursor(r, front);
      GetKeepsCursor(mid, k);
      GetAllCanonical(r, front);
      assert r.GetAll(ks).0 == fs + [f];
      GetCanonical(mid, k);
      FieldsSnoc(fs, f, front, k, r.data[r.pos..mid.pos], r.data[mid.pos..end.pos]);
      SlicesJoin(r.data, r.pos, mid.pos, end.pos);
    }
  }

  lemma NoFields(r: Reader)
    ensures r.GetAll([]) == ([], r) && PutAll([]) == EMPTY && KindsOf([]) == []
  {
  }

  /** What the builder has after one more field. */
  lemma FieldsSnoc(fs: seq<Field>, f: Field, ks: seq<Kind>, k: Kind, front: Bytes, w: Bytes)
    requires KindsOf(fs) == ks && AllWellFormed(fs) && PutAll(fs) == Builder(front, false) && WrittenAs(f, k, w)
    ensures KindsOf(fs + [f]) == ks + [k] && AllWellFormed(fs + [f])
    ensures PutAll(fs + [f]) == Builder(front + w, false)
  {
    hide WellFormed, KindOf, Wire;
    assert (fs + [f])[..|fs|] == fs;
  }

  // ----- what a short input does: error value or panic

  /** Whether cutting the field's wire form there makes its reader index an empty slice. */
  predicate PanicsWhenCut(f: Field, cut: nat)
  {
    match f
    case FScalar(s) => !s.Hash?
    case FBlob(b, _) => cut < BlobWidth(b)
    case FSeq(p, e, style, _) => style == Asserted || cut < PrefixWidth(p) || e != EHash
  }

  /**
    A truncated field never decodes; it panics inside a fixed-width integer and anywhere in a type-asserted
    sequence, and is an error inside the body of a byte string or a 256-bit value.
   */
  lemma TruncatedFieldOutcome(f: Field, cut: nat)
    requires WellFormed(f) && Wire(f).Some? && cut < |Wire(f).value|
    ensures NewReader(Wire(f).value[..cut], false).Get(KindOf(f)).1.status
         == if PanicsWhenCut(f, cut) then Panicked else Failed
  {
    TruncatedFieldFails(f, cut);
    match f
    case FScalar(s) => ScalarWireLength(s);
    case FBlob(_, _) =>
      if cut >= BlobWidth(f.blob) { CutInBlobBody(f, cut); }
    case FSeq(_, _, style, _) =>
      if style == Looped && cut >= PrefixWidth(f.prefix) { CutInLoop(f, cut); }
  }

  lemma CutInBlobBody(f: Field, cut: nat)
    requires f.FBlob? && Wire(f).Some? && BlobWidth(f.blob) <= cut < |Wire(f).value|
    ensures NewReader(Wire(f).value[..cut], false).Get(KindOf(f)).1.status == Failed
  {
    var r := NewReader(Wire(f).value[..cut], false);
    Capacities();
    assert Wire(f).value[..cut][..BlobWidth(f.blob)] == ToLE(BlobWidth(f.blob), |f.bytes|);
    NumRoundTrip(r, BlobWidth(f.blob), |f.bytes|);
  }

  lemma CutInLoop(f: Field, cut: nat)
    requires f.FSeq? && f.style == Looped && WellFormed(f)
    requires Wire(f).Some? && PrefixWidth(f.prefix) <= cut < |Wire(f).value|
    ensures NewReader(Wire(f).value[..cut], false).Get(KindOf(f)).1.status
            in {Fine, if f.e == EHash then Failed else Panicked}
  {
    var r := NewReader(Wire(f).value[..cut], false);
    Capacities();
    assert Wire(f).value[..cut][..PrefixWidth(f.prefix)] == ToLE(PrefixWidth(f.prefix), |f.items|);
    NumRoundTrip(r, PrefixWidth(f.prefix), |f.items|);
    if f.e == EBool {
      BooleanBytes(f.items);
    }
    LoopOutcome(r.Skip(PrefixWidth(f.prefix)), f.e, |f.items|);
  }

  lemma TruncatedFieldFails(f: Field, cut: nat)
    requires WellFormed(f) && Wire(f).Some? && cut < |Wire(f).value|
    ensures NewReader(Wire(f).value[..cut], false).Get(KindOf(f)).1.status != Fine
  {
    var w := Wire(f).value;
    var r := NewReader(w[..cut], false);
    assert r.Extend(w[cut..]).data == w;
    assert PutAll([]) == EMPTY && PutAll([f]).data == [] + w;
    GetKeepsCursor(r, KindOf(f));
    FieldRoundTrip(NewReader(w, false), f);
    if r.Get(KindOf(f)).1.status == Fine {
      GetStable(r, KindOf(f), w[cut..]);
    }
  }

  /** Encoded booleans are zeros and ones. */
  lemma {:induction false} BooleanBytes(items: seq<Scalar>)
    requires Homogeneous(EBool, items)
    ensures forall i :: 0 <= i < |ItemsWire(items)| ==> ItemsWire(items)[i] <= 1
  {
    if items != [] {
      BooleanBytes(items[..|items| - 1]);
    }
  }

  /** Integers, and booleans the builder wrote, can only panic; 256-bit values can only record an error. */
  lemma ScalarOutcome(r: Reader, e: Elem)
    requires r.Valid() && !r.absent && r.status == Fine
    requires e == EBool && r.pos < |r.data| ==> r.data[r.pos] <= 1
    ensures r.GetScalar(e).1.status in {Fine, if e == EHash then Failed else Panicked}
  {
    if e == EBool && r.pos < |r.data| {
      assert r.data[r.pos..r.pos + 1] == [r.data[r.pos]];
      assert FromLE([r.data[r.pos]]) == r.data[r.pos] + 0x100 * FromLE([]);
    }
  }

  /** So a loop over such a list leaves in one of these ways too. */
  lemma {:induction false} LoopOutcome(r: Reader, e: Elem, count: nat)
    requires r.Valid() && !r.absent && r.status == Fine
    requires e == EBool ==> forall i :: r.pos <= i < |r.data| ==> r.data[i] <= 1
    ensures r.Items(e, count).1.status in {Fine, if e == EHash then Failed else Panicked}
  {
    hide Reader.GetScalar;
    if count > 0 {
      LoopOutcome(r, e, count - 1);
      ItemsKeepCursor(r, e, count - 1);
      var mid := r.Items(e, count - 1).1;
      if mid.status == Fine {
        ScalarOutcome(mid, e);
      } else {
        ScalarKeepsCursor(mid, e);
      }
    }
  }

  /** What a field reads as once there is an error: zero, false, empty. */
  function ZeroField(k: Kind): Field
  {
    match k
    case KScalar(EBool) => FScalar(Bool(false))
    case KScalar(EInt(width)) => FScalar(Int(width, 0))
    case KScalar(EHash) => FScalar(Hash(Zeros32()))
    case KBlob(b) => FBlob(b, [])
    case KSeq(p, e, style) => FSeq(p, e, style, [])
  }

  /** After an error every read gives zero and leaves the error, but a type-asserted sequence panics. */
  lemma AfterError(r: Reader, k: Kind)
    requires r.status == Failed
    ensures r.Get(k) == (ZeroField(k), r.(status := if k.KSeq? && k.style == Asserted then Panicked else Failed))
  {
    if k.KSeq? {
      NoItems(r, k.e);
    }
  }

  /** A nil slice is never read with a panic, except for a type-asserted sequence. */
  lemma NilSliceOutcome(k: Kind)
    ensures NewReader([], true).Get(k)
         == (ZeroField(k), Reader([], true, 0, if k.KSeq? && k.style == Asserted then Panicked else Failed))
  {
    if k.KSeq? {
      NoItems(NewReader([], true).(status := Failed), k.e);
    }
  }

  /**
    Bytes that are there but mean nothing: a boolean above one and a Bin32 length above 32 are errors, and so is
    an option with more than one element, which the type assertion turns into a panic.
   */
  lemma MalformedOutcome(r: Reader, e: Elem)
    requires r.Valid() && r.status == Fine && r.pos < |r.data|
    ensures var bad := r.(pos := r.pos + 1, status := Failed);
            && (r.data[r.pos] > 1 ==> r.Get(KScalar(EBool)) == (FScalar(Bool(false)), bad))
            && (r.data[r.pos] > 32 ==> r.Get(KBlob(Bin32)) == (FBlob(Bin32, []), bad))
            && (r.data[r.pos] > 1 ==> r.ReadSeq(UpTo1, e) == (None, bad))
            && (r.data[r.pos] > 1 ==>
                  r.Get(KSeq(UpTo1, e, Asserted)) == (FSeq(UpTo1, e, Asserted, []), bad.(status := Panicked)))
  {
    assert r.data[r.pos..r.pos + 1] == [r.data[r.pos]];
    assert FromLE([r.data[r.pos]]) == r.data[r.pos] + 0x100 * FromLE([]);
  }

  /** The hand-written count-and-loop agrees with the reader's sequence on every input, long enough or not. */
  lemma LoopAgreesWithReader(r: Reader, e: Elem)
    requires r.Valid() && r.status == Fine
    ensures var (read, r1) := r.ReadSeq(UpTo64K, e);
            var (looped, r2) := r.Sequence(UpTo64K, e, Looped);
            r1 == r2 && read == if r2.status == Fine then Some(looped) else None
  {
    var (count, r1) := r.Num(2);
    if r1.status == Panicked {
      assert count == 0;
    }
  }

  /** Documented range 0 to 2^24-1; the builder stops at 25 bytes, so 26 are already refused. */
  lemma Bin16MAcceptsExactly(bytes: Bytes)
    ensures Wire(FBlob(Bin16M, bytes)).Some? <==> |bytes| <= 25
    ensures |bytes| == 26 ==> |bytes| <= MAX_U24 && PutAll([FBlob(Bin16M, bytes)]).failed
  {
    assert PutAll([]) == EMPTY;
    assert PutAll([FBlob(Bin16M, bytes)]) == EMPTY.Put(FBlob(Bin16M, bytes)) by {
      assert [FBlob(Bin16M, bytes)][..0] == [];
    }
  }
}
