/**
  The mutable builder and reader, proved against the field semantics of module Codec.

  Both keep a ghost log of the fields handled so far; their invariants say that the bytes built, or the values
  read and the cursor, are exactly what the log prescribes.
 */
module Binary {
  import opened Bytes
  import opened Codec

  /** The builder after more fields. */
  function PutAfter(base: Builder, fs: seq<Field>): Builder
  {
    if fs == [] then base else PutAfter(base, fs[..|fs| - 1]).Put(fs[|fs| - 1])
  }

  lemma PutAfterSnoc(base: Builder, fs: seq<Field>, f: Field)
    ensures PutAfter(base, fs + [f]) == PutAfter(base, fs).Put(f)
  {
    assert (fs + [f])[..|fs|] == fs;
  }

  /** Continuing from the bytes of a finished list is building the longer list. */
  lemma {:induction false} PutAfterPutAll(front: seq<Field>, fs: seq<Field>)
    ensures PutAfter(PutAll(front), fs) == PutAll(front + fs)
  {
    if fs == [] {
      assert front + fs == front;
    } else {
      PutAfterPutAll(front, fs[..|fs| - 1]);
      assert (front + fs)[..|front + fs| - 1] == front + fs[..|fs| - 1];
    }
  }

  /** A scalar its Go type can hold: 24-bit numbers live in 32 bits. */
  predicate Storable(s: Scalar)
  {
    s.Int? ==> s.v < Capacity(if s.width == 3 then 4 else s.width)
  }

  predicate AllStorable(e: Elem, items: seq<Scalar>)
  {
    forall i :: 0 <= i < |items| ==> ElemOf(items[i]) == e && Storable(items[i])
  }

  class BinaryBuilder {
    var data: Bytes
    var err: bool
    ghost var base: Builder
    ghost var log: seq<Field>

    ghost function Model(): Builder
      reads this
    {
      Builder(data, err)
    }

    ghost predicate Valid()
      reads this
    {
      Model() == PutAfter(base, log)
    }

    constructor ()
      ensures Valid() && base == EMPTY && log == []
    {
      data, err, base, log := [], false, EMPTY, [];
    }

    ghost method Record(f: Field, before: Builder, past: seq<Field>)
      requires before == PutAfter(base, past) && Model() == before.Put(f)
      modifies this`log
      ensures Valid() && log == past + [f]
    {
      PutAfterSnoc(base, past, f);
      log := past + [f];
    }

    /** Appends raw bytes, which become part of the base the log continues from. */
    method AddBytes(bin: Bytes)
      modifies this
      ensures Model() == if old(err) then old(Model()) else old(Model()).(data := old(data) + bin)
      ensures Valid() && base == Model() && log == []
    {
      if !err && |bin| != 0 {
        data := data + bin;
      }
      base, log := Builder(data, err), [];
    }

    method AddBool(flag: bool)
      requires Valid()
      modifies this
      ensures Valid() && base == old(base) && log == old(log) + [FScalar(Bool(flag))]
    {
      ghost var before := Model();
      if !err {
        data := data + if flag then [1] else [0];
      }
      Record(FScalar(Bool(flag)), before, log);
    }

    method AddU8(u: u8)
      requires Valid()
      modifies this
      ensures Valid() && base == old(base) && log == old(log) + [FScalar(Int(1, u))]
    {
      ghost var before := Model();
      if !err {
        assert ToLE(1, u) == [u] + ToLE(0, 0);
        data := data + [u];
      }
      Record(FScalar(Int(1, u)), before, log);
    }

    method AddU16(u: u16)
      requires Valid()
      modifies this
      ensures Valid() && base == old(base) && log == old(log) + [FScalar(Int(2, u))]
    {
      ghost var before := Model();
      if !err {
        data := data + ToLE(2, u);
      }
      Record(FScalar(Int(2, u)), before, log);
    }

    /** Drops the top byte of the 32-bit encoding, whatever it holds. */
    method AddU24(u: u32)
      requires Valid()
      modifies this
      ensures Valid() && base == old(base) && log == old(log) + [FScalar(Int(3, u))]
    {
      ghost var before := Model();
      if !err {
        var enc := ToLE(4, u);
        LowThreeBytes(u);
        data := data + enc[..3];
      }
      Record(FScalar(Int(3, u)), before, log);
    }

    method AddU32(u: u32)
      requires Valid()
      modifies this
      ensures Valid() && base == old(base) && log == old(log) + [FScalar(Int(4, u))]
    {
      ghost var before := Model();
      if !err {
        data := data + ToLE(4, u);
      }
      Record(FScalar(Int(4, u)), before, log);
    }

    method AddU64(u: u64)
      requires Valid()
      modifies this
      ensures Valid() && base == old(base) && log == old(log) + [FScalar(Int(8, u))]
    {
      ghost var before := Model();
      if !err {
        data := data + ToLE(8, u);
      }
      Record(FScalar(Int(8, u)), before, log);
    }

    method AddU256(u: Bytes32)
      requires Valid()
      modifies this
      ensures Valid() && base == old(base) && log == old(log) + [FScalar(Hash(u))]
    {
      ghost var before := Model();
      if !err {
        data := data + u;
      }
      Record(FScalar(Hash(u)), before, log);
    }

    /** A count in that many bytes, then the body. */
    method AddPrefixed(width: nat, body: Bytes, count: nat)
      requires Valid() && !err && width in {1, 2, 3} && count < Capacity(width)
      modifies this
      ensures !err && data == old(data) + (ToLE(width, count) + body)
    {
      ghost var past := log;
      Capacities();
      if width == 1 { AddU8(count); }
      else if width == 2 { AddU16(count); }
      else { AddU24(count); }
      PutAfterSnoc(base, past, FScalar(Int(width, count)));
      AddBytes(body);
      assert old(data) + (ToLE(width, count) + body) == old(data) + ToLE(width, count) + body;
    }

    /** A length-prefixed byte string; one too long for its prefix is an error and adds nothing. */
    method AddBlob(b: Blob, s: Bytes)
      requires Valid()
      modifies this
      ensures Valid() && base == old(base) && log == old(log) + [FBlob(b, s)]
    {
      ghost var before, past, start := Model(), log, base;
      if err {
        Record(FBlob(b, s), before, past);
        return;
      }
      Capacities();
      if |s| > BlobLimit(b) {
        err := true;
      } else {
        AddPrefixed(BlobWidth(b), s, |s|);
      }
      base := start;
      Record(FBlob(b, s), before, past);
    }

    /** One scalar of a sequence, as the encode loop of its type adds it. */
    method AddScalar(s: Scalar)
      requires Valid() && Storable(s)
      modifies this
      ensures Valid() && base == old(base) && log == old(log) + [FScalar(s)]
    {
      Capacities();
      match s {
        case Bool(flag) => AddBool(flag);
        case Hash(bytes) => AddU256(bytes);
        case Int(width, v) =>
          if width == 1 { AddU8(v); }
          else if width == 2 { AddU16(v); }
          else if width == 3 { AddU24(v); }
          else if width == 4 { AddU32(v); }
          else { AddU64(v); }
      }
    }

    /** A length-prefixed sequence. */
    method AddSeq(p: Prefix, e: Elem, style: Style, items: seq<Scalar>)
      requires Valid() && AllStorable(e, items)
      modifies this
      ensures Valid() && base == old(base) && log == old(log) + [FSeq(p, e, style, items)]
    {
      ghost var f := FSeq(p, e, style, items);
      ghost var before, past, start := Model(), log, base;
      if err {
        Record(f, before, past);
        return;
      }
      Capacities();
      if |items| > PrefixLimit(p) {
        err := true;
      } else {
        var enc := EncodeSequence(e, items);
        AddPrefixed(PrefixWidth(p), enc, |items|);
      }
      base := start;
      Record(f, before, past);
    }

    /** The bytes built so far, and whether a field did not fit. */
    method Bytes() returns (built: Bytes, failed: bool)
      ensures built == data && failed == err
    {
      return data, err;
    }
  }

  /** The encode loop of the sequence types. */
  method EncodeSequence(e: Elem, items: seq<Scalar>) returns (enc: Bytes)
    requires AllStorable(e, items)
    ensures enc == ItemsWire(items)
  {
    var out := new BinaryBuilder();
    for i := 0 to |items|
      invariant fresh(out) && out.Valid() && out.base == EMPTY
      invariant out.Model() == Builder(ItemsWire(items[..i]), false)
    {
      ghost var past := out.log;
      out.AddScalar(items[i]);
      PutAfterSnoc(EMPTY, past, FScalar(items[i]));
      assert items[..i + 1][..i] == items[..i];
    }
    assert items[..|items|] == items;
    var built, failed := out.Bytes();
    enc := built;
  }

  class BinaryReader {
    const data: Bytes
    const absent: bool
    var pos: nat
    var status: Status
    ghost var log: seq<Field>

    ghost function Model(): Reader
      reads this
    {
      Reader(data, absent, pos, status)
    }

    /** The values read so far are what reading their kinds in order gives. */
    ghost predicate Valid()
      reads this
    {
      Model().Valid() && NewReader(data, absent).GetAll(KindsOf(log)) == (log, Model())
    }

    constructor (bin: Bytes, isNil: bool)
      requires isNil ==> bin == []
      ensures Valid() && data == bin && absent == isNil && log == []
    {
      data, absent, pos, status, log := bin, isNil, 0, Fine, [];
    }

    /** Records a field just read from the state before. */
    ghost method Record(f: Field, before: Reader)
      requires before.Valid() && before.data == data && before.absent == absent
      requires NewReader(data, absent).GetAll(KindsOf(log)) == (log, before)
      requires before.Get(KindOf(f)) == (f, Model())
      modifies this`log
      ensures Valid() && log == old(log) + [f]
    {
      GetKeepsCursor(before, KindOf(f));
      FieldsThenField(NewReader(data, absent), KindsOf(log), log, before, KindOf(f), f, Model());
      assert KindsOf(log + [f]) == KindsOf(log) + [KindOf(f)];
      log := log + [f];
    }

    /** The next l bytes; past the end, an error, and what is left: nothing, or nil if there is no data at all. */
    method Read(l: nat) returns (b: Option<Bytes>)
      modifies this`pos, this`status
      ensures (b, Model()) == old(Model()).Take(l)
    {
      if status != Fine {
        return None;
      }
      if pos + l > |data| {
        pos, status := |data|, Failed;
        return if absent then None else Some([]);
      }
      b := Some(data[pos..pos + l]);
      pos := pos + l;
    }

    /** The exported reading into a buffer of that size: how many bytes are filled, and whether there is an error. */
    method ReadInto(size: nat) returns (got: Bytes, failed: bool)
      modifies this`pos, this`status
      ensures var r := old(Model());
              if r.status != Fine || size == 0 then got == [] && failed && Model() == r
              else if r.pos + size > |data| then got == [] && failed && Model() == r.(pos := |data|, status := Failed)
              else got == data[r.pos..r.pos + size] && !failed && Model() == r.(pos := r.pos + size)
    {
      if status != Fine || size == 0 {
        return [], true;
      }
      var b := Read(size);
      return if b.Some? then b.value else [], status != Fine;
    }

    /** Filling a buffer by such calls, as io.ReadFull does: all of it, or none when the data ends before. */
    method ReadFull(size: nat) returns (read: Option<Bytes>)
      requires Model().Valid() && status == Fine
      modifies this`pos, this`status
      ensures var r := old(Model());
              if r.pos + size > |data| then read == None && Model() == r.(pos := |data|, status := Failed)
              else read == Some(data[r.pos..r.pos + size]) && Model() == r.(pos := r.pos + size)
    {
      var got: Bytes := [];
      while |got| < size
        invariant (got == [] && Model() == old(Model())) || (|got| == size && status == Fine)
        invariant |got| == size ==> pos == old(pos) + size <= |data| && got == data[old(pos)..pos]
      {
        var part, failed := ReadInto(size - |got|);
        if failed {
          return None;
        }
        got := got + part;
      }
      return Some(got);
    }

    /** A fixed-width number: the bytes are indexed without a length check. */
    method ReadNum(width: IntWidth) returns (u: nat)
      modifies this`pos, this`status
      ensures (u, Model()) == old(Model()).Num(width)
      ensures u < Capacity(width)
    {
      if status != Fine {
        return 0;
      }
      var b := Read(width);
      if b.None? {
        return 0;
      }
      if |b.value| < width {
        status := Panicked;
        return 0;
      }
      FromLEBound(b.value);
      u := FromLE(b.value);
    }

    method ReadU8() returns (u: u8)
      requires Valid()
      modifies this
      ensures Valid() && log == old(log) + [FScalar(Int(1, u))]
    {
      ghost var before := Model();
      Capacities();
      u := ReadNum(1);
      Record(FScalar(Int(1, u)), before);
    }

    method ReadU16() returns (u: u16)
      requires Valid()
      modifies this
      ensures Valid() && log == old(log) + [FScalar(Int(2, u))]
    {
      ghost var before := Model();
      Capacities();
      u := ReadNum(2);
      Record(FScalar(Int(2, u)), before);
    }

    /** Pads three bytes with a zero and reads them as a 32-bit number. */
    method ReadU24() returns (u: u32)
      requires Valid()
      modifies this
      ensures Valid() && log == old(log) + [FScalar(Int(3, u))]
    {
      ghost var before := Model();
      u := 0;
      var b := None;
      if status == Fine {
        b := Read(3);
      }
      if b.Some? {
        var padded := b.value + [0];
        if |padded| < 4 {
          status := Panicked;
        } else {
          PaddedThreeBytes(b.value);
          FromLEBound(padded);
          Capacities();
          u := FromLE(padded);
        }
      }
      Record(FScalar(Int(3, u)), before);
    }

    method ReadU32() returns (u: u32)
      requires Valid()
      modifies this
      ensures Valid() && log == old(log) + [FScalar(Int(4, u))]
    {
      ghost var before := Model();
      Capacities();
      u := ReadNum(4);
      Record(FScalar(Int(4, u)), before);
    }

    method ReadU64() returns (u: u64)
      requires Valid()
      modifies this
      ensures Valid() && log == old(log) + [FScalar(Int(8, u))]
    {
      ghost var before := Model();
      Capacities();
      u := ReadNum(8);
      Record(FScalar(Int(8, u)), before);
    }

    method GetBool() returns (flag: bool)
      modifies this`pos, this`status
      ensures (flag, Model()) == old(Model()).Boolean()
    {
      if status != Fine {
        return false;
      }
      Capacities();
      var u := ReadNum(1);
      if status != Fine || u == 0 {
        return false;
      }
      if u == 1 {
        return true;
      }
      status := Failed;
      return false;
    }

    method ReadBool() returns (flag: bool)
      requires Valid()
      modifies this
      ensures Valid() && log == old(log) + [FScalar(Bool(flag))]
    {
      ghost var before := Model();
      flag := GetBool();
      Record(FScalar(Bool(flag)), before);
    }

    /** A short read leaves the error of a 32-byte copy that did not fit. */
    method GetU256() returns (u: Bytes32)
      modifies this`pos, this`status
      ensures (u, Model()) == old(Model()).Hash32()
    {
      if status != Fine {
        return Zeros32();
      }
      var b := Read(32);
      if b.None? {
        return Zeros32();
      }
      if |b.value| != 32 {
        status := Failed;
        return Zeros32();
      }
      status := Fine;
      return b.value;
    }

    method ReadU256() returns (u: Bytes32)
      requires Valid()
      modifies this
      ensures Valid() && log == old(log) + [FScalar(Hash(u))]
    {
      ghost var before := Model();
      u := GetU256();
      Record(FScalar(Hash(u)), before);
    }

    /** A length-prefixed byte string; only Bin32 checks the length it read. */
    method ReadBlob(b: Blob) returns (s: Bytes)
      requires Valid()
      modifies this
      ensures Valid() && log == old(log) + [FBlob(b, s)]
    {
      ghost var before := Model();
      s := [];
      var l := ReadNum(BlobWidth(b));
      if status == Fine && b == Bin32 && l > 32 {
        status := Failed;
      } else {
        var body := Read(l);
        if body.Some? {
          s := body.value;
        }
      }
      Record(FBlob(b, s), before);
    }

    method GetScalar(e: Elem) returns (s: Scalar)
      modifies this`pos, this`status
      ensures (s, Model()) == old(Model()).GetScalar(e)
      ensures ElemOf(s) == e && Fits(s)
    {
      match e {
        case EBool => var flag := GetBool(); s := Bool(flag);
        case EInt(width) => var u := ReadNum(width); s := Int(width, u);
        case EHash => var u := GetU256(); s := Hash(u);
      }
    }

    /** The decode loop of the sequence types; it does not stop at an error. */
    method DecodeSequence(e: Elem, count: nat) returns (items: seq<Scalar>)
      modifies this`pos, this`status
      ensures (items, Model()) == old(Model()).Items(e, count)
      ensures Homogeneous(e, items)
    {
      items := [];
      ghost var start := Model();
      for i := 0 to count
        invariant start.Items(e, i) == (items, Model()) && Homogeneous(e, items)
      {
        ghost var mid := Model();
        var s := GetScalar(e);
        ItemsThenScalar(start, e, i, items, mid, s, Model());
        items := items + [s];
      }
    }

    /** The reader's own sequence reading: none is a nil result, with the error left in place. */
    method ReadSeq(p: Prefix, e: Elem) returns (items: Option<seq<Scalar>>)
      modifies this`pos, this`status
      ensures (items, Model()) == old(Model()).ReadSeq(p, e)
      ensures items.Some? ==> Homogeneous(e, items.value)
    {
      if status != Fine {
        return None;
      }
      var count := ReadNum(PrefixWidth(p));
      if status == Panicked {
        return None;
      }
      if p == UpTo1 && count > 1 {
        status := Failed;
        return None;
      }
      var read := DecodeSequence(e, count);
      if status != Fine {
        return None;
      }
      return Some(read);
    }

    /** A sequence asserted to its slice type, as the message decoders use it: a nil result panics. */
    method ReadAsserted(p: Prefix, e: Elem) returns (items: seq<Scalar>)
      requires Valid()
      modifies this
      ensures Valid()
      ensures log == old(log) + [FSeq(p, e, Asserted, items)] && Homogeneous(e, items)
    {
      ghost var before := Model();
      var read := ReadSeq(p, e);
      if read.None? {
        status := Panicked;
        items := [];
      } else {
        items := read.value;
      }
      Record(FSeq(p, e, Asserted, items), before);
    }
  }
}
