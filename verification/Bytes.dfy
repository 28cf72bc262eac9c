/**
  Bytes, the fixed integer widths of Go, and the little-endian encoding the whole wire format uses.
 */
module Bytes {

  type byte = b: int | 0 <= b < 0x100
  type Bytes = seq<byte>

  type u8 = x: int | 0 <= x < 0x100
  type u16 = x: int | 0 <= x < 0x1_0000
  type u32 = x: int | 0 <= x < 0x1_0000_0000
  type u64 = x: int | 0 <= x < 0x1_0000_0000_0000_0000

  const MAX_U24: nat := 0xFF_FFFF
  const TWO_TO_64: nat := 0x1_0000_0000_0000_0000

  /** A 256-bit value: 32 bytes, in the order they travel. */
  type Bytes32 = bs: Bytes | |bs| == 32 witness seq(32, _ => 0)

  /** Go's zero value of a 32-byte array. */
  function Zeros32(): (z: Bytes32)
    ensures forall i :: 0 <= i < 32 ==> z[i] == 0
  {
    seq(32, _ => 0)
  }

  datatype Option<+T> = None | Some(value: T)

  /** 256 to the power of width: the number of values that fit in that many bytes. */
  function Capacity(width: nat): (c: nat)
    ensures c > 0
  {
    if width == 0 then 1 else 0x100 * Capacity(width - 1)
  }

  /** The low width bytes of v, least significant first. */
  function ToLE(width: nat, v: nat): (bs: Bytes)
    ensures |bs| == width
  {
    if width == 0 then [] else [v % 0x100] + ToLE(width - 1, v / 0x100)
  }

  /** The number whose little-endian bytes are bs. */
  function FromLE(bs: Bytes): nat
  {
    if bs == [] then 0 else bs[0] + 0x100 * FromLE(bs[1..])
  }

  /** Two and three bytes as numbers, least significant first. */
  function LE16(b0: byte, b1: byte): u16
  {
    var low: int, high: int := b0, b1;
    low + 0x100 * high
  }

  function LE24(b0: byte, b1: byte, b2: byte): u32
  {
    var low: int, mid: int, high: int := b0, b1, b2;
    low + 0x100 * mid + 0x1_0000 * high
  }

  lemma Capacities()
    ensures Capacity(1) == 0x100
    ensures Capacity(2) == 0x1_0000
    ensures Capacity(3) == MAX_U24 + 1
    ensures Capacity(4) == 0x1_0000_0000
    ensures Capacity(8) == TWO_TO_64
  {
    assert Capacity(0) == 1;
    assert Capacity(5) == 0x100 * Capacity(4);
    assert Capacity(6) == 0x100 * Capacity(5);
    assert Capacity(7) == 0x100 * Capacity(6);
  }

  /** Decoding an encoded number keeps exactly what the width can hold. */
  lemma {:induction false} FromToLE(width: nat, v: nat)
    ensures FromLE(ToLE(width, v)) == v % Capacity(width)
  {
    if width > 0 {
      FromToLE(width - 1, v / 0x100);
      var c := Capacity(width - 1);
      assert ToLE(width, v)[1..] == ToLE(width - 1, v / 0x100);
      ModSplit(v, c);
    }
  }

  lemma ModSplit(v: nat, c: nat)
    requires c > 0
    ensures v % (0x100 * c) == v % 0x100 + 0x100 * ((v / 0x100) % c)
  {
    var q, r := (v / 0x100) / c, (v / 0x100) % c;
    assert v / 0x100 == q * c + r;
    assert v == 0x100 * (q * c + r) + v % 0x100;
    var low := v % 0x100 + 0x100 * r;
    assert v == q * (0x100 * c) + low by { assert 0x100 * (q * c) == q * (0x100 * c); }
    assert 0 <= low < 0x100 * c;
    QuotientUnique(v, 0x100 * c, q, low);
  }

  lemma QuotientUnique(v: nat, m: nat, q: nat, r: nat)
    requires m > 0 && r < m && v == q * m + r
    ensures v % m == r && v / m == q
  {
    var d := v / m - q;
    assert v == (v / m) * m + v % m;
    assert d * m == r - v % m by { assert (v / m) * m - q * m == d * m; }
    assert d > 0 ==> d * m >= m;
    assert d < 0 ==> d * m + m <= 0;
  }

  lemma QuotientTwice(v: nat, c: nat)
    requires c > 0
    ensures v / (0x100 * c) == v / 0x100 / c
  {
    var q, r := v / 0x100 / c, v / 0x100 % c;
    assert v / 0x100 == q * c + r;
    var low := v % 0x100 + 0x100 * r;
    assert v == q * (0x100 * c) + low by { assert 0x100 * (q * c) == q * (0x100 * c); }
    QuotientUnique(v, 0x100 * c, q, low);
  }

  /** Byte i of the encoding, counted from the least significant one. */
  lemma {:induction false} ByteOfNumber(width: nat, v: nat, i: nat)
    requires i < width
    ensures ToLE(width, v)[i] == v / Capacity(i) % 0x100
  {
    if i > 0 {
      ByteOfNumber(width - 1, v / 0x100, i - 1);
      QuotientTwice(v, Capacity(i - 1));
    }
  }

  /** A number that fits its width survives the trip. */
  lemma RoundTripLE(width: nat, v: nat)
    requires v < Capacity(width)
    ensures FromLE(ToLE(width, v)) == v
  {
    FromToLE(width, v);
    QuotientUnique(v, Capacity(width), 0, v);
  }

  /** Distinct numbers that fit a width have distinct encodings. */
  lemma InjectiveLE(width: nat, v: nat, w: nat)
    requires v < Capacity(width) && w < Capacity(width)
    requires ToLE(width, v) == ToLE(width, w)
    ensures v == w
  {
    RoundTripLE(width, v);
    RoundTripLE(width, w);
  }

  lemma {:induction false} FromLEBound(bs: Bytes)
    ensures FromLE(bs) < Capacity(|bs|)
  {
    if bs != [] { FromLEBound(bs[1..]); }
  }

  /** The other direction: re-encoding what was decoded gives the same bytes. */
  lemma {:induction false} ToFromLE(bs: Bytes)
    ensures ToLE(|bs|, FromLE(bs)) == bs
  {
    if bs != [] {
      ToFromLE(bs[1..]);
      QuotientUnique(FromLE(bs), 0x100, FromLE(bs[1..]), bs[0]);
    }
  }

  /** Dropping the top byte of a 32-bit encoding is the 24-bit encoding. */
  lemma LowThreeBytes(v: nat)
    ensures ToLE(4, v)[..3] == ToLE(3, v)
  {
    assert ToLE(4, v) == [v % 0x100] + ToLE(3, v / 0x100);
    assert ToLE(3, v / 0x100) == [v / 0x100 % 0x100] + ToLE(2, v / 0x100 / 0x100);
    assert ToLE(2, v / 0x100) == [v / 0x100 % 0x100] + ToLE(1, v / 0x100 / 0x100);
  }

  /** A three-byte number padded with a zero byte reads as the same number. */
  lemma PaddedThreeBytes(bs: Bytes)
    requires |bs| == 3
    ensures FromLE(bs + [0]) == FromLE(bs)
  {
    var padded := bs + [0];
    assert padded[1..] == bs[1..] + [0];
    assert padded[1..][1..] == bs[1..][1..] + [0];
    assert padded[1..][1..][1..] == bs[1..][1..][1..] + [0] == [0];
    assert FromLE([0]) == 0 + 0x100 * FromLE([]);
    assert FromLE(padded[1..][1..]) == FromLE(bs[1..][1..]);
    assert FromLE(padded[1..]) == FromLE(bs[1..]);
  }

  // ----- concatenation

  /** The pieces one after the other. */
  function Concat(pieces: seq<Bytes>): Bytes
  {
    if pieces == [] then [] else pieces[0] + Concat(pieces[1..])
  }

  lemma {:induction false} ConcatSnoc(pieces: seq<Bytes>, last: Bytes)
    ensures Concat(pieces + [last]) == Concat(pieces) + last
  {
    if pieces == [] {
      assert [last][1..] == [];
    } else {
      ConcatSnoc(pieces[1..], last);
      assert (pieces + [last])[1..] == pieces[1..] + [last];
    }
  }
}
