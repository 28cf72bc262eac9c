/**
  256-bit values as 32 big-endian bytes: addition and subtraction in place, and target comparison,
  proved against natural-number arithmetic modulo 2^256.
 */
module U256 {
  import opened Bytes

  /** The number a big-endian byte string denotes. */
  function Value(bs: Bytes): nat
  {
    if bs == [] then 0 else bs[0] * Capacity(|bs| - 1) + Value(bs[1..])
  }

  /** The big-endian byte string of a number. */
  function ToBE(width: nat, v: nat): (bs: Bytes)
    ensures |bs| == width
  {
    if width == 0 then []
    else [v / Capacity(width - 1) % 0x100] + ToBE(width - 1, v % Capacity(width - 1))
  }

  /** 2^256, where both operations wrap around. */
  function Modulus(): (m: nat)
    ensures m > 0
  {
    Capacity(32)
  }

  const TWO_TO_256: nat := 0x1_0000000000000000_0000000000000000_0000000000000000_0000000000000000

  /** Adding 8 to the width multiplies the capacity by 2^64. */
  lemma EightMore(width: nat)
    ensures Capacity(width + 8) == TWO_TO_64 * Capacity(width)
  {
    assert Capacity(width + 2) == 0x1_0000 * Capacity(width);
    assert Capacity(width + 4) == 0x1_0000 * Capacity(width + 2);
    assert Capacity(width + 6) == 0x1_0000 * Capacity(width + 4);
    assert Capacity(width + 8) == 0x1_0000 * Capacity(width + 6);
  }

  lemma ModulusIs()
    ensures Modulus() == TWO_TO_256
  {
    Capacities();
    EightMore(8);
    EightMore(16);
    EightMore(24);
  }

  lemma Scale(x: int, y: int, c: int)
    requires c >= 0
    ensures x <= y ==> x * c <= y * c
  {
  }

  lemma NextMultiple(x: int, c: int)
    ensures (x + 1) * c == x * c + c
  {
  }

  lemma {:induction false} ValueBound(bs: Bytes)
    ensures Value(bs) < Capacity(|bs|)
  {
    if bs != [] {
      ValueBound(bs[1..]);
      Scale(bs[0], 0xFF, Capacity(|bs| - 1));
    }
  }

  /** Bytes are determined by their value. */
  lemma {:induction false} ToFromBE(bs: Bytes)
    ensures ToBE(|bs|, Value(bs)) == bs
  {
    if bs != [] {
      ValueBound(bs[1..]);
      ToFromBE(bs[1..]);
      QuotientUnique(Value(bs), Capacity(|bs| - 1), bs[0], Value(bs[1..]));
      QuotientUnique(bs[0], 0x100, 0, bs[0]);
    }
  }

  /** Every number below the capacity is the value of its encoding. */
  lemma {:induction false} FromToBE(width: nat, v: nat)
    requires v < Capacity(width)
    ensures Value(ToBE(width, v)) == v
  {
    hide ToBE, Value, Capacity;
    if width == 0 {
      NoBytes(v);
    } else {
      var c := Capacity(width - 1);
      CapacityNext(width);
      TopDigit(v, c);
      var q, r := v / c, v % c;
      TopByte(width, v, q, r, c);
      FromToBE(width - 1, r);
      ValueCons(q, ToBE(width - 1, r));
    }
  }

  lemma NoBytes(v: nat)
    requires v < Capacity(0)
    ensures ToBE(0, v) == [] && Value([]) == v == 0
  {
  }

  lemma CapacityNext(width: nat)
    requires width > 0
    ensures Capacity(width) == 0x100 * Capacity(width - 1)
  {
  }

  lemma TopByte(width: nat, v: nat, q: byte, r: nat, c: nat)
    requires width > 0 && c == Capacity(width - 1) && r < c && v == q * c + r
    ensures ToBE(width, v) == [q] + ToBE(width - 1, r)
  {
    QuotientUnique(v, c, q, r);
    ByteItself(q, v, c);
  }

  lemma ByteItself(q: byte, v: nat, c: nat)
    requires c > 0 && v / c == q
    ensures v / c % 0x100 == q
  {
  }

  lemma TopDigit(v: nat, c: nat)
    requires c > 0 && v < 0x100 * c
    ensures v / c < 0x100 && 0 <= v % c < c && v == (v / c) * c + v % c
  {
    Scale(0x100, v / c, c);
  }

  lemma ValueCons(b: byte, bs: Bytes)
    ensures Value([b] + bs) == b * Capacity(|bs|) + Value(bs)
  {
    hide Capacity;
    var all := [b] + bs;
    assert all[0] == b && all[1..] == bs;
  }

  /** One more digit on top of a sum of equally long strings, with the carry it takes and gives. */
  lemma DigitStep(x: byte, xs: Bytes, y: byte, ys: Bytes, z: byte, zs: Bytes, carryIn: int, carryOut: int)
    requires |xs| == |ys| == |zs|
    requires Value(xs) + Value(ys) == Value(zs) + carryIn * Capacity(|xs|)
    requires x + y + carryIn == z + 0x100 * carryOut
    ensures Value([x] + xs) + Value([y] + ys) == Value([z] + zs) + carryOut * Capacity(|xs| + 1)
  {
    var c := Capacity(|xs|);
    ValueCons(x, xs);
    ValueCons(y, ys);
    ValueCons(z, zs);
    Distribute(x, y, z, carryIn, carryOut, c);
  }

  lemma Distribute(x: int, y: int, z: int, carryIn: int, carryOut: int, c: int)
    requires x + y + carryIn == z + 0x100 * carryOut
    ensures x * c + y * c + carryIn * c == z * c + carryOut * (0x100 * c)
  {
    assert (x + y + carryIn) * c == x * c + y * c + carryIn * c;
    assert (z + 0x100 * carryOut) * c == z * c + carryOut * (0x100 * c);
  }

  /** The last i bytes of x and y add up to those of z and a carry out of them. */
  ghost predicate SuffixSum(x: Bytes, y: Bytes, z: Bytes, i: nat, carry: int)
    requires |x| == |y| == |z| && i <= |x|
  {
    Value(x[|x| - i..]) + Value(y[|y| - i..]) == Value(z[|z| - i..]) + carry * Capacity(i)
  }

  lemma NoBytesSummed(x: Bytes, y: Bytes, z: Bytes)
    requires |x| == |y| == |z|
    ensures SuffixSum(x, y, z, 0, 0)
  {
  }

  /** One more byte from the right, where only the new digit of u may differ between before and after. */
  lemma SuffixStep(x: Bytes, y: Bytes, z: Bytes, x': Bytes, z': Bytes, i: nat, carryIn: int, carryOut: int)
    requires |x| == |y| == |z| == |x'| == |z'| && i < |x|
    requires SuffixSum(x, y, z, i, carryIn)
    requires x'[|x| - i..] == x[|x| - i..] && z'[|x| - i..] == z[|x| - i..]
    requires x'[|x| - i - 1] + y[|x| - i - 1] + carryIn == z'[|x| - i - 1] + 0x100 * carryOut
    ensures SuffixSum(x', y, z', i + 1, carryOut)
  {
    var at := |x| - i - 1;
    assert x'[at..] == [x'[at]] + x'[at + 1..];
    assert y[at..] == [y[at]] + y[at + 1..];
    assert z'[at..] == [z'[at]] + z'[at + 1..];
    DigitStep(x'[at], x'[at + 1..], y[at], y[at + 1..], z'[at], z'[at + 1..], carryIn, carryOut);
  }

  lemma WholeSum(x: Bytes, y: Bytes, z: Bytes, carry: int)
    requires |x| == |y| == |z| && SuffixSum(x, y, z, |x|, carry)
    ensures Value(x) + Value(y) == Value(z) + carry * Capacity(|x|)
  {
    assert x[|x| - |x|..] == x && y[|y| - |x|..] == y && z[|z| - |x|..] == z;
  }

  /** Bytes whose value is v modulo their capacity are the encoding of that remainder. */
  lemma EncodingOf(bs: Bytes, v: int, q: int, m: nat)
    requires m == Capacity(|bs|) && v == q * m + Value(bs)
    ensures bs == ToBE(|bs|, v % m)
  {
    ValueBound(bs);
    RemainderUnique(v, m, q, Value(bs));
    ToFromBE(bs);
  }

  lemma SummedByte(now: Bytes, y: Bytes, was: Bytes, i: nat, carry: u16, sum: u16)
    requires |now| == |y| == |was| == 32 && i < 32
    requires now[..32 - i] == was[..32 - i]
    requires SuffixSum(was, y, now, i, carry)
    requires sum == now[31 - i] + y[31 - i] + carry
    ensures var then' := now[31 - i := sum % 0x100];
            && then'[..31 - i] == was[..31 - i]
            && SuffixSum(was, y, then', i + 1, sum / 0x100)
  {
    var then' := now[31 - i := sum % 0x100];
    assert now[..32 - i][31 - i] == was[..32 - i][31 - i];
    assert then'[..31 - i] == now[..32 - i][..31 - i] == was[..32 - i][..31 - i];
    SuffixStep(was, y, now, was, then', i, carry, sum / 0x100);
  }

  /** Adds addend to u in place; a carry past 256 bits is discarded. */
  method Add(u: array<byte>, addend: Bytes32)
    requires u.Length == 32
    modifies u
    ensures Value(u[..]) == (old(Value(u[..])) + Value(addend)) % TWO_TO_256
    ensures u[..] == Sum(old(u[..]), addend)
  {
    hide SuffixSum, Value, Capacity, ToBE;
    ghost var was := u[..];
    var carry: u16 := 0;
    NoBytesSummed(was, addend, was);
    for i := 0 to 32
      invariant 0 <= carry <= 1
      invariant u[..32 - i] == was[..32 - i]
      invariant SuffixSum(was, addend, u[..], i, carry)
    {
      ghost var now: Bytes := u[..];
      var sum: u16 := u[31 - i] + addend[31 - i] + carry;
      SummedByte(now, addend, was, i, carry, sum);
      carry := sum / 0x100;
      u[31 - i] := sum % 0x100;
      assert u[..] == now[31 - i := sum % 0x100];
    }
    WholeSum(was, addend, u[..], carry);
    EncodingOf(u[..], Value(was) + Value(addend), carry, Modulus());
    ResultValues(was, addend);
  }

  /** Go's uint16 subtraction. */
  function Minus16(x: u16, y: u16): u16
  {
    (x - y) % 0x1_0000
  }

  /** One borrowing step: the low byte of the sample is the digit, anything above it is the next borrow. */
  lemma BorrowStep(x: byte, y: byte, borrowed: bool)
    ensures var first := Minus16(x, y);
            var sample := if borrowed then Minus16(first, 1) else first;
            sample % 0x100 + y + (if borrowed then 1 else 0) == x + (if sample > 255 then 0x100 else 0)
  {
    var d: int := x - y - (if borrowed then 1 else 0);
    var first := Minus16(x, y);
    assert first == if x >= y then x - y else x - y + 0x1_0000;
    var sample := if borrowed then Minus16(first, 1) else first;
    assert sample == if d >= 0 then d else d + 0x1_0000;
  }

  lemma SubtractedByte(now: Bytes, y: Bytes, was: Bytes, i: nat, borrowed: bool, sample: u16)
    requires |now| == |y| == |was| == 32 && i < 32
    requires now[..32 - i] == was[..32 - i]
    requires SuffixSum(now, y, was, i, if borrowed then 1 else 0)
    requires sample == (var first := Minus16(now[31 - i], y[31 - i]);
                        if borrowed then Minus16(first, 1) else first)
    ensures var then' := now[31 - i := sample % 0x100];
            && then'[..31 - i] == was[..31 - i]
            && SuffixSum(then', y, was, i + 1, if sample > 255 then 1 else 0)
  {
    var then' := now[31 - i := sample % 0x100];
    assert now[..32 - i][31 - i] == was[..32 - i][31 - i];
    assert then'[..31 - i] == now[..32 - i][..31 - i] == was[..32 - i][..31 - i];
    BorrowStep(was[31 - i], y[31 - i], borrowed);
    SuffixStep(now, y, was, then', was, i, if borrowed then 1 else 0, if sample > 255 then 1 else 0);
  }

  /** Subtracts subtrahend from u in place; the borrow lives in wrapping 16-bit arithmetic. */
  method Sub(u: array<byte>, subtrahend: Bytes32)
    requires u.Length == 32
    modifies u
    ensures Value(u[..]) == (old(Value(u[..])) - Value(subtrahend)) % TWO_TO_256
    ensures u[..] == Difference(old(u[..]), subtrahend)
  {
    hide SuffixSum, Value, Capacity, ToBE;
    ghost var was := u[..];
    var borrow: u16 := 0;
    NoBytesSummed(was, subtrahend, was);
    for i := 0 to 32
      invariant borrow == 0 || borrow == 0xFF
      invariant u[..32 - i] == was[..32 - i]
      invariant SuffixSum(u[..], subtrahend, was, i, if borrow > 0 then 1 else 0)
    {
      ghost var now, borrowed := u[..], borrow > 0;
      var sample := Minus16(u[31 - i], subtrahend[31 - i]);
      if borrow > 0 {
        sample := Minus16(sample, 1);
      }
      if sample > 255 {
        borrow := 0xFF;
      } else {
        borrow := 0;
      }
      u[31 - i] := sample % 0x100;
      assert u[..] == now[31 - i := sample % 0x100];
      SubtractedByte(now, subtrahend, was, i, borrowed, sample);
    }
    WholeSum(u[..], subtrahend, was, if borrow > 0 then 1 else 0);
    EncodingOf(u[..], Value(was) - Value(subtrahend), if borrow > 0 then -1 else 0, Modulus());
    ResultValues(was, subtrahend);
  }

  lemma RemainderUnique(v: int, m: nat, q: int, r: nat)
    requires m > 0 && r < m && v == q * m + r
    ensures v % m == r
  {
    var e := v / m - q;
    assert e * m == r - v % m by { assert (v / m) * m - q * m == e * m; }
    assert e > 0 ==> e * m >= m;
    assert e < 0 ==> e * m + m <= 0;
  }

  /** Addition and subtraction of the numbers, modulo 2^256. */
  function Sum(u: Bytes32, v: Bytes32): Bytes32
  {
    ToBE(32, (Value(u) + Value(v)) % Modulus())
  }

  function Difference(u: Bytes32, v: Bytes32): Bytes32
  {
    ToBE(32, (Value(u) - Value(v)) % Modulus())
  }

  lemma ResultValues(u: Bytes32, v: Bytes32)
    ensures Value(Sum(u, v)) == (Value(u) + Value(v)) % TWO_TO_256
    ensures Value(Difference(u, v)) == (Value(u) - Value(v)) % TWO_TO_256
  {
    hide ToBE, Value, Capacity;
    ModulusIs();
    FromToBE(32, (Value(u) + Value(v)) % Modulus());
    FromToBE(32, (Value(u) - Value(v)) % Modulus());
  }

  /** Subtracting what was added, or adding what was subtracted, restores the value, wrap-around or not. */
  lemma AddAndSubUndoEachOther(u: Bytes32, v: Bytes32)
    ensures Difference(Sum(u, v), v) == u
    ensures Sum(Difference(u, v), v) == u
  {
    hide ToBE, Value, Capacity;
    UndoSum(32, Modulus(), u, v);
    UndoDifference(32, Modulus(), u, v);
  }

  /** The same for any width, so that the modulus stays a symbol in the arithmetic. */
  lemma UndoSum(width: nat, m: nat, u: Bytes, v: Bytes)
    requires |u| == |v| == width && m == Capacity(width)
    ensures ToBE(width, (Value(ToBE(width, (Value(u) + Value(v)) % m)) - Value(v)) % m) == u
  {
    hide ToBE, Value, Capacity;
    ValueBound(u);
    FromToBE(width, (Value(u) + Value(v)) % m);
    ModUndo(Value(u), Value(v), m);
    ToFromBE(u);
  }

  lemma UndoDifference(width: nat, m: nat, u: Bytes, v: Bytes)
    requires |u| == |v| == width && m == Capacity(width)
    ensures ToBE(width, (Value(ToBE(width, (Value(u) - Value(v)) % m)) + Value(v)) % m) == u
  {
    hide ToBE, Value, Capacity;
    ValueBound(u);
    FromToBE(width, (Value(u) - Value(v)) % m);
    ModUndo(Value(u), Value(v), m);
    ToFromBE(u);
  }

  lemma ModUndo(a: nat, b: nat, m: nat)
    requires a < m
    ensures ((a + b) % m - b) % m == a && ((a - b) % m + b) % m == a
  {
    var q, p := (a + b) / m, (a - b) / m;
    assert a + b == q * m + (a + b) % m;
    assert a - b == p * m + (a - b) % m;
    RemainderUnique((a + b) % m - b, m, -q, a);
    RemainderUnique((a - b) % m + b, m, -p, a);
  }

  // ----- target comparison

  /** The branch that calls two different values equal: they share their first significant byte. */
  ghost predicate SharesLeadingByte(target: Bytes32, hash: Bytes32)
  {
    exists i :: 0 <= i < 32 && target[i] == hash[i] != 0 && forall j :: 0 <= j < i ==> target[j] == 0 && hash[j] == 0
  }

  /** The documented intent: 0, 1 or -1 as hash is equal to, below or above the target. */
  function NumericOrder(target: Bytes32, hash: Bytes32): int
  {
    if Value(hash) == Value(target) then 0 else if Value(hash) < Value(target) then 1 else -1
  }

  /** Compares a hash to a target; an absent hash counts as zero. */
  method Compare(target: Bytes32, hash: Option<Bytes32>) returns (order: int)
    ensures var h := if hash.Some? then hash.value else Zeros32();
            && (order == 0 <==> || h == target
                                || exists i :: 0 <= i < 32 && target[i] == h[i] != 0
                                     && forall j :: 0 <= j < i ==> target[j] == 0 && h[j] == 0)
            && (order == 1 <==> order != 0 && Value(h) < Value(target))
            && (order == -1 <==> order != 0 && Value(h) > Value(target))
    ensures order == CompareResult(target, if hash.Some? then hash.value else Zeros32())
  {
    var h: Bytes32 := if hash.Some? then hash.value else Zeros32();
    if target == h {
      return 0;
    }
    for i := 0 to 32
      invariant forall j :: 0 <= j < i ==> target[j] == 0 && h[j] == 0
    {
      if h[i] != 0 || target[i] != 0 {
        if h[i] < target[i] {
          OrderAtFirstDifference(h, target, i);
          NotShared(target, h, i);
          return 1;
        }
        if h[i] == target[i] {
          return 0;
        }
        OrderAtFirstDifference(target, h, i);
        NotShared(target, h, i);
        return -1;
      }
    }
    return -1;
  }

  /** A hash meets a target when the comparison does not put it above. */
  method IsMetBy(target: Bytes32, hash: Option<Bytes32>) returns (met: bool)
    ensures var h := if hash.Some? then hash.value else Zeros32();
            met <==> || Value(h) <= Value(target)
                     || exists i :: 0 <= i < 32 && target[i] == h[i] != 0
                          && forall j :: 0 <= j < i ==> target[j] == 0 && h[j] == 0
  {
    var order := Compare(target, hash);
    met := order >= 0;
  }

  /** Byte strings that agree up to i and differ there are ordered by the bytes at i. */
  lemma {:induction false} OrderAtFirstDifference(low: Bytes, high: Bytes, i: nat)
    requires |low| == |high| && i < |low| && low[..i] == high[..i] && low[i] < high[i]
    ensures Value(low) < Value(high)
  {
    if i == 0 {
      ValueBound(low[1..]);
      Scale(low[0] + 1, high[0], Capacity(|low| - 1));
      NextMultiple(low[0], Capacity(|low| - 1));
    } else {
      assert low[0] == low[..i][0] == high[..i][0] == high[0];
      assert low[1..][..i - 1] == low[..i][1..] == high[..i][1..] == high[1..][..i - 1];
      OrderAtFirstDifference(low[1..], high[1..], i - 1);
    }
  }

  /** Two values that differ at their first significant index share no such byte. */
  lemma NotShared(target: Bytes32, hash: Bytes32, i: nat)
    requires i < 32 && target[i] != hash[i]
    requires forall j :: 0 <= j < i ==> target[j] == 0 && hash[j] == 0
    ensures !SharesLeadingByte(target, hash)
  {
  }

  /** The result Compare returns, as a function of its arguments. */
  ghost function CompareResult(target: Bytes32, hash: Bytes32): int
  {
    if hash == target || SharesLeadingByte(target, hash) then 0 else NumericOrder(target, hash)
  }

  /** Compare meets its documentation exactly when it does not stop at an equal leading byte. */
  lemma CompareIsNumericExactly(target: Bytes32, hash: Bytes32)
    ensures CompareResult(target, hash) == NumericOrder(target, hash)
       <==> hash == target || !SharesLeadingByte(target, hash)
  {
    ToFromBE(target);
    ToFromBE(hash);
  }

  /** A concrete pair the documentation orders and Compare does not: 0x01..02 against 0x01..01. */
  lemma CompareMissesLowBytes()
    ensures var target: Bytes32 := [1] + seq(30, _ => 0) + [1];
            var hash: Bytes32 := [1] + seq(30, _ => 0) + [2];
            CompareResult(target, hash) == 0 && NumericOrder(target, hash) == -1
  {
    var target: Bytes32 := [1] + seq(30, _ => 0) + [1];
    var hash: Bytes32 := [1] + seq(30, _ => 0) + [2];
    assert target[0] == hash[0] == 1;
    OrderAtFirstDifference(target, hash, 31);
  }
}
