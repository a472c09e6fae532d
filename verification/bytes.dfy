/** Byte strings as the NAND engine sees them: little-endian multi-byte
    fields, address cycles, and the slow-clock decimation of adapter reads. */
module Bytes {

  newtype byte = x: int | 0 <= x < 0x100

  /** 256 to the power n: one more than the largest value n bytes carry. */
  function Pow256(n: nat): (r: nat)
    ensures r >= 1
  {
    if n == 0 then 1 else 256 * Pow256(n - 1)
  }

  /** The number a byte string denotes, least significant byte first. */
  function FromLittleEndian(bs: seq<byte>): (r: nat)
    ensures r < Pow256(|bs|)
  {
    if |bs| == 0 then 0
    else
      var rest := FromLittleEndian(bs[1..]);
      assert Pow256(|bs|) == 256 * Pow256(|bs| - 1);
      bs[0] as nat + 256 * rest
  }

  /** `addr >> (8 * i)`: the address after i right shifts by eight bits. */
  function ShiftRight8(addr: nat, i: nat): nat
  {
    if i == 0 then addr else ShiftRight8(addr / 256, i - 1)
  }

  /** The address cycles `__send_address(addr, count)` latches: `count` bytes,
      each the low byte of `addr` shifted right by eight bits per cycle. */
  function AddressCycles(addr: nat, count: nat): (r: seq<byte>)
    ensures |r| == count
    ensures forall i :: 0 <= i < count ==> r[i] as nat == ShiftRight8(addr, i) % 256
  {
    if count == 0 then [] else [(addr % 256) as byte] + AddressCycles(addr / 256, count - 1)
  }

  /** Decoding the cycles little-endian recovers every address the cycles can hold. */
  lemma {:induction false} AddressCyclesRoundTrip(addr: nat, count: nat)
    requires addr < Pow256(count)
    ensures FromLittleEndian(AddressCycles(addr, count)) == addr
  {
    if count > 0 {
      var cs := AddressCycles(addr, count);
      assert cs[1..] == AddressCycles(addr / 256, count - 1);
      assert Pow256(count) == 256 * Pow256(count - 1);
      assert addr / 256 < Pow256(count - 1);
      AddressCyclesRoundTrip(addr / 256, count - 1);
      assert FromLittleEndian(cs) == cs[0] as nat + 256 * (addr / 256);
    }
  }

  /** Encoding a decoded byte string gives the same bytes back. */
  lemma {:induction false} LittleEndianRoundTrip(bs: seq<byte>)
    ensures AddressCycles(FromLittleEndian(bs), |bs|) == bs
  {
    if |bs| > 0 {
      var v := FromLittleEndian(bs);
      var rest := FromLittleEndian(bs[1..]);
      assert v % 256 == bs[0] as nat && v / 256 == rest;
      LittleEndianRoundTrip(bs[1..]);
    }
  }

  /** An address shifted left by eight bits gains one leading zero cycle. */
  lemma ShiftedAddressCycles(addr: nat, count: nat)
    ensures AddressCycles(addr * 256, count + 1) == [0] + AddressCycles(addr, count)
  {
    assert (addr * 256) % 256 == 0;
    assert (addr * 256) / 256 == addr;
  }

  /** Four bytes little-endian, written out the way the parameter-page parser sums them. */
  lemma LittleEndian4(s: seq<byte>)
    requires |s| == 4
    ensures FromLittleEndian(s) == s[0] as nat + 256 * s[1] as nat + 65536 * s[2] as nat + 16777216 * s[3] as nat
  {
    assert s[1..][1..] == s[2..];
    assert s[2..][1..] == s[3..];
    assert s[3..][1..] == [];
    assert FromLittleEndian(s[3..]) == s[3] as nat;
    assert FromLittleEndian(s[2..]) == s[2] as nat + 256 * s[3] as nat;
    assert FromLittleEndian(s[1..]) == s[1] as nat + 256 * s[2] as nat + 65536 * s[3] as nat;
  }

  /** Two bytes little-endian. */
  lemma LittleEndian2(s: seq<byte>)
    requires |s| == 2
    ensures FromLittleEndian(s) == s[0] as nat + 256 * s[1] as nat
  {
    assert s[1..][1..] == [];
  }

  /** The bytes kept from a slow-clock read: the adapter returns two bytes per
      requested byte and the slice `data[0:-1:2]` keeps the even positions. */
  function KeepEven(raw: seq<byte>): (r: seq<byte>)
    ensures |r| == |raw| / 2
    ensures forall i :: 0 <= i < |r| ==> r[i] == raw[2 * i]
  {
    if |raw| < 2 then [] else [raw[0]] + KeepEven(raw[2..])
  }

  // Two facts about products the solver does not find on its own.

  lemma MulMono(i: nat, n: nat, w: nat)
    requires i < n
    ensures i * w + w <= n * w
  {
    assert (i + 1) * w == i * w + w;
    var k := n - (i + 1);
    assert n * w == (i + 1) * w + k * w;
  }

  /** Quotient and remainder are the only such pair. */
  lemma DivUnique(n: nat, d: nat, q: nat, r: nat)
    requires r < d && n == q * d + r
    ensures n / d == q && n % d == r
  {
    var q', r' := n / d, n % d;
    assert n == q' * d + r';
    if q' < q {
      MulMono(q', q, d);
    } else if q < q' {
      MulMono(q, q', d);
    }
  }

  /** Bitwise and of two non-negative integers, bit by bit from the lowest. */
  function BitAnd(a: nat, b: nat): (r: nat)
    ensures r <= a && r <= b
  {
    if a == 0 || b == 0 then 0 else (a % 2) * (b % 2) + 2 * BitAnd(a / 2, b / 2)
  }

  /** A mask tested against itself finds every one of its bits. */
  lemma {:induction false} BitAndSelf(a: nat)
    ensures BitAnd(a, a) == a
  {
    if a > 0 {
      BitAndSelf(a / 2);
      assert (a % 2) * (a % 2) == a % 2 by {
        if a % 2 == 0 { } else { assert a % 2 == 1; }
      }
    }
  }

  /** The number eight bits spell. */
  function Value(x: bv8): (n: nat)
    ensures n < 0x100
  {
    x as int
  }

  /** Shifting eight bits right by one halves their value. */
  lemma ShiftHalves(x: bv8)
    ensures Value(x >> 1) == Value(x) / 2
  {
  }

  /** The lowest bit is the parity, and only all-zero bits spell zero. */
  lemma LowBit(x: bv8)
    ensures Value(x & 1) == Value(x) % 2
    ensures Value(x) == 0 <==> x == 0
  {
  }

  /** `&` works bit by bit: the lowest bit apart from the rest. */
  lemma AndBits(x: bv8, y: bv8)
    ensures (x & y) >> 1 == (x >> 1) & (y >> 1)
    ensures (x & y) & 1 == (x & 1) & (y & 1)
    ensures Value((x & 1) & (y & 1)) == Value(x & 1) * Value(y & 1)
  {
  }

  /** The value of `x & y` split as `BitAnd` splits it. */
  lemma BitsStep(x: bv8, y: bv8)
    requires x != 0 && y != 0
    ensures Value(x) != 0 && Value(y) != 0
    ensures Value(x >> 1) == Value(x) / 2 && Value(y >> 1) == Value(y) / 2
    ensures Value(x & y) == (Value(x) % 2) * (Value(y) % 2) + 2 * Value((x >> 1) & (y >> 1))
  {
    ShiftHalves(x);
    ShiftHalves(y);
    ShiftHalves(x & y);
    LowBit(x);
    LowBit(y);
    LowBit(x & y);
    AndBits(x, y);
  }

  /** One recursion step of `BitAnd`, on plain naturals. */
  lemma BitAndStep(a: nat, b: nat, h: nat, r: nat)
    requires a != 0 && b != 0 && BitAnd(a / 2, b / 2) == h && r == (a % 2) * (b % 2) + 2 * h
    ensures BitAnd(a, b) == r
  {
  }

  /** With a zero operand both sides are zero. */
  lemma BitAndZero(x: bv8, y: bv8)
    requires x == 0 || y == 0
    ensures BitAnd(Value(x), Value(y)) == Value(x & y)
  {
    assert x & y == 0;
  }

  /** On eight bits, `BitAnd` is the machine's bitwise `&`. */
  lemma {:induction false} BitAndBits(x: bv8, y: bv8)
    ensures BitAnd(Value(x), Value(y)) == Value(x & y)
    decreases Value(x)
  {
    if x == 0 || y == 0 {
      BitAndZero(x, y);
    } else {
      BitsStep(x, y);
      BitAndBits(x >> 1, y >> 1);
      BitAndStep(Value(x), Value(y), Value((x >> 1) & (y >> 1)), Value(x & y));
    }
  }

  /** A byte read as eight bits keeps its value. */
  lemma ByteBits(x: byte)
    ensures Value(x as bv8) == x as int
  {
  }

  /** Two bytes share a set bit exactly when their eight-bit `&` is not zero. */
  lemma BitAndBytes(a: byte, b: byte)
    ensures BitAnd(a as nat, b as nat) != 0 <==> (a as bv8) & (b as bv8) != 0
  {
    var x, y := a as bv8, b as bv8;
    ByteBits(a);
    ByteBits(b);
    BitAndBits(x, y);
    LowBit(x & y);
  }

}
