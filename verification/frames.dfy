/** The opcode lists `__read`, `__write` and `__write_bin` hand to the bus
    adapter's MCU-host-bus emulation: an extended read or write carrying the
    type byte (which address lines to raise), then one short read or write per
    further byte. */
module Frames {
  import opened Bytes
  import opened FlashDefs

  /** One element of an adapter opcode list: a bus-emulation opcode or a literal byte. */
  datatype Word = ReadExtended | ReadShort | WriteExtended | WriteShort | SendImmediate | Lit(b: byte)

  function AsByte(v: bv8): byte
  {
    v as int as byte
  }

  /** `mask` when the line is raised, no bits otherwise. */
  function Pick(on: bool, mask: bv8): bv8
  {
    if on then mask else 0
  }

  /** Type byte of a read: CL and AL on request. A read never raises the write-enable line. */
  function ReadType(d: Defs, cl: bool, al: bool): bv8
  {
    Pick(cl, d.adrCL) | Pick(al, d.adrAL)
  }

  /** Type byte of a write: CL and AL on request, WP exactly when write protection is off. */
  function WriteType(d: Defs, cl: bool, al: bool, protect: bool): bv8
  {
    Pick(cl, d.adrCL) | Pick(al, d.adrAL) | Pick(!protect, d.adrWP)
  }

  // Each line of a three-line type byte can be read back when the masks are disjoint.
  // The three positions are separate lemmas to keep each bit-vector query small.

  lemma FirstLine(x: bv8, y: bv8, z: bv8, onX: bool, onY: bool, onZ: bool)
    requires x != 0 && x & y == 0 && x & z == 0
    ensures ((Pick(onX, x) | Pick(onY, y) | Pick(onZ, z)) & x == x) <==> onX
  {
  }

  lemma SecondLine(x: bv8, y: bv8, z: bv8, onX: bool, onY: bool, onZ: bool)
    requires y != 0 && x & y == 0 && y & z == 0
    ensures ((Pick(onX, x) | Pick(onY, y) | Pick(onZ, z)) & y == y) <==> onY
  {
  }

  lemma ThirdLine(x: bv8, y: bv8, z: bv8, onX: bool, onY: bool, onZ: bool)
    requires z != 0 && x & z == 0 && y & z == 0
    ensures ((Pick(onX, x) | Pick(onY, y) | Pick(onZ, z)) & z == z) <==> onZ
  {
  }

  lemma WriteTypeCL(d: Defs, cl: bool, al: bool, protect: bool)
    requires d.LinesDistinct()
    ensures (WriteType(d, cl, al, protect) & d.adrCL == d.adrCL) <==> cl
  {
    FirstLine(d.adrCL, d.adrAL, d.adrWP, cl, al, !protect);
  }

  lemma WriteTypeAL(d: Defs, cl: bool, al: bool, protect: bool)
    requires d.LinesDistinct()
    ensures (WriteType(d, cl, al, protect) & d.adrAL == d.adrAL) <==> al
  {
    SecondLine(d.adrCL, d.adrAL, d.adrWP, cl, al, !protect);
  }

  lemma WriteTypeWP(d: Defs, cl: bool, al: bool, protect: bool)
    requires d.LinesDistinct()
    ensures (WriteType(d, cl, al, protect) & d.adrWP == d.adrWP) <==> !protect
  {
    ThirdLine(d.adrCL, d.adrAL, d.adrWP, cl, al, !protect);
  }

  /** A write's type byte raises CL iff cl, AL iff al, and WP iff write protection is off. */
  lemma WriteTypeLines(d: Defs, cl: bool, al: bool, protect: bool)
    requires d.LinesDistinct()
    ensures (WriteType(d, cl, al, protect) & d.adrCL == d.adrCL) <==> cl
    ensures (WriteType(d, cl, al, protect) & d.adrAL == d.adrAL) <==> al
    ensures (WriteType(d, cl, al, protect) & d.adrWP == d.adrWP) <==> !protect
  {
    WriteTypeCL(d, cl, al, protect);
    WriteTypeAL(d, cl, al, protect);
    WriteTypeWP(d, cl, al, protect);
  }

  /** A read's type byte is a write's type byte with protection on: it never raises WP. */
  lemma ReadTypeLines(d: Defs, cl: bool, al: bool)
    requires d.LinesDistinct()
    ensures (ReadType(d, cl, al) & d.adrCL == d.adrCL) <==> cl
    ensures (ReadType(d, cl, al) & d.adrAL == d.adrAL) <==> al
    ensures ReadType(d, cl, al) & d.adrWP != d.adrWP
  {
    assert ReadType(d, cl, al) == WriteType(d, cl, al, true);
    WriteTypeLines(d, cl, al, true);
  }

  /** n short reads, each a READ_SHORT opcode and a zero address byte. */
  function ShortReads(n: nat): seq<Word>
  {
    seq(2 * n, i => if i % 2 == 0 then ReadShort else Lit(0))
  }

  /** `__read(cl, al, count)`: one extended read, count - 1 short reads, then send-immediate. */
  function ReadFrame(d: Defs, cl: bool, al: bool, count: nat): (r: seq<Word>)
    ensures |r| == 2 * (if count == 0 then 1 else count) + 2
    ensures r[..3] == [ReadExtended, Lit(AsByte(ReadType(d, cl, al))), Lit(0)]
    ensures forall k :: 1 <= k < count ==> r[2 * k + 1] == ReadShort && r[2 * k + 2] == Lit(0)
    ensures r[|r| - 1] == SendImmediate
  {
    var shorts := ShortReads(if count == 0 then 0 else count - 1);
    var r := [ReadExtended, Lit(AsByte(ReadType(d, cl, al))), Lit(0)] + shorts + [SendImmediate];
    assert forall k :: 1 <= k < count ==> r[2 * k + 1] == shorts[2 * k - 2] && r[2 * k + 2] == shorts[2 * k - 1];
    r
  }

  /** The number of read cycles an opcode list clocks. */
  function ReadCycles(ws: seq<Word>): nat
  {
    if |ws| == 0 then 0
    else (if ws[0] == ReadExtended || ws[0] == ReadShort then 1 else 0) + ReadCycles(ws[1..])
  }

  lemma {:induction false} ReadCyclesAppend(a: seq<Word>, b: seq<Word>)
    ensures ReadCycles(a + b) == ReadCycles(a) + ReadCycles(b)
  {
    if |a| == 0 {
      assert a + b == b;
    } else {
      assert (a + b)[1..] == a[1..] + b;
      ReadCyclesAppend(a[1..], b);
    }
  }

  lemma {:induction false} ShortReadsCycles(n: nat)
    ensures ReadCycles(ShortReads(n)) == n
  {
    if n > 0 {
      var r := ShortReads(n);
      assert r[1..][1..] == ShortReads(n - 1);
      assert r[0] == ReadShort && r[1] == Lit(0);
      ShortReadsCycles(n - 1);
    }
  }

  /** A read frame clocks one read cycle per requested byte (and one even for zero bytes). */
  lemma ReadFrameCycles(d: Defs, cl: bool, al: bool, count: nat)
    ensures ReadCycles(ReadFrame(d, cl, al, count)) == if count == 0 then 1 else count
  {
    var head: seq<Word> := [ReadExtended, Lit(AsByte(ReadType(d, cl, al))), Lit(0)];
    var n := if count == 0 then 0 else count - 1;
    ReadCyclesAppend(head, ShortReads(n));
    ReadCyclesAppend(head + ShortReads(n), [SendImmediate]);
    ShortReadsCycles(n);
    assert head[1..][1..][1..] == [];
    assert ReadCycles(head[1..][1..]) == 0;
    assert ReadCycles(head) == 1;
    var tail: seq<Word> := [SendImmediate];
    assert tail[1..] == [];
    assert ReadCycles(tail) == 0;
  }

  /** A short write per byte of p: a WRITE_SHORT opcode, a zero address byte, the data byte. */
  function ShortWrites(p: seq<byte>): seq<Word>
  {
    seq(3 * |p|, i requires 0 <= i < 3 * |p| => if i % 3 == 0 then WriteShort else if i % 3 == 1 then Lit(0) else Lit(p[i / 3]))
  }

  lemma ShortWritesAt(p: seq<byte>, k: nat)
    requires k < |p|
    ensures ShortWrites(p)[3 * k] == WriteShort
    ensures ShortWrites(p)[3 * k + 1] == Lit(0)
    ensures ShortWrites(p)[3 * k + 2] == Lit(p[k])
  {
    assert (3 * k) % 3 == 0 && (3 * k + 1) % 3 == 1 && (3 * k + 2) % 3 == 2 && (3 * k + 2) / 3 == k;
  }

  /** `__write(cl, al, data)` and `__write_bin`: one extended write carrying the
      first byte, then a short write per further byte. The first byte is read
      unconditionally, so an empty payload is outside what the code accepts. */
  function WriteFrame(d: Defs, cl: bool, al: bool, protect: bool, payload: seq<byte>): (r: seq<Word>)
    requires |payload| > 0
    ensures |r| == 3 * |payload| + 1
    ensures r[..4] == [WriteExtended, Lit(AsByte(WriteType(d, cl, al, protect))), Lit(0), Lit(payload[0])]
    ensures forall k :: 1 <= k < |payload| ==>
              r[3 * k + 1] == WriteShort && r[3 * k + 2] == Lit(0) && r[3 * k + 3] == Lit(payload[k])
  {
    var shorts := ShortWrites(payload[1..]);
    var r := [WriteExtended, Lit(AsByte(WriteType(d, cl, al, protect))), Lit(0), Lit(payload[0])] + shorts;
    assert forall k :: 1 <= k < |payload| ==>
      r[3 * k + 1] == WriteShort && r[3 * k + 2] == Lit(0) && r[3 * k + 3] == Lit(payload[k]) by {
      forall k | 1 <= k < |payload|
        ensures r[3 * k + 1] == WriteShort && r[3 * k + 2] == Lit(0) && r[3 * k + 3] == Lit(payload[k])
      {
        ShortWritesAt(payload[1..], k - 1);
      }
    }
    r
  }

  /** The data bytes an opcode list writes, recovered from its extended and short writes. */
  function WrittenBytes(ws: seq<Word>): seq<byte>
  {
    if |ws| >= 4 && ws[0] == WriteExtended && ws[3].Lit? then [ws[3].b] + WrittenBytes(ws[4..])
    else if |ws| >= 3 && ws[0] == WriteShort && ws[2].Lit? then [ws[2].b] + WrittenBytes(ws[3..])
    else if |ws| > 0 then WrittenBytes(ws[1..])
    else []
  }

  lemma {:induction false} ShortWritesRoundTrip(p: seq<byte>)
    ensures WrittenBytes(ShortWrites(p)) == p
  {
    if |p| > 0 {
      var r := ShortWrites(p);
      assert r[3..] == ShortWrites(p[1..]);
      assert r[0] == WriteShort && r[2] == Lit(p[0]);
      ShortWritesRoundTrip(p[1..]);
    }
  }

  /** The adapter writes exactly the payload, in order. */
  lemma WriteFramePayload(d: Defs, cl: bool, al: bool, protect: bool, payload: seq<byte>)
    requires |payload| > 0
    ensures WrittenBytes(WriteFrame(d, cl, al, protect, payload)) == payload
  {
    var r := WriteFrame(d, cl, al, protect, payload);
    assert r[4..] == ShortWrites(payload[1..]);
    ShortWritesRoundTrip(payload[1..]);
  }
}
