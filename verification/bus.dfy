/** The engine's view of the bus: every `__send_cmd`, `__send_address`,
    `__write_data` and `__read_data` call appends one transaction to a trace,
    and the device is a function from the trace so far to the bytes it answers. */
module Bus {
  import opened Bytes
  import opened FlashDefs
  import opened Frames

  /** The NAND commands the engine latches. */
  datatype NandCmd =
    | Read0 | Read1 | ReadOob | ReadStart | ReadId | ReadParameterPage
    | Erase1 | Erase2 | SeqIn | PageProg | SetFeatures | GetFeatures | ReadStatus

  /** The only opcode the engine spells out itself (`__get_status`). */
  const StatusOpcode: byte := 0x70

  function Opcode(d: Defs, c: NandCmd): byte
  {
    match c
    case Read0 => d.cmdRead0
    case Read1 => d.cmdRead1
    case ReadOob => d.cmdReadOob
    case ReadStart => d.cmdReadStart
    case ReadId => d.cmdReadId
    case ReadParameterPage => d.cmdOnfi
    case Erase1 => d.cmdErase1
    case Erase2 => d.cmdErase2
    case SeqIn => d.cmdSeqIn
    case PageProg => d.cmdPageProg
    case SetFeatures => d.cmdSetFeatures
    case GetFeatures => d.cmdGetFeatures
    case ReadStatus => StatusOpcode
  }

  /** One bus transaction. Writes record the write-protect flag in force when
      they were issued, because it decides the WP line of their type byte. */
  datatype Txn =
    | Cmd(cmd: NandCmd, protect: bool)
    | Addr(cycles: seq<byte>, protect: bool)
    | DataOut(bytes: seq<byte>, protect: bool)
    | DataIn(count: nat)
    | WaitReady
  {
    predicate IsWrite()
    {
      Cmd? || Addr? || DataOut?
    }

    /** `flashdevice.py` indexes the first payload byte of every write. */
    predicate WellFormed()
    {
      (Addr? ==> |cycles| > 0) && (DataOut? ==> |bytes| > 0)
    }
  }

  /** The adapter opcode list a transaction puts on the wire. Waiting for
      ready polls a separate status channel and adds nothing to the list. */
  function Frame(d: Defs, t: Txn): seq<Word>
    requires t.WellFormed()
  {
    match t
    case Cmd(c, p) => WriteFrame(d, true, false, p, [Opcode(d, c)])
    case Addr(cs, p) => WriteFrame(d, false, true, p, cs)
    case DataOut(bs, p) => WriteFrame(d, false, false, p, bs)
    case DataIn(n) => ReadFrame(d, false, false, n)
    case WaitReady => []
  }

  /** The chip behind the adapter: given the trace ending in a read request,
      the i-th raw byte the adapter hands back. */
  type Device = (seq<Txn>, nat) -> byte

  /** The engine's bus-side state: the opaque constants, the slow-clock mode,
      the write-protect flag, and the transactions issued so far. */
  datatype Bus = Bus(defs: Defs, slow: bool, writeProtect: bool, trace: seq<Txn>)
  {
    /** Same constants and mode as `b`, and a trace that extends `b`'s; the
        write-protect flag may have been changed. */
    predicate Follows(b: Bus)
    {
      && defs == b.defs && slow == b.slow
      && |b.trace| <= |trace| && trace[..|b.trace|] == b.trace
    }

    /** Follows `b` and leaves the write-protect flag as it was. */
    predicate Extends(b: Bus)
    {
      Follows(b) && writeProtect == b.writeProtect
    }

    /** The transactions issued since `b`. */
    function Since(b: Bus): seq<Txn>
      requires |b.trace| <= |trace|
    {
      trace[|b.trace|..]
    }
  }

  /** Extension is transitive, and what happened since `a` is what happened up
      to `b` followed by what happened since. */
  lemma ExtendsTrans(a: Bus, b: Bus, c: Bus)
    requires b.Extends(a) && c.Extends(b)
    ensures c.Extends(a)
    ensures c.Since(a) == b.Since(a) + c.Since(b)
  {
    assert c.trace[..|a.trace|] == c.trace[..|b.trace|][..|a.trace|];
    assert c.trace == b.trace + c.Since(b);
  }

  /** A bus that extends `b` is `b` with the transactions since `b` appended. */
  lemma ExtendsAppends(b: Bus, c: Bus)
    requires c.Extends(b)
    ensures c == b.(trace := b.trace + c.Since(b))
  {
    assert c.trace == b.trace + c.Since(b);
  }

  /** Transitivity for buses whose write-protect flag may have changed on the way. */
  lemma FollowsTrans(a: Bus, b: Bus, c: Bus)
    requires b.Follows(a) && c.Follows(b)
    ensures c.Follows(a)
    ensures c.Since(a) == b.Since(a) + c.Since(b)
  {
    assert c.trace[..|a.trace|] == c.trace[..|b.trace|][..|a.trace|];
    assert c.trace == b.trace + c.Since(b);
  }

  /** Set the write-protect flag; the bus itself sees nothing until the next write. */
  function Protect(b: Bus, on: bool): (r: Bus)
    ensures r.Follows(b) && r.Since(b) == [] && r.writeProtect == on
  {
    b.(writeProtect := on)
  }

  /** The bus after an operation, together with what the operation returns. */
  datatype Io<T> = Io(bus: Bus, val: T)

  /** Every write among `txns` was issued with the write-protect flag `protect`. */
  predicate WritesWith(txns: seq<Txn>, protect: bool)
  {
    forall i :: 0 <= i < |txns| && txns[i].IsWrite() ==> txns[i].protect == protect
  }

  function Emit(b: Bus, txns: seq<Txn>): Bus
  {
    b.(trace := b.trace + txns)
  }

  /** `__send_cmd`: latch one command byte, under the write-protect flag in force. */
  function SendCmd(b: Bus, c: NandCmd): (r: Bus)
    ensures r.Extends(b) && r.Since(b) == [Cmd(c, b.writeProtect)]
  {
    Emit(b, [Cmd(c, b.writeProtect)])
  }

  /** `__send_address(addr, count)`: latch `count` little-endian address cycles. */
  function SendAddress(b: Bus, addr: nat, count: nat): (r: Bus)
    requires count > 0
    ensures r.Extends(b) && |r.Since(b)| == 1 && r.Since(b)[0].Addr?
    ensures |r.Since(b)[0].cycles| == count && r.Since(b)[0].protect == b.writeProtect
    ensures addr < Pow256(count) ==> FromLittleEndian(r.Since(b)[0].cycles) == addr
  {
    var r := Emit(b, [Addr(AddressCycles(addr, count), b.writeProtect)]);
    assert r.Since(b) == [Addr(AddressCycles(addr, count), b.writeProtect)];
    assert addr < Pow256(count) ==> FromLittleEndian(AddressCycles(addr, count)) == addr by {
      if addr < Pow256(count) {
        AddressCyclesRoundTrip(addr, count);
      }
    }
    r
  }

  /** `__write_data`, `__write_data_bin` and `__write(0, 0, …)`: clock out data bytes. */
  function WriteData(b: Bus, data: seq<byte>): Bus
  {
    Emit(b, [DataOut(data, b.writeProtect)])
  }

  /** `__wait_ready`: block until the ready line is up. */
  function Wait(b: Bus): Bus
  {
    Emit(b, [WaitReady])
  }

  /** Byte i the engine keeps from the chip's answer to the read request that
      ends trace `t`: raw byte i, or raw byte 2i in slow mode. */
  function Answer(dev: Device, t: seq<Txn>, slow: bool, i: nat): byte
  {
    dev(t, if slow then 2 * i else i)
  }

  /** `s` issued `n` times in a row. */
  function Repeat(s: seq<Txn>, n: nat): seq<Txn>
  {
    if n == 0 then [] else s + Repeat(s, n - 1)
  }

  /** The first of `n` repetitions peeled off after a prefix `t`. */
  lemma RepeatPeel(t: seq<Txn>, s: seq<Txn>, n: nat)
    requires n > 0
    ensures t + Repeat(s, n) == (t + s) + Repeat(s, n - 1)
  {
  }

  /** One repetition after a prefix `t` is just `s`. */
  lemma RepeatOnce(t: seq<Txn>, s: seq<Txn>)
    ensures t + Repeat(s, 1) == t + s
  {
    assert Repeat(s, 1) == s + [];
  }

  /** `__read_data(count)`: ask for `count` bytes. In slow mode the adapter
      returns two bytes per requested byte and every other one is kept. */
  function ReadData(b: Bus, dev: Device, count: nat): (r: Io<seq<byte>>)
    ensures r.bus.Extends(b) && r.bus.Since(b) == [DataIn(count)]
    ensures |r.val| == count
    ensures forall i :: 0 <= i < count ==> r.val[i] == Answer(dev, r.bus.trace, b.slow, i)
  {
    var h := b.trace + [DataIn(count)];
    var raw := seq(if b.slow then 2 * count else count, i requires 0 <= i => dev(h, i));
    Io(b.(trace := h), if b.slow then KeepEven(raw) else raw)
  }

  /** `__get_status`: latch the status command 0x70 and read back one byte. */
  function GetStatus(b: Bus, dev: Device): (r: Io<byte>)
    ensures r.bus.Extends(b) && r.bus.Since(b) == [Cmd(ReadStatus, b.writeProtect), DataIn(1)]
    ensures r.val == dev(r.bus.trace, 0)
  {
    var rd := ReadData(SendCmd(b, ReadStatus), dev, 1);
    assert rd.bus.trace == b.trace + [Cmd(ReadStatus, b.writeProtect)] + [DataIn(1)];
    Io(rd.bus, rd.val[0])
  }

  /** The FAIL bit of a status byte, as `err & NAND_STATUS_FAIL` tests it on integers. */
  predicate StatusFailed(d: Defs, status: byte)
  {
    BitAnd(status as nat, d.statusFail as nat) != 0
  }

  /** The FAIL test is the bitwise `&` of the status byte with the FAIL mask. */
  lemma StatusFailedBits(d: Defs, status: byte)
    ensures StatusFailed(d, status) <==> (status as bv8) & (d.statusFail as bv8) != 0
  {
    BitAndBytes(status, d.statusFail);
  }

  /** A latched command goes out as one write cycle with CL raised and AL not,
      carrying the command's opcode; the status command carries 0x70. */
  lemma CommandFrame(d: Defs, c: NandCmd, protect: bool)
    requires d.LinesDistinct()
    ensures var f := Frame(d, Cmd(c, protect));
            && f == [WriteExtended, Lit(AsByte(WriteType(d, true, false, protect))), Lit(0), Lit(Opcode(d, c))]
            && (WriteType(d, true, false, protect) & d.adrCL == d.adrCL)
            && (WriteType(d, true, false, protect) & d.adrAL != d.adrAL)
            && (c == ReadStatus ==> f[3] == Lit(0x70))
  {
    WriteTypeLines(d, true, false, protect);
  }

  /** Every write transaction goes out with the WP line raised exactly when it
      was issued with write protection off. */
  lemma WriteFrameWriteEnable(d: Defs, t: Txn)
    requires d.LinesDistinct() && t.WellFormed() && t.IsWrite()
    ensures |Frame(d, t)| > 1 && Frame(d, t)[1] == Lit(AsByte(WriteType(d, t.Cmd?, t.Addr?, t.protect)))
    ensures (WriteType(d, t.Cmd?, t.Addr?, t.protect) & d.adrWP == d.adrWP) <==> !t.protect
  {
    WriteTypeWP(d, t.Cmd?, t.Addr?, t.protect);
    match t
    case Cmd(c, p) =>
    case Addr(cs, p) =>
    case DataOut(bs, p) =>
  }

  /** Every write of a trace issued with protection off reaches the wire with
      the WP line raised. */
  lemma WritesRaiseWp(d: Defs, txns: seq<Txn>)
    requires d.LinesDistinct() && WritesWith(txns, false)
    requires forall i :: 0 <= i < |txns| ==> txns[i].WellFormed()
    ensures forall i :: 0 <= i < |txns| && txns[i].IsWrite() ==>
              && |Frame(d, txns[i])| > 1
              && Frame(d, txns[i])[1] == Lit(AsByte(WriteType(d, txns[i].Cmd?, txns[i].Addr?, false)))
              && WriteType(d, txns[i].Cmd?, txns[i].Addr?, false) & d.adrWP == d.adrWP
  {
    forall i | 0 <= i < |txns| && txns[i].IsWrite()
      ensures && |Frame(d, txns[i])| > 1
              && Frame(d, txns[i])[1] == Lit(AsByte(WriteType(d, txns[i].Cmd?, txns[i].Addr?, false)))
              && WriteType(d, txns[i].Cmd?, txns[i].Addr?, false) & d.adrWP == d.adrWP
    {
      WriteFrameWriteEnable(d, txns[i]);
    }
  }

  /** A read request never raises the WP line. */
  lemma ReadFrameWriteEnable(d: Defs, count: nat)
    requires d.LinesDistinct()
    ensures Frame(d, DataIn(count))[1] == Lit(AsByte(ReadType(d, false, false)))
    ensures ReadType(d, false, false) & d.adrWP != d.adrWP
  {
    ReadTypeLines(d, false, false);
  }

  /** The address cycles and data bytes a transaction writes reach the wire unchanged. */
  lemma FramePayload(d: Defs, t: Txn)
    requires t.WellFormed() && (t.Addr? || t.DataOut?)
    ensures WrittenBytes(Frame(d, t)) == if t.Addr? then t.cycles else t.bytes
  {
    if t.Addr? {
      WriteFramePayload(d, false, true, t.protect, t.cycles);
    } else {
      WriteFramePayload(d, false, false, t.protect, t.bytes);
    }
  }
}
