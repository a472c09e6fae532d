/** Four places where flashdevice.py does not do what it evidently means to.
    Each is modelled here as written, with an input that exposes it; the rest
    of the model uses the corrected behaviour, whose property is proved where
    that behaviour is defined. */
module Findings {
  import opened Bytes
  import opened FlashDefs
  import opened Bus
  import opened Onfi
  import opened Pages
  import opened Program

  /** The Python values the defective comparisons mix. */
  datatype PyValue = PyInt(i: int) | PyBytes(bs: seq<byte>) | PyList(items: seq<PyValue>)

  /** Python `==` on these values: equal kind and equal contents. An int never
      equals a bytes object, and a bytes object never equals a list. */
  function PyEq(a: PyValue, b: PyValue): (r: bool)
    ensures a.PyInt? && b.PyBytes? ==> !r
    ensures a.PyBytes? && b.PyList? ==> !r
    ensures a.PyInt? && b.PyInt? ==> (r <==> a.i == b.i)
  {
    a == b
  }

  // flashdevice.py:319, check_bad_blocks

  /** The marker test as written: the spare byte, an int, against `b'\xff'`,
      a bytes object. It reports a bad block whatever the byte is. */
  function MarkerTestAsWritten(spare: byte): (bad: bool)
    ensures bad
  {
    !PyEq(PyInt(spare as int), PyBytes([0xFF]))
  }

  /** The probe `check_bad_blocks` runs, with the marker test as written. It
      reads through the corrected `read_page`: on a small-page part the read as
      written already raises at line 379 (see `SmallPageReadRaises`), so the
      marker test is isolated here on a read that returns. */
  function ProbeAsWritten(g: Geometry, dev: Device): (probe: Probe)
    requires g.addrCycles > 0
    ensures Advances(probe)
    ensures forall bb: Bus, k: nat :: MarkerReadable(g, bb.defs) ==> probe(bb, k).val
  {
    (bb: Bus, k: nat) =>
      if MarkerReadable(g, bb.defs) then
        var first := ReadPage(g, bb, dev, k * g.pagePerBlock, false);
        Io(first.bus, MarkerTestAsWritten(first.val[g.pageSize]))
      else Io(bb, false)
  }

  /** `check_bad_blocks` with the marker test of line 319 as written and the
      small-page read of line 379 corrected. */
  function CheckBadBlocksAsWritten(g: Geometry, b: Bus, dev: Device): (r: Io<seq<nat>>)
    requires g.addrCycles > 0
    requires g.BlockCount() == 0 || MarkerReadable(g, b.defs)
    ensures r.bus.Extends(b)
  {
    Scan(ProbeAsWritten(g, dev), b, g.BlockCount())
  }

  /** With the marker test as written (and the read of line 379 corrected),
      every block of the chip is reported bad, whatever the chip answers. */
  lemma EveryBlockReportedBad(g: Geometry, b: Bus, dev: Device, blk: nat)
    requires g.addrCycles > 0
    requires g.BlockCount() == 0 || MarkerReadable(g, b.defs)
    ensures blk in CheckBadBlocksAsWritten(g, b, dev).val <==> blk < g.BlockCount()
  {
    var probe := ProbeAsWritten(g, dev);
    ScanExact(probe, b, g.BlockCount(), blk);
    if blk < g.BlockCount() {
      var s := Scan(probe, b, blk).bus;
      assert s.defs == b.defs;
    }
  }

  /** An erased chip exposes it: the code as written lists block 0 as bad, the
      corrected scan lists nothing. */
  lemma BlankChipReportedBad(g: Geometry, b: Bus, dev: Device)
    requires g.addrCycles > 0 && g.BlockCount() > 0 && MarkerReadable(g, b.defs)
    requires Blank(dev)
    ensures 0 in CheckBadBlocksAsWritten(g, b, dev).val
    ensures CheckBadBlocks(g, b, dev).val == []
  {
    EveryBlockReportedBad(g, b, dev, 0);
    CheckBadBlocksBlank(g, b, dev);
  }

  // flashdevice.py:218, __get_id

  /** The second signature check as written: four bytes of the page, a bytes
      object, against a list of ints. It is never true. */
  function PageSignatureAsWritten(page: seq<byte>): (onfi: bool)
    requires |page| >= 4
    ensures !onfi
  {
    PyEq(PyBytes(page[..4]), PyList([PyInt(0x4F), PyInt(0x4E), PyInt(0x46), PyInt(0x49)]))
  }

  /** `__get_id` as written: the page's own signature is computed, never true,
      and never consulted, so any parameter page is accepted. */
  function IdentifyAsWritten(b: Bus, dev: Device): (r: Identification)
    ensures var ids := ProbeId(b, dev);
            var sig := ProbeSignature(ids.bus, dev);
            r.Identified? <==> sig.val == OnfiSignature
  {
    var ids := ProbeId(b, dev);
    var sig := ProbeSignature(ids.bus, dev);
    if sig.val != OnfiSignature then NotOnfi(sig.bus)
    else
      var page := FetchParameterPage(sig.bus, dev);
      var _ := PageSignatureAsWritten(page.val);
      Identified(page.bus, ParseParameterPage(page.val, Manufacturer(ids.val[0])))
  }

  /** A chip that answers "ONFI" to READ-ID at 0x20 and 0xFF to everything else,
      a blank parameter page included. */
  function SignatureOnlyChip(): Device
  {
    (t: seq<Txn>, i: nat) =>
      if |t| >= 2 && t[|t| - 2].Addr? && t[|t| - 2].cycles == [0x20] && i < 4 then OnfiSignature[i] else 0xFF
  }

  /** That chip is identified, with a geometry read from a blank page, by the
      code as written, and rejected by the corrected identification. */
  lemma BlankParameterPageAccepted(b: Bus)
    requires !b.slow
    ensures IdentifyAsWritten(b, SignatureOnlyChip()).Identified?
    ensures Identify(b, SignatureOnlyChip()).NotOnfi?
  {
    var dev := SignatureOnlyChip();
    var ids := ProbeId(b, dev);
    SignatureOnlyChipSignature(ids.bus);
    SignatureOnlyChipBlankPage(ProbeSignature(ids.bus, dev).bus);
  }

  /** That chip answers "ONFI" to the signature probe. */
  lemma SignatureOnlyChipSignature(b: Bus)
    requires !b.slow
    ensures ProbeSignature(b, SignatureOnlyChip()).val == OnfiSignature
  {
    var dev := SignatureOnlyChip();
    var sig := ProbeSignature(b, dev);
    var t := b.trace + IdRequest(b.writeProtect, 0x20, 4);
    assert AddressCycles(0x20, 1) == [0x20];
    assert t[|t| - 2] == Addr([0x20], b.writeProtect);
    assert forall i :: 0 <= i < 4 ==> sig.val[i] == dev(t, i);
  }

  /** That chip's parameter page starts with 0xFF, not with "ONFI". */
  lemma SignatureOnlyChipBlankPage(b: Bus)
    requires !b.slow
    ensures FetchParameterPage(b, SignatureOnlyChip()).val[0] == 0xFF
  {
    var dev := SignatureOnlyChip();
    var u := b.trace + PageRequest(b.writeProtect);
    assert u[|u| - 2] == WaitReady;
    assert FetchParameterPage(b, dev).val[0] == dev(u, 0);
  }

  // flashdevice.py:379 and 385, read_page; flashdevice.py:540, write_page

  /** A Python number: an int, or a float such as `/` always produces. */
  datatype PyNum = Int(n: nat) | Float(x: real)

  /** Python 3's `a / b`: a float, even when b divides a. */
  function TrueDiv(a: nat, b: nat): (r: PyNum)
    requires b > 0
    ensures r.Float? && r.x * b as real == a as real
  {
    Float(a as real / b as real)
  }

  /** The outcome of Python code that may raise a TypeError. */
  datatype Raise<T> = Returned(val: T) | RaisedTypeError

  /** `__read_data(count)` as written: `range(1, count)` refuses a float count
      before anything reaches the bus. */
  function ReadDataAsWritten(b: Bus, dev: Device, count: PyNum): (r: Io<Raise<seq<byte>>>)
    ensures count.Float? ==> r.val.RaisedTypeError? && r.bus == b
    ensures count.Int? ==> r.val == Returned(ReadData(b, dev, count.n).val)
  {
    match count
    case Float(_) => Io(b, RaisedTypeError)
    case Int(n) =>
      var rd := ReadData(b, dev, n);
      Io(rd.bus, Returned(rd.val))
  }

  /** One small-page half as written: command, wait, row, wait, then a read of `PageSize / 2` bytes. */
  function ReadHalfAsWritten(g: Geometry, b: Bus, dev: Device, c: NandCmd, page: nat): (r: Io<Raise<seq<byte>>>)
    requires g.addrCycles > 0
  {
    var b1 := Wait(SendAddress(Wait(SendCmd(b, c)), SmallPageAddress(page), g.addrCycles));
    ReadDataAsWritten(b1, dev, TrueDiv(g.pageSize, 2))
  }

  /** `read_page` on a small-page part, as written. The first half's read
      raises, and the TypeError leaves `read_page` there: the second half and
      the spare area are never reached. */
  function ReadPageSmallAsWritten(g: Geometry, b: Bus, dev: Device, page: nat, removeOob: bool): (r: Io<Raise<seq<byte>>>)
    requires g.addrCycles > 0
    ensures r.val.RaisedTypeError? && r.bus.Extends(b)
    ensures forall t :: t in r.bus.Since(b) ==> !t.DataIn?
  {
    ReadHalfAsWritten(g, b, dev, Read0, page)
  }

  /** As written, every small-page read raises a TypeError after the first
      command and row are latched and before any data is read; the corrected
      read returns the whole page. */
  lemma SmallPageReadRaises(g: Geometry, b: Bus, dev: Device, page: nat, removeOob: bool)
    requires g.addrCycles > 0
    ensures var r := ReadPageSmallAsWritten(g, b, dev, page, removeOob);
            var row := Addr(AddressCycles(SmallPageAddress(page), g.addrCycles), b.writeProtect);
            && r.val.RaisedTypeError?
            && r.bus.Extends(b) && r.bus.Since(b) == [Cmd(Read0, b.writeProtect), WaitReady, row, WaitReady]
    ensures |ReadPageSmall(g, b, dev, page, removeOob).val| == 2 * (g.pageSize / 2) + (if removeOob then 0 else g.oobSize)
  {
    var b1 := Wait(SendAddress(Wait(SendCmd(b, Read0)), SmallPageAddress(page), g.addrCycles));
    assert b1.trace == b.trace + [Cmd(Read0, b.writeProtect), WaitReady,
                                  Addr(AddressCycles(SmallPageAddress(page), g.addrCycles), b.writeProtect), WaitReady];
  }

  /** Python's `data[lo:hi]` as written: float bounds raise a TypeError. */
  function SliceAsWritten(data: seq<byte>, lo: PyNum, hi: PyNum): (r: Raise<seq<byte>>)
    ensures lo.Float? || hi.Float? <==> r.RaisedTypeError?
    ensures lo.Int? && hi.Int? ==> r == Returned(Slice(data, lo.n, hi.n))
  {
    if lo.Float? || hi.Float? then RaisedTypeError else Returned(Slice(data, lo.n, hi.n))
  }

  /** The second piece of a small-page program as written, `data[PageSize/2:PageSize]`. */
  function SecondPieceAsWritten(g: Geometry, data: seq<byte>): (r: Raise<seq<byte>>)
    ensures r.RaisedTypeError?
  {
    SliceAsWritten(data, TrueDiv(g.pageSize, 2), Int(g.pageSize))
  }

  /** As written, the second piece can never be cut, whatever the page and data;
      the corrected piece is the second half of the data area. */
  lemma SecondPieceRaises(g: Geometry, data: seq<byte>)
    ensures SecondPieceAsWritten(g, data).RaisedTypeError?
    ensures ProgramChunks(g, data)[1] == Slice(data, g.pageSize / 2, g.pageSize)
  {
  }

  // flashdevice.py:520-560, the retry loops of write_page

  /** How far a loop that may never end got: it finished with a value, or it
      was still going when observation stopped. */
  datatype Run<T> = Finished(io: Io<T>) | StillRunning(bus: Bus)

  /** A retry loop of the small-page `write_page` as written: retry until a
      status without the FAIL bit, with no bound. `fuel` is how many attempts
      are observed. */
  function ProgramLoopAsWritten(g: Geometry, b: Bus, dev: Device, area: NandCmd, page: nat, chunk: seq<byte>, fuel: nat): (r: Run<byte>)
    requires g.addrCycles > 0 && |chunk| > 0
    ensures r.Finished? ==> r.io.bus.Extends(b) && !StatusFailed(b.defs, r.io.val)
    ensures r.StillRunning? ==> r.bus.Extends(b)
    decreases fuel
  {
    if fuel == 0 then StillRunning(b)
    else
      var a := ProgramAttempt(g, b, dev, area, page, chunk);
      if !StatusFailed(b.defs, a.val) then Finished(a)
      else
        var rest := ProgramLoopAsWritten(g, a.bus, dev, area, page, chunk, fuel - 1);
        assert rest.Finished? ==> rest.io.bus.Extends(b) by {
          if rest.Finished? {
            ExtendsTrans(b, a.bus, rest.io.bus);
          }
        }
        assert rest.StillRunning? ==> rest.bus.Extends(b) by {
          if rest.StillRunning? {
            ExtendsTrans(b, a.bus, rest.bus);
          }
        }
        rest
  }

  /** After a failed attempt the loop as written starts over from the bus that attempt left. */
  lemma AsWrittenRetries(g: Geometry, b: Bus, dev: Device, area: NandCmd, page: nat, chunk: seq<byte>, fuel: nat)
    requires g.addrCycles > 0 && |chunk| > 0 && fuel > 0
    requires StatusFailed(b.defs, ProgramAttempt(g, b, dev, area, page, chunk).val)
    ensures ProgramLoopAsWritten(g, b, dev, area, page, chunk, fuel)
         == ProgramLoopAsWritten(g, ProgramAttempt(g, b, dev, area, page, chunk).bus, dev, area, page, chunk, fuel - 1)
  {
  }

  /** One attempt appends its transactions and nothing else to the bus. */
  lemma AttemptAppends(g: Geometry, b: Bus, dev: Device, area: NandCmd, page: nat, chunk: seq<byte>)
    requires g.addrCycles > 0 && |chunk| > 0
    ensures var a := ProgramAttempt(g, b, dev, area, page, chunk);
            a.bus == b.(trace := b.trace + AttemptTxns(g, area, page, chunk, b.writeProtect))
  {
    ExtendsAppends(b, ProgramAttempt(g, b, dev, area, page, chunk).bus);
  }

  /** When the first attempt `s` passes, the loop as written stops after it. */
  lemma AsWrittenFirstPasses(g: Geometry, b: Bus, dev: Device, area: NandCmd, page: nat, chunk: seq<byte>, s: seq<Txn>, fuel: nat)
    requires g.addrCycles > 0 && |chunk| > 0 && fuel > 0
    requires s == AttemptTxns(g, area, page, chunk, b.writeProtect)
    requires !StatusFailed(b.defs, dev(b.trace + s, 0))
    ensures ProgramLoopAsWritten(g, b, dev, area, page, chunk, fuel) == Finished(Io(b.(trace := b.trace + s), dev(b.trace + s, 0)))
  {
    AttemptAppends(g, b, dev, area, page, chunk);
  }

  /** When the first attempt `s` fails, the loop as written starts over after it. */
  lemma AsWrittenFailsFirst(g: Geometry, b: Bus, dev: Device, area: NandCmd, page: nat, chunk: seq<byte>, s: seq<Txn>, next: Bus, fuel: nat)
    requires g.addrCycles > 0 && |chunk| > 0 && fuel > 0
    requires s == AttemptTxns(g, area, page, chunk, b.writeProtect)
    requires StatusFailed(b.defs, dev(b.trace + s, 0))
    requires next == b.(trace := b.trace + s)
    ensures ProgramLoopAsWritten(g, b, dev, area, page, chunk, fuel)
         == ProgramLoopAsWritten(g, next, dev, area, page, chunk, fuel - 1)
  {
    AttemptAppends(g, b, dev, area, page, chunk);
    AsWrittenRetries(g, b, dev, area, page, chunk, fuel);
  }

  /** A failed first attempt `s`, then a run from where it left off that
      finishes after `n - 1` further attempts: a run of `n` attempts. */
  lemma AsWrittenFailedThen(g: Geometry, b: Bus, dev: Device, area: NandCmd, page: nat, chunk: seq<byte>, s: seq<Txn>, next: Bus, n: nat, fuel: nat)
    requires g.addrCycles > 0 && |chunk| > 0 && fuel > 0 && n > 1
    requires s == AttemptTxns(g, area, page, chunk, b.writeProtect)
    requires next == b.(trace := b.trace + s) && StatusFailed(b.defs, dev(next.trace, 0))
    requires ProgramLoopAsWritten(g, next, dev, area, page, chunk, fuel - 1)
          == Finished(Io(next.(trace := next.trace + Repeat(s, n - 1)), dev(next.trace + Repeat(s, n - 1), 0)))
    ensures ProgramLoopAsWritten(g, b, dev, area, page, chunk, fuel)
         == Finished(Io(b.(trace := b.trace + Repeat(s, n)), dev(b.trace + Repeat(s, n), 0)))
  {
    AsWrittenFailsFirst(g, b, dev, area, page, chunk, s, next, fuel);
    RepeatPeel(b.trace, s, n);
    var t := b.trace + Repeat(s, n);
    assert next.trace + Repeat(s, n - 1) == t;
    assert next.(trace := t) == b.(trace := t);
  }

  /** Of `n > 1` attempts from `t` whose last passed, the first failed, and
      the rest are `n - 1` attempts from the end of the first whose last passed. */
  lemma FailedAfterFirst(d: Defs, dev: Device, t: seq<Txn>, s: seq<Txn>, n: nat)
    requires n > 1 && FailedBefore(d, dev, t, s, n)
    requires !StatusFailed(d, dev(t + Repeat(s, n), 0))
    ensures StatusFailed(d, dev(t + s, 0))
    ensures FailedBefore(d, dev, t + s, s, n - 1)
    ensures !StatusFailed(d, dev((t + s) + Repeat(s, n - 1), 0))
  {
    RepeatOnce(t, s);
    RepeatPeel(t, s, n);
    forall k | 1 <= k < n - 1
      ensures StatusFailed(d, dev(t + s + Repeat(s, k), 0))
    {
      RepeatPeel(t, s, k + 1);
    }
  }

  /** The loop as written, given enough fuel, finishes exactly at the first
      attempt whose status lacks the FAIL bit, after appending that many
      attempts `s` to the bus. */
  lemma {:induction false} AsWrittenFinishes(g: Geometry, b: Bus, dev: Device, area: NandCmd, page: nat, chunk: seq<byte>, s: seq<Txn>, n: nat, fuel: nat)
    requires g.addrCycles > 0 && |chunk| > 0 && 1 <= n <= fuel
    requires s == AttemptTxns(g, area, page, chunk, b.writeProtect)
    requires FailedBefore(b.defs, dev, b.trace, s, n)
    requires !StatusFailed(b.defs, dev(b.trace + Repeat(s, n), 0))
    ensures ProgramLoopAsWritten(g, b, dev, area, page, chunk, fuel)
         == Finished(Io(b.(trace := b.trace + Repeat(s, n)), dev(b.trace + Repeat(s, n), 0)))
    decreases n
  {
    if n == 1 {
      RepeatOnce(b.trace, s);
      AsWrittenFirstPasses(g, b, dev, area, page, chunk, s, fuel);
    } else {
      var next := b.(trace := b.trace + s);
      FailedAfterFirst(b.defs, dev, b.trace, s, n);
      AsWrittenFinishes(g, next, dev, area, page, chunk, s, n - 1, fuel - 1);
      AsWrittenFailedThen(g, b, dev, area, page, chunk, s, next, n, fuel);
    }
  }

  /** Whenever the bounded loop passes, the unbounded loop finishes the same
      way within the same number of attempts. */
  lemma BoundedLoopAgrees(g: Geometry, b: Bus, dev: Device, area: NandCmd, page: nat, chunk: seq<byte>, retries: nat)
    requires g.addrCycles > 0 && |chunk| > 0
    requires ProgramLoop(g, b, dev, area, page, chunk, retries).val.Passed?
    ensures var loop := ProgramLoop(g, b, dev, area, page, chunk, retries);
            ProgramLoopAsWritten(g, b, dev, area, page, chunk, retries + 1) == Finished(Io(loop.bus, loop.val.status))
  {
    var loop := ProgramLoop(g, b, dev, area, page, chunk, retries);
    ExtendsAppends(b, loop.bus);
    AsWrittenFinishes(g, b, dev, area, page, chunk, AttemptTxns(g, area, page, chunk, b.writeProtect), loop.val.attempts, retries + 1);
  }

  /** On a chip whose every status has the FAIL bit, the loop as written never ends. */
  lemma {:induction false} RetryNeverEnds(g: Geometry, b: Bus, dev: Device, area: NandCmd, page: nat, chunk: seq<byte>, fuel: nat)
    requires g.addrCycles > 0 && |chunk| > 0
    requires forall t :: StatusFailed(b.defs, dev(t, 0))
    ensures ProgramLoopAsWritten(g, b, dev, area, page, chunk, fuel).StillRunning?
    decreases fuel
  {
    if fuel > 0 {
      var a := ProgramAttempt(g, b, dev, area, page, chunk);
      RetryNeverEnds(g, a.bus, dev, area, page, chunk, fuel - 1);
    }
  }

  /** A chip whose status byte is always exactly the FAIL bit. */
  function FailingChip(d: Defs): Device
  {
    (t: seq<Txn>, i: nat) => d.statusFail
  }

  /** That chip keeps the loop as written spinning for any number of attempts,
      while the bounded loop gives up after its last allowed attempt. */
  lemma FailingChipSpins(g: Geometry, b: Bus, area: NandCmd, page: nat, chunk: seq<byte>, fuel: nat, retries: nat)
    requires g.addrCycles > 0 && |chunk| > 0 && b.defs.statusFail != 0
    ensures ProgramLoopAsWritten(g, b, FailingChip(b.defs), area, page, chunk, fuel).StillRunning?
    ensures var loop := ProgramLoop(g, b, FailingChip(b.defs), area, page, chunk, retries);
            loop.val.GaveUp? && loop.val.attempts == retries + 1
  {
    var dev := FailingChip(b.defs);
    BitAndSelf(b.defs.statusFail as nat);
    assert forall t :: StatusFailed(b.defs, dev(t, 0));
    RetryNeverEnds(g, b, dev, area, page, chunk, fuel);
    AlwaysFailingGivesUp(g, b, dev, area, page, chunk, retries);
  }

  /** On a chip whose every status has the FAIL bit, the bounded loop spends every attempt it is allowed. */
  lemma AlwaysFailingGivesUp(g: Geometry, b: Bus, dev: Device, area: NandCmd, page: nat, chunk: seq<byte>, retries: nat)
    requires g.addrCycles > 0 && |chunk| > 0
    requires forall t :: StatusFailed(b.defs, dev(t, 0))
    ensures var loop := ProgramLoop(g, b, dev, area, page, chunk, retries);
            loop.val.GaveUp? && loop.val.attempts == retries + 1
  {
    var loop := ProgramLoop(g, b, dev, area, page, chunk, retries);
    assert StatusFailed(b.defs, dev(loop.bus.trace, 0));
  }

  // flashdevice.py:510-540, the small-page write_page as written

  /** Where a small-page `write_page` as written stops: still inside its first
      retry loop when observation ended, or raising at the second piece with
      the first loop's passing status in `err`. */
  datatype SmallWriteStop = FirstLoopRunning(bus: Bus) | RaisedAtSecondPiece(bus: Bus, err: byte)

  /** What the second loop sends before it cuts its piece: READ1, SEQIN, a
      wait, the row, a wait, all with write protection off. */
  function SecondLoopHead(g: Geometry, page: nat): seq<Txn>
  {
    [Cmd(Read1, false), Cmd(SeqIn, false), WaitReady, Addr(AddressCycles(SmallPageAddress(page), g.addrCycles), false), WaitReady]
  }

  /** The second loop up to its slice, sent from `b` with write protection off. */
  function SecondLoopStart(g: Geometry, b: Bus, page: nat): (r: Bus)
    requires g.addrCycles > 0 && !b.writeProtect
    ensures r == b.(trace := b.trace + SecondLoopHead(g, page))
  {
    var r := Wait(SendAddress(Wait(SendCmd(SendCmd(b, Read1), SeqIn)), SmallPageAddress(page), g.addrCycles));
    assert r.trace == b.trace + SecondLoopHead(g, page);
    r
  }

  /** Lines 520-539 of a small-page `write_page` from `b0`, where write
      protection is already off: the first loop, as written, with `fuel`
      attempts observed, then the second loop up to its slice. */
  function FirstLoopThenHead(g: Geometry, b0: Bus, dev: Device, page: nat, chunk: seq<byte>, fuel: nat): (r: SmallWriteStop)
    requires g.addrCycles > 0 && |chunk| > 0 && !b0.writeProtect
    ensures r.bus.Extends(b0)
    ensures r.RaisedAtSecondPiece? ==>
              && !StatusFailed(b0.defs, r.err)
              && |r.bus.Since(b0)| >= 5
              && r.bus.Since(b0)[|r.bus.Since(b0)| - 5..] == SecondLoopHead(g, page)
  {
    match ProgramLoopAsWritten(g, b0, dev, Read0, page, chunk, fuel)
    case StillRunning(bus) =>
      FirstLoopRunning(bus)
    case Finished(io) =>
      var head := SecondLoopStart(g, io.bus, page);
      ExtendsTrans(b0, io.bus, head);
      RaisedAtSecondPiece(head, io.val)
  }

  /** The small-page branch of `write_page` as written, with `fuel` attempts of
      its first loop observed. It never gets past the slice of the second piece
      at line 540, so the statement that turns write protection back on is
      never reached. */
  function SmallWriteAsWritten(g: Geometry, b: Bus, dev: Device, page: nat, data: seq<byte>, fuel: nat): (r: SmallWriteStop)
    requires g.addrCycles > 0 && !g.LargePage(b.defs) && |ProgramChunks(g, data)[0]| > 0
    ensures r.bus.Follows(b) && !r.bus.writeProtect
    ensures r.RaisedAtSecondPiece? ==>
              && !StatusFailed(b.defs, r.err)
              && |r.bus.Since(b)| >= 5
              && r.bus.Since(b)[|r.bus.Since(b)| - 5..] == SecondLoopHead(g, page)
  {
    var b0 := Protect(b, false);
    var r := FirstLoopThenHead(g, b0, dev, page, ProgramChunks(g, data)[0], fuel);
    FollowsTrans(b, b0, r.bus);
    match SecondPieceAsWritten(g, data)
    case RaisedTypeError => r
  }

  /** When the first piece programs on the first attempt, the write as written
      raises with exactly that attempt and the second loop's head on the bus:
      the first piece is in the chip, the second loop has latched the row, and
      write protection is left off, where the corrected `WritePage` always
      turns it back on. */
  lemma SmallWriteStopsAtSecondPiece(g: Geometry, b: Bus, dev: Device, page: nat, data: seq<byte>, fuel: nat, retries: nat)
    requires g.addrCycles > 0 && !g.LargePage(b.defs) && Programmable(g, b.defs, data) && fuel > 0
    requires !StatusFailed(b.defs, dev(b.trace + AttemptTxns(g, Read0, page, ProgramChunks(g, data)[0], false), 0))
    ensures var first := b.trace + AttemptTxns(g, Read0, page, ProgramChunks(g, data)[0], false);
            SmallWriteAsWritten(g, b, dev, page, data, fuel)
              == RaisedAtSecondPiece(b.(writeProtect := false, trace := first + SecondLoopHead(g, page)), dev(first, 0))
    ensures WritePage(g, b, dev, page, data, retries).bus.writeProtect
  {
    var b0 := Protect(b, false);
    var chunk := ProgramChunks(g, data)[0];
    var s := AttemptTxns(g, Read0, page, chunk, false);
    AsWrittenFirstPasses(g, b0, dev, Read0, page, chunk, s, fuel);
  }
}
