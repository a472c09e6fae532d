/** Erasing and programming: `erase_block_by_page`, `erase`, `erase_blocks`,
    `write_page` in both addressing modes, and `write_page_in_a_block`. Every
    one of them drops write protection for its own writes and raises it again
    before returning. */
module Program {
  import opened Bytes
  import opened FlashDefs
  import opened Frames
  import opened Bus
  import opened Onfi
  import opened Pages

  /** Erase takes three row cycles, whatever the part's address-cycle count. */
  const EraseAddressCycles: nat := 3

  /** The transactions of one block erase addressed by page `page`. */
  function EraseTxns(page: nat): seq<Txn>
  {
    [Cmd(Erase1, false), Addr(AddressCycles(page, EraseAddressCycles), false), Cmd(Erase2, false),
     WaitReady, Cmd(ReadStatus, false), DataIn(1)]
  }

  /** `erase_block_by_page(pageno)`: erase the block holding page `pageno` and
      return the status byte. All its writes go out with write protection off,
      the row latched is the page index itself, and protection is back on after. */
  function EraseBlockByPage(b: Bus, dev: Device, page: nat): (r: Io<byte>)
    ensures r.bus.Follows(b) && r.bus.writeProtect
    ensures r.bus.Since(b) == EraseTxns(page)
    ensures WritesWith(r.bus.Since(b), false)
    ensures page < 0x100_0000 ==> FromLittleEndian(r.bus.Since(b)[1].cycles) == page
    ensures r.val == dev(r.bus.trace, 0)
  {
    var b1 := Wait(SendCmd(SendAddress(SendCmd(Protect(b, false), Erase1), page, EraseAddressCycles), Erase2));
    assert b1.trace == b.trace + [Cmd(Erase1, false), Addr(AddressCycles(page, EraseAddressCycles), false), Cmd(Erase2, false), WaitReady];
    var st := GetStatus(b1, dev);
    assert page < 0x100_0000 ==> FromLittleEndian(AddressCycles(page, EraseAddressCycles)) == page by {
      if page < 0x100_0000 {
        assert Pow256(1) == 256 && Pow256(2) == 0x1_0000;
        AddressCyclesRoundTrip(page, EraseAddressCycles);
      }
    }
    Io(Protect(st.bus, true), st.val)
  }

  /** On the wire, every write of a block erase raises the WP line. */
  lemma EraseRaisesWp(b: Bus, dev: Device, page: nat)
    requires b.defs.LinesDistinct()
    ensures var s := EraseBlockByPage(b, dev, page).bus.Since(b);
            forall i :: 0 <= i < |s| && s[i].IsWrite() ==>
              && s[i].WellFormed()
              && WriteType(b.defs, s[i].Cmd?, s[i].Addr?, s[i].protect) & b.defs.adrWP == b.defs.adrWP
  {
    var s := EraseBlockByPage(b, dev, page).bus.Since(b);
    WritesRaiseWp(b.defs, s);
  }

  /** The erases of blocks start .. start+count-1, in order. */
  function EraseScript(g: Geometry, start: nat, count: nat): seq<Txn>
    decreases count
  {
    if count == 0 then [] else EraseTxns(start * g.pagePerBlock) + EraseScript(g, start + 1, count - 1)
  }

  /** The loop of `erase` and `erase_blocks`: erase `count` blocks from `start`
      on, each by its first page; the status bytes are dropped. */
  function EraseRange(g: Geometry, b: Bus, dev: Device, start: nat, count: nat): (r: Bus)
    ensures r.Follows(b)
    ensures r.writeProtect == if count == 0 then b.writeProtect else true
    ensures r.Since(b) == EraseScript(g, start, count)
    decreases count
  {
    if count == 0 then b
    else
      var first := EraseBlockByPage(b, dev, start * g.pagePerBlock);
      var rest := EraseRange(g, first.bus, dev, start + 1, count - 1);
      FollowsTrans(b, first.bus, rest);
      rest
  }

  /** Six transactions per block: the erase of block `start + k` sits at
      offset `6k` of the script and is that block's whole erase, from ERASE1
      through the status read. */
  lemma {:induction false} EraseScriptAt(g: Geometry, start: nat, count: nat, k: nat)
    requires k < count
    ensures |EraseScript(g, start, count)| == 6 * count
    ensures EraseScript(g, start, count)[6 * k .. 6 * k + 6] == EraseTxns((start + k) * g.pagePerBlock)
    decreases count
  {
    EraseScriptLength(g, start, count);
    if k > 0 {
      EraseScriptAt(g, start + 1, count - 1, k - 1);
      SixAfterHead(EraseTxns(start * g.pagePerBlock), EraseScript(g, start + 1, count - 1), k - 1);
    }
  }

  /** Behind a six-transaction head, group `j` of the rest is group `j + 1` of the whole. */
  lemma SixAfterHead(head: seq<Txn>, rest: seq<Txn>, j: nat)
    requires |head| == 6 && 6 * j + 6 <= |rest|
    ensures (head + rest)[6 * (j + 1) .. 6 * (j + 1) + 6] == rest[6 * j .. 6 * j + 6]
  {
  }

  /** A script of `count` erases is `6 * count` transactions long. */
  lemma {:induction false} EraseScriptLength(g: Geometry, start: nat, count: nat)
    ensures |EraseScript(g, start, count)| == 6 * count
    decreases count
  {
    if count > 0 {
      EraseScriptLength(g, start + 1, count - 1);
    }
  }

  /** The rows the erase commands of a transaction list latch, in order: the
      decoded address following each ERASE1. */
  function ErasedRows(txns: seq<Txn>): seq<nat>
  {
    if |txns| < 2 then []
    else if txns[0].Cmd? && txns[0].cmd == Erase1 && txns[1].Addr? then
      [FromLittleEndian(txns[1].cycles)] + ErasedRows(txns[2..])
    else ErasedRows(txns[1..])
  }

  /** The first page of each block start .. start+count-1. */
  function FirstPages(g: Geometry, start: nat, count: nat): (r: seq<nat>)
    ensures |r| == count
    ensures forall k :: 0 <= k < count ==> r[k] == (start + k) * g.pagePerBlock
    decreases count
  {
    if count == 0 then [] else [start * g.pagePerBlock] + FirstPages(g, start + 1, count - 1)
  }

  /** One erase adds its own row and nothing else. */
  lemma ErasedRowsStep(page: nat, rest: seq<Txn>)
    requires page < 0x100_0000
    ensures ErasedRows(EraseTxns(page) + rest) == [page] + ErasedRows(rest)
  {
    var t := EraseTxns(page) + rest;
    assert Pow256(1) == 256 && Pow256(2) == 0x1_0000;
    AddressCyclesRoundTrip(page, EraseAddressCycles);
    assert t[6..] == rest;
    assert t[5..][1..] == t[6..] && t[4..][1..] == t[5..] && t[3..][1..] == t[4..] && t[2..][1..] == t[3..];
    assert ErasedRows(t[5..]) == ErasedRows(rest);
    assert ErasedRows(t[4..]) == ErasedRows(rest);
    assert ErasedRows(t[3..]) == ErasedRows(rest);
    assert ErasedRows(t[2..]) == ErasedRows(rest);
  }

  /** While the rows fit three cycles, an erase loop latches exactly the first
      page of every block it was asked for, in order, once each. */
  lemma {:induction false} EraseScriptRows(g: Geometry, start: nat, count: nat)
    requires (start + count) * g.pagePerBlock <= 0x100_0000
    ensures ErasedRows(EraseScript(g, start, count)) == FirstPages(g, start, count)
    decreases count
  {
    if count > 0 {
      MulMono(start, start + count, g.pagePerBlock);
      ErasedRowsStep(start * g.pagePerBlock, EraseScript(g, start + 1, count - 1));
      EraseScriptRows(g, start + 1, count - 1);
    }
  }

  lemma {:induction false} EraseScriptWrites(g: Geometry, start: nat, count: nat)
    ensures WritesWith(EraseScript(g, start, count), false)
    decreases count
  {
    if count > 0 {
      EraseScriptWrites(g, start + 1, count - 1);
      var head := EraseTxns(start * g.pagePerBlock);
      var all := head + EraseScript(g, start + 1, count - 1);
      assert forall i :: |head| <= i < |all| ==> all[i] == EraseScript(g, start + 1, count - 1)[i - |head|];
    }
  }

  /** `erase`: erase every block of the chip, block 0 first. */
  function Erase(g: Geometry, b: Bus, dev: Device): (r: Bus)
    ensures r.Follows(b)
    ensures r.writeProtect == if g.BlockCount() == 0 then b.writeProtect else true
    ensures r.Since(b) == EraseScript(g, 0, g.BlockCount())
    ensures WritesWith(r.Since(b), false)
    ensures g.PageCount() <= 0x100_0000 ==> ErasedRows(r.Since(b)) == FirstPages(g, 0, g.BlockCount())
  {
    var r := EraseRange(g, b, dev, 0, g.BlockCount());
    EraseScriptWrites(g, 0, g.BlockCount());
    assert g.PageCount() <= 0x100_0000 ==> ErasedRows(r.Since(b)) == FirstPages(g, 0, g.BlockCount()) by {
      if g.PageCount() <= 0x100_0000 {
        EraseScriptRows(g, 0, g.BlockCount());
      }
    }
    r
  }

  /** How many blocks `range(start_block, end_block + 1)` visits. */
  function BlockSpan(start: nat, end: nat): nat
  {
    if end + 1 > start then end + 1 - start else 0
  }

  /** `erase_blocks(start_block, end_block)`: erase the blocks from `start_block`
      through `end_block` inclusive; nothing when `end_block < start_block`. */
  function EraseBlocks(g: Geometry, b: Bus, dev: Device, start: nat, end: nat): (r: Bus)
    ensures r.Follows(b)
    ensures r.writeProtect == if end < start then b.writeProtect else true
    ensures r.Since(b) == EraseScript(g, start, BlockSpan(start, end))
    ensures WritesWith(r.Since(b), false)
    ensures end < start ==> r.Since(b) == []
    ensures (end + 1) * g.pagePerBlock <= 0x100_0000 ==>
              ErasedRows(r.Since(b)) == FirstPages(g, start, BlockSpan(start, end))
  {
    var r := EraseRange(g, b, dev, start, BlockSpan(start, end));
    EraseScriptWrites(g, start, BlockSpan(start, end));
    assert (end + 1) * g.pagePerBlock <= 0x100_0000 ==>
             ErasedRows(r.Since(b)) == FirstPages(g, start, BlockSpan(start, end)) by {
      if (end + 1) * g.pagePerBlock <= 0x100_0000 {
        if end + 1 > start {
          EraseScriptRows(g, start, BlockSpan(start, end));
        }
      }
    }
    r
  }

  /** Python's `data[lo:hi]` for non-negative bounds: clamped to the data. */
  function Slice(data: seq<byte>, lo: nat, hi: nat): (r: seq<byte>)
    ensures |r| == if lo < hi && lo < |data| then (if hi < |data| then hi else |data|) - lo else 0
    ensures forall i :: 0 <= i < |r| ==> r[i] == data[lo + i]
  {
    var h := if hi < |data| then hi else |data|;
    if lo < h then data[lo..h] else []
  }

  /** The three pieces a small-page program sends: the first 256 bytes, the
      second half of the data area, and the spare area. */
  function ProgramChunks(g: Geometry, data: seq<byte>): (r: seq<seq<byte>>)
    ensures |r| == 3
    ensures forall k :: 0 <= k < |r[0]| ==> k < 256 && k < |data| && r[0][k] == data[k]
    ensures forall k :: 0 <= k < |r[1]| ==>
              g.pageSize / 2 + k < g.pageSize && g.pageSize / 2 + k < |data| && r[1][k] == data[g.pageSize / 2 + k]
    ensures forall k :: 0 <= k < |r[2]| ==>
              g.pageSize + k < g.RawPageSize() && g.pageSize + k < |data| && r[2][k] == data[g.pageSize + k]
    ensures |data| == g.RawPageSize() && 256 <= g.pageSize ==>
              |r[0]| == 256 && |r[1]| == g.pageSize - g.pageSize / 2 && |r[2]| == g.oobSize
  {
    [Slice(data, 0, 256), Slice(data, g.pageSize / 2, g.pageSize), Slice(data, g.pageSize, g.RawPageSize())]
  }

  /** On a 512-byte page the three pieces are the page laid end to end: the
      fixed 256-byte first piece is exactly the first half. */
  lemma ProgramChunksCoverPage(g: Geometry, data: seq<byte>)
    requires g.pageSize == 512 && |data| == g.RawPageSize()
    ensures var c := ProgramChunks(g, data);
            c[0] + c[1] + c[2] == data
  {
    var c := ProgramChunks(g, data);
    var all := c[0] + c[1] + c[2];
    assert |all| == |data|;
    forall i | 0 <= i < |data|
      ensures all[i] == data[i]
    {
      if i < 256 {
      } else if i < 512 {
        assert all[i] == c[1][i - 256];
      } else {
        assert all[i] == c[2][i - 512];
      }
    }
  }

  /** The pointer command before each piece selects the area it lands in. */
  const ProgramAreas: seq<NandCmd> := [Read0, Read1, ReadOob]

  /** Every write the code issues has at least one byte: the whole page on a
      large-page part, each of the three pieces otherwise. */
  predicate Programmable(g: Geometry, d: Defs, data: seq<byte>)
  {
    if g.LargePage(d) then |data| > 0
    else forall i :: 0 <= i < 3 ==> |ProgramChunks(g, data)[i]| > 0
  }

  /** The transactions of one small-page program attempt. */
  function AttemptTxns(g: Geometry, area: NandCmd, page: nat, chunk: seq<byte>, p: bool): seq<Txn>
  {
    [Cmd(area, p), Cmd(SeqIn, p), WaitReady, Addr(AddressCycles(SmallPageAddress(page), g.addrCycles), p),
     WaitReady, DataOut(chunk, p), Cmd(PageProg, p), Cmd(ReadStatus, p), DataIn(1)]
  }

  /** One pass through a retry loop of the small-page `write_page`: select the
      area, load the row and the piece, program, and read the status. */
  function ProgramAttempt(g: Geometry, b: Bus, dev: Device, area: NandCmd, page: nat, chunk: seq<byte>): (r: Io<byte>)
    requires g.addrCycles > 0 && |chunk| > 0
    ensures r.bus.Extends(b)
    ensures r.bus.Since(b) == AttemptTxns(g, area, page, chunk, b.writeProtect)
    ensures r.val == dev(r.bus.trace, 0)
  {
    var p := b.writeProtect;
    var b1 := SendCmd(WriteData(Wait(SendAddress(Wait(SendCmd(SendCmd(b, area), SeqIn)), SmallPageAddress(page), g.addrCycles)), chunk), PageProg);
    assert b1.trace == b.trace + [Cmd(area, p), Cmd(SeqIn, p), WaitReady,
      Addr(AddressCycles(SmallPageAddress(page), g.addrCycles), p), WaitReady, DataOut(chunk, p), Cmd(PageProg, p)];
    var st := GetStatus(b1, dev);
    ExtendsTrans(b, b1, st.bus);
    st
  }

  /** How a bounded retry loop ended: the status byte of its last attempt and how many attempts it made. */
  datatype Outcome = Passed(status: byte, attempts: nat) | GaveUp(status: byte, attempts: nat)

  /** A retry loop of the small-page `write_page`, allowed `retries` further
      attempts after the first. It stops at the first status without the FAIL
      bit; it gives up only after every allowed attempt has failed. */
  function ProgramLoop(g: Geometry, b: Bus, dev: Device, area: NandCmd, page: nat, chunk: seq<byte>, retries: nat): (r: Io<Outcome>)
    requires g.addrCycles > 0 && |chunk| > 0
    ensures r.bus.Extends(b)
    ensures 1 <= r.val.attempts <= retries + 1
    ensures r.val.Passed? ==> !StatusFailed(b.defs, r.val.status)
    ensures r.val.GaveUp? ==> StatusFailed(b.defs, r.val.status) && r.val.attempts == retries + 1
    ensures r.bus.Since(b) == Repeat(AttemptTxns(g, area, page, chunk, b.writeProtect), r.val.attempts)
    ensures r.val.status == dev(r.bus.trace, 0)
    ensures FailedBefore(b.defs, dev, b.trace, AttemptTxns(g, area, page, chunk, b.writeProtect), r.val.attempts)
    decreases retries
  {
    var a := ProgramAttempt(g, b, dev, area, page, chunk);
    if !StatusFailed(b.defs, a.val) then Io(a.bus, Passed(a.val, 1))
    else if retries == 0 then Io(a.bus, GaveUp(a.val, 1))
    else
      var rest := ProgramLoop(g, a.bus, dev, area, page, chunk, retries - 1);
      RetryStep(dev, b, a.bus, rest.bus, AttemptTxns(g, area, page, chunk, b.writeProtect), rest.val.attempts);
      Io(rest.bus, rest.val.(attempts := rest.val.attempts + 1))
  }

  /** Each of the first `n - 1` repetitions of the attempt `s` after `t`
      ended on a status byte with the FAIL bit set. */
  ghost predicate FailedBefore(d: Defs, dev: Device, t: seq<Txn>, s: seq<Txn>, n: nat)
  {
    forall k :: 1 <= k < n ==> StatusFailed(d, dev(t + Repeat(s, k), 0))
  }

  /** A failed attempt `s` from `b` to `a`, then `n` more attempts from `a`
      to `c` of which all but the last failed: `n + 1` attempts from `b`. */
  lemma RetryStep(dev: Device, b: Bus, a: Bus, c: Bus, s: seq<Txn>, n: nat)
    requires a.Extends(b) && a.Since(b) == s && StatusFailed(b.defs, dev(a.trace, 0))
    requires c.Extends(a) && c.Since(a) == Repeat(s, n) && n > 0
    requires FailedBefore(a.defs, dev, a.trace, s, n)
    ensures c.Extends(b) && c.Since(b) == Repeat(s, n + 1)
    ensures FailedBefore(b.defs, dev, b.trace, s, n + 1)
  {
    ExtendsTrans(b, a, c);
    assert Repeat(s, n + 1) == s + Repeat(s, n);
    assert a.trace == b.trace + s;
    EarlierAttemptsFailed(b.defs, dev, b.trace, s, n + 1);
  }

  /** A failed first attempt followed by failed attempts from where it left off. */
  lemma EarlierAttemptsFailed(d: Defs, dev: Device, t: seq<Txn>, s: seq<Txn>, n: nat)
    requires n > 0 && StatusFailed(d, dev(t + s, 0))
    requires FailedBefore(d, dev, t + s, s, n - 1)
    ensures FailedBefore(d, dev, t, s, n)
  {
    forall k | 1 <= k < n
      ensures StatusFailed(d, dev(t + Repeat(s, k), 0))
    {
      if k == 1 {
        assert Repeat(s, 1) == s + [];
        assert t + Repeat(s, 1) == t + s;
      } else {
        assert t + Repeat(s, k) == t + s + Repeat(s, k - 1);
      }
    }
  }

  /** What `write_page` reports: the last status byte read (0 on a large-page
      part, which reads none), or that a piece could not be programmed within
      the allowed attempts. `loops` is how each retry loop that ran ended, in
      order; the code reports every failed attempt on the console. */
  datatype WriteResult = WriteDone(status: byte, loops: seq<Outcome>) | WriteGaveUp(status: byte, loops: seq<Outcome>)

  /** The transactions of the retry loops from piece `i` on that ended as
      `loops`: each loop's attempts at its own area and piece, one loop after
      the other. */
  function PiecesScript(g: Geometry, page: nat, chunks: seq<seq<byte>>, i: nat, p: bool, loops: seq<Outcome>): seq<Txn>
    requires |chunks| == 3 && i + |loops| <= 3
    decreases |loops|
  {
    if |loops| == 0 then []
    else Repeat(AttemptTxns(g, ProgramAreas[i], page, chunks[i], p), loops[0].attempts)
         + PiecesScript(g, page, chunks, i + 1, p, loops[1..])
  }

  /** The transactions of a large-page program. */
  function LargeProgramTxns(g: Geometry, page: nat, data: seq<byte>): seq<Txn>
  {
    [Cmd(SeqIn, false), WaitReady, Addr(AddressCycles(LargePageAddress(page), g.addrCycles), false),
     WaitReady, DataOut(data, false), Cmd(PageProg, false), WaitReady]
  }

  /** `write_page` on a large-page part: the whole page in one load, programmed
      once, with no status read. */
  function WritePageLarge(g: Geometry, b: Bus, page: nat, data: seq<byte>): (r: Bus)
    requires g.addrCycles > 0 && |data| > 0
    ensures r.Follows(b) && r.writeProtect
    ensures r.Since(b) == LargeProgramTxns(g, page, data)
  {
    var b0 := Protect(b, false);
    var b1 := Wait(SendCmd(WriteData(Wait(SendAddress(Wait(SendCmd(b0, SeqIn)), LargePageAddress(page), g.addrCycles)), data), PageProg));
    assert b1.trace == b.trace + LargeProgramTxns(g, page, data);
    Protect(b1, true)
  }

  /** The retry loops of the small-page `write_page` from piece `i` on; a loop
      that gives up ends the write. `last` is the status the previous loop passed with. */
  function ProgramPieces(g: Geometry, b: Bus, dev: Device, page: nat, chunks: seq<seq<byte>>, i: nat, retries: nat, last: byte): (r: Io<WriteResult>)
    requires g.addrCycles > 0 && |chunks| == 3 && i <= 3
    requires forall k :: 0 <= k < 3 ==> |chunks[k]| > 0
    ensures r.bus.Extends(b)
    ensures WriteEnded(r.val, 3 - i, last)
    ensures r.bus.Since(b) == PiecesScript(g, page, chunks, i, b.writeProtect, r.val.loops)
    ensures r.val.WriteGaveUp? ==> StatusFailed(b.defs, r.val.status)
    ensures r.val.WriteDone? ==> (i == 3 && r.val.status == last) || (i < 3 && !StatusFailed(b.defs, r.val.status))
    decreases 3 - i
  {
    if i == 3 then Io(b, WriteDone(last, []))
    else
      var loop := ProgramLoop(g, b, dev, ProgramAreas[i], page, chunks[i], retries);
      if loop.val.GaveUp? then
        PiecesSingle(g, b, loop.bus, page, chunks, i, loop.val);
        OutcomesSingle(loop.val, 3 - i, last);
        Io(loop.bus, WriteGaveUp(loop.val.status, [loop.val]))
      else
        var rest := ProgramPieces(g, loop.bus, dev, page, chunks, i + 1, retries, loop.val.status);
        PiecesAppend(g, b, loop.bus, rest.bus, page, chunks, i, loop.val, rest.val.loops);
        OutcomesCons(loop.val, rest.val, 3 - i, last);
        Io(rest.bus, rest.val.(loops := [loop.val] + rest.val.loops))
  }

  /** One loop's attempts from `b` to `a`, then the later loops from `a` to `c`:
      the script of all of them from `b`. */
  lemma PiecesAppend(g: Geometry, b: Bus, a: Bus, c: Bus, page: nat, chunks: seq<seq<byte>>, i: nat, o: Outcome, rest: seq<Outcome>)
    requires |chunks| == 3 && i + 1 + |rest| <= 3
    requires a.Extends(b) && a.Since(b) == Repeat(AttemptTxns(g, ProgramAreas[i], page, chunks[i], b.writeProtect), o.attempts)
    requires c.Extends(a) && c.Since(a) == PiecesScript(g, page, chunks, i + 1, a.writeProtect, rest)
    ensures c.Extends(b) && c.Since(b) == PiecesScript(g, page, chunks, i, b.writeProtect, [o] + rest)
  {
    ExtendsTrans(b, a, c);
    assert ([o] + rest)[1..] == rest;
  }

  /** How a write of `n` pieces ended, as its loops tell it: every loop made
      at least one attempt and every loop but the last passed; a completed
      write ran all `n` loops and every one passed; a write that gave up
      stopped at a loop that gave up; and the status reported is the last
      loop's (`last` when no loop ran). */
  predicate WriteEnded(r: WriteResult, n: nat, last: byte)
  {
    && |r.loops| <= n && (n > 0 ==> |r.loops| > 0)
    && (forall k :: 0 <= k < |r.loops| ==> r.loops[k].attempts > 0)
    && (forall k :: 0 <= k < |r.loops| - 1 ==> r.loops[k].Passed?)
    && (r.WriteDone? ==> |r.loops| == n && forall k :: 0 <= k < |r.loops| ==> r.loops[k].Passed?)
    && (r.WriteGaveUp? ==> |r.loops| > 0 && r.loops[|r.loops| - 1].GaveUp?)
    && r.status == if |r.loops| == 0 then last else r.loops[|r.loops| - 1].status
  }

  /** One loop's attempts from `b` to `a`, and no later loop. */
  lemma PiecesSingle(g: Geometry, b: Bus, a: Bus, page: nat, chunks: seq<seq<byte>>, i: nat, o: Outcome)
    requires |chunks| == 3 && i < 3
    requires a.Extends(b) && a.Since(b) == Repeat(AttemptTxns(g, ProgramAreas[i], page, chunks[i], b.writeProtect), o.attempts)
    ensures a.Since(b) == PiecesScript(g, page, chunks, i, b.writeProtect, [o])
  {
    assert [o][1..] == [];
    assert a.Since(b) + [] == a.Since(b);
  }

  /** A loop that gave up ends the write on its own status. */
  lemma OutcomesSingle(o: Outcome, n: nat, last: byte)
    requires o.GaveUp? && o.attempts > 0 && n > 0
    ensures WriteEnded(WriteGaveUp(o.status, [o]), n, last)
  {
  }

  /** A passed loop in front of a write of the remaining pieces. */
  lemma OutcomesCons(o: Outcome, rest: WriteResult, n: nat, last: byte)
    requires o.Passed? && o.attempts > 0 && n > 0 && WriteEnded(rest, n - 1, o.status)
    ensures WriteEnded(rest.(loops := [o] + rest.loops), n, last)
  {
    var loops := [o] + rest.loops;
    assert forall k :: 1 <= k < |loops| ==> loops[k] == rest.loops[k - 1];
  }

  /** `o` is how a retry loop for `chunk` in `area`, started after the
      transactions `t`, ends on `dev`: every attempt before the last read a
      status with the FAIL bit, the last read `o.status`, the loop passed
      exactly when that status lacks the FAIL bit, and it gave up only after
      `retries + 1` attempts. */
  ghost predicate LoopRan(g: Geometry, d: Defs, dev: Device, t: seq<Txn>, area: NandCmd, page: nat, chunk: seq<byte>, p: bool, retries: nat, o: Outcome)
  {
    var s := AttemptTxns(g, area, page, chunk, p);
    && 1 <= o.attempts <= retries + 1
    && FailedBefore(d, dev, t, s, o.attempts)
    && o.status == dev(t + Repeat(s, o.attempts), 0)
    && (o.Passed? <==> !StatusFailed(d, o.status))
    && (o.GaveUp? ==> o.attempts == retries + 1)
  }

  /** A bounded retry loop ends as `LoopRan` describes, on the bus its attempts extend. */
  lemma ProgramLoopRan(g: Geometry, b: Bus, dev: Device, area: NandCmd, page: nat, chunk: seq<byte>, retries: nat)
    requires g.addrCycles > 0 && |chunk| > 0
    ensures var loop := ProgramLoop(g, b, dev, area, page, chunk, retries);
            && LoopRan(g, b.defs, dev, b.trace, area, page, chunk, b.writeProtect, retries, loop.val)
            && loop.bus == b.(trace := b.trace + Repeat(AttemptTxns(g, area, page, chunk, b.writeProtect), loop.val.attempts))
  {
    ExtendsAppends(b, ProgramLoop(g, b, dev, area, page, chunk, retries).bus);
  }

  /** `LoopRan` pins the outcome down: the bounded loop's outcome is the only one it admits. */
  lemma {:induction false} LoopRanUnique(g: Geometry, b: Bus, dev: Device, area: NandCmd, page: nat, chunk: seq<byte>, retries: nat, o: Outcome)
    requires g.addrCycles > 0 && |chunk| > 0
    requires LoopRan(g, b.defs, dev, b.trace, area, page, chunk, b.writeProtect, retries, o)
    ensures o == ProgramLoop(g, b, dev, area, page, chunk, retries).val
  {
    var loop := ProgramLoop(g, b, dev, area, page, chunk, retries).val;
    ProgramLoopRan(g, b, dev, area, page, chunk, retries);
    if o.attempts != loop.attempts {
      assert false;
    }
  }

  /** The script of the loops from piece `i`, cut after `k + 1` loops, is the
      first loop's attempts followed by the script of the next `k` loops. */
  lemma PiecesScriptCons(g: Geometry, page: nat, chunks: seq<seq<byte>>, i: nat, p: bool, loops: seq<Outcome>, k: nat)
    requires |chunks| == 3 && i + |loops| <= 3 && 0 < k + 1 <= |loops|
    ensures PiecesScript(g, page, chunks, i, p, loops[..k + 1])
         == Repeat(AttemptTxns(g, ProgramAreas[i], page, chunks[i], p), loops[0].attempts)
            + PiecesScript(g, page, chunks, i + 1, p, loops[1..][..k])
  {
    assert loops[..k + 1][1..] == loops[1..][..k];
  }

  /** Each of `loops`, the loops from piece `i` on, started after `t` and the
      loops before it, ends as `LoopRan` describes. */
  ghost predicate LoopsRan(g: Geometry, d: Defs, dev: Device, t: seq<Txn>, page: nat, chunks: seq<seq<byte>>, i: nat, p: bool, retries: nat, loops: seq<Outcome>)
    requires |chunks| == 3 && i + |loops| <= 3
  {
    forall k :: 0 <= k < |loops| ==>
      LoopRan(g, d, dev, t + PiecesScript(g, page, chunks, i, p, loops[..k]), ProgramAreas[i + k], page, chunks[i + k], p, retries, loops[k])
  }

  /** Each loop of a small-page write, started where the loops before it left
      the bus, ends as `LoopRan` describes. */
  lemma {:induction false} ProgramPiecesRan(g: Geometry, b: Bus, dev: Device, page: nat, chunks: seq<seq<byte>>, i: nat, retries: nat, last: byte)
    requires g.addrCycles > 0 && |chunks| == 3 && i <= 3
    requires forall k :: 0 <= k < 3 ==> |chunks[k]| > 0
    ensures LoopsRan(g, b.defs, dev, b.trace, page, chunks, i, b.writeProtect, retries,
                     ProgramPieces(g, b, dev, page, chunks, i, retries, last).val.loops)
    decreases 3 - i
  {
    if i < 3 {
      var loop := ProgramLoop(g, b, dev, ProgramAreas[i], page, chunks[i], retries);
      if loop.val.Passed? {
        ProgramPiecesRan(g, loop.bus, dev, page, chunks, i + 1, retries, loop.val.status);
      }
      PiecesRanStep(g, b, dev, page, chunks, i, retries, last);
    }
  }

  /** If the loops after the first ran as `LoopsRan` says, so did all of them. */
  lemma PiecesRanStep(g: Geometry, b: Bus, dev: Device, page: nat, chunks: seq<seq<byte>>, i: nat, retries: nat, last: byte)
    requires g.addrCycles > 0 && |chunks| == 3 && i < 3
    requires forall k :: 0 <= k < 3 ==> |chunks[k]| > 0
    requires var loop := ProgramLoop(g, b, dev, ProgramAreas[i], page, chunks[i], retries);
             loop.val.Passed? ==>
               LoopsRan(g, loop.bus.defs, dev, loop.bus.trace, page, chunks, i + 1, loop.bus.writeProtect, retries,
                        ProgramPieces(g, loop.bus, dev, page, chunks, i + 1, retries, loop.val.status).val.loops)
    ensures LoopsRan(g, b.defs, dev, b.trace, page, chunks, i, b.writeProtect, retries,
                     ProgramPieces(g, b, dev, page, chunks, i, retries, last).val.loops)
  {
    var loop := ProgramLoop(g, b, dev, ProgramAreas[i], page, chunks[i], retries);
    ProgramLoopRan(g, b, dev, ProgramAreas[i], page, chunks[i], retries);
    PiecesLoopsStep(g, b, dev, page, chunks, i, retries, last);
    var rest := if loop.val.Passed? then ProgramPieces(g, loop.bus, dev, page, chunks, i + 1, retries, loop.val.status).val.loops else [];
    RanCons(g, b, loop.bus, dev, page, chunks, i, retries, loop.val, rest);
  }

  /** The loops of a small-page write from piece `i`: the first loop, then,
      if it passed, the loops of the pieces after it. */
  lemma PiecesLoopsStep(g: Geometry, b: Bus, dev: Device, page: nat, chunks: seq<seq<byte>>, i: nat, retries: nat, last: byte)
    requires g.addrCycles > 0 && |chunks| == 3 && i < 3
    requires forall k :: 0 <= k < 3 ==> |chunks[k]| > 0
    ensures var loop := ProgramLoop(g, b, dev, ProgramAreas[i], page, chunks[i], retries);
            var loops := ProgramPieces(g, b, dev, page, chunks, i, retries, last).val.loops;
            if loop.val.GaveUp? then loops == [loop.val] + []
            else loops == [loop.val] + ProgramPieces(g, loop.bus, dev, page, chunks, i + 1, retries, loop.val.status).val.loops
  {
  }

  /** The first loop, from `b` to `a`, in front of later loops that ran from `a`. */
  lemma RanCons(g: Geometry, b: Bus, a: Bus, dev: Device, page: nat, chunks: seq<seq<byte>>, i: nat, retries: nat, o: Outcome, rest: seq<Outcome>)
    requires |chunks| == 3 && i + 1 + |rest| <= 3
    requires a == b.(trace := b.trace + Repeat(AttemptTxns(g, ProgramAreas[i], page, chunks[i], b.writeProtect), o.attempts))
    requires LoopRan(g, b.defs, dev, b.trace, ProgramAreas[i], page, chunks[i], b.writeProtect, retries, o)
    requires LoopsRan(g, a.defs, dev, a.trace, page, chunks, i + 1, a.writeProtect, retries, rest)
    ensures LoopsRan(g, b.defs, dev, b.trace, page, chunks, i, b.writeProtect, retries, [o] + rest)
  {
    var loops := [o] + rest;
    assert loops[..0] == [];
    assert b.trace + PiecesScript(g, page, chunks, i, b.writeProtect, loops[..0]) == b.trace;
    forall k | 1 <= k < |loops|
      ensures LoopRan(g, b.defs, dev, b.trace + PiecesScript(g, page, chunks, i, b.writeProtect, loops[..k]),
                      ProgramAreas[i + k], page, chunks[i + k], b.writeProtect, retries, loops[k])
    {
      LaterLoopRan(g, b, a, dev, page, chunks, i, retries, o, rest, k);
    }
  }

  /** Loop `k` of the loops from piece `i + 1`, started from `a`, is loop
      `k + 1` of those from piece `i` when the first of them took `b` to `a`. */
  lemma LaterLoopRan(g: Geometry, b: Bus, a: Bus, dev: Device, page: nat, chunks: seq<seq<byte>>, i: nat, retries: nat, o: Outcome, rest: seq<Outcome>, k: nat)
    requires |chunks| == 3 && i + 1 + |rest| <= 3 && 1 <= k <= |rest|
    requires a == b.(trace := b.trace + Repeat(AttemptTxns(g, ProgramAreas[i], page, chunks[i], b.writeProtect), o.attempts))
    requires LoopRan(g, a.defs, dev, a.trace + PiecesScript(g, page, chunks, i + 1, a.writeProtect, rest[..k - 1]),
                     ProgramAreas[i + 1 + (k - 1)], page, chunks[i + 1 + (k - 1)], a.writeProtect, retries, rest[k - 1])
    ensures var loops := [o] + rest;
            LoopRan(g, b.defs, dev, b.trace + PiecesScript(g, page, chunks, i, b.writeProtect, loops[..k]),
                    ProgramAreas[i + k], page, chunks[i + k], b.writeProtect, retries, loops[k])
  {
    var loops := [o] + rest;
    PiecesScriptCons(g, page, chunks, i, b.writeProtect, loops, k - 1);
    assert loops[1..] == rest && loops[k] == rest[k - 1];
    assert b.trace + PiecesScript(g, page, chunks, i, b.writeProtect, loops[..k])
        == a.trace + PiecesScript(g, page, chunks, i + 1, a.writeProtect, rest[..k - 1]);
  }

  /** Every data load is one of the pieces. */
  predicate LoadsOnly(txns: seq<Txn>, pieces: seq<seq<byte>>)
  {
    forall x :: x in Payloads(txns) ==> x in pieces
  }

  /** Every piece is loaded at least once. */
  predicate LoadsAll(txns: seq<Txn>, pieces: seq<seq<byte>>)
  {
    forall x :: x in pieces ==> x in Payloads(txns)
  }

  /** The loops from piece `i` on load nothing but those pieces, write with one
      flag, and when the write completes have loaded every one of them. */
  lemma ProgramPiecesLoads(g: Geometry, b: Bus, dev: Device, page: nat, chunks: seq<seq<byte>>, i: nat, retries: nat, last: byte)
    requires g.addrCycles > 0 && |chunks| == 3 && i <= 3
    requires forall k :: 0 <= k < 3 ==> |chunks[k]| > 0
    ensures var r := ProgramPieces(g, b, dev, page, chunks, i, retries, last);
            && WritesWith(r.bus.Since(b), b.writeProtect)
            && LoadsOnly(r.bus.Since(b), chunks[i..])
            && (r.val.WriteDone? ==> LoadsAll(r.bus.Since(b), chunks[i..]))
  {
    var r := ProgramPieces(g, b, dev, page, chunks, i, retries, last);
    ScriptLoads(g, page, chunks, i, b.writeProtect, r.val.loops);
  }

  /** The script of loops from piece `i` that each made an attempt loads
      nothing but those pieces, writes with one flag, and, when it runs to the
      last piece, loads every one of them. */
  lemma {:induction false} ScriptLoads(g: Geometry, page: nat, chunks: seq<seq<byte>>, i: nat, p: bool, loops: seq<Outcome>)
    requires |chunks| == 3 && i + |loops| <= 3
    requires forall k :: 0 <= k < |loops| ==> loops[k].attempts > 0
    ensures WritesWith(PiecesScript(g, page, chunks, i, p, loops), p)
    ensures LoadsOnly(PiecesScript(g, page, chunks, i, p, loops), chunks[i..])
    ensures i + |loops| == 3 ==> LoadsAll(PiecesScript(g, page, chunks, i, p, loops), chunks[i..])
    decreases |loops|
  {
    if |loops| == 0 {
      assert Payloads([]) == [];
    } else {
      var s := AttemptTxns(g, ProgramAreas[i], page, chunks[i], p);
      AttemptFacts(g, ProgramAreas[i], page, chunks[i], p);
      RepeatFacts(s, loops[0].attempts, chunks[i], p);
      assert forall k :: 0 <= k < |loops[1..]| ==> loops[1..][k] == loops[k + 1];
      ScriptLoads(g, page, chunks, i + 1, p, loops[1..]);
      assert chunks[i..] == [chunks[i]] + chunks[i + 1..];
      CombineLoads(Repeat(s, loops[0].attempts), PiecesScript(g, page, chunks, i + 1, p, loops[1..]), chunks[i], chunks[i + 1..], p);
    }
  }

  /** One loop's attempts followed by the later loops: what each loads, together. */
  lemma CombineLoads(first: seq<Txn>, later: seq<Txn>, chunk: seq<byte>, pieces: seq<seq<byte>>, p: bool)
    requires forall x :: x in Payloads(first) ==> x == chunk
    requires chunk in Payloads(first)
    requires WritesWith(first, p) && WritesWith(later, p) && LoadsOnly(later, pieces)
    ensures WritesWith(first + later, p)
    ensures LoadsOnly(first + later, [chunk] + pieces)
    ensures LoadsAll(later, pieces) ==> LoadsAll(first + later, [chunk] + pieces)
  {
    PayloadsAppend(first, later);
    WritesWithAppend(first, later, p);
  }

  /** The data loads among the transactions, in order. */
  function Payloads(txns: seq<Txn>): seq<seq<byte>>
  {
    if |txns| == 0 then []
    else (if txns[0].DataOut? then [txns[0].bytes] else []) + Payloads(txns[1..])
  }

  lemma {:induction false} PayloadsAppend(a: seq<Txn>, b: seq<Txn>)
    ensures Payloads(a + b) == Payloads(a) + Payloads(b)
  {
    if |a| == 0 {
      assert a + b == b;
    } else {
      assert (a + b)[1..] == a[1..] + b;
      PayloadsAppend(a[1..], b);
    }
  }

  lemma WritesWithAppend(a: seq<Txn>, b: seq<Txn>, p: bool)
    requires WritesWith(a, p) && WritesWith(b, p)
    ensures WritesWith(a + b, p)
  {
    assert forall i :: |a| <= i < |a + b| ==> (a + b)[i] == b[i - |a|];
  }

  /** Transactions without a data load contribute no payload. */
  lemma {:induction false} PayloadsNone(txns: seq<Txn>)
    requires forall i :: 0 <= i < |txns| ==> !txns[i].DataOut?
    ensures Payloads(txns) == []
  {
    if |txns| > 0 {
      PayloadsNone(txns[1..]);
    }
  }

  /** An attempt loads its piece once and writes with the flag in force. */
  lemma AttemptFacts(g: Geometry, area: NandCmd, page: nat, chunk: seq<byte>, p: bool)
    ensures Payloads(AttemptTxns(g, area, page, chunk, p)) == [chunk]
    ensures WritesWith(AttemptTxns(g, area, page, chunk, p), p)
  {
    var head := [Cmd(area, p), Cmd(SeqIn, p), WaitReady, Addr(AddressCycles(SmallPageAddress(page), g.addrCycles), p), WaitReady];
    var load := [DataOut(chunk, p)];
    var tail := [Cmd(PageProg, p), Cmd(ReadStatus, p), DataIn(1)];
    assert AttemptTxns(g, area, page, chunk, p) == head + (load + tail);
    PayloadsNone(head);
    PayloadsNone(tail);
    assert load[1..] == [];
    PayloadsAppend(load, tail);
    PayloadsAppend(head, load + tail);
  }

  /** A large-page program loads the whole page once, with protection off. */
  lemma LargeProgramFacts(g: Geometry, page: nat, data: seq<byte>)
    ensures Payloads(LargeProgramTxns(g, page, data)) == [data]
    ensures WritesWith(LargeProgramTxns(g, page, data), false)
  {
    var t := LargeProgramTxns(g, page, data);
    assert t[7..] == [];
    assert t[6..][1..] == t[7..] && t[5..][1..] == t[6..] && t[4..][1..] == t[5..];
    assert t[3..][1..] == t[4..] && t[2..][1..] == t[3..] && t[1..][1..] == t[2..];
    assert Payloads(t[6..]) == [];
    assert Payloads(t[5..]) == [];
    assert Payloads(t[4..]) == [data];
    assert Payloads(t[3..]) == [data];
    assert Payloads(t[2..]) == [data];
    assert Payloads(t[1..]) == [data];
  }

  /** A loop's attempts load nothing but its piece, load it at least once, and write with one flag. */
  lemma {:induction false} RepeatFacts(s: seq<Txn>, n: nat, chunk: seq<byte>, p: bool)
    requires Payloads(s) == [chunk] && WritesWith(s, p)
    ensures forall x :: x in Payloads(Repeat(s, n)) ==> x == chunk
    ensures n > 0 ==> chunk in Payloads(Repeat(s, n))
    ensures WritesWith(Repeat(s, n), p)
  {
    if n > 0 {
      RepeatFacts(s, n - 1, chunk, p);
      PayloadsAppend(s, Repeat(s, n - 1));
      WritesWithAppend(s, Repeat(s, n - 1), p);
    }
  }

  /** `write_page(pageno, data)`. Protection is dropped for the whole operation
      and raised again at the end. A large-page part loads the page in one go
      and reports 0; a small-page part programs the three pieces in turn, each
      retried while its status shows FAIL (at most `retries` times more), and
      reports the status the last piece passed with. */
  function WritePage(g: Geometry, b: Bus, dev: Device, page: nat, data: seq<byte>, retries: nat): (r: Io<WriteResult>)
    requires g.addrCycles > 0 && Programmable(g, b.defs, data)
    ensures r.bus.Follows(b) && r.bus.writeProtect
    ensures WritesWith(r.bus.Since(b), false)
    ensures g.LargePage(b.defs) ==>
              && r.val == WriteDone(0, [])
              && r.bus.Since(b) == LargeProgramTxns(g, page, data)
              && Payloads(r.bus.Since(b)) == [data]
    ensures !g.LargePage(b.defs) ==>
              && WriteEnded(r.val, 3, 0)
              && r.bus.Since(b) == PiecesScript(g, page, ProgramChunks(g, data), 0, false, r.val.loops)
              && (r.val.WriteGaveUp? ==> StatusFailed(b.defs, r.val.status))
              && (r.val.WriteDone? ==> !StatusFailed(b.defs, r.val.status))
              && LoadsOnly(r.bus.Since(b), ProgramChunks(g, data))
              && (r.val.WriteDone? ==> LoadsAll(r.bus.Since(b), ProgramChunks(g, data)))
  {
    if g.LargePage(b.defs) then
      var r := WritePageLarge(g, b, page, data);
      LargeProgramFacts(g, page, data);
      Io(r, WriteDone(0, []))
    else
      var chunks := ProgramChunks(g, data);
      var b0 := Protect(b, false);
      var pieces := ProgramPieces(g, b0, dev, page, chunks, 0, retries, 0);
      ProgramPiecesLoads(g, b0, dev, page, chunks, 0, retries, 0);
      assert chunks[0..] == chunks;
      FollowsTrans(b, b0, pieces.bus);
      Io(Protect(pieces.bus, true), pieces.val)
  }

  /** On a small-page part each loop of `write_page`, started where the loops
      before it left the bus, ends as `LoopRan` describes. */
  lemma WritePageRan(g: Geometry, b: Bus, dev: Device, page: nat, data: seq<byte>, retries: nat)
    requires g.addrCycles > 0 && Programmable(g, b.defs, data) && !g.LargePage(b.defs)
    ensures LoopsRan(g, b.defs, dev, b.trace, page, ProgramChunks(g, data), 0, false, retries,
                     WritePage(g, b, dev, page, data, retries).val.loops)
  {
    var b0 := Protect(b, false);
    var chunks := ProgramChunks(g, data);
    ProgramPiecesRan(g, b0, dev, page, chunks, 0, retries, 0);
    assert WritePage(g, b, dev, page, data, retries).val.loops == ProgramPieces(g, b0, dev, page, chunks, 0, retries, 0).val.loops;
  }

  /** `write_page_in_a_block(pageno, block_idx, data)`: program page `pageno` of
      block `block_idx`. On a large-page part with five cycles the row latched
      decodes back to exactly that block and page. */
  function WritePageInABlock(g: Geometry, b: Bus, dev: Device, page: nat, block: nat, data: seq<byte>, retries: nat): (r: Io<WriteResult>)
    requires g.addrCycles > 0 && Programmable(g, b.defs, data)
    ensures r == WritePage(g, b, dev, PageIndex(g, block, page), data, retries)
    ensures g.LargePage(b.defs) && g.addrCycles == 5 && page < g.pagePerBlock && PageIndex(g, block, page) < 0x100_0000 ==>
              var row := FromLittleEndian(r.bus.Since(b)[2].cycles) / 0x1_0000;
              row / g.pagePerBlock == block && row % g.pagePerBlock == page
  {
    var r := WritePage(g, b, dev, PageIndex(g, block, page), data, retries);
    assert g.LargePage(b.defs) && g.addrCycles == 5 && page < g.pagePerBlock && PageIndex(g, block, page) < 0x100_0000 ==>
              var row := FromLittleEndian(r.bus.Since(b)[2].cycles) / 0x1_0000;
              row / g.pagePerBlock == block && row % g.pagePerBlock == page by {
      if g.LargePage(b.defs) && g.addrCycles == 5 && page < g.pagePerBlock && PageIndex(g, block, page) < 0x100_0000 {
        LargePageCycles(PageIndex(g, block, page));
        PageIndexRoundTrip(g, block, page);
      }
    }
    r
  }
}
