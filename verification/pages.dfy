/** Page reads: `read_page` in both addressing modes, `read_page_from_block`,
    the bad-block scan `check_bad_blocks`, and the sequential block read `read_seq`. */
module Pages {
  import opened Bytes
  import opened FlashDefs
  import opened Bus
  import opened Onfi

  /** The most bytes one large-page read transaction asks for. */
  const ChunkLength: nat := 0x1000

  /** `pageno << 16`: a large-page row address behind two zero column cycles. */
  function LargePageAddress(page: nat): nat
  {
    page * 0x1_0000
  }

  /** `pageno << 8`: a small-page row address behind one zero column cycle. */
  function SmallPageAddress(page: nat): nat
  {
    page * 0x100
  }

  /** Five cycles for a large-page read or program: two zero column bytes, then
      the page index little-endian in three row bytes, which decode back to it. */
  lemma LargePageCycles(page: nat)
    requires page < 0x100_0000
    ensures AddressCycles(LargePageAddress(page), 5) == [0, 0] + AddressCycles(page, 3)
    ensures FromLittleEndian(AddressCycles(LargePageAddress(page), 5)) / 0x1_0000 == page
  {
    assert LargePageAddress(page) == (page * 256) * 256;
    ShiftedAddressCycles(page * 256, 4);
    ShiftedAddressCycles(page, 3);
    assert Pow256(5) == 0x100_0000_0000 by {
      assert Pow256(1) == 256;
      assert Pow256(3) == 0x100_0000;
    }
    AddressCyclesRoundTrip(LargePageAddress(page), 5);
  }

  /** The flat index of page `page` in block `block`. */
  function PageIndex(g: Geometry, block: nat, page: nat): nat
  {
    block * g.pagePerBlock + page
  }

  /** A page inside a block and its flat index determine each other. */
  lemma PageIndexRoundTrip(g: Geometry, block: nat, page: nat)
    requires page < g.pagePerBlock
    ensures PageIndex(g, block, page) / g.pagePerBlock == block
    ensures PageIndex(g, block, page) % g.pagePerBlock == page
  {
    DivUnique(PageIndex(g, block, page), g.pagePerBlock, block, page);
  }

  /** Every flat index is some page of some block. */
  lemma PageIndexSplit(g: Geometry, n: nat)
    requires g.pagePerBlock > 0
    ensures PageIndex(g, n / g.pagePerBlock, n % g.pagePerBlock) == n
  {
  }

  /** The lengths of the reads `read_page` issues for `length` bytes on a part
      with pages over 0x1000 bytes: full chunks, then whatever is left. */
  function ChunkSizes(length: nat): (r: seq<nat>)
    ensures Sum(r) == length
    ensures forall i :: 0 <= i < |r| ==> 0 < r[i] <= ChunkLength
    ensures forall i :: 0 <= i < |r| - 1 ==> r[i] == ChunkLength
    ensures forall k :: 0 <= k < length ==> k / ChunkLength < |r|
    decreases length
  {
    if length == 0 then []
    else if length < ChunkLength then
      assert forall k :: 0 <= k < length ==> k / ChunkLength == 0 by {
        forall k | 0 <= k < length
          ensures k / ChunkLength == 0
        {
          DivUnique(k, ChunkLength, 0, k);
        }
      }
      [length]
    else
      var rest := ChunkSizes(length - ChunkLength);
      assert forall k :: ChunkLength <= k < length ==> k / ChunkLength < |rest| + 1 by {
        forall k | ChunkLength <= k < length
          ensures k / ChunkLength < |rest| + 1
        {
          ChunkStep(k);
        }
      }
      assert forall k :: 0 <= k < ChunkLength ==> k / ChunkLength == 0 by {
        forall k | 0 <= k < ChunkLength
          ensures k / ChunkLength == 0
        {
          DivUnique(k, ChunkLength, 0, k);
        }
      }
      [ChunkLength] + rest
  }

  /** Offsets past the first chunk fall one chunk later, at the same place in it. */
  lemma ChunkStep(k: nat)
    requires k >= ChunkLength
    ensures k / ChunkLength == (k - ChunkLength) / ChunkLength + 1
    ensures k % ChunkLength == (k - ChunkLength) % ChunkLength
  {
    var q, m := (k - ChunkLength) / ChunkLength, (k - ChunkLength) % ChunkLength;
    assert k - ChunkLength == q * ChunkLength + m;
    assert k == (q + 1) * ChunkLength + m;
    DivUnique(k, ChunkLength, q + 1, m);
  }

  /** Bytes `offset` .. `offset + count - 1` of `val` are the chip's answer to the
      read request that ends trace `t`, in order. */
  predicate AnswersAt(val: seq<byte>, offset: nat, dev: Device, t: seq<Txn>, slow: bool, count: nat)
  {
    && offset + count <= |val|
    && forall k :: 0 <= k < count ==> val[offset + k] == Answer(dev, t, slow, k)
  }

  function Sum(xs: seq<nat>): nat
  {
    if |xs| == 0 then 0 else xs[0] + Sum(xs[1..])
  }

  function DataIns(counts: seq<nat>): (r: seq<Txn>)
    ensures |r| == |counts|
    ensures forall i :: 0 <= i < |counts| ==> r[i] == DataIn(counts[i])
  {
    if |counts| == 0 then [] else [DataIn(counts[0])] + DataIns(counts[1..])
  }

  /** The chunked read loop: reads of at most 0x1000 bytes whose results are concatenated in order. */
  function ReadChunks(b: Bus, dev: Device, length: nat): (r: Io<seq<byte>>)
    ensures r.bus.Extends(b) && r.bus.Since(b) == DataIns(ChunkSizes(length))
    ensures |r.val| == length
    ensures ChunkedAnswers(dev, b.trace, b.slow, length, r.val)
    decreases length
  {
    if length == 0 then Io(b, [])
    else
      var n := if length < ChunkLength then length else ChunkLength;
      var first := ReadData(b, dev, n);
      var rest := ReadChunks(first.bus, dev, length - n);
      ExtendsTrans(b, first.bus, rest.bus);
      assert first.bus.trace == b.trace + [DataIn(n)];
      assert AnswersAt(first.val, 0, dev, b.trace + [DataIn(n)], b.slow, n);
      ChunkedAnswersCons(dev, b.trace, b.slow, length, n, first.val, rest.val);
      Io(rest.bus, first.val + rest.val)
  }

  /** `val` is what a chunked read of `length` bytes returns after trace `t`:
      byte k is byte `k % 0x1000` of the answer to chunk `k / 0x1000`, whose
      request ends `t` followed by the chunk requests up to and including it. */
  predicate ChunkedAnswers(dev: Device, t: seq<Txn>, slow: bool, length: nat, val: seq<byte>)
  {
    && |val| == length
    && forall k :: 0 <= k < length ==>
         val[k] == Answer(dev, t + DataIns(ChunkSizes(length))[..k / ChunkLength + 1], slow, k % ChunkLength)
  }

  /** A first chunk's answer followed by the answers to the chunks after it. */
  lemma ChunkedAnswersCons(dev: Device, t: seq<Txn>, slow: bool, length: nat, n: nat, x: seq<byte>, y: seq<byte>)
    requires length > 0 && n == if length < ChunkLength then length else ChunkLength
    requires AnswersAt(x, 0, dev, t + [DataIn(n)], slow, n) && |x| == n
    requires ChunkedAnswers(dev, t + [DataIn(n)], slow, length - n, y)
    ensures ChunkedAnswers(dev, t, slow, length, x + y)
  {
    var d := DataIns(ChunkSizes(length));
    var d' := DataIns(ChunkSizes(length - n));
    assert d == [DataIn(n)] + d';
    forall k | 0 <= k < length
      ensures (x + y)[k] == Answer(dev, t + d[..k / ChunkLength + 1], slow, k % ChunkLength)
    {
      if k < n {
        FirstChunkByte(t, n, d', k);
        assert (x + y)[k] == x[k];
      } else {
        LaterChunkByte(t, n, d', k);
        assert (x + y)[k] == y[k - n];
      }
    }
  }

  /** A byte of the first chunk answers the first request. */
  lemma FirstChunkByte(t: seq<Txn>, n: nat, rest: seq<Txn>, k: nat)
    requires k < n <= ChunkLength
    ensures k / ChunkLength == 0 && k % ChunkLength == k
    ensures t + ([DataIn(n)] + rest)[..k / ChunkLength + 1] == t + [DataIn(n)]
  {
    DivUnique(k, ChunkLength, 0, k);
  }

  /** A byte past the first full chunk answers a later request, at the same place in its chunk. */
  lemma LaterChunkByte(t: seq<Txn>, n: nat, rest: seq<Txn>, k: nat)
    requires n == ChunkLength <= k && (k - n) / ChunkLength < |rest|
    ensures k % ChunkLength == (k - n) % ChunkLength
    ensures t + ([DataIn(n)] + rest)[..k / ChunkLength + 1] == (t + [DataIn(n)]) + rest[..(k - n) / ChunkLength + 1]
  {
    ChunkStep(k);
    assert ([DataIn(n)] + rest)[..k / ChunkLength + 1] == [DataIn(n)] + rest[..(k - n) / ChunkLength + 1];
  }

  /** A length that fits one chunk is read by a single plain read. */
  lemma ReadChunksSingle(b: Bus, dev: Device, length: nat)
    requires 0 < length <= ChunkLength
    ensures ReadChunks(b, dev, length) == ReadData(b, dev, length)
  {
    var first := ReadData(b, dev, length);
    assert ReadChunks(first.bus, dev, 0) == Io(first.bus, []);
    assert first.val + [] == first.val;
  }

  /** How many bytes `read_page` returns. Small-page parts read two halves of
      `PageSize / 2` bytes (integer halves: see the findings) and then the spare area. */
  function PageReadLength(g: Geometry, d: Defs, removeOob: bool): nat
  {
    if g.LargePage(d) then (if removeOob then g.pageSize else g.RawPageSize())
    else 2 * (g.pageSize / 2) + (if removeOob then 0 else g.oobSize)
  }

  /** One small-page access: a read command, the row, and a read of `count` bytes. */
  function SmallAccess(c: NandCmd, row: Txn, p: bool, count: nat): seq<Txn>
  {
    [Cmd(c, p), WaitReady, row, WaitReady, DataIn(count)]
  }

  /** The command script of `read_page`, independent of what the device answers. */
  function ReadPageTxns(g: Geometry, d: Defs, p: bool, page: nat, removeOob: bool): seq<Txn>
  {
    if g.LargePage(d) then
      var length := PageReadLength(g, d, removeOob);
      LargeHeader(g, page, p)
      + (if g.pageSize > ChunkLength then DataIns(ChunkSizes(length)) else [DataIn(length)])
    else
      var row := Addr(AddressCycles(SmallPageAddress(page), g.addrCycles), p);
      SmallAccess(Read0, row, p, g.pageSize / 2) + SmallAccess(Read1, row, p, g.pageSize / 2)
      + (if removeOob then [] else SmallAccess(ReadOob, row, p, g.oobSize))
  }

  /** The three transactions that open a large-page read. */
  function LargeHeader(g: Geometry, page: nat, p: bool): seq<Txn>
  {
    [Cmd(Read0, p), Addr(AddressCycles(LargePageAddress(page), g.addrCycles), p), Cmd(ReadStart, p)]
  }

  /** READ0, the row and READ-START, with nothing read yet. */
  function StartLargeRead(g: Geometry, b: Bus, page: nat): (r: Bus)
    requires g.addrCycles > 0
    ensures r.Extends(b) && r.Since(b) == LargeHeader(g, page, b.writeProtect)
  {
    var p := b.writeProtect;
    var r := SendCmd(SendAddress(SendCmd(b, Read0), LargePageAddress(page), g.addrCycles), ReadStart);
    assert r.trace == b.trace + LargeHeader(g, page, p);
    r
  }

  /** `read_page` on a large-page part: READ0, the five-cycle row, READ-START,
      then the page in one read, or in 0x1000-byte chunks when the data area is
      larger than 0x1000 bytes. */
  function ReadPageLarge(g: Geometry, b: Bus, dev: Device, page: nat, length: nat): (r: Io<seq<byte>>)
    requires g.addrCycles > 0
    ensures r.bus.Extends(b) && |r.val| == length
    ensures r.bus.Since(b) ==
              LargeHeader(g, page, b.writeProtect)
              + (if g.pageSize > ChunkLength then DataIns(ChunkSizes(length)) else [DataIn(length)])
    ensures var t0 := b.trace + LargeHeader(g, page, b.writeProtect);
            if g.pageSize > ChunkLength then ChunkedAnswers(dev, t0, b.slow, length, r.val)
            else AnswersAt(r.val, 0, dev, t0 + [DataIn(length)], b.slow, length)
  {
    var b1 := StartLargeRead(g, b, page);
    assert b1.trace == b.trace + LargeHeader(g, page, b.writeProtect);
    if g.pageSize > ChunkLength then
      var rd := ReadChunks(b1, dev, length);
      ExtendsTrans(b, b1, rd.bus);
      rd
    else
      var rd := ReadData(b1, dev, length);
      ExtendsTrans(b, b1, rd.bus);
      rd
  }

  /** One small-page access: a read command, the row, and `count` bytes. */
  function ReadPart(g: Geometry, b: Bus, dev: Device, c: NandCmd, page: nat, count: nat): (r: Io<seq<byte>>)
    requires g.addrCycles > 0
    ensures r.bus.Extends(b) && |r.val| == count
    ensures r.bus.Since(b) == SmallAccess(c, Addr(AddressCycles(SmallPageAddress(page), g.addrCycles), b.writeProtect), b.writeProtect, count)
    ensures AnswersAt(r.val, 0, dev, r.bus.trace, b.slow, count)
  {
    var b1 := Wait(SendAddress(Wait(SendCmd(b, c)), SmallPageAddress(page), g.addrCycles));
    var rd := ReadData(b1, dev, count);
    assert rd.bus.trace == b1.trace + [DataIn(count)];
    rd
  }

  /** Appending answers keeps the earlier ones where they were. */
  lemma AnswersAtAppend(x: seq<byte>, y: seq<byte>, offset: nat, dev: Device, t: seq<Txn>, slow: bool, count: nat)
    requires AnswersAt(x, offset, dev, t, slow, count)
    ensures AnswersAt(x + y, offset, dev, t, slow, count)
  {
    forall k | 0 <= k < count
      ensures (x + y)[offset + k] == Answer(dev, t, slow, k)
    {
      assert (x + y)[offset + k] == x[offset + k];
    }
  }

  /** Answers placed after `x` sit `|x|` further on. */
  lemma AnswersAtShift(x: seq<byte>, y: seq<byte>, dev: Device, t: seq<Txn>, slow: bool, count: nat)
    requires AnswersAt(y, 0, dev, t, slow, count)
    ensures AnswersAt(x + y, |x|, dev, t, slow, count)
  {
    forall k | 0 <= k < count
      ensures (x + y)[|x| + k] == Answer(dev, t, slow, k)
    {
      assert (x + y)[|x| + k] == y[k];
    }
  }

  /** The trace at the end of the small-page access with command `c`, after `t`. */
  function AfterAccess(g: Geometry, t: seq<Txn>, p: bool, c: NandCmd, page: nat, count: nat): seq<Txn>
  {
    t + SmallAccess(c, Addr(AddressCycles(SmallPageAddress(page), g.addrCycles), p), p, count)
  }

  /** `read_page` on a small-page part: the first half (READ0), the second half
      (READ1), then the spare area (READOOB) unless `remove_oob`. Each part is
      the chip's answer to its own read request, in that order. */
  function ReadPageSmall(g: Geometry, b: Bus, dev: Device, page: nat, removeOob: bool): (r: Io<seq<byte>>)
    requires g.addrCycles > 0
    ensures r.bus.Extends(b)
    ensures |r.val| == 2 * (g.pageSize / 2) + (if removeOob then 0 else g.oobSize)
    ensures var row := Addr(AddressCycles(SmallPageAddress(page), g.addrCycles), b.writeProtect);
            r.bus.Since(b) ==
              SmallAccess(Read0, row, b.writeProtect, g.pageSize / 2) + SmallAccess(Read1, row, b.writeProtect, g.pageSize / 2)
              + (if removeOob then [] else SmallAccess(ReadOob, row, b.writeProtect, g.oobSize))
    ensures SmallContents(g, b, dev, page, removeOob, r.val)
  {
    var half := g.pageSize / 2;
    var first := ReadPart(g, b, dev, Read0, page, half);
    var second := ReadPart(g, first.bus, dev, Read1, page, half);
    ExtendsTrans(b, first.bus, second.bus);
    assert first.bus.trace == AfterAccess(g, b.trace, b.writeProtect, Read0, page, half);
    assert second.bus.trace == AfterAccess(g, first.bus.trace, b.writeProtect, Read1, page, half);
    AnswersAtAppend(first.val, second.val, 0, dev, first.bus.trace, b.slow, half);
    AnswersAtShift(first.val, second.val, dev, second.bus.trace, b.slow, half);
    if removeOob then
      Io(second.bus, first.val + second.val)
    else
      var spare := ReadPart(g, second.bus, dev, ReadOob, page, g.oobSize);
      ExtendsTrans(b, second.bus, spare.bus);
      assert spare.bus.Since(b) == first.bus.Since(b) + second.bus.Since(first.bus) + spare.bus.Since(second.bus);
      assert spare.bus.trace == AfterAccess(g, second.bus.trace, b.writeProtect, ReadOob, page, g.oobSize);
      AnswersAtAppend(first.val + second.val, spare.val, 0, dev, first.bus.trace, b.slow, half);
      AnswersAtAppend(first.val + second.val, spare.val, half, dev, second.bus.trace, b.slow, half);
      AnswersAtShift(first.val + second.val, spare.val, dev, spare.bus.trace, b.slow, g.oobSize);
      Io(spare.bus, first.val + second.val + spare.val)
  }

  /** What a small-page `read_page` returns after bus state `b`: the first half
      answers READ0, the second half READ1, and then the spare area READOOB. */
  predicate SmallContents(g: Geometry, b: Bus, dev: Device, page: nat, removeOob: bool, val: seq<byte>)
  {
    var half := g.pageSize / 2;
    var p := b.writeProtect;
    var t1 := AfterAccess(g, b.trace, p, Read0, page, half);
    var t2 := AfterAccess(g, t1, p, Read1, page, half);
    && AnswersAt(val, 0, dev, t1, b.slow, half)
    && AnswersAt(val, half, dev, t2, b.slow, half)
    && (!removeOob ==> AnswersAt(val, 2 * half, dev, AfterAccess(g, t2, p, ReadOob, page, g.oobSize), b.slow, g.oobSize))
  }

  /** What `read_page` returns after bus state `b`: every byte is the chip's
      answer to the read request that fetched it, in address order. */
  predicate PageContents(g: Geometry, b: Bus, dev: Device, page: nat, removeOob: bool, val: seq<byte>)
  {
    if g.LargePage(b.defs) then
      var length := PageReadLength(g, b.defs, removeOob);
      var t0 := b.trace + LargeHeader(g, page, b.writeProtect);
      if g.pageSize > ChunkLength then ChunkedAnswers(dev, t0, b.slow, length, val)
      else AnswersAt(val, 0, dev, t0 + [DataIn(length)], b.slow, length)
    else SmallContents(g, b, dev, page, removeOob, val)
  }

  /** `read_page(pageno, remove_oob)`. */
  function ReadPage(g: Geometry, b: Bus, dev: Device, page: nat, removeOob: bool): (r: Io<seq<byte>>)
    requires g.addrCycles > 0
    ensures r.bus.Extends(b)
    ensures |r.val| == PageReadLength(g, b.defs, removeOob)
    ensures r.bus.Since(b) == ReadPageTxns(g, b.defs, b.writeProtect, page, removeOob)
    ensures PageContents(g, b, dev, page, removeOob, r.val)
  {
    if g.LargePage(b.defs) then ReadPageLarge(g, b, dev, page, PageReadLength(g, b.defs, removeOob))
    else ReadPageSmall(g, b, dev, page, removeOob)
  }

  /** `read_page_from_block(pageno, blockno, remove_oob)`: the page at flat index
      `blockno * PagePerBlock + pageno`. On a large-page part with five cycles the
      row latched decodes back to exactly that block and page. */
  function ReadPageFromBlock(g: Geometry, b: Bus, dev: Device, page: nat, block: nat, removeOob: bool): (r: Io<seq<byte>>)
    requires g.addrCycles > 0
    ensures r == ReadPage(g, b, dev, PageIndex(g, block, page), removeOob)
    ensures g.LargePage(b.defs) && g.addrCycles == 5 && page < g.pagePerBlock && PageIndex(g, block, page) < 0x100_0000 ==>
              var row := FromLittleEndian(r.bus.Since(b)[1].cycles) / 0x1_0000;
              row / g.pagePerBlock == block && row % g.pagePerBlock == page
  {
    var r := ReadPage(g, b, dev, PageIndex(g, block, page), removeOob);
    assert g.LargePage(b.defs) && g.addrCycles == 5 && page < g.pagePerBlock && PageIndex(g, block, page) < 0x100_0000 ==>
              var row := FromLittleEndian(r.bus.Since(b)[1].cycles) / 0x1_0000;
              row / g.pagePerBlock == block && row % g.pagePerBlock == page by {
      if g.LargePage(b.defs) && g.addrCycles == 5 && page < g.pagePerBlock && PageIndex(g, block, page) < 0x100_0000 {
        LargePageCycles(PageIndex(g, block, page));
        PageIndexRoundTrip(g, block, page);
      }
    }
    r
  }

  /** The spare byte `check_bad_blocks` inspects exists in a full page read. */
  predicate MarkerReadable(g: Geometry, d: Defs)
  {
    g.pageSize < PageReadLength(g, d, false)
  }

  /** Block `block` is marked bad: the first spare byte of its first page, read
      with the bus in state `b`, is not 0xFF. */
  predicate MarkedBad(g: Geometry, b: Bus, dev: Device, block: nat)
    requires g.addrCycles > 0 && MarkerReadable(g, b.defs)
  {
    ReadPage(g, b, dev, block * g.pagePerBlock, false).val[g.pageSize] != 0xFF
  }

  /** Read the first page of `block` and test its marker. */
  function ProbeMarker(g: Geometry, b: Bus, dev: Device, block: nat): (r: Io<bool>)
    requires g.addrCycles > 0 && MarkerReadable(g, b.defs)
    ensures r.bus.Extends(b)
    ensures r.bus.Since(b) == ReadPageTxns(g, b.defs, b.writeProtect, block * g.pagePerBlock, false)
    ensures r.val == MarkedBad(g, b, dev, block)
  {
    var first := ReadPage(g, b, dev, block * g.pagePerBlock, false);
    Io(first.bus, first.val[g.pageSize] != 0xFF)
  }

  /** Something that inspects one block with the bus in a given state and says whether it is marked. */
  type Probe = (Bus, nat) -> Io<bool>

  /** The probe only ever adds to the trace. */
  ghost predicate Advances(probe: Probe)
  {
    forall bb: Bus, k: nat :: probe(bb, k).bus.Extends(bb)
  }

  /** The scan loop of `check_bad_blocks` over blocks 0 .. n-1: probe each block
      in turn and list the marked ones. */
  function Scan(probe: Probe, b: Bus, n: nat): (r: Io<seq<nat>>)
    ensures Advances(probe) ==> r.bus.Extends(b)
    ensures forall i, j :: 0 <= i < j < |r.val| ==> r.val[i] < r.val[j]
    ensures forall i :: 0 <= i < |r.val| ==> r.val[i] < n
  {
    if n == 0 then Io(b, [])
    else
      var prev := Scan(probe, b, n - 1);
      var here := probe(prev.bus, n - 1);
      assert Advances(probe) ==> here.bus.Extends(b) by {
        if Advances(probe) {
          ExtendsTrans(b, prev.bus, here.bus);
        }
      }
      Io(here.bus, if here.val then prev.val + [n - 1] else prev.val)
  }

  /** A block is listed exactly when the probe, run at its turn in the scan, marks it. */
  lemma {:induction false} ScanExact(probe: Probe, b: Bus, n: nat, blk: nat)
    ensures blk in Scan(probe, b, n).val <==> blk < n && probe(Scan(probe, b, blk).bus, blk).val
  {
    if n > 0 {
      var prev := Scan(probe, b, n - 1);
      var here := probe(prev.bus, n - 1);
      assert Scan(probe, b, n).val == if here.val then prev.val + [n - 1] else prev.val;
      if blk < n - 1 {
        ScanExact(probe, b, n - 1, blk);
      } else if blk == n - 1 {
        assert blk !in prev.val;
      }
    }
  }

  /** The probe `check_bad_blocks` runs: read the block's first page and test its marker. */
  function MarkerProbe(g: Geometry, dev: Device): (probe: Probe)
    requires g.addrCycles > 0
    ensures Advances(probe)
    ensures forall bb: Bus, k: nat :: MarkerReadable(g, bb.defs) ==> probe(bb, k).val == MarkedBad(g, bb, dev, k)
  {
    (bb: Bus, k: nat) => if MarkerReadable(g, bb.defs) then ProbeMarker(g, bb, dev, k) else Io(bb, false)
  }

  /** `check_bad_blocks`: the blocks whose first page carries a bad-block marker, ascending. */
  function CheckBadBlocks(g: Geometry, b: Bus, dev: Device): (r: Io<seq<nat>>)
    requires g.addrCycles > 0
    requires g.BlockCount() == 0 || MarkerReadable(g, b.defs)
    ensures r.bus.Extends(b)
    ensures r.bus.Since(b) == BadBlockScript(g, b.defs, b.writeProtect, g.BlockCount())
    ensures forall i, j :: 0 <= i < j < |r.val| ==> r.val[i] < r.val[j]
    ensures forall i :: 0 <= i < |r.val| ==> r.val[i] < g.BlockCount()
  {
    MarkerScanScript(g, b, dev, g.BlockCount());
    Scan(MarkerProbe(g, dev), b, g.BlockCount())
  }

  /** The transactions of a scan over blocks 0 .. n-1 whose probe of block
      `k` issues `step(k)`, block 0 first. */
  function ScanTxns(step: nat -> seq<Txn>, n: nat): seq<Txn>
  {
    if n == 0 then [] else ScanTxns(step, n - 1) + step(n - 1)
  }

  /** The transactions of `check_bad_blocks` over blocks 0 .. n-1: a full
      `read_page` of each block's first page, block 0 first. */
  function BadBlockScript(g: Geometry, d: Defs, p: bool, n: nat): seq<Txn>
  {
    ScanTxns(FirstPageReads(g, d, p), n)
  }

  /** Block `k`'s share of `check_bad_blocks`: a full `read_page` of its first page. */
  function FirstPageReads(g: Geometry, d: Defs, p: bool): nat -> seq<Txn>
  {
    (k: nat) => ReadPageTxns(g, d, p, k * g.pagePerBlock, false)
  }

  /** On a bus with these definitions and this write-protect flag, the probe
      of block `k` issues exactly `step(k)`. */
  ghost predicate ProbeIssues(probe: Probe, d: Defs, p: bool, step: nat -> seq<Txn>)
  {
    forall bb: Bus, k: nat :: bb.defs == d && bb.writeProtect == p ==>
      && probe(bb, k).bus.Extends(bb)
      && probe(bb, k).bus.Since(bb) == step(k)
  }

  /** A scan whose probe issues `step(k)` for block `k` issues exactly `ScanTxns`. */
  lemma {:induction false} ScanScript(probe: Probe, b: Bus, step: nat -> seq<Txn>, n: nat)
    requires Advances(probe) && ProbeIssues(probe, b.defs, b.writeProtect, step)
    ensures Scan(probe, b, n).bus.Since(b) == ScanTxns(step, n)
  {
    if n > 0 {
      ScanScript(probe, b, step, n - 1);
      ScanScriptStep(probe, b, step, n);
    }
  }

  /** The scan of `n` blocks is the scan of the first `n - 1` followed by the last block's probe. */
  lemma ScanScriptStep(probe: Probe, b: Bus, step: nat -> seq<Txn>, n: nat)
    requires n > 0
    requires Advances(probe) && ProbeIssues(probe, b.defs, b.writeProtect, step)
    requires Scan(probe, b, n - 1).bus.Since(b) == ScanTxns(step, n - 1)
    ensures Scan(probe, b, n).bus.Since(b) == ScanTxns(step, n)
  {
    var prev := Scan(probe, b, n - 1).bus;
    ScanLast(probe, b, n);
    ExtendsTrans(b, prev, probe(prev, n - 1).bus);
  }

  /** The scan `check_bad_blocks` runs over blocks 0 .. n-1 issues exactly `BadBlockScript`. */
  lemma MarkerScanScript(g: Geometry, b: Bus, dev: Device, n: nat)
    requires g.addrCycles > 0
    requires n == 0 || MarkerReadable(g, b.defs)
    ensures Scan(MarkerProbe(g, dev), b, n).bus.Since(b) == BadBlockScript(g, b.defs, b.writeProtect, n)
  {
    if n > 0 {
      MarkerProbeIssues(g, dev, b.defs, b.writeProtect);
      ScanScript(MarkerProbe(g, dev), b, FirstPageReads(g, b.defs, b.writeProtect), n);
    }
  }

  /** Where the marker is readable, the marker probe of block `k` is a full
      `read_page` of that block's first page. */
  lemma MarkerProbeIssues(g: Geometry, dev: Device, d: Defs, p: bool)
    requires g.addrCycles > 0 && MarkerReadable(g, d)
    ensures ProbeIssues(MarkerProbe(g, dev), d, p, FirstPageReads(g, d, p))
  {
    forall bb: Bus, k: nat | bb.defs == d && bb.writeProtect == p
      ensures MarkerProbe(g, dev)(bb, k).bus.Extends(bb)
      ensures MarkerProbe(g, dev)(bb, k).bus.Since(bb) == FirstPageReads(g, d, p)(k)
    {
      assert MarkerProbe(g, dev)(bb, k) == ProbeMarker(g, bb, dev, k);
    }
  }

  /** The last block's probe starts where the scan of the blocks before it left the bus. */
  lemma ScanLast(probe: Probe, b: Bus, n: nat)
    requires n > 0
    ensures Scan(probe, b, n).bus == probe(Scan(probe, b, n - 1).bus, n - 1).bus
  {
  }

  /** The bus as the scan leaves it just before probing block `blk`. */
  function ScanState(g: Geometry, b: Bus, dev: Device, blk: nat): (r: Bus)
    requires g.addrCycles > 0
    ensures r.Extends(b)
  {
    Scan(MarkerProbe(g, dev), b, blk).bus
  }

  /** `check_bad_blocks` lists a block exactly when it is one of the chip's blocks
      and the first spare byte of its first page, read at its turn, is not 0xFF. */
  lemma CheckBadBlocksExact(g: Geometry, b: Bus, dev: Device, blk: nat)
    requires g.addrCycles > 0
    requires g.BlockCount() == 0 || MarkerReadable(g, b.defs)
    ensures blk in CheckBadBlocks(g, b, dev).val <==>
              blk < g.BlockCount() && MarkedBad(g, ScanState(g, b, dev, blk), dev, blk)
  {
    ScanExact(MarkerProbe(g, dev), b, g.BlockCount(), blk);
  }

  /** An erased chip: every byte it answers is 0xFF. */
  ghost predicate Blank(dev: Device)
  {
    forall t, i :: dev(t, i) == 0xFF
  }

  /** Every byte is 0xFF. */
  predicate AllFF(s: seq<byte>)
  {
    forall i :: 0 <= i < |s| ==> s[i] == 0xFF
  }

  lemma AllFFAppend(x: seq<byte>, y: seq<byte>)
    requires AllFF(x) && AllFF(y)
    ensures AllFF(x + y)
  {
    forall i | 0 <= i < |x + y|
      ensures (x + y)[i] == 0xFF
    {
      if i >= |x| {
        assert (x + y)[i] == y[i - |x|];
      }
    }
  }

  /** One plain read from an erased chip returns only 0xFF. */
  lemma ReadDataBlank(b: Bus, dev: Device, count: nat)
    requires Blank(dev)
    ensures AllFF(ReadData(b, dev, count).val)
  {
    var r := ReadData(b, dev, count);
    forall i | 0 <= i < count
      ensures r.val[i] == 0xFF
    {
      assert r.val[i] == dev(r.bus.trace, if b.slow then 2 * i else i);
    }
  }

  /** A chunked read is its first chunk followed by the chunked read of the rest. */
  lemma ReadChunksSplit(b: Bus, dev: Device, length: nat)
    requires length > 0
    ensures var n := if length < ChunkLength then length else ChunkLength;
            var first := ReadData(b, dev, n);
            ReadChunks(b, dev, length).val == first.val + ReadChunks(first.bus, dev, length - n).val
  {
  }

  lemma {:induction false} ReadChunksBlank(b: Bus, dev: Device, length: nat)
    requires Blank(dev)
    ensures AllFF(ReadChunks(b, dev, length).val)
    decreases length
  {
    if length > 0 {
      var n := if length < ChunkLength then length else ChunkLength;
      var first := ReadData(b, dev, n);
      var rest := ReadChunks(first.bus, dev, length - n);
      ReadDataBlank(b, dev, n);
      ReadChunksBlank(first.bus, dev, length - n);
      ReadChunksSplit(b, dev, length);
      AllFFAppend(first.val, rest.val);
    }
  }

  lemma ReadPartBlank(g: Geometry, b: Bus, dev: Device, c: NandCmd, page: nat, count: nat)
    requires g.addrCycles > 0 && Blank(dev)
    ensures AllFF(ReadPart(g, b, dev, c, page, count).val)
  {
    ReadDataBlank(Wait(SendAddress(Wait(SendCmd(b, c)), SmallPageAddress(page), g.addrCycles)), dev, count);
  }

  /** Every byte `read_page` returns from an erased chip is 0xFF, in either addressing mode. */
  lemma ReadPageBlank(g: Geometry, b: Bus, dev: Device, page: nat, removeOob: bool)
    requires g.addrCycles > 0 && Blank(dev)
    ensures AllFF(ReadPage(g, b, dev, page, removeOob).val)
  {
    if g.LargePage(b.defs) {
      var b1 := StartLargeRead(g, b, page);
      var length := PageReadLength(g, b.defs, removeOob);
      if g.pageSize > ChunkLength {
        ReadChunksBlank(b1, dev, length);
      } else {
        ReadDataBlank(b1, dev, length);
      }
    } else {
      var first := ReadPart(g, b, dev, Read0, page, g.pageSize / 2);
      var second := ReadPart(g, first.bus, dev, Read1, page, g.pageSize / 2);
      ReadPartBlank(g, b, dev, Read0, page, g.pageSize / 2);
      ReadPartBlank(g, first.bus, dev, Read1, page, g.pageSize / 2);
      AllFFAppend(first.val, second.val);
      if !removeOob {
        ReadPartBlank(g, second.bus, dev, ReadOob, page, g.oobSize);
        AllFFAppend(first.val + second.val, ReadPart(g, second.bus, dev, ReadOob, page, g.oobSize).val);
      }
    }
  }

  /** On an erased chip `check_bad_blocks` finds no bad block. */
  lemma CheckBadBlocksBlank(g: Geometry, b: Bus, dev: Device)
    requires g.addrCycles > 0
    requires g.BlockCount() == 0 || MarkerReadable(g, b.defs)
    requires Blank(dev)
    ensures CheckBadBlocks(g, b, dev).val == []
  {
    var r := CheckBadBlocks(g, b, dev);
    if |r.val| > 0 {
      var blk := r.val[0];
      CheckBadBlocksExact(g, b, dev, blk);
      ReadPageBlank(g, ScanState(g, b, dev, blk), dev, blk * g.pagePerBlock, false);
      assert false;
    }
  }

  /** What `read_seq` issues per page: a read of one raw page, then a wait for ready. */
  function SeqStep(g: Geometry): seq<Txn>
  {
    [DataIn(g.RawPageSize()), WaitReady]
  }

  /** The sequential read of `n` pages: back-to-back raw page reads, each
      followed by a wait. Page i is the chip's answer to the i-th read request. */
  function SeqPages(g: Geometry, b: Bus, dev: Device, n: nat): (r: Io<seq<seq<byte>>>)
    ensures r.bus.Extends(b) && r.bus.Since(b) == Repeat(SeqStep(g), n)
    ensures |r.val| == n
    ensures forall i :: 0 <= i < n ==> |r.val[i]| == g.RawPageSize()
    ensures forall i :: 0 <= i < n ==>
              AnswersAt(r.val[i], 0, dev, b.trace + Repeat(SeqStep(g), i) + [DataIn(g.RawPageSize())], b.slow, g.RawPageSize())
    decreases n
  {
    if n == 0 then Io(b, [])
    else
      var pg := ReadData(b, dev, g.RawPageSize());
      var w := Wait(pg.bus);
      ExtendsTrans(b, pg.bus, w);
      var rest := SeqPages(g, w, dev, n - 1);
      ExtendsTrans(b, w, rest.bus);
      assert w.trace == b.trace + SeqStep(g);
      SeqPagesShift(g, b.trace, w.trace, dev, b.slow, pg.val, rest.val);
      Io(rest.bus, [pg.val] + rest.val)
  }

  /** The first page read after `t`, then the pages read after one more step. */
  lemma SeqPagesShift(g: Geometry, t: seq<Txn>, t': seq<Txn>, dev: Device, slow: bool, first: seq<byte>, rest: seq<seq<byte>>)
    requires t' == t + SeqStep(g)
    requires AnswersAt(first, 0, dev, t + [DataIn(g.RawPageSize())], slow, g.RawPageSize())
    requires forall i :: 0 <= i < |rest| ==>
               AnswersAt(rest[i], 0, dev, t' + Repeat(SeqStep(g), i) + [DataIn(g.RawPageSize())], slow, g.RawPageSize())
    ensures forall i :: 0 <= i < |rest| + 1 ==>
              AnswersAt(([first] + rest)[i], 0, dev, t + Repeat(SeqStep(g), i) + [DataIn(g.RawPageSize())], slow, g.RawPageSize())
  {
    forall i | 0 <= i < |rest| + 1
      ensures AnswersAt(([first] + rest)[i], 0, dev, t + Repeat(SeqStep(g), i) + [DataIn(g.RawPageSize())], slow, g.RawPageSize())
    {
      if i == 0 {
        assert t + Repeat(SeqStep(g), 0) == t;
      } else {
        assert ([first] + rest)[i] == rest[i - 1];
        assert t + Repeat(SeqStep(g), i) == t' + Repeat(SeqStep(g), i - 1);
      }
    }
  }

  /** READ0, wait, the row `pageno << 8`, wait: the opening of `read_seq`. */
  function SeqHeader(g: Geometry, page: nat, p: bool): seq<Txn>
  {
    [Cmd(Read0, p), WaitReady, Addr(AddressCycles(SmallPageAddress(page), g.addrCycles), p), WaitReady]
  }

  /** The bus-side half of `read_seq`: READ0 and the block's row address, then
      every page of the block, page i being the answer to the i-th page read. */
  function SeqBlock(g: Geometry, b: Bus, dev: Device, page: nat): (r: Io<seq<seq<byte>>>)
    requires g.addrCycles > 0
    ensures r.bus.Extends(b)
    ensures r.bus.Since(b) == SeqHeader(g, page, b.writeProtect) + Repeat(SeqStep(g), g.pagePerBlock)
    ensures |r.val| == g.pagePerBlock
    ensures forall i :: 0 <= i < |r.val| ==> |r.val[i]| == g.RawPageSize()
    ensures forall i :: 0 <= i < |r.val| ==>
              AnswersAt(r.val[i], 0, dev, b.trace + SeqHeader(g, page, b.writeProtect) + Repeat(SeqStep(g), i) + [DataIn(g.RawPageSize())],
                        b.slow, g.RawPageSize())
  {
    var h := Wait(SendAddress(Wait(SendCmd(b, Read0)), SmallPageAddress(page), g.addrCycles));
    assert h.trace == b.trace + SeqHeader(g, page, b.writeProtect);
    var r := SeqPages(g, h, dev, g.pagePerBlock);
    ExtendsTrans(b, h, r.bus);
    r
  }

  /** The marker `read_seq` checks: byte `PageSize + 5` of the first or second page is not 0xFF. */
  predicate SeqMarkedBad(g: Geometry, pages: seq<seq<byte>>)
    requires forall i :: 0 <= i < |pages| ==> |pages[i]| > g.pageSize + 5
  {
    (|pages| > 0 && pages[0][g.pageSize + 5] != 0xFF) || (|pages| > 1 && pages[1][g.pageSize + 5] != 0xFF)
  }

  /** The pages, each cut to its first `w` bytes, one after the other. */
  function Concat(pages: seq<seq<byte>>, w: nat): (r: seq<byte>)
    requires forall i :: 0 <= i < |pages| ==> |pages[i]| >= w
    ensures |r| == |pages| * w
  {
    if |pages| == 0 then []
    else
      var n := |pages|;
      assert (n - 1) * w + w == n * w;
      Concat(pages[..n - 1], w) + pages[n - 1][..w]
  }

  /** Byte j of page i sits at offset `i * w + j` of the concatenation. */
  lemma {:induction false} ConcatAt(pages: seq<seq<byte>>, w: nat, i: nat, j: nat)
    requires forall i :: 0 <= i < |pages| ==> |pages[i]| >= w
    requires i < |pages| && j < w
    ensures i * w + j < |pages| * w
    ensures Concat(pages, w)[i * w + j] == pages[i][j]
  {
    var n := |pages|;
    var prefix := Concat(pages[..n - 1], w);
    assert Concat(pages, w) == prefix + pages[n - 1][..w];
    if i < n - 1 {
      MulMono(i, n - 1, w);
      ConcatAt(pages[..n - 1], w, i, j);
    } else {
      assert i * w + j == |prefix| + j;
    }
  }

  /** `out` holds the first `w` bytes of each page, page after page: byte j of
      page i is byte `i * w + j` of `out`. */
  predicate LaidOut(out: seq<byte>, pages: seq<seq<byte>>, w: nat)
  {
    && |out| == |pages| * w
    && forall i, j :: 0 <= i < |pages| && 0 <= j < w && j < |pages[i]| && i * w + j < |out| ==>
         out[i * w + j] == pages[i][j]
  }

  /** The concatenation lays the pages out one after the other. */
  lemma ConcatLaidOut(pages: seq<seq<byte>>, w: nat)
    requires forall i :: 0 <= i < |pages| ==> |pages[i]| >= w
    ensures LaidOut(Concat(pages, w), pages, w)
  {
    var out := Concat(pages, w);
    forall i, j | 0 <= i < |pages| && 0 <= j < w && j < |pages[i]| && i * w + j < |out|
      ensures out[i * w + j] == pages[i][j]
    {
      ConcatAt(pages, w, i, j);
    }
  }

  /** Bytes per page `read_seq` keeps. */
  function SeqWidth(g: Geometry, removeOob: bool): nat
  {
    if removeOob then g.pageSize else g.RawPageSize()
  }

  /** `read_seq(pageno, remove_oob, raw_mode)`: all pages of the block or nothing.
      When the first two pages carry no marker, or raw mode ignores it, the
      result is every page (cut to the data area when `remove_oob`) in order;
      otherwise the whole block is discarded. */
  function ReadSeq(g: Geometry, b: Bus, dev: Device, page: nat, removeOob: bool, rawMode: bool): (r: Io<seq<byte>>)
    requires g.addrCycles > 0
    requires g.pagePerBlock == 0 || g.pageSize + 5 < g.RawPageSize()
    ensures r.bus.Extends(b)
    ensures r.bus.Since(b) == SeqHeader(g, page, b.writeProtect) + Repeat(SeqStep(g), g.pagePerBlock)
    ensures r.val == [] || |r.val| == g.pagePerBlock * SeqWidth(g, removeOob)
    ensures var pages := SeqBlock(g, b, dev, page).val;
            && (!rawMode && SeqMarkedBad(g, pages) ==> r.val == [])
            && (rawMode || !SeqMarkedBad(g, pages) ==>
                  && |r.val| == g.pagePerBlock * SeqWidth(g, removeOob)
                  && LaidOut(r.val, pages, SeqWidth(g, removeOob)))
  {
    var blk := SeqBlock(g, b, dev, page);
    var w := SeqWidth(g, removeOob);
    if !rawMode && SeqMarkedBad(g, blk.val) then Io(blk.bus, [])
    else
      var out := Concat(blk.val, w);
      ConcatLaidOut(blk.val, w);
      Io(blk.bus, out)
  }
}
