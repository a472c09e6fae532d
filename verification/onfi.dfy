/** Device identification: the READ-ID probes, the ONFI parameter page
    (section 5.7.1 of the ONFI 3.0 specification) and the geometry decoded from it. */
module Onfi {
  import opened Bytes
  import opened FlashDefs
  import opened Bus

  const ParameterPageLength: nat := 0x100

  /** "ONFI" in ASCII, answered at READ-ID address 0x20 and opening the parameter page. */
  const OnfiSignature: seq<byte> := [0x4F, 0x4E, 0x46, 0x49]

  /** The engine always addresses ONFI parts with five cycles, whatever byte 101 says. */
  const OnfiAddressCycles: nat := 5

  /** The geometry identification fills in. Sizes the code stores as
      separate attributes but only ever derives are member functions. */
  datatype Geometry = Geometry(
    idString: seq<byte>,     // bytes 44..63: device manufacturer string and model
    id: byte,                // byte 64: JEDEC manufacturer id
    manufacturer: string,    // vendor name looked up from the first READ-ID byte
    pageSize: nat,           // bytes 80..83: data bytes per page
    oobSize: nat,            // bytes 84..85: spare bytes per page
    pagePerBlock: nat,       // bytes 92..95
    blockPerLun: nat,        // bytes 96..99
    luns: nat,               // byte 100
    bitsPerCell: byte,       // byte 102
    options: bv32,           // 1 after ONFI identification
    addrCycles: nat)         // 5 after ONFI identification
  {
    function RawPageSize(): nat
    {
      pageSize + oobSize
    }

    /** Bytes per block including spare areas; the code also calls it the erase size. */
    function BlockSize(): nat
    {
      pagePerBlock * RawPageSize()
    }

    function BlockCount(): nat
    {
      luns * blockPerLun
    }

    function PageCount(): nat
    {
      BlockCount() * pagePerBlock
    }

    function ChipSizeMB(): nat
    {
      PageCount() * RawPageSize() / 0x10_0000
    }

    /** `Options & LP_OPTIONS`: large-page addressing with READ-START and 0x1000-byte chunks. */
    predicate LargePage(d: Defs)
    {
      options & d.lpOptions != 0
    }
  }

  /** The vendor names the engine knows, by first READ-ID byte. */
  const Vendors: map<byte, string> := map[
    0x98 := "Toshiba", 0xEC := "Samsung", 0x04 := "Fujitsu", 0x8F := "National Semiconductors",
    0x07 := "Renesas", 0x20 := "ST Micro", 0xAD := "Hynix", 0x2C := "Micron",
    0x01 := "AMD", 0xC2 := "Macronix"]

  /** The vendor name for a manufacturer byte, "Unknown" for any byte not in the table. */
  function Manufacturer(id: byte): (name: string)
    ensures name == if id in Vendors then Vendors[id] else "Unknown"
    ensures name == "Unknown" <==> id !in Vendors
  {
    if id == 0x98 then "Toshiba"
    else if id == 0xEC then "Samsung"
    else if id == 0x04 then "Fujitsu"
    else if id == 0x8F then "National Semiconductors"
    else if id == 0x07 then "Renesas"
    else if id == 0x20 then "ST Micro"
    else if id == 0xAD then "Hynix"
    else if id == 0x2C then "Micron"
    else if id == 0x01 then "AMD"
    else if id == 0xC2 then "Macronix"
    else "Unknown"
  }

  /** Decode the fixed-offset little-endian fields of a parameter page. Byte 101
      (the page's own address-cycle count) is not consulted: five cycles are used. */
  function ParseParameterPage(page: seq<byte>, manufacturer: string): (g: Geometry)
    requires |page| == ParameterPageLength
    ensures g.pageSize == FromLittleEndian(page[80..84])
    ensures g.oobSize == FromLittleEndian(page[84..86])
    ensures g.pagePerBlock == FromLittleEndian(page[92..96])
    ensures g.blockPerLun == FromLittleEndian(page[96..100])
    ensures g.luns == page[100] as nat && g.bitsPerCell == page[102]
    ensures g.idString == page[44..64] && g.id == page[64] && g.manufacturer == manufacturer
    ensures g.addrCycles == OnfiAddressCycles && g.options == 1
  {
    LittleEndian4(page[80..84]);
    LittleEndian2(page[84..86]);
    LittleEndian4(page[92..96]);
    LittleEndian4(page[96..100]);
    Geometry(
      idString := page[44..64],
      id := page[64],
      manufacturer := manufacturer,
      pageSize := page[80] as nat + 256 * page[81] as nat + 256 * 256 * page[82] as nat + 256 * 256 * 256 * page[83] as nat,
      oobSize := page[84] as nat + 256 * page[85] as nat,
      pagePerBlock := page[92] as nat + 256 * page[93] as nat + 256 * 256 * page[94] as nat + 256 * 256 * 256 * page[95] as nat,
      blockPerLun := page[96] as nat + 256 * page[97] as nat + 256 * 256 * page[98] as nat + 256 * 256 * 256 * page[99] as nat,
      luns := page[100] as nat,
      bitsPerCell := page[102],
      options := 1,
      addrCycles := OnfiAddressCycles)
  }

  /** A geometry whose fields fit the widths the parameter page gives them. */
  predicate Encodable(g: Geometry)
  {
    && |g.idString| == 20
    && g.pageSize < 0x1_0000_0000 && g.oobSize < 0x1_0000
    && g.pagePerBlock < 0x1_0000_0000 && g.blockPerLun < 0x1_0000_0000
    && g.luns < 0x100
    && g.options == 1 && g.addrCycles == OnfiAddressCycles
  }

  /** Byte i of the parameter page describing `g`, with `cycles` at byte 101
      and zero in every field the engine does not read. */
  function PageByte(g: Geometry, cycles: byte, i: nat): byte
    requires Encodable(g)
  {
    if i < 4 then OnfiSignature[i]
    else if 44 <= i < 64 then g.idString[i - 44]
    else if i == 64 then g.id
    else if 80 <= i < 84 then AddressCycles(g.pageSize, 4)[i - 80]
    else if 84 <= i < 86 then AddressCycles(g.oobSize, 2)[i - 84]
    else if 92 <= i < 96 then AddressCycles(g.pagePerBlock, 4)[i - 92]
    else if 96 <= i < 100 then AddressCycles(g.blockPerLun, 4)[i - 96]
    else if i == 100 then g.luns as byte
    else if i == 101 then cycles
    else if i == 102 then g.bitsPerCell
    else 0
  }

  /** The parameter page a device with geometry `g` presents. */
  function ParameterPage(g: Geometry, cycles: byte): (page: seq<byte>)
    requires Encodable(g)
    ensures |page| == ParameterPageLength
  {
    seq(ParameterPageLength, i requires 0 <= i < ParameterPageLength => PageByte(g, cycles, i))
  }

  lemma Pow256Values()
    ensures Pow256(2) == 0x1_0000 && Pow256(4) == 0x1_0000_0000
  {
    assert Pow256(1) == 256;
    assert Pow256(3) == 0x100_0000;
  }

  /** Parsing the page a geometry presents gives the geometry back, whatever byte 101 holds. */
  lemma ParseParameterPageRoundTrip(g: Geometry, cycles: byte)
    requires Encodable(g)
    ensures ParseParameterPage(ParameterPage(g, cycles), g.manufacturer) == g
  {
    var page := ParameterPage(g, cycles);
    var h := ParseParameterPage(page, g.manufacturer);
    Pow256Values();
    assert page[80..84] == AddressCycles(g.pageSize, 4);
    AddressCyclesRoundTrip(g.pageSize, 4);
    assert page[84..86] == AddressCycles(g.oobSize, 2);
    AddressCyclesRoundTrip(g.oobSize, 2);
    assert page[92..96] == AddressCycles(g.pagePerBlock, 4);
    AddressCyclesRoundTrip(g.pagePerBlock, 4);
    assert page[96..100] == AddressCycles(g.blockPerLun, 4);
    AddressCyclesRoundTrip(g.blockPerLun, 4);
    assert page[44..64] == g.idString;
  }

  /** The outcome of identification: a geometry, or the signature was missing. */
  datatype Identification = Identified(bus: Bus, geometry: Geometry) | NotOnfi(bus: Bus)

  /** READ-ID latched with the one-cycle address `addr`, then a read of `count` bytes. */
  function IdRequest(p: bool, addr: nat, count: nat): seq<Txn>
  {
    [Cmd(ReadId, p), Addr(AddressCycles(addr, 1), p), DataIn(count)]
  }

  /** READ-PARAMETER-PAGE at address 0, a wait for ready, and a read of the whole page. */
  function PageRequest(p: bool): seq<Txn>
  {
    [Cmd(ReadParameterPage, p), Addr(AddressCycles(0, 1), p), WaitReady, DataIn(ParameterPageLength)]
  }

  /** The `count` bytes the device answered to the request `req` issued after `t`. */
  predicate Answered(val: seq<byte>, dev: Device, t: seq<Txn>, slow: bool, req: seq<Txn>, count: nat)
  {
    |val| == count && forall i :: 0 <= i < count ==> val[i] == Answer(dev, t + req, slow, i)
  }

  /** READ-ID at address 0: eight identifier bytes. */
  function ProbeId(b: Bus, dev: Device): (r: Io<seq<byte>>)
    ensures r.bus == b.(trace := b.trace + IdRequest(b.writeProtect, 0, 8))
    ensures Answered(r.val, dev, b.trace, b.slow, IdRequest(b.writeProtect, 0, 8), 8)
  {
    var r := ReadData(SendAddress(SendCmd(b, ReadId), 0, 1), dev, 8);
    assert r.bus.trace == b.trace + IdRequest(b.writeProtect, 0, 8);
    r
  }

  /** READ-ID at address 0x20: the four signature bytes. */
  function ProbeSignature(b: Bus, dev: Device): (r: Io<seq<byte>>)
    ensures r.bus == b.(trace := b.trace + IdRequest(b.writeProtect, 0x20, 4))
    ensures Answered(r.val, dev, b.trace, b.slow, IdRequest(b.writeProtect, 0x20, 4), 4)
  {
    var r := ReadData(SendAddress(SendCmd(b, ReadId), 0x20, 1), dev, 4);
    assert r.bus.trace == b.trace + IdRequest(b.writeProtect, 0x20, 4);
    r
  }

  /** READ-PARAMETER-PAGE at address 0, wait for ready, 256 bytes. */
  function FetchParameterPage(b: Bus, dev: Device): (r: Io<seq<byte>>)
    ensures r.bus == b.(trace := b.trace + PageRequest(b.writeProtect))
    ensures Answered(r.val, dev, b.trace, b.slow, PageRequest(b.writeProtect), ParameterPageLength)
  {
    var r := ReadData(Wait(SendAddress(SendCmd(b, ReadParameterPage), 0, 1)), dev, ParameterPageLength);
    assert r.bus.trace == b.trace + PageRequest(b.writeProtect);
    r
  }

  /** `__get_id`. Identification succeeds exactly when the four bytes read at
      READ-ID address 0x20 spell "ONFI" and so do the first four bytes of the
      parameter page; the geometry is then decoded from that page. The code
      computes the second comparison between bytes and a list (always false)
      and never uses it; here it is the check the code evidently means. */
  function Identify(b: Bus, dev: Device): (r: Identification)
    ensures var ids := ProbeId(b, dev);
            var sig := ProbeSignature(ids.bus, dev);
            var page := FetchParameterPage(sig.bus, dev);
            && (r.Identified? <==> sig.val == OnfiSignature && page.val[..4] == OnfiSignature)
            && (r.Identified? ==> r.bus == page.bus
                                  && r.geometry == ParseParameterPage(page.val, Manufacturer(ids.val[0])))
            && (r.NotOnfi? && sig.val != OnfiSignature ==> r.bus == sig.bus)
            && (r.NotOnfi? && sig.val == OnfiSignature ==> r.bus == page.bus)
  {
    var ids := ProbeId(b, dev);
    var sig := ProbeSignature(ids.bus, dev);
    if sig.val != OnfiSignature then NotOnfi(sig.bus)
    else
      var page := FetchParameterPage(sig.bus, dev);
      if page.val[..4] != OnfiSignature then NotOnfi(page.bus)
      else Identified(page.bus, ParseParameterPage(page.val, Manufacturer(ids.val[0])))
  }

  /** A device that answers "ONFI" to every signature probe and presents the
      parameter page of `g` to every page read. */
  ghost predicate ServesOnfi(dev: Device, slow: bool, g: Geometry, cycles: byte)
    requires Encodable(g)
  {
    && (forall t: seq<Txn>, p: bool, i: nat :: i < 4 ==>
          Answer(dev, t + IdRequest(p, 0x20, 4), slow, i) == OnfiSignature[i])
    && (forall t: seq<Txn>, p: bool, i: nat :: i < ParameterPageLength ==>
          Answer(dev, t + PageRequest(p), slow, i) == ParameterPage(g, cycles)[i])
  }

  /** The page a geometry presents does not depend on the vendor name. */
  lemma ParameterPageIgnoresVendor(g: Geometry, cycles: byte, name: string)
    requires Encodable(g)
    ensures Encodable(g.(manufacturer := name))
    ensures ParameterPage(g.(manufacturer := name), cycles) == ParameterPage(g, cycles)
  {
    var h := g.(manufacturer := name);
    assert forall i :: 0 <= i < ParameterPageLength ==> PageByte(h, cycles, i) == PageByte(g, cycles, i);
  }

  /** Identification of a chip that serves ONFI data succeeds, and the
      geometry it records is the chip's own, named after the vendor of the
      first identifier byte. */
  lemma OnfiChipIdentified(b: Bus, dev: Device, g: Geometry, cycles: byte)
    requires Encodable(g) && ServesOnfi(dev, b.slow, g, cycles)
    ensures var r := Identify(b, dev);
            && r.Identified?
            && r.geometry == g.(manufacturer := Manufacturer(ProbeId(b, dev).val[0]))
  {
    var ids := ProbeId(b, dev);
    var sig := ProbeSignature(ids.bus, dev);
    var page := FetchParameterPage(sig.bus, dev);
    assert sig.val == OnfiSignature;
    assert page.val == ParameterPage(g, cycles);
    assert page.val[..4] == OnfiSignature;
    var name := Manufacturer(ids.val[0]);
    ParameterPageIgnoresVendor(g, cycles, name);
    ParseParameterPageRoundTrip(g.(manufacturer := name), cycles);
  }
}
