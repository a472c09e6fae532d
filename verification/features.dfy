/** Feature registers: SET FEATURES and GET FEATURES move one four-byte value
    through a single-cycle feature address, and the cell-programming mode
    (SLC or MLC) is read back from feature 0x91. */
module Features {
  import opened Bytes
  import opened FlashDefs
  import opened Bus

  /** A feature register holds exactly four bytes. */
  const FeatureLength: nat := 4

  /** The feature address holding the cell-programming mode. */
  const CellModeAddress: nat := 0x91

  /** `each_val & 0xff`: the low byte of an integer, two's complement for
      negative values as Python's `&` gives it. */
  function LowByte(v: int): (r: byte)
    ensures 0 <= v < 256 ==> r as int == v
    ensures (v - r as int) % 256 == 0
  {
    (v % 256) as byte
  }

  /** The value bytes `set_features` clocks out for a list of integers. */
  function Masked(values: seq<int>): (r: seq<byte>)
    ensures |r| == |values|
    ensures forall i :: 0 <= i < |r| ==> (values[i] - r[i] as int) % 256 == 0
    ensures (forall i :: 0 <= i < |values| ==> 0 <= values[i] < 256) ==>
              forall i :: 0 <= i < |r| ==> r[i] as int == values[i]
  {
    seq(|values|, i requires 0 <= i < |values| => LowByte(values[i]))
  }

  /** The single cycle a feature address is latched with. */
  function FeatureCycle(addr: nat): byte
  {
    (addr % 256) as byte
  }

  /** Five transactions that store `v` into feature register `a`: SET FEATURES,
      wait, one address cycle, wait, the value bytes. */
  predicate SetsAt(w: seq<Txn>, a: byte)
  {
    && |w| == 5
    && w[0].Cmd? && w[0].cmd == NandCmd.SetFeatures && w[1] == WaitReady
    && w[2].Addr? && w[2].cycles == [a] && w[3] == WaitReady
    && w[4].DataOut?
  }

  /** Five transactions that ask for a feature register: GET FEATURES, wait,
      one address cycle, wait, a four-byte read. */
  predicate Gets(w: seq<Txn>)
  {
    && |w| == 5
    && w[0].Cmd? && w[0].cmd == NandCmd.GetFeatures && w[1] == WaitReady
    && w[2].Addr? && |w[2].cycles| == 1 && w[3] == WaitReady
    && w[4] == DataIn(FeatureLength)
  }

  /** A feature command, wait, the one-cycle feature address, wait. */
  function FeaturePrefix(b: Bus, c: NandCmd, addr: nat): (r: Bus)
    ensures r.Extends(b)
    ensures r.Since(b) == [Cmd(c, b.writeProtect), WaitReady, Addr([FeatureCycle(addr)], b.writeProtect), WaitReady]
  {
    var ad := SendAddress(Wait(SendCmd(b, c)), addr, 1);
    assert AddressCycles(addr, 1) == [FeatureCycle(addr)];
    var r := Wait(ad);
    assert r.trace == b.trace + [Cmd(c, b.writeProtect), WaitReady, Addr([FeatureCycle(addr)], b.writeProtect), WaitReady];
    r
  }

  /** The command and address phases both setters share, then the data phase. */
  function SetPhases(b: Bus, addr: nat, data: seq<byte>): (r: Bus)
    requires |data| > 0
    ensures r.Extends(b) && |r.Since(b)| == 5
    ensures SetsAt(r.Since(b), FeatureCycle(addr)) && r.Since(b)[4].bytes == data
    ensures WritesWith(r.Since(b), b.writeProtect)
  {
    var pre := FeaturePrefix(b, NandCmd.SetFeatures, addr);
    var r := WriteData(pre, data);
    assert r.trace == b.trace + pre.Since(b) + [DataOut(data, b.writeProtect)];
    r
  }

  /** How a set-features call ends: with the bus after it, or with the process
      exit a value list of the wrong length causes before any bus traffic. */
  datatype SetResult = Applied(bus: Bus) | Exited(bus: Bus)

  /** `set_features`: store the low bytes of four integers, then wait for ready. */
  function SetFeatures(b: Bus, addr: nat, values: seq<int>): (r: SetResult)
    ensures r.Exited? <==> |values| != FeatureLength
    ensures r.Exited? ==> r.bus == b
    ensures r.Applied? ==>
              && r.bus.Extends(b) && |r.bus.Since(b)| == 6
              && SetsAt(r.bus.Since(b)[..5], FeatureCycle(addr))
              && r.bus.Since(b)[4].bytes == Masked(values)
              && r.bus.Since(b)[5] == WaitReady
              && WritesWith(r.bus.Since(b), b.writeProtect)
  {
    if |values| != FeatureLength then Exited(b)
    else
      var s := SetPhases(b, addr, Masked(values));
      var r := Wait(s);
      assert r.Since(b) == s.Since(b) + [WaitReady];
      assert r.Since(b)[..5] == s.Since(b);
      Applied(r)
  }

  /** `set_features_bin`: store four bytes as given, with no wait afterwards. */
  function SetFeaturesBin(b: Bus, addr: nat, values: seq<byte>): (r: SetResult)
    ensures r.Exited? <==> |values| != FeatureLength
    ensures r.Exited? ==> r.bus == b
    ensures r.Applied? ==>
              && r.bus.Extends(b) && |r.bus.Since(b)| == 5
              && SetsAt(r.bus.Since(b), FeatureCycle(addr))
              && r.bus.Since(b)[4].bytes == values
              && WritesWith(r.bus.Since(b), b.writeProtect)
  {
    if |values| != FeatureLength then Exited(b)
    else Applied(SetPhases(b, addr, values))
  }

  /** `get_features`: GET FEATURES, wait, one address cycle, wait, read four bytes. */
  function GetFeatures(b: Bus, dev: Device, addr: nat): (r: Io<seq<byte>>)
    ensures r.bus.Extends(b) && Gets(r.bus.Since(b))
    ensures r.bus.Since(b)[2].cycles == [FeatureCycle(addr)]
    ensures |r.val| == FeatureLength
    ensures forall i :: 0 <= i < FeatureLength ==> r.val[i] == dev(r.bus.trace, if b.slow then 2 * i else i)
  {
    var pre := FeaturePrefix(b, NandCmd.GetFeatures, addr);
    var r := ReadData(pre, dev, FeatureLength);
    assert r.bus.trace == b.trace + pre.Since(b) + [DataIn(FeatureLength)];
    r
  }

  /** The cell mode a first feature byte names. */
  function CellMode(v: byte): (mode: string)
    ensures mode == "SLC" <==> v == 1
    ensures mode == "MLC" <==> v == 2
    ensures mode == "Unknown" <==> v != 1 && v != 2
  {
    if v == 1 then "SLC" else if v == 2 then "MLC" else "Unknown"
  }

  /** `get_SLC_MLC`: read feature 0x91 and name the mode its first byte selects. */
  function GetSlcMlc(b: Bus, dev: Device): (r: Io<string>)
    ensures var f := GetFeatures(b, dev, CellModeAddress);
            r.bus == f.bus && r.val == CellMode(f.val[0])
  {
    var f := GetFeatures(b, dev, CellModeAddress);
    Io(f.bus, CellMode(f.val[0]))
  }

  // A chip whose feature registers hold what was last stored in them.

  /** The value most recently stored into register `a` along trace `t`, or
      `init(a)` if nothing was. */
  function Stored(init: byte -> seq<byte>, t: seq<Txn>, a: byte): seq<byte>
    decreases |t|
  {
    if |t| < 5 then init(a)
    else if SetsAt(t[|t| - 5..], a) then t[|t| - 1].bytes
    else Stored(init, t[..|t| - 1], a)
  }

  /** The four bytes register `a` reads back as, zero past the stored value. */
  function Register(init: byte -> seq<byte>, t: seq<Txn>, a: byte): (r: seq<byte>)
    ensures |r| == FeatureLength
  {
    var v := Stored(init, t, a);
    seq(FeatureLength, j requires 0 <= j < FeatureLength => if j < |v| then v[j] else 0)
  }

  /** The chip answers a get-features read with the register it names; in slow
      mode the adapter's odd bytes are filler. Any other read gets zeros. */
  function FeatureDevice(init: byte -> seq<byte>, slow: bool): Device
  {
    (t: seq<Txn>, i: nat) =>
      if |t| >= 5 && Gets(t[|t| - 5..]) then
        var reg := Register(init, t[..|t| - 5], t[|t| - 5..][2].cycles[0]);
        var j := if slow then i / 2 else i;
        if (!slow || i % 2 == 0) && j < FeatureLength then reg[j] else 0
      else 0
  }

  /** Transactions that store nothing leave every register as it was. */
  lemma {:induction false} StoredIgnores(init: byte -> seq<byte>, t: seq<Txn>, u: seq<Txn>, a: byte)
    requires forall k :: 0 <= k < |u| ==> !u[k].DataOut?
    ensures Stored(init, t + u, a) == Stored(init, t, a)
    decreases |u|
  {
    if |u| > 0 {
      var tu := t + u;
      var u' := u[..|u| - 1];
      assert tu[..|tu| - 1] == t + u';
      if |tu| >= 5 {
        assert tu[|tu| - 5..][4] == u[|u| - 1];
      }
      StoredIgnores(init, t, u', a);
    } else {
      assert t + u == t;
    }
  }

  /** A trace ending in a store into `a` leaves `a` holding what was stored. */
  lemma StoredAtEnd(init: byte -> seq<byte>, t: seq<Txn>, a: byte)
    requires |t| >= 5 && SetsAt(t[|t| - 5..], a)
    ensures Stored(init, t, a) == t[|t| - 1].bytes
  {
  }

  /** A four-byte stored value reads back unpadded. */
  lemma RegisterFull(init: byte -> seq<byte>, t: seq<Txn>, a: byte)
    requires |Stored(init, t, a)| == FeatureLength
    ensures Register(init, t, a) == Stored(init, t, a)
  {
  }

  /** Reading register `addr` from the echoing chip gives its current contents. */
  lemma GetFeaturesReads(init: byte -> seq<byte>, b: Bus, addr: nat)
    ensures GetFeatures(b, FeatureDevice(init, b.slow), addr).val == Register(init, b.trace, FeatureCycle(addr))
  {
    var dev := FeatureDevice(init, b.slow);
    var g := GetFeatures(b, dev, addr);
    var h := g.bus.trace;
    assert h[..|h| - 5] == b.trace && h[|h| - 5..] == g.bus.Since(b);
    var reg := Register(init, b.trace, FeatureCycle(addr));
    forall i | 0 <= i < FeatureLength
      ensures g.val[i] == reg[i]
    {
      if b.slow {
        assert (2 * i) % 2 == 0 && (2 * i) / 2 == i;
      }
    }
  }

  /** What `set_features` stores, `get_features` reads back: the low bytes of the values. */
  lemma SetGetRoundTrip(init: byte -> seq<byte>, b: Bus, addr: nat, values: seq<int>)
    requires |values| == FeatureLength
    ensures var s := SetFeatures(b, addr, values);
            s.Applied? && GetFeatures(s.bus, FeatureDevice(init, b.slow), addr).val == Masked(values)
  {
    var s := SetFeatures(b, addr, values);
    var a := FeatureCycle(addr);
    var t := s.bus.trace;
    assert t == b.trace + s.bus.Since(b);
    var t5 := b.trace + s.bus.Since(b)[..5];
    assert t == t5 + [WaitReady];
    StoredIgnores(init, t5, [WaitReady], a);
    assert t5[|t5| - 5..] == s.bus.Since(b)[..5];
    StoredAtEnd(init, t5, a);
    RegisterFull(init, t, a);
    GetFeaturesReads(init, s.bus, addr);
  }

  /** The same for `set_features_bin`, which stores its bytes unchanged. */
  lemma SetBinGetRoundTrip(init: byte -> seq<byte>, b: Bus, addr: nat, values: seq<byte>)
    requires |values| == FeatureLength
    ensures var s := SetFeaturesBin(b, addr, values);
            s.Applied? && GetFeatures(s.bus, FeatureDevice(init, b.slow), addr).val == values
  {
    var s := SetFeaturesBin(b, addr, values);
    var t := s.bus.trace;
    assert t[|t| - 5..] == s.bus.Since(b);
    StoredAtEnd(init, t, FeatureCycle(addr));
    RegisterFull(init, t, FeatureCycle(addr));
    GetFeaturesReads(init, s.bus, addr);
  }

  /** A store into another register leaves `a` holding what it held. */
  lemma StoredElsewhere(init: byte -> seq<byte>, t: seq<Txn>, w: seq<Txn>, c: byte, a: byte)
    requires SetsAt(w, c) && c != a
    ensures Stored(init, t + w, a) == Stored(init, t, a)
  {
    var tw := t + w;
    assert tw[|tw| - 5..] == w;
    assert tw[..|tw| - 1] == t + w[..4];
    StoredIgnores(init, t, w[..4], a);
  }

  /** Storing into one register leaves every other register's contents unchanged. */
  lemma SetLeavesOthers(init: byte -> seq<byte>, b: Bus, addr: nat, other: nat, values: seq<int>)
    requires |values| == FeatureLength && FeatureCycle(addr) != FeatureCycle(other)
    ensures var s := SetFeatures(b, addr, values);
            var dev := FeatureDevice(init, b.slow);
            s.Applied? && GetFeatures(s.bus, dev, other).val == GetFeatures(b, dev, other).val
  {
    var s := SetFeatures(b, addr, values);
    var a := FeatureCycle(other);
    var w := s.bus.Since(b)[..5];
    var t5 := b.trace + w;
    assert s.bus.trace == t5 + [WaitReady];
    StoredIgnores(init, t5, [WaitReady], a);
    StoredElsewhere(init, b.trace, w, FeatureCycle(addr), a);
    assert Register(init, s.bus.trace, a) == Register(init, b.trace, a);
    GetFeaturesReads(init, s.bus, other);
    GetFeaturesReads(init, b, other);
  }

  /** Setting feature 0x91 to 1,1,0,0 selects SLC and to 2,1,0,0 selects MLC,
      as `get_SLC_MLC` then reports. */
  lemma CellModeAfterSet(init: byte -> seq<byte>, b: Bus)
    ensures var s := SetFeatures(b, CellModeAddress, [1, 1, 0, 0]);
            GetSlcMlc(s.bus, FeatureDevice(init, b.slow)).val == "SLC"
    ensures var s := SetFeatures(b, CellModeAddress, [2, 1, 0, 0]);
            GetSlcMlc(s.bus, FeatureDevice(init, b.slow)).val == "MLC"
  {
    SetGetRoundTrip(init, b, CellModeAddress, [1, 1, 0, 0]);
    SetGetRoundTrip(init, b, CellModeAddress, [2, 1, 0, 0]);
  }
}
