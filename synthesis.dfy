/**
 * Synthesizing one single-function inventory record per correlated
 * network-class PCI device (DiscoverSriovDevicesVirtual).
 */
module Synthesis {
  import opened Common
  import opened Types
  import opened HexParse
  import opened Correlation
  import opened Restore

  /** The MAC a record carries: live if named and found, else metadata if named, else none. */
  function RecordMac(host: HostManager, address: string, metaMac: string): string {
    var name := host.tryToGetVirtualInterfaceName(address);
    if name == "" then "" else if host.getNetDevMac(name) != "" then host.getNetDevMac(name) else metaMac
  }

  /** The record for one correlated device with a driver. */
  function BuildInterface(d: PciDevice, info: DeviceInfo, driver: string, host: HostManager): (r: InterfaceExt)
    ensures r.pciAddress == d.address && r.driver == driver && r.vendor == d.vendorId && r.deviceId == d.productId
    ensures r.netFilter == info.networkId
    ensures r.totalVfs == 1 && r.numVfs == 1
    ensures r.vfs == [VirtualFunction(r.pciAddress, r.driver, 0, r.vendor, r.deviceId, r.mtu, r.mac)]
    ensures r.mtu > 0 <==> host.getNetdevMtu(d.address) > 0
    ensures r.mtu > 0 ==> r.mtu == host.getNetdevMtu(d.address)
    ensures r.name == host.tryToGetVirtualInterfaceName(d.address)
    ensures r.mac == RecordMac(host, d.address, info.macAddress)
    ensures r.name == "" ==> r.mac == "" && r.linkSpeed == ""
    ensures r.name != "" ==> r.linkSpeed == host.getNetDevLinkSpeed(r.name)
    ensures host.getNetdevMtu(d.address) <= 0 ==> r.mtu == 0
    ensures r.linkType == host.getLinkType(r.(linkType := "", totalVfs := 0, numVfs := 0, vfs := []))
  {
    var lookedUpMtu := host.getNetdevMtu(d.address);
    var mtu := if lookedUpMtu > 0 then lookedUpMtu else 0;
    var name := host.tryToGetVirtualInterfaceName(d.address);
    var liveMac := if name != "" then host.getNetDevMac(name) else "";
    var mac := if name == "" then "" else if liveMac == "" then info.macAddress else liveMac;
    var linkSpeed := if name != "" then host.getNetDevLinkSpeed(name) else "";
    var partial := InterfaceExt(name, mac, driver, d.address, d.vendorId, d.productId, info.networkId,
                                mtu, linkSpeed, "", 0, 0, []);
    var vf := VirtualFunction(d.address, driver, 0, d.vendorId, d.productId, mtu, mac);
    partial.(linkType := host.getLinkType(partial), totalVfs := 1, numVfs := 1, vfs := [vf])
  }

  /** The record a live device yields, if it is a correlated network-class device with a driver. */
  function DeviceRecord(info: DevicesInfo, d: PciDevice, host: HostManager, driverOf: string -> Option<string>)
    : (r: Option<InterfaceExt>)
    ensures r.Some? <==> IsNetClass(d.classId, NetClass) && d.address in info && driverOf(d.address).Some?
    ensures r.Some? ==> r.value == BuildInterface(d, info[d.address], driverOf(d.address).value, host)
  {
    if !IsNetClass(d.classId, NetClass) then None
    else if d.address !in info then None
    else match driverOf(d.address)
      case None => None
      case Some(driver) => Some(BuildInterface(d, info[d.address], driver, host))
  }

  /** The records for the live devices, in list order, skipping those that yield none. */
  function Synthesize(info: DevicesInfo, devices: seq<PciDevice>, host: HostManager, driverOf: string -> Option<string>)
    : (out: seq<InterfaceExt>)
    ensures |out| <= |devices|
    decreases |devices|
  {
    if devices == [] then []
    else
      var rest := Synthesize(info, devices[..|devices| - 1], host, driverOf);
      match DeviceRecord(info, devices[|devices| - 1], host, driverOf)
      case None => rest
      case Some(r) => rest + [r]
  }

  /** The indices of the devices that yield a record, in list order. */
  ghost function Origins(info: DevicesInfo, devices: seq<PciDevice>, host: HostManager,
                         driverOf: string -> Option<string>): seq<nat>
    decreases |devices|
  {
    if devices == [] then []
    else
      Origins(info, devices[..|devices| - 1], host, driverOf)
        + (if DeviceRecord(info, devices[|devices| - 1], host, driverOf).Some? then [|devices| - 1] else [])
  }

  /** The j-th record is the record of the device at index idx[j]. */
  ghost predicate RecordsFrom(idx: seq<nat>, out: seq<InterfaceExt>, info: DevicesInfo, devices: seq<PciDevice>,
                              host: HostManager, driverOf: string -> Option<string>) {
    && |idx| == |out|
    && forall j :: 0 <= j < |idx| ==>
         idx[j] < |devices| && DeviceRecord(info, devices[idx[j]], host, driverOf) == Some(out[j])
  }

  ghost predicate StrictlyIncreasingBelow(idx: seq<nat>, n: nat) {
    && (forall j :: 0 <= j < |idx| ==> idx[j] < n)
    && (forall j, j' :: 0 <= j < j' < |idx| ==> idx[j] < idx[j'])
  }

  lemma {:induction false} OriginsLength(info: DevicesInfo, devices: seq<PciDevice>, host: HostManager,
                                         driverOf: string -> Option<string>)
    ensures |Origins(info, devices, host, driverOf)| == |Synthesize(info, devices, host, driverOf)|
    decreases |devices|
  {
    if devices != [] {
      OriginsLength(info, devices[..|devices| - 1], host, driverOf);
    }
  }

  /** The j-th origin points at a device whose record is the j-th record. */
  lemma {:induction false} OriginsSoundAt(info: DevicesInfo, devices: seq<PciDevice>, host: HostManager,
                                          driverOf: string -> Option<string>, j: nat)
    requires j < |Origins(info, devices, host, driverOf)|
    ensures |Origins(info, devices, host, driverOf)| == |Synthesize(info, devices, host, driverOf)|
    ensures Origins(info, devices, host, driverOf)[j] < |devices|
    ensures DeviceRecord(info, devices[Origins(info, devices, host, driverOf)[j]], host, driverOf)
      == Some(Synthesize(info, devices, host, driverOf)[j])
    decreases |devices|
  {
    OriginsLength(info, devices, host, driverOf);
    var init := devices[..|devices| - 1];
    var before, rest := Origins(info, init, host, driverOf), Synthesize(info, init, host, driverOf);
    var idx, out := Origins(info, devices, host, driverOf), Synthesize(info, devices, host, driverOf);
    OriginsLength(info, init, host, driverOf);
    var last := DeviceRecord(info, devices[|devices| - 1], host, driverOf);
    if j < |before| {
      assert idx[j] == before[j] && out[j] == rest[j] by {
        if last.Some? {
          assert idx == before + [|devices| - 1] && out == rest + [last.value];
        } else {
          assert idx == before && out == rest;
        }
      }
      OriginsSoundAt(info, init, host, driverOf, j);
      assert init[before[j]] == devices[before[j]];
    } else {
      assert last.Some? && idx == before + [|devices| - 1] && out == rest + [last.value];
    }
  }

  lemma OriginsSound(info: DevicesInfo, devices: seq<PciDevice>, host: HostManager,
                     driverOf: string -> Option<string>)
    ensures RecordsFrom(Origins(info, devices, host, driverOf), Synthesize(info, devices, host, driverOf),
                        info, devices, host, driverOf)
  {
    OriginsLength(info, devices, host, driverOf);
    forall j | 0 <= j < |Origins(info, devices, host, driverOf)|
      ensures Origins(info, devices, host, driverOf)[j] < |devices|
        && DeviceRecord(info, devices[Origins(info, devices, host, driverOf)[j]], host, driverOf)
           == Some(Synthesize(info, devices, host, driverOf)[j])
    {
      OriginsSoundAt(info, devices, host, driverOf, j);
    }
  }

  /** The origins are strictly increasing indices of the device list. */
  lemma {:induction false} OriginsIncreasing(info: DevicesInfo, devices: seq<PciDevice>, host: HostManager,
                                             driverOf: string -> Option<string>)
    ensures StrictlyIncreasingBelow(Origins(info, devices, host, driverOf), |devices|)
    decreases |devices|
  {
    if devices != [] {
      var init := devices[..|devices| - 1];
      OriginsIncreasing(info, init, host, driverOf);
      var before := Origins(info, init, host, driverOf);
      var idx := Origins(info, devices, host, driverOf);
      assert forall j :: 0 <= j < |before| ==> idx[j] == before[j];
      assert |idx| > |before| ==> idx[|before|] == |devices| - 1;
    }
  }

  /** Every device that yields a record is an origin. */
  lemma {:induction false} OriginsComplete(info: DevicesInfo, devices: seq<PciDevice>, host: HostManager,
                                           driverOf: string -> Option<string>, i: nat)
    requires i < |devices| && DeviceRecord(info, devices[i], host, driverOf).Some?
    ensures i in Origins(info, devices, host, driverOf)
    decreases |devices|
  {
    var init := devices[..|devices| - 1];
    if i < |init| {
      assert init[i] == devices[i];
      OriginsComplete(info, init, host, driverOf, i);
    }
  }

  /**
   * Records follow the device list: the j-th record comes from a device at a
   * strictly increasing index, and every device that yields a record does.
   */
  lemma SynthesizeOrigins(info: DevicesInfo, devices: seq<PciDevice>, host: HostManager,
                          driverOf: string -> Option<string>) returns (idx: seq<nat>)
    ensures var out := Synthesize(info, devices, host, driverOf);
      && |idx| == |out|
      && (forall j :: 0 <= j < |idx| ==> idx[j] < |devices| && DeviceRecord(info, devices[idx[j]], host, driverOf) == Some(out[j]))
      && (forall j, j' :: 0 <= j < j' < |idx| ==> idx[j] < idx[j'])
      && (forall i :: 0 <= i < |devices| && DeviceRecord(info, devices[i], host, driverOf).Some? ==> i in idx)
  {
    idx := Origins(info, devices, host, driverOf);
    OriginsSound(info, devices, host, driverOf);
    OriginsIncreasing(info, devices, host, driverOf);
    assert RecordsFrom(idx, Synthesize(info, devices, host, driverOf), info, devices, host, driverOf);
    assert StrictlyIncreasingBelow(idx, |devices|);
    forall i | 0 <= i < |devices| && DeviceRecord(info, devices[i], host, driverOf).Some? ensures i in idx {
      OriginsComplete(info, devices, host, driverOf, i);
    }
  }

  /**
   * Every record is for a network-class live device that has a driver and
   * whose address is a key of the map, with NetFilter the entry's network id.
   */
  lemma SynthesizeRecords(info: DevicesInfo, devices: seq<PciDevice>, host: HostManager,
                          driverOf: string -> Option<string>, j: nat)
    requires j < |Synthesize(info, devices, host, driverOf)|
    ensures var r := Synthesize(info, devices, host, driverOf)[j];
      && r.pciAddress in info
      && r.netFilter == info[r.pciAddress].networkId
      && driverOf(r.pciAddress) == Some(r.driver)
      && (exists i :: 0 <= i < |devices| && devices[i].address == r.pciAddress && IsNetClass(devices[i].classId, NetClass))
      && r.totalVfs == 1 && r.numVfs == 1 && |r.vfs| == 1 && r.vfs[0].vfId == 0
  {
    var idx := SynthesizeOrigins(info, devices, host, driverOf);
  }

  /** The addresses of the live devices that yield a record. */
  ghost function SelectedAddresses(info: DevicesInfo, devices: seq<PciDevice>, host: HostManager,
                                   driverOf: string -> Option<string>): set<string> {
    set i | 0 <= i < |devices| && DeviceRecord(info, devices[i], host, driverOf).Some? :: devices[i].address
  }

  function RecordAddresses(out: seq<InterfaceExt>): set<string> {
    set r | r in out :: r.pciAddress
  }

  lemma ProducedAreSelected(info: DevicesInfo, devices: seq<PciDevice>, host: HostManager,
                            driverOf: string -> Option<string>, a: string)
    requires a in RecordAddresses(Synthesize(info, devices, host, driverOf))
    ensures a in SelectedAddresses(info, devices, host, driverOf)
  {
    var out := Synthesize(info, devices, host, driverOf);
    var idx := Origins(info, devices, host, driverOf);
    OriginsSound(info, devices, host, driverOf);
    var j :| 0 <= j < |out| && out[j].pciAddress == a;
    assert idx[j] < |devices| && DeviceRecord(info, devices[idx[j]], host, driverOf) == Some(out[j]);
  }

  lemma SelectedAreProduced(info: DevicesInfo, devices: seq<PciDevice>, host: HostManager,
                            driverOf: string -> Option<string>, i: nat)
    requires i < |devices| && DeviceRecord(info, devices[i], host, driverOf).Some?
    ensures devices[i].address in RecordAddresses(Synthesize(info, devices, host, driverOf))
  {
    var out := Synthesize(info, devices, host, driverOf);
    var idx := Origins(info, devices, host, driverOf);
    OriginsSound(info, devices, host, driverOf);
    OriginsComplete(info, devices, host, driverOf, i);
    var j :| 0 <= j < |idx| && idx[j] == i;
    assert DeviceRecord(info, devices[idx[j]], host, driverOf) == Some(out[j]);
    assert out[j] in out;
  }

  /**
   * The addresses that get a record are exactly those of the network-class
   * live devices that are keys of the map and have a driver.
   */
  lemma SynthesizeAddresses(info: DevicesInfo, devices: seq<PciDevice>, host: HostManager, driverOf: string -> Option<string>)
    ensures RecordAddresses(Synthesize(info, devices, host, driverOf)) == SelectedAddresses(info, devices, host, driverOf)
  {
    forall a | a in RecordAddresses(Synthesize(info, devices, host, driverOf))
      ensures a in SelectedAddresses(info, devices, host, driverOf)
    {
      ProducedAreSelected(info, devices, host, driverOf, a);
    }
    forall a | a in SelectedAddresses(info, devices, host, driverOf)
      ensures a in RecordAddresses(Synthesize(info, devices, host, driverOf))
    {
      var i :| 0 <= i < |devices| && DeviceRecord(info, devices[i], host, driverOf).Some? && devices[i].address == a;
      SelectedAreProduced(info, devices, host, driverOf, i);
    }
  }

  /**
   * Restore then synthesize: when every persisted address is still a
   * network-class live device with a driver, the records produced cover
   * exactly the persisted addresses.
   */
  lemma RestoreThenSynthesize(state: SriovNetworkNodeState, devices: seq<PciDevice>, host: HostManager,
                              driverOf: string -> Option<string>)
    requires forall k :: 0 <= k < |state.status.interfaces| ==>
      exists i :: 0 <= i < |devices| && devices[i].address == state.status.interfaces[k].pciAddress
        && IsNetClass(devices[i].classId, NetClass) && driverOf(devices[i].address).Some?
    ensures RecordAddresses(Synthesize(RestoreMap(state.status.interfaces), devices, host, driverOf))
      == set k | 0 <= k < |state.status.interfaces| :: state.status.interfaces[k].pciAddress
  {
    var ifaces := state.status.interfaces;
    var info := RestoreMap(ifaces);
    RestoreMapKeys(ifaces);
    SynthesizeAddresses(info, devices, host, driverOf);
    var selected := SelectedAddresses(info, devices, host, driverOf);
    var persisted := set k | 0 <= k < |ifaces| :: ifaces[k].pciAddress;
    forall a | a in persisted ensures a in selected {
      var k :| 0 <= k < |ifaces| && ifaces[k].pciAddress == a;
      var i :| 0 <= i < |devices| && devices[i].address == ifaces[k].pciAddress
        && IsNetClass(devices[i].classId, NetClass) && driverOf(devices[i].address).Some?;
      assert DeviceRecord(info, devices[i], host, driverOf).Some?;
    }
  }
}
