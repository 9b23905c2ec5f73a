/**
 * Building the correlation map from PCI address to {MAC, network id}
 * (the two passes of CreateOpenstackDevicesInfo). The passes are specified as
 * the sequence of map writes the nested loops perform, in iteration order.
 */
module Correlation {
  import opened Common
  import opened Types
  import opened HexParse
  import opened Acquisition

  /** One write `devicesInfo[key] = info`. */
  datatype Assignment = Assignment(key: string, info: DeviceInfo)

  /** Performing the writes in order. */
  function Apply(m: DevicesInfo, ws: seq<Assignment>): DevicesInfo
    decreases |ws|
  {
    if ws == [] then m else Apply(m, ws[..|ws| - 1])[ws[|ws| - 1].key := ws[|ws| - 1].info]
  }

  lemma ApplySnoc(m: DevicesInfo, ws: seq<Assignment>, w: Assignment)
    ensures Apply(m, ws + [w]) == Apply(m, ws)[w.key := w.info]
  {
    assert (ws + [w])[..|ws|] == ws;
  }

  lemma {:induction false} ApplyAppend(m: DevicesInfo, ws: seq<Assignment>, vs: seq<Assignment>)
    ensures Apply(m, ws + vs) == Apply(Apply(m, ws), vs)
    decreases |vs|
  {
    if vs == [] {
      assert ws + vs == ws;
    } else {
      var init := vs[..|vs| - 1];
      assert (ws + vs)[..|ws + vs| - 1] == ws + init;
      ApplyAppend(m, ws, init);
    }
  }

  /**
   * Last write wins: a key is in the result exactly when it was in the map or
   * some write names it; a key no write names keeps its value; otherwise the
   * value is that of the last write naming it.
   */
  lemma {:induction false} ApplyLastWriteWins(m: DevicesInfo, ws: seq<Assignment>, k: string)
    ensures k in Apply(m, ws) <==> k in m || exists i :: 0 <= i < |ws| && ws[i].key == k
    ensures (forall i :: 0 <= i < |ws| ==> ws[i].key != k) && k in m ==> Apply(m, ws)[k] == m[k]
    ensures forall i :: (0 <= i < |ws| && ws[i].key == k && (forall j :: i < j < |ws| ==> ws[j].key != k)
                         ==> Apply(m, ws)[k] == ws[i].info)
    decreases |ws|
  {
    if ws != [] {
      var init := ws[..|ws| - 1];
      assert forall i :: 0 <= i < |init| ==> init[i] == ws[i];
      ApplyLastWriteWins(m, init, k);
    }
  }

  /** The index of the last write naming a key that some write names. */
  lemma {:induction false} LastWriteOf(ws: seq<Assignment>, k: string) returns (i: nat)
    requires exists i :: 0 <= i < |ws| && ws[i].key == k
    ensures i < |ws| && ws[i].key == k && forall j :: i < j < |ws| ==> ws[j].key != k
    decreases |ws|
  {
    if ws[|ws| - 1].key == k {
      i := |ws| - 1;
    } else {
      var init := ws[..|ws| - 1];
      assert forall j :: 0 <= j < |init| ==> init[j] == ws[j];
      i := LastWriteOf(init, k);
    }
  }

  /** The entry recorded for a device whose MAC is matched by a link. */
  ghost predicate Correlates(info: DeviceInfo, mac: string, nd: NetworkData) {
    exists l, n :: 0 <= l < |nd.links| && 0 <= n < |nd.networks|
      && nd.links[l].ethernetMac == mac && nd.networks[n].link == nd.links[l].id
      && info == DeviceInfo(mac, NetworkIdOf(nd.networks[n]))
  }

  /** Some link carries this MAC and some network references that link. */
  ghost predicate HasNetwork(mac: string, nd: NetworkData) {
    exists l, n :: 0 <= l < |nd.links| && 0 <= n < |nd.networks|
      && nd.links[l].ethernetMac == mac && nd.networks[n].link == nd.links[l].id
  }

  /** The innermost loop: one write per network referencing the link. */
  function NetworkAssignments(key: string, mac: string, link: NetworkLink, networks: seq<Network>): seq<Assignment>
    decreases |networks|
  {
    if networks == [] then []
    else
      var n := networks[|networks| - 1];
      NetworkAssignments(key, mac, link, networks[..|networks| - 1])
        + (if n.link == link.id then [Assignment(key, DeviceInfo(mac, NetworkIdOf(n)))] else [])
  }

  /** The loop over links whose MAC equals `mac` (exact, case-sensitive comparison). */
  function LinkAssignments(key: string, mac: string, links: seq<NetworkLink>, networks: seq<Network>): seq<Assignment>
    decreases |links|
  {
    if links == [] then []
    else
      var l := links[|links| - 1];
      LinkAssignments(key, mac, links[..|links| - 1], networks)
        + (if mac == l.ethernetMac then NetworkAssignments(key, mac, l, networks) else [])
  }

  /** Pass 1: the writes for every metadata device, in device order. */
  function MetaDataAssignments(devices: seq<MetaDataDevice>, nd: NetworkData): seq<Assignment>
    decreases |devices|
  {
    if devices == [] then []
    else
      var d := devices[|devices| - 1];
      MetaDataAssignments(devices[..|devices| - 1], nd) + LinkAssignments(d.address, d.mac, nd.links, nd.networks)
  }

  function Pass1(devices: seq<MetaDataDevice>, nd: NetworkData): DevicesInfo {
    Apply(map[], MetaDataAssignments(devices, nd))
  }

  lemma {:induction false} NetworkAssignmentsMembers(key: string, mac: string, link: NetworkLink, networks: seq<Network>)
    ensures forall w :: w in NetworkAssignments(key, mac, link, networks) <==>
      w.key == key && (exists n :: 0 <= n < |networks| && networks[n].link == link.id
                                  && w.info == DeviceInfo(mac, NetworkIdOf(networks[n])))
    decreases |networks|
  {
    if networks != [] {
      var init := networks[..|networks| - 1];
      assert forall n :: 0 <= n < |init| ==> init[n] == networks[n];
      NetworkAssignmentsMembers(key, mac, link, init);
    }
  }

  /** The writes of one device are exactly its correlations, all under its key. */
  lemma {:induction false} LinkAssignmentsMembers(key: string, mac: string, nd: NetworkData, links: seq<NetworkLink>)
    requires links <= nd.links
    ensures forall w :: w in LinkAssignments(key, mac, links, nd.networks) <==>
      w.key == key && (exists l, n :: 0 <= l < |links| && 0 <= n < |nd.networks|
                                     && links[l].ethernetMac == mac && nd.networks[n].link == links[l].id
                                     && w.info == DeviceInfo(mac, NetworkIdOf(nd.networks[n])))
    decreases |links|
  {
    if links != [] {
      var init := links[..|links| - 1];
      var l := links[|links| - 1];
      assert forall i :: 0 <= i < |init| ==> init[i] == links[i];
      LinkAssignmentsMembers(key, mac, nd, init);
      NetworkAssignmentsMembers(key, mac, l, nd.networks);
    }
  }

  lemma LinkAssignmentsCorrelate(key: string, mac: string, nd: NetworkData)
    ensures forall w :: w in LinkAssignments(key, mac, nd.links, nd.networks) ==> w.key == key && Correlates(w.info, mac, nd)
    ensures HasNetwork(mac, nd) ==> exists w :: w in LinkAssignments(key, mac, nd.links, nd.networks)
  {
    LinkAssignmentsMembers(key, mac, nd, nd.links);
    if HasNetwork(mac, nd) {
      var l, n :| 0 <= l < |nd.links| && 0 <= n < |nd.networks|
        && nd.links[l].ethernetMac == mac && nd.networks[n].link == nd.links[l].id;
      assert Assignment(key, DeviceInfo(mac, NetworkIdOf(nd.networks[n]))) in LinkAssignments(key, mac, nd.links, nd.networks);
    }
  }

  lemma {:induction false} MetaDataAssignmentsMembers(devices: seq<MetaDataDevice>, nd: NetworkData)
    ensures forall w :: w in MetaDataAssignments(devices, nd) <==>
      exists d :: 0 <= d < |devices| && w in LinkAssignments(devices[d].address, devices[d].mac, nd.links, nd.networks)
    decreases |devices|
  {
    if devices != [] {
      var init := devices[..|devices| - 1];
      assert forall d :: 0 <= d < |init| ==> init[d] == devices[d];
      MetaDataAssignmentsMembers(init, nd);
    }
  }

  /** A write of pass 1 comes from one metadata device and correlates its MAC. */
  lemma Pass1WriteSource(devices: seq<MetaDataDevice>, nd: NetworkData, w: Assignment) returns (d: nat)
    requires w in MetaDataAssignments(devices, nd)
    ensures d < |devices| && w.key == devices[d].address && Correlates(w.info, devices[d].mac, nd)
  {
    MetaDataAssignmentsMembers(devices, nd);
    d :| 0 <= d < |devices| && w in LinkAssignments(devices[d].address, devices[d].mac, nd.links, nd.networks);
    LinkAssignmentsCorrelate(devices[d].address, devices[d].mac, nd);
  }

  /**
   * Pass 1: a key is in the map exactly when some metadata device with that
   * address has a MAC some link carries, with a network referencing that link.
   */
  lemma Pass1Keys(devices: seq<MetaDataDevice>, nd: NetworkData, k: string)
    ensures k in Pass1(devices, nd) <==>
      exists d :: 0 <= d < |devices| && devices[d].address == k && HasNetwork(devices[d].mac, nd)
  {
    var ws := MetaDataAssignments(devices, nd);
    ApplyLastWriteWins(map[], ws, k);
    if k in Pass1(devices, nd) {
      var i :| 0 <= i < |ws| && ws[i].key == k;
      var d := Pass1WriteSource(devices, nd, ws[i]);
      assert HasNetwork(devices[d].mac, nd);
    }
    forall d | 0 <= d < |devices| && devices[d].address == k && HasNetwork(devices[d].mac, nd)
      ensures k in Pass1(devices, nd)
    {
      LinkAssignmentsCorrelate(devices[d].address, devices[d].mac, nd);
      var w :| w in LinkAssignments(devices[d].address, devices[d].mac, nd.links, nd.networks);
      MetaDataAssignmentsMembers(devices, nd);
      assert w in ws;
      var i :| 0 <= i < |ws| && ws[i] == w;
    }
  }

  /**
   * Pass 1: the value of a key is the last write of that key in iteration
   * order, the (device MAC, network id) of a matching triple.
   */
  lemma Pass1Values(devices: seq<MetaDataDevice>, nd: NetworkData, k: string)
    requires k in Pass1(devices, nd)
    ensures exists d :: 0 <= d < |devices| && devices[d].address == k && Correlates(Pass1(devices, nd)[k], devices[d].mac, nd)
    ensures var ws := MetaDataAssignments(devices, nd);
      exists i :: 0 <= i < |ws| && ws[i].key == k && (forall j :: i < j < |ws| ==> ws[j].key != k)
                  && Pass1(devices, nd)[k] == ws[i].info
  {
    var ws := MetaDataAssignments(devices, nd);
    ApplyLastWriteWins(map[], ws, k);
    var i := LastWriteOf(ws, k);
    var d := Pass1WriteSource(devices, nd, ws[i]);
  }

  /** The MAC the live scan finds at a PCI address: that of its interface, "" when there is none. */
  function LiveMac(host: HostManager, address: string): string {
    var name := host.tryToGetVirtualInterfaceName(address);
    if name != "" then host.getNetDevMac(name) else ""
  }

  /** Pass 2, one live PCI device. */
  function Pass2Step(m: DevicesInfo, d: PciDevice, nd: NetworkData, host: HostManager): DevicesInfo {
    if d.address in m then m
    else if !IsNetClass(d.classId, NetClass) then m
    else
      var mac := LiveMac(host, d.address);
      if mac == "" then m else Apply(m, LinkAssignments(d.address, mac, nd.links, nd.networks))
  }

  /** Pass 2 over the live PCI devices, in list order. */
  function Pass2(m: DevicesInfo, devices: seq<PciDevice>, nd: NetworkData, host: HostManager): DevicesInfo
    decreases |devices|
  {
    if devices == [] then m
    else Pass2Step(Pass2(m, devices[..|devices| - 1], nd, host), devices[|devices| - 1], nd, host)
  }

  /** A pass-2 entry: a network-class live device at that address whose live MAC correlates to the value. */
  ghost predicate LiveCorrelated(k: string, v: DeviceInfo, devices: seq<PciDevice>, nd: NetworkData, host: HostManager) {
    && (exists i :: 0 <= i < |devices| && devices[i].address == k && IsNetClass(devices[i].classId, NetClass))
    && host.tryToGetVirtualInterfaceName(k) != ""
    && LiveMac(host, k) != ""
    && Correlates(v, LiveMac(host, k), nd)
  }

  /** Writes that all name one key leave every other key as it was. */
  lemma {:induction false} ApplyOtherKeys(m: DevicesInfo, ws: seq<Assignment>, key: string, k: string)
    requires forall i :: 0 <= i < |ws| ==> ws[i].key == key
    requires k != key
    ensures k in Apply(m, ws) <==> k in m
    ensures k in m ==> Apply(m, ws)[k] == m[k]
    decreases |ws|
  {
    if ws != [] {
      var init := ws[..|ws| - 1];
      assert forall i :: 0 <= i < |init| ==> init[i] == ws[i];
      ApplyOtherKeys(m, init, key, k);
    }
  }

  lemma {:induction false} NetworkAssignmentsKey(key: string, mac: string, link: NetworkLink, networks: seq<Network>)
    ensures forall i :: 0 <= i < |NetworkAssignments(key, mac, link, networks)| ==>
      NetworkAssignments(key, mac, link, networks)[i].key == key
    decreases |networks|
  {
    if networks != [] {
      NetworkAssignmentsKey(key, mac, link, networks[..|networks| - 1]);
    }
  }

  lemma {:induction false} LinkAssignmentsKey(key: string, mac: string, links: seq<NetworkLink>, networks: seq<Network>)
    ensures forall i :: 0 <= i < |LinkAssignments(key, mac, links, networks)| ==>
      LinkAssignments(key, mac, links, networks)[i].key == key
    decreases |links|
  {
    if links != [] {
      LinkAssignmentsKey(key, mac, links[..|links| - 1], networks);
      NetworkAssignmentsKey(key, mac, links[|links| - 1], networks);
    }
  }

  /** One pass-2 step touches only the device's own address. */
  lemma Pass2StepOtherKeys(m: DevicesInfo, d: PciDevice, nd: NetworkData, host: HostManager, k: string)
    requires k in m || k != d.address
    ensures k in Pass2Step(m, d, nd, host) <==> k in m
    ensures k in m ==> Pass2Step(m, d, nd, host)[k] == m[k]
  {
    if d.address !in m && IsNetClass(d.classId, NetClass) && LiveMac(host, d.address) != "" {
      LinkAssignmentsKey(d.address, LiveMac(host, d.address), nd.links, nd.networks);
      ApplyOtherKeys(m, LinkAssignments(d.address, LiveMac(host, d.address), nd.links, nd.networks), d.address, k);
    }
  }

  /** What one pass-2 step adds, and when it adds it. */
  lemma Pass2StepAdds(m: DevicesInfo, d: PciDevice, nd: NetworkData, host: HostManager)
    requires d.address !in m
    ensures d.address in Pass2Step(m, d, nd, host) ==>
      && IsNetClass(d.classId, NetClass) && host.tryToGetVirtualInterfaceName(d.address) != ""
      && LiveMac(host, d.address) != "" && Correlates(Pass2Step(m, d, nd, host)[d.address], LiveMac(host, d.address), nd)
    ensures (IsNetClass(d.classId, NetClass) && LiveMac(host, d.address) != ""
             && HasNetwork(LiveMac(host, d.address), nd)) ==> d.address in Pass2Step(m, d, nd, host)
  {
    if IsNetClass(d.classId, NetClass) && LiveMac(host, d.address) != "" {
      var mac := LiveMac(host, d.address);
      var ws := LinkAssignments(d.address, mac, nd.links, nd.networks);
      LinkAssignmentsCorrelate(d.address, mac, nd);
      ApplyLastWriteWins(m, ws, d.address);
      if d.address in Apply(m, ws) {
        var i := LastWriteOf(ws, d.address);
        assert ws[i] in ws;
      }
      if HasNetwork(mac, nd) {
        var w :| w in ws;
        var i :| 0 <= i < |ws| && ws[i] == w;
        LinkAssignmentsKey(d.address, mac, nd.links, nd.networks);
      }
    }
  }

  /** Pass 2 never overwrites or removes an entry already in the map. */
  lemma {:induction false} Pass2KeepsExisting(m: DevicesInfo, devices: seq<PciDevice>, nd: NetworkData, host: HostManager)
    ensures forall k :: k in m ==> k in Pass2(m, devices, nd, host) && Pass2(m, devices, nd, host)[k] == m[k]
    decreases |devices|
  {
    if devices != [] {
      var init := devices[..|devices| - 1];
      Pass2KeepsExisting(m, init, nd, host);
      forall k | k in m ensures k in Pass2(m, devices, nd, host) && Pass2(m, devices, nd, host)[k] == m[k] {
        Pass2StepOtherKeys(Pass2(m, init, nd, host), devices[|devices| - 1], nd, host, k);
      }
    }
  }

  /**
   * Every entry pass 2 adds is keyed by a network-class live device whose
   * interface has a name and a MAC, and holds that MAC's correlation.
   */
  lemma {:induction false} Pass2NewEntries(m: DevicesInfo, devices: seq<PciDevice>, nd: NetworkData, host: HostManager, k: string)
    requires k in Pass2(m, devices, nd, host) && k !in m
    ensures LiveCorrelated(k, Pass2(m, devices, nd, host)[k], devices, nd, host)
    decreases |devices|
  {
    var init := devices[..|devices| - 1];
    var d := devices[|devices| - 1];
    var before := Pass2(m, init, nd, host);
    if k in before {
      Pass2StepOtherKeys(before, d, nd, host, k);
      Pass2NewEntries(m, init, nd, host, k);
      var i :| 0 <= i < |init| && init[i].address == k && IsNetClass(init[i].classId, NetClass);
      assert devices[i] == init[i];
    } else {
      if k != d.address { Pass2StepOtherKeys(before, d, nd, host, k); }
      Pass2StepAdds(before, d, nd, host);
    }
  }

  /**
   * Pass 2 leaves no eligible device out: a network-class live device whose
   * live MAC is carried by a link with a network ends up with an entry.
   */
  lemma {:induction false} Pass2Complete(m: DevicesInfo, devices: seq<PciDevice>, nd: NetworkData, host: HostManager, i: nat)
    requires i < |devices| && IsNetClass(devices[i].classId, NetClass)
    requires LiveMac(host, devices[i].address) != "" && HasNetwork(LiveMac(host, devices[i].address), nd)
    ensures devices[i].address in Pass2(m, devices, nd, host)
    decreases |devices|
  {
    var init := devices[..|devices| - 1];
    var before := Pass2(m, init, nd, host);
    var d := devices[|devices| - 1];
    if i < |init| {
      assert init[i] == devices[i];
      Pass2Complete(m, init, nd, host, i);
      Pass2StepOtherKeys(before, d, nd, host, devices[i].address);
    } else if d.address !in before {
      Pass2StepAdds(before, d, nd, host);
    }
  }

  /**
   * The map CreateOpenstackDevicesInfo commits for a successful acquisition,
   * or the error it returns.
   */
  function Correlate(acquired: Result<Acquired, Error>, pciList: Option<seq<PciDevice>>, host: HostManager)
    : Result<DevicesInfo, Error>
  {
    match acquired
    case Err(e) => Err(e)
    case Ok(acq) =>
      match acq.networkData
      case None => Ok(map[])
      case Some(nd) =>
        match pciList
        case None => Err(PciInfoUnavailable)
        case Some(devices) =>
          if |devices| == 0 then Err(NoPciDevices)
          else Ok(Pass2(Pass1(acq.metaData.devices, nd), devices, nd, host))
  }

  /**
   * Every committed entry comes from one of the passes: either pass 1 made it,
   * and pass 2 left it alone, or pass 1 did not and pass 2 found it live.
   * Errors arise only from acquisition or the live PCI listing.
   */
  lemma CorrelateEntries(acquired: Result<Acquired, Error>, pciList: Option<seq<PciDevice>>, host: HostManager, k: string)
    ensures Correlate(acquired, pciList, host).Err? <==>
      acquired.Err? || (acquired.value.networkData.Some? && (pciList.None? || |pciList.value| == 0))
    ensures acquired.Ok? && acquired.value.networkData.None? ==> Correlate(acquired, pciList, host) == Ok(map[])
    ensures var r := Correlate(acquired, pciList, host);
      r.Ok? && k in r.value && acquired.value.networkData.Some? ==>
        var p1 := Pass1(acquired.value.metaData.devices, acquired.value.networkData.value);
        (k in p1 && r.value[k] == p1[k])
        || (k !in p1 && LiveCorrelated(k, r.value[k], pciList.value, acquired.value.networkData.value, host))
  {
    var r := Correlate(acquired, pciList, host);
    if r.Ok? && acquired.value.networkData.Some? {
      var nd := acquired.value.networkData.value;
      var p1 := Pass1(acquired.value.metaData.devices, nd);
      Pass2KeepsExisting(p1, pciList.value, nd, host);
      if k in r.value && k !in p1 {
        Pass2NewEntries(p1, pciList.value, nd, host, k);
      }
    }
  }
}
