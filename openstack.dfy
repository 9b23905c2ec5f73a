/**
 * The OpenStack platform context: the correlation map it keeps between
 * PCI addresses and (MAC, network ID), how it is built from the instance
 * metadata and the live PCI devices, how it is restored from a persisted
 * node state, and how the inventory is synthesized from it.
 */
module Openstack {
  import opened Common
  import opened Types
  import opened HexParse
  import opened Acquisition
  import opened Correlation
  import opened Restore
  import opened Synthesis

  /** The innermost loop: every network attached to `link`, in order, overwrites `key`. */
  method AssignLinkNetworks(m: DevicesInfo, key: string, mac: string, link: NetworkLink, networks: seq<Network>)
    returns (m': DevicesInfo)
    ensures m' == Apply(m, NetworkAssignments(key, mac, link, networks))
  {
    m' := m;
    for j := 0 to |networks|
      invariant m' == Apply(m, NetworkAssignments(key, mac, link, networks[..j]))
    {
      assert networks[..j + 1][..j] == networks[..j];
      var network := networks[j];
      if network.link == link.id {
        var w := Assignment(key, DeviceInfo(mac, NetworkIdOf(network)));
        assert NetworkAssignments(key, mac, link, networks[..j + 1])
          == NetworkAssignments(key, mac, link, networks[..j]) + [w];
        ApplySnoc(m, NetworkAssignments(key, mac, link, networks[..j]), w);
        m' := m'[key := DeviceInfo(mac, NetworkIdOf(network))];
      } else {
        assert NetworkAssignments(key, mac, link, networks[..j + 1])
          == NetworkAssignments(key, mac, link, networks[..j]);
      }
    }
    assert networks[..|networks|] == networks;
  }

  /**
   * The loop over the links shared by both passes: for every link whose
   * Ethernet MAC equals `mac` exactly, the networks on that link overwrite `key`.
   */
  method AssignMatchingNetworks(m: DevicesInfo, key: string, mac: string, links: seq<NetworkLink>,
                                networks: seq<Network>)
    returns (m': DevicesInfo)
    ensures m' == Apply(m, LinkAssignments(key, mac, links, networks))
  {
    m' := m;
    for i := 0 to |links|
      invariant m' == Apply(m, LinkAssignments(key, mac, links[..i], networks))
    {
      assert links[..i + 1][..i] == links[..i];
      var link := links[i];
      if mac == link.ethernetMac {
        assert LinkAssignments(key, mac, links[..i + 1], networks)
          == LinkAssignments(key, mac, links[..i], networks) + NetworkAssignments(key, mac, link, networks);
        ApplyAppend(m, LinkAssignments(key, mac, links[..i], networks), NetworkAssignments(key, mac, link, networks));
        m' := AssignLinkNetworks(m', key, mac, link, networks);
      } else {
        assert LinkAssignments(key, mac, links[..i + 1], networks) == LinkAssignments(key, mac, links[..i], networks);
      }
    }
    assert links[..|links|] == links;
  }

  /** The first pass: the declared devices, in metadata order. */
  method CorrelateDeclared(declared: seq<MetaDataDevice>, nd: NetworkData) returns (devicesInfo: DevicesInfo)
    ensures devicesInfo == Pass1(declared, nd)
  {
    devicesInfo := map[];
    for i := 0 to |declared|
      invariant devicesInfo == Apply(map[], MetaDataAssignments(declared[..i], nd))
    {
      assert declared[..i + 1][..i] == declared[..i];
      var device := declared[i];
      ApplyAppend(map[], MetaDataAssignments(declared[..i], nd), LinkAssignments(device.address, device.mac, nd.links, nd.networks));
      devicesInfo := AssignMatchingNetworks(devicesInfo, device.address, device.mac, nd.links, nd.networks);
    }
    assert declared[..|declared|] == declared;
  }

  class OpenstackContext {
    /** The host helper the context was created with. */
    const hostManager: HostManager
    /** PCI address to (MAC, network ID); the only state the context changes. */
    var openStackDevicesInfo: DevicesInfo

    /** New: a context over `hostManager` with an empty map. */
    constructor (hostManager: HostManager)
      ensures this.hostManager == hostManager && openStackDevicesInfo == map[]
    {
      this.hostManager := hostManager;
      openStackDevicesInfo := map[];
    }

    /** The second pass: live devices the first pass did not key, in list order. */
    method CorrelateLive(pass1: DevicesInfo, devices: seq<PciDevice>, nd: NetworkData) returns (devicesInfo: DevicesInfo)
      ensures devicesInfo == Pass2(pass1, devices, nd, hostManager)
    {
      devicesInfo := pass1;
      for i := 0 to |devices|
        invariant devicesInfo == Pass2(pass1, devices[..i], nd, hostManager)
      {
        assert devices[..i + 1][..i] == devices[..i];
        var device := devices[i];
        if device.address in devicesInfo {
          // Already correlated from the metadata.
          continue;
        }
        var devClass := ParseInt16(device.classId);
        if devClass.None? || devClass.value != NetClass {
          // The class does not parse, or it is not a network device.
          continue;
        }
        var macAddress := "";
        var name := hostManager.tryToGetVirtualInterfaceName(device.address);
        if name != "" {
          var mac := hostManager.getNetDevMac(name);
          if mac != "" {
            macAddress := mac;
          }
        }
        if macAddress == "" {
          continue;
        }
        devicesInfo := AssignMatchingNetworks(devicesInfo, device.address, macAddress, nd.links, nd.networks);
      }
      assert devices[..|devices|] == devices;
    }

    /**
     * CreateOpenstackDevicesInfo: acquire the metadata, correlate the declared
     * devices, then the live ones, and commit the map. An error leaves the map
     * as it was; missing network data empties it.
     */
    method CreateOpenstackDevicesInfo(configDrive: Option<Documents>, metadataService: Option<Documents>,
                                      netInfo: Option<seq<Nic>>, pciList: Option<seq<PciDevice>>)
      returns (r: Outcome<Error>)
      modifies this
      ensures r.Pass? <==> Correlate(Acquire(configDrive, metadataService, netInfo), pciList, hostManager).Ok?
      ensures r.Pass? ==>
        openStackDevicesInfo == Correlate(Acquire(configDrive, metadataService, netInfo), pciList, hostManager).value
      ensures r.Fail? ==>
        r.error == Correlate(Acquire(configDrive, metadataService, netInfo), pciList, hostManager).error
        && openStackDevicesInfo == old(openStackDevicesInfo)
    {
      var acquired := GetOpenstackData(configDrive, metadataService, netInfo);
      if acquired.Err? {
        return Fail(acquired.error);
      }
      var acq := acquired.value;
      if acq.networkData.None? {
        openStackDevicesInfo := map[];
        return Pass;
      }
      var nd := acq.networkData.value;
      var devicesInfo := CorrelateDeclared(acq.metaData.devices, nd);
      if pciList.None? {
        return Fail(PciInfoUnavailable);
      }
      var devices := pciList.value;
      if |devices| == 0 {
        return Fail(NoPciDevices);
      }
      devicesInfo := CorrelateLive(devicesInfo, devices, nd);
      openStackDevicesInfo := devicesInfo;
      return Pass;
    }

    /**
     * DiscoverSriovDevicesVirtual: one record per live network-class device
     * that is a key of the map and has a driver, in list order.
     */
    method DiscoverSriovDevicesVirtual(pciList: Option<seq<PciDevice>>, driverOf: string -> Option<string>)
      returns (r: Result<seq<InterfaceExt>, Error>)
      ensures pciList.None? ==> r == Err(PciInfoUnavailable)
      ensures pciList.Some? && |pciList.value| == 0 ==> r == Err(NoPciDevices)
      ensures pciList.Some? && |pciList.value| > 0 ==>
        r == Ok(Synthesize(openStackDevicesInfo, pciList.value, hostManager, driverOf))
    {
      if pciList.None? {
        return Err(PciInfoUnavailable);
      }
      var devices := pciList.value;
      if |devices| == 0 {
        return Err(NoPciDevices);
      }
      var pfList: seq<InterfaceExt> := [];
      for i := 0 to |devices|
        invariant pfList == Synthesize(openStackDevicesInfo, devices[..i], hostManager, driverOf)
      {
        assert devices[..i + 1][..i] == devices[..i];
        var device := devices[i];
        var devClass := ParseInt16(device.classId);
        if devClass.None? || devClass.value != NetClass {
          continue;
        }
        if device.address !in openStackDevicesInfo {
          continue;
        }
        var deviceInfo := openStackDevicesInfo[device.address];
        var driver := driverOf(device.address);
        if driver.None? {
          continue;
        }
        var iface := BuildInterface(device, deviceInfo, driver.value, hostManager);
        pfList := pfList + [iface];
      }
      assert devices[..|devices|] == devices;
      return Ok(pfList);
    }

    /** CreateOpenstackDevicesInfoFromNodeStatus: one write per persisted interface, in order. */
    method CreateOpenstackDevicesInfoFromNodeStatus(networkState: SriovNetworkNodeState)
      modifies this
      ensures openStackDevicesInfo == RestoreMap(networkState.status.interfaces)
    {
      var interfaces := networkState.status.interfaces;
      var devicesInfo: DevicesInfo := map[];
      for i := 0 to |interfaces|
        invariant devicesInfo == Apply(map[], RestoreAssignments(interfaces[..i]))
      {
        var iface := interfaces[i];
        var w := Assignment(iface.pciAddress, DeviceInfo(iface.mac, iface.netFilter));
        assert interfaces[..i + 1][..i] == interfaces[..i];
        assert RestoreAssignments(interfaces[..i + 1]) == RestoreAssignments(interfaces[..i]) + [w];
        ApplySnoc(map[], RestoreAssignments(interfaces[..i]), w);
        devicesInfo := devicesInfo[iface.pciAddress := DeviceInfo(iface.mac, iface.netFilter)];
      }
      assert interfaces[..|interfaces|] == interfaces;
      openStackDevicesInfo := devicesInfo;
    }
  }
}
