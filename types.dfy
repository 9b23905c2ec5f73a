/**
 * The data model of the OpenStack virtual platform: the documents read from the
 * config drive or the metadata service, the live hardware as the host reports it,
 * the correlation map and the synthesized inventory records.
 */
module Types {
  import opened Common

  /** One entry of `devices` in meta_data.json (OSPMetaDataDevice). */
  datatype MetaDataDevice = MetaDataDevice(
    vlan: int,
    vfTrusted: bool,
    deviceType: string,
    mac: string,
    bus: string,
    address: string,
    tags: seq<string>)

  /** meta_data.json (OSPMetaData). */
  datatype MetaData = MetaData(
    uuid: string,
    adminPass: string,
    name: string,
    launchIndex: int,
    availabilityZone: string,
    projectId: string,
    devices: seq<MetaDataDevice>)

  /** One entry of `links` in network_data.json (OSPNetworkLink). */
  datatype NetworkLink = NetworkLink(id: string, vifId: string, linkType: string, mtu: int, ethernetMac: string)

  /** One entry of `networks` in network_data.json (OSPNetwork). */
  datatype Network = Network(id: string, networkType: string, link: string, networkId: string)

  /** network_data.json (OSPNetworkData). */
  datatype NetworkData = NetworkData(links: seq<NetworkLink>, networks: seq<Network>)

  /**
   * The two documents as one source produced them. A JSON `null` document decodes
   * to a nil network_data pointer, hence the Option.
   */
  datatype Documents = Documents(metaData: MetaData, networkData: Option<NetworkData>)

  /** The correlation of one PCI address (OSPDeviceInfo). */
  datatype DeviceInfo = DeviceInfo(macAddress: string, networkId: string)

  /** The correlation map, keyed by PCI address (OSPDevicesInfo). */
  type DevicesInfo = map<string, DeviceInfo>

  /** A live network interface as the hardware inventory lists it. */
  datatype Nic = Nic(macAddress: string, pciAddress: string)

  /** A live PCI device as the hardware inventory lists it. */
  datatype PciDevice = PciDevice(address: string, classId: string, vendorId: string, productId: string)

  /** The synthesized function entry of a record (the fields this core sets). */
  datatype VirtualFunction = VirtualFunction(
    pciAddress: string,
    driver: string,
    vfId: int,
    vendor: string,
    deviceId: string,
    mtu: int,
    mac: string)

  /** A device inventory record (the fields of InterfaceExt this core sets). */
  datatype InterfaceExt = InterfaceExt(
    name: string,
    mac: string,
    driver: string,
    pciAddress: string,
    vendor: string,
    deviceId: string,
    netFilter: string,
    mtu: int,
    linkSpeed: string,
    linkType: string,
    totalVfs: int,
    numVfs: int,
    vfs: seq<VirtualFunction>)

  /** The persisted node state that the restore path reads. */
  datatype NodeStatus = NodeStatus(interfaces: seq<InterfaceExt>)
  datatype SriovNetworkNodeState = SriovNetworkNodeState(status: NodeStatus)

  /**
   * The host-introspection lookups this core uses, as functions of their
   * arguments; an empty string or a zero stands for "nothing found".
   */
  datatype HostManager = HostManager(
    tryToGetVirtualInterfaceName: string -> string,
    getNetDevMac: string -> string,
    getNetdevMtu: string -> int,
    getNetDevLinkSpeed: string -> string,
    getLinkType: InterfaceExt -> string)

  /** Error kinds the operations return (their message text is not modelled). */
  datatype Error =
    | MetadataUnavailable     // both the config drive and the metadata service failed
    | NetworkInfoUnavailable  // listing the live network interfaces failed
    | PciInfoUnavailable      // listing the live PCI devices failed
    | NoPciDevices            // the live PCI device list is empty

  /** Why a MAC address could not be resolved to one PCI address. */
  datatype LookupError = NoDeviceWithMac | AmbiguousMac

  /** The PCI base class of a network controller. */
  const NetClass: int := 0x02

  /** The namespace of logical network identifiers. */
  const OpenstackNetworkIdPrefix: string := "openstack"

  /** The logical network identifier recorded for a network. */
  function NetworkIdOf(n: Network): string
  {
    OpenstackNetworkIdPrefix + ":" + n.networkId
  }
}
