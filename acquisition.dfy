/**
 * Obtaining the two documents (config drive first, metadata service as the
 * fallback) and correcting each metadata device's PCI address against the live
 * NICs (getOpenstackData).
 */
module Acquisition {
  import opened Common
  import opened Types
  import opened MacLookup

  /** Which source produced the documents. */
  datatype Source = ConfigDrive | MetadataService

  /** The result of a successful acquisition. */
  datatype Acquired = Acquired(metaData: MetaData, networkData: Option<NetworkData>, source: Source)

  /** Resolving a MAC to a PCI address, or failing to. */
  type Resolver = string -> Result<string, LookupError>

  /** getPCIAddressFromMACAddress over a fixed NIC listing, as a function of the MAC. */
  function Lookup(nics: seq<Nic>): Resolver {
    mac => PciLookup(mac, nics)
  }

  /** The index of the first device at or after `i` whose MAC does not resolve, or the number of devices. */
  function FirstUnresolvedFrom(devices: seq<MetaDataDevice>, lookup: Resolver, i: nat): (k: nat)
    requires i <= |devices|
    ensures i <= k <= |devices|
    ensures forall j :: i <= j < k ==> lookup(devices[j].mac).Ok?
    ensures k < |devices| ==> lookup(devices[k].mac).Err?
    decreases |devices| - i
  {
    if i == |devices| || lookup(devices[i].mac).Err? then i
    else FirstUnresolvedFrom(devices, lookup, i + 1)
  }

  function FirstUnresolved(devices: seq<MetaDataDevice>, lookup: Resolver): nat {
    FirstUnresolvedFrom(devices, lookup, 0)
  }

  /**
   * The correction loop from index `i` on, over the current device list: a
   * resolved device gets its address overwritten and the loop moves on; the
   * first failure ends it with the list as it stands.
   */
  function CorrectFrom(devices: seq<MetaDataDevice>, lookup: Resolver, i: nat): seq<MetaDataDevice>
    requires i <= |devices|
    decreases |devices| - i
  {
    if i == |devices| then devices
    else match lookup(devices[i].mac)
      case Err(_) => devices
      case Ok(address) => CorrectFrom(devices[i := devices[i].(address := address)], lookup, i + 1)
  }

  /** Where the correction stops depends on the MACs only, which it does not change. */
  lemma {:induction false} FirstUnresolvedSameMacs(d1: seq<MetaDataDevice>, d2: seq<MetaDataDevice>, lookup: Resolver, i: nat)
    requires i <= |d1| == |d2|
    requires forall j :: 0 <= j < |d1| ==> d1[j].mac == d2[j].mac
    ensures FirstUnresolvedFrom(d1, lookup, i) == FirstUnresolvedFrom(d2, lookup, i)
    decreases |d1| - i
  {
    if i < |d1| && lookup(d1[i].mac).Ok? {
      FirstUnresolvedSameMacs(d1, d2, lookup, i + 1);
    }
  }

  /**
   * The correction from `i` keeps the length and changes only addresses;
   * devices in [i, first failure) carry their resolved address and all others
   * are untouched.
   */
  lemma {:induction false} CorrectFromShape(devices: seq<MetaDataDevice>, lookup: Resolver, i: nat)
    requires i <= |devices|
    ensures |CorrectFrom(devices, lookup, i)| == |devices|
    ensures forall j :: 0 <= j < |devices| ==>
      CorrectFrom(devices, lookup, i)[j] == devices[j].(address := CorrectFrom(devices, lookup, i)[j].address)
    ensures forall j :: i <= j < FirstUnresolvedFrom(devices, lookup, i) ==>
      lookup(devices[j].mac) == Ok(CorrectFrom(devices, lookup, i)[j].address)
    ensures forall j :: (0 <= j < i || FirstUnresolvedFrom(devices, lookup, i) <= j < |devices|) ==>
      CorrectFrom(devices, lookup, i)[j] == devices[j]
    decreases |devices| - i
  {
    if i < |devices| && lookup(devices[i].mac).Ok? {
      var next := devices[i := devices[i].(address := lookup(devices[i].mac).value)];
      CorrectFromShape(next, lookup, i + 1);
      FirstUnresolvedSameMacs(devices, next, lookup, i + 1);
    }
  }

  /**
   * The correction: each device takes the address its MAC resolves to, until
   * the first device that does not resolve; that one and every later one are
   * kept as they are.
   */
  function CorrectAddresses(devices: seq<MetaDataDevice>, lookup: Resolver): (r: seq<MetaDataDevice>)
    ensures |r| == |devices|
    ensures forall i :: 0 <= i < |r| ==> r[i] == devices[i].(address := r[i].address)
    ensures forall i :: 0 <= i < FirstUnresolved(devices, lookup) ==> lookup(devices[i].mac) == Ok(r[i].address)
    ensures forall i :: FirstUnresolved(devices, lookup) <= i < |r| ==> r[i] == devices[i]
  {
    CorrectFromShape(devices, lookup, 0);
    CorrectFrom(devices, lookup, 0)
  }

  /**
   * The outcome of getOpenstackData for the given outcomes of the config-drive
   * read, the metadata-service fetch and the live NIC listing.
   */
  function Acquire(configDrive: Option<Documents>, metadataService: Option<Documents>, netInfo: Option<seq<Nic>>)
    : (r: Result<Acquired, Error>)
    ensures r.Err? <==> (configDrive.None? && metadataService.None?) || netInfo.None?
    ensures r.Err? ==> r.error == (if configDrive.None? && metadataService.None? then MetadataUnavailable else NetworkInfoUnavailable)
    ensures r.Ok? ==> (r.value.source == MetadataService <==> configDrive.None?)
    ensures r.Ok? ==> var docs := if configDrive.Some? then configDrive.value else metadataService.value;
      && r.value.networkData == docs.networkData
      && r.value.metaData == docs.metaData.(devices := r.value.metaData.devices)
      && r.value.metaData.devices == CorrectAddresses(docs.metaData.devices, Lookup(netInfo.value))
  {
    var chosen := if configDrive.Some? then configDrive else metadataService;
    match chosen
    case None => Err(MetadataUnavailable)
    case Some(docs) =>
      match netInfo
      case None => Err(NetworkInfoUnavailable)
      case Some(nics) =>
        var source := if configDrive.Some? then ConfigDrive else MetadataService;
        var corrected := docs.metaData.(devices := CorrectAddresses(docs.metaData.devices, Lookup(nics)));
        Ok(Acquired(corrected, docs.networkData, source))
  }

  /**
   * When every device's MAC resolves, every corrected address is the address
   * of the one live NIC carrying that MAC (assuming every NIC has an address).
   */
  lemma AllResolvedAreUnique(devices: seq<MetaDataDevice>, nics: seq<Nic>, i: nat)
    requires FirstUnresolved(devices, Lookup(nics)) == |devices|
    requires forall j :: 0 <= j < |nics| ==> nics[j].pciAddress != ""
    requires i < |devices|
    ensures exists n :: OnlyMatch(devices[i].mac, nics, n) && nics[n].pciAddress == CorrectAddresses(devices, Lookup(nics))[i].address
  {
    PciLookupUnique(devices[i].mac, nics, CorrectAddresses(devices, Lookup(nics))[i].address);
  }

  /**
   * An unresolvable MAC, including one two NICs carry, is not an error: the
   * acquisition succeeds, and that device and the ones after it keep their
   * declared addresses.
   */
  lemma UnresolvedMacIsNotAnError(configDrive: Option<Documents>, metadataService: Option<Documents>,
                                   nics: seq<Nic>, i: nat)
    requires configDrive.Some? || metadataService.Some?
    requires var docs := if configDrive.Some? then configDrive.value else metadataService.value;
      i < |docs.metaData.devices| && PciLookup(docs.metaData.devices[i].mac, nics).Err?
    ensures var docs := if configDrive.Some? then configDrive.value else metadataService.value;
      var r := Acquire(configDrive, metadataService, Some(nics));
      && r.Ok?
      && forall j :: i <= j < |docs.metaData.devices| ==> r.value.metaData.devices[j] == docs.metaData.devices[j]
  {
    var docs := if configDrive.Some? then configDrive.value else metadataService.value;
    var devices := docs.metaData.devices;
    assert Lookup(nics)(devices[i].mac).Err?;
    assert FirstUnresolved(devices, Lookup(nics)) <= i;
  }

  /** getOpenstackData: the fallback, then the in-place address correction. */
  method GetOpenstackData(configDrive: Option<Documents>, metadataService: Option<Documents>, netInfo: Option<seq<Nic>>)
    returns (r: Result<Acquired, Error>)
    ensures r == Acquire(configDrive, metadataService, netInfo)
  {
    var docs: Documents;
    var source: Source;
    if configDrive.Some? {
      docs, source := configDrive.value, ConfigDrive;
    } else if metadataService.Some? {
      docs, source := metadataService.value, MetadataService;
    } else {
      return Err(MetadataUnavailable);
    }
    if netInfo.None? {
      return Err(NetworkInfoUnavailable);
    }
    var devices := CorrectDeviceAddresses(docs.metaData.devices, netInfo.value);
    return Ok(Acquired(docs.metaData.(devices := devices), docs.networkData, source));
  }

  /**
   * The loop of getOpenstackData over metaData.Devices: overwrite each device's
   * address with the observed one, and stop at the first lookup error.
   */
  method CorrectDeviceAddresses(declared: seq<MetaDataDevice>, nics: seq<Nic>) returns (devices: seq<MetaDataDevice>)
    ensures devices == CorrectAddresses(declared, Lookup(nics))
  {
    devices := declared;
    var i := 0;
    while i < |devices|
      invariant i <= |devices|
      invariant CorrectFrom(devices, Lookup(nics), i) == CorrectAddresses(declared, Lookup(nics))
    {
      var device := devices[i];
      var realPciAddr := GetPciAddressFromMacAddress(device.mac, nics);
      assert Lookup(nics)(device.mac) == realPciAddr;
      if realPciAddr.Err? {
        // The warning is logged and the data is returned as it stands.
        return;
      }
      if realPciAddr.value != device.address {
        devices := devices[i := device.(address := realPciAddr.value)];
      } else {
        assert devices[i := device.(address := realPciAddr.value)] == devices;
      }
      i := i + 1;
    }
  }
}
