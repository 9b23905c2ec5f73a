/**
 * Two end-to-end situations: a device whose declared address is stale is
 * keyed by its observed address, and a network-class device with neither a
 * correlation nor a driver yields no record.
 */
module Scenarios {
  import opened Common
  import opened Types
  import opened HexParse
  import opened MacLookup
  import opened Acquisition
  import opened Correlation
  import opened Synthesis

  const Mac: string := "aa:bb:cc:dd:ee:01"
  const DeclaredAddress: string := "0000:01:00.0"
  const LiveAddress: string := "0000:02:00.0"

  function StaleDocuments(): Documents {
    var device := MetaDataDevice(0, false, "nic", Mac, "pci", DeclaredAddress, []);
    var meta := MetaData("uuid", "", "vm", 0, "nova", "project", [device]);
    var nd := NetworkData([NetworkLink("l1", "vif", "phy", 1500, Mac)], [Network("n1", "ipv4", "l1", "net-123")]);
    Documents(meta, Some(nd))
  }

  /** The one live NIC carrying the MAC resolves it, so the declared address is corrected. */
  lemma StaleAddressLookup()
    ensures CorrectAddresses(StaleDocuments().metaData.devices, Lookup([Nic(Mac, LiveAddress)]))
      == [StaleDocuments().metaData.devices[0].(address := LiveAddress)]
  {
    var nics := [Nic(Mac, LiveAddress)];
    assert MatchedAddresses(Mac, nics) == [LiveAddress] by {
      assert nics[..0] == [];
      assert EqualFold(Mac, Mac);
    }
    assert |LiveAddress| > 0;
    assert MatchedAddresses(Mac, nics)[0] != "";
  }

  /** The first pass keys the corrected device by its live address, with network `net-123` under the OpenStack prefix. */
  lemma StaleAddressPass1(corrected: seq<MetaDataDevice>)
    requires corrected == [StaleDocuments().metaData.devices[0].(address := LiveAddress)]
    ensures Pass1(corrected, StaleDocuments().networkData.value) == map[LiveAddress := DeviceInfo(Mac, OpenstackNetworkIdPrefix + ":net-123")]
  {
    var nd := StaleDocuments().networkData.value;
    var w := Assignment(LiveAddress, DeviceInfo(Mac, OpenstackNetworkIdPrefix + ":net-123"));
    assert NetworkIdOf(nd.networks[0]) == OpenstackNetworkIdPrefix + ":net-123";
    assert nd.networks[..0] == [] && nd.links[..0] == [];
    assert NetworkAssignments(LiveAddress, Mac, nd.links[0], nd.networks) == [w];
    assert LinkAssignments(LiveAddress, Mac, nd.links, nd.networks) == [w];
    assert corrected[..0] == [];
    assert MetaDataAssignments(corrected, nd) == [w];
    assert [] + [w] == [w];
    ApplySnoc(map[], [], w);
  }

  /** The stale declared address is replaced by the live one, whatever the host reports. */
  lemma StaleAddressIsCorrected(host: HostManager)
    ensures Correlate(Acquire(Some(StaleDocuments()), None, Some([Nic(Mac, LiveAddress)])),
                      Some([PciDevice(LiveAddress, "02", "1af4", "1000")]), host)
      == Ok(map[LiveAddress := DeviceInfo(Mac, OpenstackNetworkIdPrefix + ":net-123")])
  {
    StaleAddressLookup();
    var corrected := CorrectAddresses(StaleDocuments().metaData.devices, Lookup([Nic(Mac, LiveAddress)]));
    StaleAddressPass1(corrected);
    var pass1 := Pass1(corrected, StaleDocuments().networkData.value);
    var live := [PciDevice(LiveAddress, "02", "1af4", "1000")];
    assert live[..0] == [];
    assert Pass2(pass1, live, StaleDocuments().networkData.value, host) == pass1;
  }

  /** The class identifier of a network controller, in the spellings the parser accepts and one it rejects. */
  lemma NetClassSpellings()
    ensures IsNetClass("2", NetClass) && IsNetClass("02", NetClass) && IsNetClass("+02", NetClass)
    ensures !IsNetClass("0x02", NetClass) && !IsNetClass("-02", NetClass)
  {
    assert ParseInt16("2") == Some(2) by {
      assert Unsigned("2") == "2" && "2"[..0] == [];
    }
    assert ParseInt16("02") == Some(2) by {
      assert "02" == "0" + "2";
      ParseZeroPadded("2");
    }
    assert ParseInt16("+02") == Some(2) by {
      assert "+02" == "+" + "02";
      ParseSignAndPrefix("02");
    }
    assert ParseInt16("0x02") == None by {
      assert "0x02" == "0x" + "02";
      ParseSignAndPrefix("02");
    }
    assert ParseInt16("-02") != Some(2) by {
      assert "-02"[0] == '-';
    }
  }

  /** A network-class device absent from the map and without a driver is skipped without error. */
  lemma UncorrelatedDeviceIsSkipped(info: DevicesInfo, host: HostManager, driverOf: string -> Option<string>)
    requires "0000:03:00.0" !in info && driverOf("0000:03:00.0") == None
    ensures Synthesize(info, [PciDevice("0000:03:00.0", "02", "8086", "154c")], host, driverOf) == []
  {
  }
}
