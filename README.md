# OpenStack virtual-platform device correlation

This project models how the SR-IOV network operator's OpenStack platform support keeps its correlation map. The map sends a PCI address to a MAC address and an OpenStack network ID. The model covers these parts of `pkg/platforms/openstack/openstack.go`:

- **Acquisition.** Instance metadata (`meta_data.json`) and network topology (`network_data.json`) come from the config drive. The metadata service is consulted only when the config drive fails.
- **Address correction.** Each declared device address is replaced by the address of the live NIC that carries the device's MAC. The correction stops quietly at the first MAC that cannot be resolved.
- **Correlation.** The map is built in two passes:
  - pass 1 uses the metadata devices;
  - pass 2 uses the live network-class PCI devices that pass 1 did not key.

  On success the map is replaced; it is replaced by an empty map when the network data is missing. On any error the map is left unchanged.
- **Synthesis.** One single-VF inventory record (`InterfaceExt`) is built for each correlated network-class device that has a driver.
- **Restore.** The map is rebuilt from a persisted `SriovNetworkNodeState`.

Modules:

| module | file | contents |
|---|---|---|
| `Common` | `common.dfy` | `Option`, `Result` and `Outcome` |
| `Types` | `types.dfy` | the documents, the live hardware, the map, the inventory records, the host helper, `NetClass` and the network-ID prefix |
| `HexParse` | `hexparse.dfy` | `strconv.ParseInt(s, 16, 64)`, with a hex formatter as its inverse |
| `MacLookup` | `maclookup.dfy` | `getPCIAddressFromMACAddress`: the scan as a method, plus its declarative meaning |
| `Acquisition` | `acquisition.dfy` | the fallback and the in-place correction of `getOpenstackData` |
| `Correlation` | `correlation.dfy` | the two passes as sequences of map writes, where the last write wins |
| `Restore` | `restore.dfy` | the map rebuilt from node status |
| `Synthesis` | `synthesis.dfy` | the inventory records |
| `Openstack` | `openstack.dfy` | class `OpenstackContext`, whose field `openStackDevicesInfo` its methods reassign |
| `Scenarios` | `scenarios.dfy` | two concrete end-to-end situations |

The Go loops are methods with loop invariants. Each method is proved equal to a reference function, and the properties are lemmas about those functions. The reference functions are `MacLookup.PciLookup`, `Acquisition.CorrectFrom`, `Correlation.Apply`, `Correlation.Pass1`, `Correlation.LiveMac`, `Correlation.Pass2Step`, `Correlation.Pass2`, `Correlation.Correlate`, `Synthesis.RecordMac` and `Restore.RestoreMap`. The rows below state what is proved about them. A map write `m[k] := v` in Go is one `Assignment`. A loop nest is the sequence of writes it performs, and `Apply` performs them in order.

## Model

| member | source | states |
|---|---|---|
| `MacLookup.GetPciAddressFromMacAddress` | pkg/platforms/openstack/openstack.go:241-258 | The scan with early return equals `PciLookup`: no addressed match gives "no device". A matching NIC after an addressed match gives "ambiguous". Otherwise the one addressed match's PCI address. |
| `MacLookup.PciLookupUnique` | pkg/platforms/openstack/openstack.go:241-258 | When every NIC has a PCI address: success with address `a` iff exactly one NIC matches the MAC (ignoring case) and its address is `a`. "No device" iff no NIC matches. "Ambiguous" iff two NICs match. |
| `MacLookup.MatchedAddresses` | pkg/platforms/openstack/openstack.go:243-244 | The list of addresses of the NICs that match the MAC case-insensitively is no longer than the NIC list. |
| `MacLookup.MatchedAddressSource` | pkg/platforms/openstack/openstack.go:243-246 | Every matched address is the PCI address of a NIC whose MAC matches. |
| `MacLookup.MatchContributes` | pkg/platforms/openstack/openstack.go:243-246 | Every matching NIC contributes its address to the matched list. |
| `MacLookup.NoMatchNoAddresses` | pkg/platforms/openstack/openstack.go:243-244 | If no NIC matches, the matched list is empty. |
| `MacLookup.SingleMatchAddresses` | pkg/platforms/openstack/openstack.go:243-246 | If exactly one NIC matches, the matched list is that NIC's address alone. |
| `MacLookup.OneAddressOneMatch` | pkg/platforms/openstack/openstack.go:243-246 | A matched list of length one comes from exactly one matching NIC, and holds its address. |
| `MacLookup.TwoMatches` | pkg/platforms/openstack/openstack.go:243-248 | A matched list of two or more entries comes from two distinct matching NICs. |
| `MacLookup.MatchedAddressesPrefix` | pkg/platforms/openstack/openstack.go:243 | Scanning a prefix of the NIC list yields a prefix of the matched list. |
| `MacLookup.ScanStep` | pkg/platforms/openstack/openstack.go:243-250 | While no addressed match has been seen, taking the next match's address keeps the scan invariant: the running `pciAddress` is empty iff every match so far is unaddressed, and otherwise it is the last match's address. |
| `HexParse.ParseInt16` | pkg/platforms/openstack/openstack.go:307-311 | A parse succeeds exactly when the input is an optional `+` or `-`, then one hex digit or more, with a magnitude in int64 range (`WellFormed`). Without `-` the value is that of the digits; with `-` it is their negation. |
| `HexParse.ParseFormatRoundTrip` | pkg/platforms/openstack/openstack.go:307 | Parsing the hex rendering of any `n` up to 2^63-1 gives `n`. |
| `HexParse.ParseNegativeRoundTrip` | pkg/platforms/openstack/openstack.go:307 | Parsing `-` followed by the hex rendering of `n` up to 2^63 gives `-n`. |
| `HexParse.ParseRejectsOverflow` | pkg/platforms/openstack/openstack.go:307-311 | 2^63 in hex, the empty string and a lone sign do not parse. Such devices are skipped. |
| `HexParse.HexValueOfFormat` | pkg/platforms/openstack/openstack.go:307 | The value of the hex rendering of `n` is `n`. |
| `HexParse.ParseZeroPadded` | pkg/platforms/openstack/openstack.go:307 | A leading `0` before an unsigned class ID is ignored: `"02"` parses like `"2"`. |
| `HexParse.HexValueLeadingZero` | pkg/platforms/openstack/openstack.go:307 | A leading zero digit does not change a digit string's value. |
| `HexParse.ParseSignAndPrefix` | pkg/platforms/openstack/openstack.go:307 | A leading `+` is ignored. A `0x` prefix is a syntax error, because the base is given explicitly. |
| `HexParse.FormatHex` | pkg/platforms/openstack/openstack.go:307 | The rendering is non-empty and made of hex digits without a sign. |
| `HexParse.DigitValue` | pkg/platforms/openstack/openstack.go:307 | A hex digit's value is below 16. |
| `HexParse.HexChar` | pkg/platforms/openstack/openstack.go:307 | The digit rendered for a value below 16 is a hex digit with that value. |
| `Acquisition.GetOpenstackData` | pkg/platforms/openstack/openstack.go:112-154 | The fallback, the NIC-listing check and the correction as a method. The result equals `Acquire`. |
| `Acquisition.Acquire` | pkg/platforms/openstack/openstack.go:112-133 | Error iff both sources fail or the NIC listing fails, and which error it is. The metadata service is used iff the config drive failed. The network data is the chosen source's. Only the device list of the metadata changes. |
| `Acquisition.CorrectDeviceAddresses` | pkg/platforms/openstack/openstack.go:134-151 | The in-place loop over `Devices` equals `CorrectAddresses`. |
| `Acquisition.CorrectAddresses` | pkg/platforms/openstack/openstack.go:134-151 | Keeps the number and order of devices. Changes nothing but `address`. Devices before the first failed lookup get the resolved address. That device and every later one are untouched. |
| `Acquisition.FirstUnresolvedFrom` | pkg/platforms/openstack/openstack.go:134-143 | From index `i` on, every lookup before the returned index succeeds, and the lookup at that index (if any) fails. |
| `Acquisition.FirstUnresolvedSameMacs` | pkg/platforms/openstack/openstack.go:134-150 | Where the correction stops depends only on the devices' MACs, and the correction never changes a MAC. |
| `Acquisition.CorrectFromShape` | pkg/platforms/openstack/openstack.go:134-150 | The loop run from index `i` keeps the length and changes only addresses. Devices from `i` up to the first failure get their resolved address. All other devices are untouched. |
| `Acquisition.AllResolvedAreUnique` | pkg/platforms/openstack/openstack.go:134-151 | If every device resolves and every NIC has an address, each corrected address is the address of the one NIC carrying that device's MAC. |
| `Acquisition.UnresolvedMacIsNotAnError` | pkg/platforms/openstack/openstack.go:135-142 | A failed lookup (no device or ambiguous) still yields success. Devices from the failing one on keep their declared entries. |
| `Correlation.ApplyLastWriteWins` | pkg/platforms/openstack/openstack.go:283 | The effect of a sequence of map writes: a key is present iff the map had it or a write names it. A key no write names keeps its value. Otherwise the last write naming the key wins. |
| `Correlation.ApplyAppend` | pkg/platforms/openstack/openstack.go:277-289 | Performing two write sequences in a row is performing their concatenation. |
| `Correlation.LastWriteOf` | pkg/platforms/openstack/openstack.go:283 | A key some write names has a last write naming it. |
| `Correlation.NetworkAssignmentsMembers` | pkg/platforms/openstack/openstack.go:281-285 | The writes for one link are exactly the networks whose `Link` is the link's ID, each with the prefixed network ID. |
| `Correlation.LinkAssignmentsMembers` | pkg/platforms/openstack/openstack.go:278-287 | The writes for one MAC come from links whose Ethernet MAC equals it exactly and from networks on those links. |
| `Correlation.LinkAssignmentsCorrelate` | pkg/platforms/openstack/openstack.go:278-287 | Each write for a MAC names the device's key and correlates that MAC. If some link with that exact MAC carries a network, there is at least one write. |
| `Correlation.MetaDataAssignmentsMembers` | pkg/platforms/openstack/openstack.go:277-289 | Every write of pass 1 names some device's address and correlates that device's MAC. |
| `Correlation.Pass1WriteSource` | pkg/platforms/openstack/openstack.go:277-289 | Names the metadata device a pass-1 write belongs to. |
| `Correlation.Pass1Keys` | pkg/platforms/openstack/openstack.go:277-289 | A key is in the pass-1 map iff some device has that address and a link with its exact MAC carries a network. |
| `Correlation.Pass1Values` | pkg/platforms/openstack/openstack.go:277-289 | Each pass-1 value is (the device's MAC, prefix `:` network ID) for a matching link and network. It is the value of the last write for that key. |
| `Correlation.ApplyOtherKeys` | pkg/platforms/openstack/openstack.go:283 | Writes to one key leave every other key as it was. |
| `Correlation.NetworkAssignmentsKey` | pkg/platforms/openstack/openstack.go:281-285 | The writes for one link all name the device's key. |
| `Correlation.LinkAssignmentsKey` | pkg/platforms/openstack/openstack.go:329-336 | The writes for one MAC all name the device's key. |
| `Correlation.Pass2StepOtherKeys` | pkg/platforms/openstack/openstack.go:301-337 | One live device changes no entry but its own address. |
| `Correlation.Pass2StepAdds` | pkg/platforms/openstack/openstack.go:301-337 | For a live device whose address is not yet a key: if it becomes one, its class parses as `NetClass`, it has a non-empty name and live MAC, and the value correlates that MAC. Conversely, a network-class device whose live MAC has a network is added. |
| `Correlation.Pass2KeepsExisting` | pkg/platforms/openstack/openstack.go:301-305 | Pass 2 never changes or removes an entry present before it. |
| `Correlation.Pass2NewEntries` | pkg/platforms/openstack/openstack.go:307-337 | Every entry pass 2 adds belongs to a listed network-class device with a non-empty interface name and MAC. Its value correlates that live MAC. |
| `Correlation.Pass2Complete` | pkg/platforms/openstack/openstack.go:301-337 | Every listed network-class device whose live MAC has a network ends up keyed. |
| `Correlation.CorrelateEntries` | pkg/platforms/openstack/openstack.go:261-343 | Error iff acquisition fails, or network data is present and the PCI listing fails or is empty. Missing network data gives the empty map. Each entry of the result is its pass-1 entry, or a pass-2 entry for a live correlated device. |
| `Openstack.AssignLinkNetworks` | pkg/platforms/openstack/openstack.go:281-285 | The loop over networks equals applying that link's writes. |
| `Openstack.AssignMatchingNetworks` | pkg/platforms/openstack/openstack.go:278-287 | The loop over links, used by both passes, equals applying the writes for the MAC. |
| `Openstack.CorrelateDeclared` | pkg/platforms/openstack/openstack.go:277-289 | The loop over metadata devices equals `Pass1`. |
| `Openstack.OpenstackContext.CorrelateLive` | pkg/platforms/openstack/openstack.go:301-339 | The loop over live PCI devices equals `Pass2`. |
| `Openstack.OpenstackContext.CreateOpenstackDevicesInfo` | pkg/platforms/openstack/openstack.go:261-343 | Success iff `Correlate` succeeds; the new map is then its value. On failure the error is `Correlate`'s and the field is unchanged. |
| `Openstack.OpenstackContext.constructor` | pkg/platforms/openstack/openstack.go:105-109 | `New`: the context keeps the host helper and starts with an empty map. |
| `Openstack.OpenstackContext.DiscoverSriovDevicesVirtual` | pkg/platforms/openstack/openstack.go:346-423 | A failed PCI listing and an empty listing are errors. Otherwise the records equal `Synthesize` over the field's map. |
| `Openstack.OpenstackContext.CreateOpenstackDevicesInfoFromNodeStatus` | pkg/platforms/openstack/openstack.go:425-432 | The new map is `RestoreMap` of the persisted interfaces. |
| `Synthesis.BuildInterface` | pkg/platforms/openstack/openstack.go:385-419 | The record's address, driver, vendor, device ID and net filter. MTU only if positive. Name from the host. MAC live / metadata / empty. MTU 0 when the lookup is not positive. Link speed from the host when there is a name, empty otherwise. Link type from the host, applied to the record filled so far. `TotalVfs = NumVfs = 1`. One VF (ID 0) mirroring the record. |
| `Synthesis.DeviceRecord` | pkg/platforms/openstack/openstack.go:360-391 | A device yields a record iff its class parses as `NetClass`, its address is a key of the map and a driver is found. |
| `Synthesis.Synthesize` | pkg/platforms/openstack/openstack.go:359-421 | There are no more records than devices. |
| `Synthesis.SynthesizeOrigins` | pkg/platforms/openstack/openstack.go:359-421 | Each record comes from a device that yields it. The origins strictly increase, so the output follows PCI list order. Every device that yields a record is represented. |
| `Synthesis.OriginsLength` | pkg/platforms/openstack/openstack.go:359-421 | There is one origin per record. |
| `Synthesis.OriginsSoundAt` | pkg/platforms/openstack/openstack.go:359-421 | The `j`-th origin is a device index, and that device's record is the `j`-th record. |
| `Synthesis.OriginsSound` | pkg/platforms/openstack/openstack.go:359-421 | Every origin points at a device that yields exactly the record at that position. |
| `Synthesis.OriginsIncreasing` | pkg/platforms/openstack/openstack.go:359-421 | The computed origins strictly increase. |
| `Synthesis.OriginsComplete` | pkg/platforms/openstack/openstack.go:359-421 | Every device yielding a record appears among the origins. |
| `Synthesis.SynthesizeRecords` | pkg/platforms/openstack/openstack.go:360-419 | Each record's address is a key of the map of a listed network-class device. Its net filter is that entry's network ID. Its driver is the one found. It has one VF, with ID 0. |
| `Synthesis.ProducedAreSelected` | pkg/platforms/openstack/openstack.go:359-421 | Every record address is the address of a device that yields a record. |
| `Synthesis.SelectedAreProduced` | pkg/platforms/openstack/openstack.go:359-421 | Every device that yields a record has its address among the records. |
| `Synthesis.SynthesizeAddresses` | pkg/platforms/openstack/openstack.go:359-421 | The set of record addresses is exactly the set of addresses of the devices that yield records. |
| `Synthesis.RestoreThenSynthesize` | pkg/platforms/openstack/openstack.go:359-432 | After a restore, if every persisted address is a listed network-class device with a driver, the records cover exactly the persisted addresses. |
| `Restore.RestoreAssignments` | pkg/platforms/openstack/openstack.go:427-429 | One write per persisted interface, in order, keyed by its PCI address with (MAC, net filter). |
| `Restore.RestoreMapEntries` | pkg/platforms/openstack/openstack.go:425-432 | A key is restored iff some interface has that PCI address. Its value is the last such interface's (MAC, net filter). |
| `Restore.RestoreMapKeys` | pkg/platforms/openstack/openstack.go:425-432 | The restored keys are exactly the persisted PCI addresses. |
| `Scenarios.StaleAddressIsCorrected` | pkg/platforms/openstack/openstack.go:134-150 | Setup: a device declared at `0000:01:00.0` whose MAC is seen at `0000:02:00.0`. Result: correlated under `0000:02:00.0` with network ID `OpenstackNetworkIdPrefix + ":net-123"`, and nothing else, whatever the host reports. |
| `Scenarios.StaleAddressLookup` | pkg/platforms/openstack/openstack.go:134-150 | The correction step of that situation. |
| `Scenarios.StaleAddressPass1` | pkg/platforms/openstack/openstack.go:277-289 | The first pass of that situation. |
| `Scenarios.UncorrelatedDeviceIsSkipped` | pkg/platforms/openstack/openstack.go:372-390 | A network-class device absent from the map and without a driver yields no record. |
| `Scenarios.NetClassSpellings` | pkg/platforms/openstack/openstack.go:307-311 | `"2"`, `"02"` and `"+02"` name the network class; `"0x02"` and `"-02"` do not. |

## Left out

- Reading the config drive (lines 157-198), the HTTP client and its retries (200-213), and JSON decoding (215-238). Each source is an `Option<Documents>` input: `None` is any read or decode error. The host-path choice `useHostPath` is not modelled.
- `ghw.Network()`, `ghw.PCI()` with `ListDevices()`, and `dputils.GetDriverName` are inputs: `Option` lists and a partial function. The five host-manager lookups are the pure functions of `HostManager`. Two calls with the same argument therefore agree, which the live system does not guarantee.
- Error message texts and logging are not modelled. An error is a tag (`Error`, `LookupError`).
- A NIC whose `PCIAddress` pointer is nil would make line 246 panic. The model gives each NIC a string address.
- A `null` meta_data.json would decode to a nil pointer and make line 134 panic. The model's metadata is always present. A `null` network_data.json is modelled, as `networkData == None`.
- `MacLookup.EqualFold`: folds ASCII letters only, while `strings.EqualFold` uses Unicode simple folding. MAC strings are ASCII.
- `consts.NetClass` is not part of this model. It is the constant `NetClass`, with value 0x02, the PCI base class of network controllers.
- `sriovnetworkv1.OpenstackNetworkID` is not part of this model. It is the constant `OpenstackNetworkIdPrefix`. Its string is defined outside this file, so the value `"openstack"` is an assumption made for the examples. No lemma depends on that value: the scenarios state network IDs as `OpenstackNetworkIdPrefix + ":net-123"`.
- Only the `InterfaceExt` and `VirtualFunction` fields this code sets are modelled.
- Go pointer sharing in the map (`*OSPDeviceInfo`) is not modelled. Values are immutable here, and this code never mutates one after storing it.
- The `OpenstackInterface` interface and the mock generator directive are not modelled.

Two behaviours of the code are easy to misread:

- An ambiguous MAC during address correction is not an error. Line 142 stops the correction and returns a nil error (`Acquisition.UnresolvedMacIsNotAnError`).
- Both correlation passes compare MACs with case-sensitive `==` (lines 279 and 330). A later matching (link, network) pair overwrites an earlier one (`Correlation.Pass1Values`, `Correlation.ApplyLastWriteWins`).
