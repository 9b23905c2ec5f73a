/** Rebuilding the correlation map from a persisted node state. */
module Restore {
  import opened Types
  import opened Correlation

  /** One write per persisted interface, in interface order. */
  function RestoreAssignments(interfaces: seq<InterfaceExt>): (ws: seq<Assignment>)
    ensures |ws| == |interfaces|
    ensures forall i :: 0 <= i < |ws| ==>
      ws[i] == Assignment(interfaces[i].pciAddress, DeviceInfo(interfaces[i].mac, interfaces[i].netFilter))
    decreases |interfaces|
  {
    if interfaces == [] then []
    else
      var last := interfaces[|interfaces| - 1];
      RestoreAssignments(interfaces[..|interfaces| - 1])
        + [Assignment(last.pciAddress, DeviceInfo(last.mac, last.netFilter))]
  }

  function RestoreMap(interfaces: seq<InterfaceExt>): DevicesInfo {
    Apply(map[], RestoreAssignments(interfaces))
  }

  /**
   * The restored keys are exactly the persisted PCI addresses, and each value
   * is the (Mac, NetFilter) of the last interface with that address.
   */
  lemma RestoreMapEntries(interfaces: seq<InterfaceExt>, k: string)
    ensures k in RestoreMap(interfaces) <==> exists i :: 0 <= i < |interfaces| && interfaces[i].pciAddress == k
    ensures forall i :: (0 <= i < |interfaces| && interfaces[i].pciAddress == k
                         && (forall j :: i < j < |interfaces| ==> interfaces[j].pciAddress != k)
                         ==> k in RestoreMap(interfaces)
                             && RestoreMap(interfaces)[k] == DeviceInfo(interfaces[i].mac, interfaces[i].netFilter))
  {
    var ws := RestoreAssignments(interfaces);
    ApplyLastWriteWins(map[], ws, k);
  }

  lemma RestoreMapKeys(interfaces: seq<InterfaceExt>)
    ensures RestoreMap(interfaces).Keys == set i | 0 <= i < |interfaces| :: interfaces[i].pciAddress
  {
    forall k ensures k in RestoreMap(interfaces) <==> k in set i | 0 <= i < |interfaces| :: interfaces[i].pciAddress {
      RestoreMapEntries(interfaces, k);
    }
  }
}
