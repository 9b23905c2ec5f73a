/**
 * Resolving a MAC address to the PCI address of the live NIC that carries it
 * (getPCIAddressFromMACAddress).
 */
module MacLookup {
  import opened Common
  import opened Types

  function ToLowerAscii(c: char): char {
    if 'A' <= c <= 'Z' then (c as int - 'A' as int + 'a' as int) as char else c
  }

  /** Case-insensitive equality of two MAC strings (ASCII case folding). */
  predicate EqualFold(a: string, b: string) {
    |a| == |b| && forall i :: 0 <= i < |a| ==> ToLowerAscii(a[i]) == ToLowerAscii(b[i])
  }

  predicate Matches(nic: Nic, mac: string) {
    EqualFold(nic.macAddress, mac)
  }

  /** The PCI addresses of the NICs whose MAC matches, in list order. */
  function MatchedAddresses(mac: string, nics: seq<Nic>): (ms: seq<string>)
    ensures |ms| <= |nics|
    decreases |nics|
  {
    if nics == [] then []
    else
      var last := nics[|nics| - 1];
      MatchedAddresses(mac, nics[..|nics| - 1]) + (if Matches(last, mac) then [last.pciAddress] else [])
  }

  /**
   * What the scan returns: an error when no matching NIC has an address, an
   * ambiguity error when a match follows a match that already set an address,
   * and otherwise the address of the last (and only addressed) match.
   */
  function PciLookup(mac: string, nics: seq<Nic>): Result<string, LookupError> {
    var ms := MatchedAddresses(mac, nics);
    if forall k :: 0 <= k < |ms| ==> ms[k] == "" then Err(NoDeviceWithMac)
    else if exists k :: 0 <= k < |ms| - 1 && ms[k] != "" then Err(AmbiguousMac)
    else Ok(ms[|ms| - 1])
  }

  lemma MatchedAddressesSnoc(mac: string, nics: seq<Nic>, n: nat)
    requires n < |nics|
    ensures MatchedAddresses(mac, nics[..n + 1])
      == MatchedAddresses(mac, nics[..n]) + (if Matches(nics[n], mac) then [nics[n].pciAddress] else [])
  {
    assert nics[..n + 1][..n] == nics[..n];
  }

  lemma {:induction false} MatchedAddressesPrefix(mac: string, nics: seq<Nic>, n: nat)
    requires n <= |nics|
    ensures MatchedAddresses(mac, nics[..n]) <= MatchedAddresses(mac, nics)
    decreases |nics| - n
  {
    if n < |nics| {
      MatchedAddressesSnoc(mac, nics, n);
      MatchedAddressesPrefix(mac, nics, n + 1);
    } else {
      assert nics[..n] == nics;
    }
  }

  /** Every matched address is the address of a matching NIC. */
  lemma {:induction false} MatchedAddressSource(mac: string, nics: seq<Nic>, k: nat)
    requires k < |MatchedAddresses(mac, nics)|
    ensures exists i :: 0 <= i < |nics| && Matches(nics[i], mac) && nics[i].pciAddress == MatchedAddresses(mac, nics)[k]
    decreases |nics|
  {
    var init := nics[..|nics| - 1];
    if k < |MatchedAddresses(mac, init)| {
      MatchedAddressSource(mac, init, k);
      var i :| 0 <= i < |init| && Matches(init[i], mac) && init[i].pciAddress == MatchedAddresses(mac, init)[k];
      assert init[i] == nics[i];
    }
  }

  /** Every matching NIC contributes its address. */
  lemma {:induction false} MatchContributes(mac: string, nics: seq<Nic>, i: nat)
    requires i < |nics| && Matches(nics[i], mac)
    ensures nics[i].pciAddress in MatchedAddresses(mac, nics)
    decreases |nics|
  {
    var init := nics[..|nics| - 1];
    if i < |init| {
      assert init[i] == nics[i];
      MatchContributes(mac, init, i);
    }
  }

  lemma {:induction false} NoMatchNoAddresses(mac: string, nics: seq<Nic>)
    requires forall i :: 0 <= i < |nics| ==> !Matches(nics[i], mac)
    ensures MatchedAddresses(mac, nics) == []
    decreases |nics|
  {
    if nics != [] {
      var init := nics[..|nics| - 1];
      assert forall i :: 0 <= i < |init| ==> init[i] == nics[i];
      NoMatchNoAddresses(mac, init);
    }
  }

  lemma {:induction false} SingleMatchAddresses(mac: string, nics: seq<Nic>, i: nat)
    requires i < |nics| && Matches(nics[i], mac)
    requires forall j :: 0 <= j < |nics| && Matches(nics[j], mac) ==> j == i
    ensures MatchedAddresses(mac, nics) == [nics[i].pciAddress]
    decreases |nics|
  {
    var init := nics[..|nics| - 1];
    assert forall j :: 0 <= j < |init| ==> init[j] == nics[j];
    if i == |nics| - 1 {
      NoMatchNoAddresses(mac, init);
    } else {
      SingleMatchAddresses(mac, init, i);
    }
  }

  /** Exactly one NIC, the one at index i, matches. */
  ghost predicate OnlyMatch(mac: string, nics: seq<Nic>, i: int) {
    0 <= i < |nics| && Matches(nics[i], mac)
    && forall j :: 0 <= j < |nics| && Matches(nics[j], mac) ==> j == i
  }

  lemma {:induction false} OneAddressOneMatch(mac: string, nics: seq<Nic>) returns (i: nat)
    requires |MatchedAddresses(mac, nics)| == 1
    ensures OnlyMatch(mac, nics, i) && MatchedAddresses(mac, nics) == [nics[i].pciAddress]
    decreases |nics|
  {
    var init := nics[..|nics| - 1];
    var last := |nics| - 1;
    assert forall j :: 0 <= j < |init| ==> init[j] == nics[j];
    if Matches(nics[last], mac) {
      forall j | 0 <= j < |init| ensures !Matches(nics[j], mac) {
        if Matches(nics[j], mac) { MatchContributes(mac, init, j); }
      }
      i := last;
    } else {
      i := OneAddressOneMatch(mac, init);
    }
  }

  lemma TwoMatches(mac: string, nics: seq<Nic>)
    requires |MatchedAddresses(mac, nics)| >= 2
    ensures exists i, j :: 0 <= i < j < |nics| && Matches(nics[i], mac) && Matches(nics[j], mac)
  {
    MatchedAddressSource(mac, nics, 0);
    var k :| 0 <= k < |nics| && Matches(nics[k], mac) && nics[k].pciAddress == MatchedAddresses(mac, nics)[0];
    if OnlyMatch(mac, nics, k) {
      SingleMatchAddresses(mac, nics, k);
    } else {
      var j :| 0 <= j < |nics| && Matches(nics[j], mac) && j != k;
      if j < k { assert Matches(nics[j], mac) && Matches(nics[k], mac); }
      else { assert Matches(nics[k], mac) && Matches(nics[j], mac); }
    }
  }

  /**
   * When every live NIC has an address: the lookup yields A exactly when one
   * NIC matches and its address is A; it reports a missing device exactly
   * when none matches, and an ambiguity exactly when two distinct NICs match.
   */
  lemma PciLookupUnique(mac: string, nics: seq<Nic>, a: string)
    requires forall i :: 0 <= i < |nics| ==> nics[i].pciAddress != ""
    ensures PciLookup(mac, nics) == Ok(a) <==> exists i :: OnlyMatch(mac, nics, i) && nics[i].pciAddress == a
    ensures PciLookup(mac, nics) == Err(NoDeviceWithMac) <==> forall i :: 0 <= i < |nics| ==> !Matches(nics[i], mac)
    ensures PciLookup(mac, nics) == Err(AmbiguousMac) <==>
      exists i, j :: 0 <= i < j < |nics| && Matches(nics[i], mac) && Matches(nics[j], mac)
  {
    var ms := MatchedAddresses(mac, nics);
    forall k | 0 <= k < |ms| ensures ms[k] != "" {
      MatchedAddressSource(mac, nics, k);
    }
    if |ms| == 0 {
      forall i | 0 <= i < |nics| ensures !Matches(nics[i], mac) {
        if Matches(nics[i], mac) { MatchContributes(mac, nics, i); }
      }
    } else if |ms| == 1 {
      var i := OneAddressOneMatch(mac, nics);
      assert PciLookup(mac, nics) == Ok(nics[i].pciAddress) by { assert ms[0] != ""; }
      forall i' | OnlyMatch(mac, nics, i') ensures i' == i { }
    } else {
      assert ms[0] != "";
      TwoMatches(mac, nics);
      var p, q :| 0 <= p < q < |nics| && Matches(nics[p], mac) && Matches(nics[q], mac);
      assert forall i :: OnlyMatch(mac, nics, i) ==> i == p && i == q;
    }
  }

  /**
   * The scan's accumulator after a prefix: empty while every address matched so
   * far is empty, otherwise the last matched address, with no addressed match before it.
   */
  ghost predicate ScanState(acc: string, ms: seq<string>) {
    && (acc == "" <==> forall k :: 0 <= k < |ms| ==> ms[k] == "")
    && (acc != "" ==> |ms| > 0 && ms[|ms| - 1] == acc && forall k :: 0 <= k < |ms| - 1 ==> ms[k] == "")
  }

  lemma ScanStep(ms: seq<string>, a: string)
    requires ScanState("", ms)
    ensures ScanState(a, ms + [a])
  {
    var ms' := ms + [a];
    assert forall k :: 0 <= k < |ms| ==> ms'[k] == ms[k];
    assert ms'[|ms|] == a;
    if a == "" {
      assert forall k :: 0 <= k < |ms'| ==> ms'[k] == "";
    } else {
      assert !(forall k :: 0 <= k < |ms'| ==> ms'[k] == "") by { assert ms'[|ms|] != ""; }
    }
  }

  /** getPCIAddressFromMACAddress: one scan with an accumulator. */
  method GetPciAddressFromMacAddress(mac: string, nics: seq<Nic>) returns (r: Result<string, LookupError>)
    ensures r == PciLookup(mac, nics)
  {
    var pciAddress := "";
    var i := 0;
    while i < |nics|
      invariant 0 <= i <= |nics|
      invariant ScanState(pciAddress, MatchedAddresses(mac, nics[..i]))
    {
      MatchedAddressesSnoc(mac, nics, i);
      if Matches(nics[i], mac) {
        if pciAddress == "" {
          pciAddress := nics[i].pciAddress;
          ScanStep(MatchedAddresses(mac, nics[..i]), pciAddress);
        } else {
          var before := MatchedAddresses(mac, nics[..i]);
          MatchedAddressesPrefix(mac, nics, i + 1);
          assert MatchedAddresses(mac, nics)[|before| - 1] != "";
          return Err(AmbiguousMac);
        }
      } else {
        assert MatchedAddresses(mac, nics[..i + 1]) == MatchedAddresses(mac, nics[..i]);
      }
      i := i + 1;
    }
    assert nics[..i] == nics;
    if pciAddress != "" {
      return Ok(pciAddress);
    }
    return Err(NoDeviceWithMac);
  }
}
