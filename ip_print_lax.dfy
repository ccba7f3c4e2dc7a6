/** ip_print/ip_print.py: the `get_ips` that reads the same document as
    ip_print.py but passes every address through unchecked. */
module LaxIpPrint {
  import opened Json
  import opened Text
  import opened Document
  import IpPrint

  /** `network_values` after the unvalidated loop over `vms`. */
  function NetworkMap(vms: seq<Json>): Result<map<string, string>>
    requires WellTypedVms(vms)
  {
    Assign(Records(vms))
  }

  /** What the unvalidated `get_ips` returns, as a value. */
  function Extracted(doc: Json): Result<seq<string>>
    requires WellTyped(doc)
  {
    match PrivateIps(doc)
    case Failure(e) => Failure(e)
    case Ok(ipValues) =>
      if !HasKey(doc.fields, "network") then Ok(Values(ipValues))
      else
        match NetworkMap(Vms(doc))
        case Failure(e) => Failure(e)
        case Ok(net) => Ok(Merge(ipValues, net))
  }

  /** The loop of `get_ips` that fills `network_values` from the `vms` records,
      leaving at the first record that lacks a key. */
  method CollectNetwork(records: seq<Json>)
    returns (networkValues: map<string, string>, error: Option<Err>)
    requires WellTypedVms(records)
    ensures NetworkMap(records) == if error.Some? then Failure(error.value) else Ok(networkValues)
  {
    ghost var rs := Records(records);
    networkValues := map[];
    for j := 0 to |records|
      invariant Assign(rs[..j]) == Ok(networkValues)
    {
      AssignStep(rs, j);
      var vm := records[j];
      var attributes := Get(vm.fields, "attributes");
      if attributes.None? {
        AssignFailureExtends(rs, j + 1);
        return networkValues, Some(MissingKey("attributes"));
      }
      var name := Get(attributes.value.fields, "name");
      if name.None? {
        AssignFailureExtends(rs, j + 1);
        return networkValues, Some(MissingKey("name"));
      }
      var ip := Get(attributes.value.fields, "access_ip_v4");
      if ip.None? {
        AssignFailureExtends(rs, j + 1);
        return networkValues, Some(MissingKey("access_ip_v4"));
      }
      networkValues := networkValues[name.value.s := ip.value.s];
    }
    assert rs[..|records|] == rs;
    return networkValues, None;
  }

  /** The unvalidated `get_ips` of ip_print/ip_print.py, step by step: it
      returns the pair `(ip_addresses, error)` of exactly the value Extracted
      describes. */
  method GetIps(doc: Json) returns (ipAddresses: Option<seq<string>>, error: Option<Err>)
    requires WellTyped(doc)
    ensures (ipAddresses, error) == ToPair(Extracted(doc))
  {
    var privateIps := Get(doc.fields, "vm_private_ips");
    if privateIps.None? {
      return None, Some(MissingKey("vm_private_ips"));
    }
    var value := Get(privateIps.value.fields, "value");
    if value.None? {
      return None, Some(MissingKey("value"));
    }
    var ipValues := Entries(value.value.fields);
    assert PrivateIps(doc) == Ok(ipValues);

    if HasKey(doc.fields, "network") {
      var networkValues: map<string, string> := map[];
      var network := Get(doc.fields, "network").value;
      var vms := Get(network.fields, "vms");
      if vms.Some? {
        var e;
        networkValues, e := CollectNetwork(vms.value.items);
        if e.Some? {
          return None, e;
        }
      }
      assert NetworkMap(Vms(doc)) == Ok(networkValues);
      var addresses := JoinAddresses(ipValues, networkValues);
      return Some(addresses), None;
    } else {
      return Some(Values(ipValues)), None;
    }
  }

  // ---------------------------------------------------------------------------
  // Properties

  /** Without `vm_private_ips`, or without its `value`, the call fails with a
      KeyError naming that key. */
  lemma MissingPrivateMap(doc: Json)
    requires WellTyped(doc)
    ensures !HasKey(doc.fields, "vm_private_ips")
            ==> Extracted(doc) == Failure(MissingKey("vm_private_ips"))
    ensures HasKey(doc.fields, "vm_private_ips")
            && !HasKey(Get(doc.fields, "vm_private_ips").value.fields, "value")
            ==> Extracted(doc) == Failure(MissingKey("value"))
  {
  }

  /** No address is validated: a missing key is the only way to fail. */
  lemma OnlyMissingKeyFails(doc: Json)
    requires WellTyped(doc)
    ensures Extracted(doc).Failure? ==> Extracted(doc).error.MissingKey?
  {
    if PrivateIps(doc).Ok? && HasKey(doc.fields, "network") {
      var rs := Records(Vms(doc));
      AssignFailure(rs);
      if Assign(rs).Failure? {
        var i :| 0 <= i < |rs| && rs[i] == Failure(Assign(rs).error);
      }
    }
  }

  /** Without a top-level `network` key, success is the private values in
      insertion order, exactly as they are, whitespace included. */
  lemma NoNetworkGivesPrivateValues(doc: Json)
    requires WellTyped(doc)
    requires PrivateIps(doc).Ok?
    requires !HasKey(doc.fields, "network")
    ensures var ips := PrivateIps(doc).value;
            && Extracted(doc).Ok?
            && |Extracted(doc).value| == |ips|
            && forall i :: 0 <= i < |ips| ==> Extracted(doc).value[i] == ips[i].1
  {
  }

  /** With `network` present and every record complete, entry i is the strip of
      private value i, a blank and the network address under name i (or "").
      The strip also removes whitespace the private value itself carries at
      either end. */
  lemma NetworkGivesMerge(doc: Json)
    requires WellTyped(doc)
    requires PrivateIps(doc).Ok?
    requires HasKey(doc.fields, "network")
    requires NetworkMap(Vms(doc)).Ok?
    ensures var ips := PrivateIps(doc).value;
            var net := NetworkMap(Vms(doc)).value;
            && Extracted(doc).Ok?
            && |Extracted(doc).value| == |ips|
            && forall i :: 0 <= i < |ips| ==>
                 Extracted(doc).value[i] == Strip(ips[i].1 + " " + Lookup(net, ips[i].0))
  {
  }

  /** A `vms` record lacking `attributes`, `name` or `access_ip_v4` aborts the
      call, whether or not its name matches a private entry. */
  lemma MalformedRecordFails(doc: Json, i: nat)
    requires WellTyped(doc)
    requires HasKey(doc.fields, "network")
    requires i < |Vms(doc)|
    requires VmRecord(Vms(doc)[i]).Failure?
    ensures Extracted(doc).Failure? && Extracted(doc).error.MissingKey?
  {
    var rs := Records(Vms(doc));
    assert rs[i].Failure?;
    AssignFailure(rs);
    OnlyMissingKeyFails(doc);
  }

  /** A record read from `vms` is read from any reordering of `vms`. */
  lemma RecordMember(vms: seq<Json>, vms': seq<Json>, x: Record)
    requires WellTypedVms(vms) && WellTypedVms(vms')
    requires multiset(vms) == multiset(vms')
    requires x in Records(vms)
    ensures x in Records(vms')
  {
    var i :| 0 <= i < |vms| && Records(vms)[i] == x;
    assert vms[i] in multiset(vms');
    var i' :| 0 <= i' < |vms'| && vms'[i'] == vms[i];
    assert Records(vms')[i'] == x;
  }

  /** The order of `vms` does not matter when no two records share a name. */
  lemma NetworkMapReordered(vms: seq<Json>, vms': seq<Json>)
    requires WellTypedVms(vms) && WellTypedVms(vms')
    requires multiset(vms) == multiset(vms')
    requires DistinctNames(Records(vms))
    requires NetworkMap(vms).Ok?
    ensures NetworkMap(vms') == NetworkMap(vms)
  {
    var rs, rs' := Records(vms), Records(vms');
    forall x
      ensures x in rs <==> x in rs'
    {
      if x in rs {
        RecordMember(vms, vms', x);
      }
      if x in rs' {
        RecordMember(vms', vms, x);
      }
    }
    AssignReordered(rs, rs');
  }

  // ---------------------------------------------------------------------------
  // The two variants compared

  /** A classifier that accepts every string. */
  function AcceptAll(s: string): IpPrint.Classification
  {
    IpPrint.IPv4
  }

  /** The unvalidated extractor is the validating one with a validator that
      accepts everything. */
  lemma LaxIsStrictAcceptingAll(doc: Json)
    requires WellTyped(doc)
    ensures Extracted(doc) == IpPrint.Extracted(AcceptAll, doc)
  {
    if PrivateIps(doc).Ok? {
      assert IpPrint.FirstInvalid(AcceptAll, Values(PrivateIps(doc).value)).None?;
      if HasKey(doc.fields, "network") {
        assert IpPrint.Checked(AcceptAll, Vms(doc)) == Records(Vms(doc));
      }
    }
  }

  /** The variants differ only where the validating one reports an invalid
      address: on success, and on every KeyError, both give the same outcome. */
  lemma StrictAgreesUnlessInvalid(classify: IpPrint.Classifier, doc: Json)
    requires WellTyped(doc)
    ensures IpPrint.Extracted(classify, doc) == Extracted(doc)
            || (IpPrint.Extracted(classify, doc).Failure?
                && IpPrint.Extracted(classify, doc).error.InvalidAddress?)
  {
    if PrivateIps(doc).Ok? && IpPrint.FirstInvalid(classify, Values(PrivateIps(doc).value)).None?
       && HasKey(doc.fields, "network")
    {
      var vms := Vms(doc);
      var checked, read := IpPrint.Checked(classify, vms), Records(vms);
      forall i | 0 <= i < |read|
        ensures RefinesRecord(checked[i], read[i])
      {
      }
      AssignRefined(checked, read);
    }
  }

  /** When the validating variant succeeds, the unvalidated one returns the very
      same list. */
  lemma VariantsAgreeOnSuccess(classify: IpPrint.Classifier, doc: Json)
    requires WellTyped(doc)
    requires IpPrint.Extracted(classify, doc).Ok?
    ensures Extracted(doc) == IpPrint.Extracted(classify, doc)
  {
    StrictAgreesUnlessInvalid(classify, doc);
  }

  /** A document with one private value, a trimmed address p preceded by a
      blank, and, if asked, an empty `network` object. */
  function PaddedDoc(p: string, withNetwork: bool): Json
  {
    var privateIps := ("vm_private_ips", JObj([("value", JObj([("a", JStr(" " + p))]))]));
    if withNetwork then JObj([privateIps, ("network", JObj([]))]) else JObj([privateIps])
  }

  /** The strip of the merge removes a private value's own whitespace, so an
      empty `network` changes the output, where with no `network` the value is
      returned as it is. */
  lemma StripTrimsPrivateValue(p: string)
    requires p != [] && Trimmed(p)
    ensures WellTyped(PaddedDoc(p, false)) && Extracted(PaddedDoc(p, false)) == Ok([" " + p])
    ensures WellTyped(PaddedDoc(p, true)) && Extracted(PaddedDoc(p, true)) == Ok([p])
  {
    var value := [("a", JStr(" " + p))];
    var ips := [("a", " " + p)];
    assert Entries(value) == ips;
    var bare, doc := PaddedDoc(p, false), PaddedDoc(p, true);
    assert PrivateIps(bare) == Ok(ips);
    assert PrivateIps(doc) == Ok(ips);
    assert Values(ips) == [" " + p];
    assert Get(doc.fields, "network") == Some(JObj([]));
    assert Vms(doc) == [];
    assert Records([]) == [];
    assert NetworkMap([]) == Ok(map[]);
    assert Lookup(map[], "a") == "";
    assert " " + p + " " + "" == " " + p + " ";
    assert Merge(ips, map[]) == [Strip(" " + p + " ")] by {
      assert ips[..0] == [];
    }
    StripPadded(p);
  }
}
