/** ip_print.py: the validating `get_ips`, its helper `validate_ipv4`, and the
    decision at the end of `execute` that turns the outcome into an exit code
    and the printed lines. */
module IpPrint {
  import opened Json
  import opened Text
  import opened Document

  /** What `ipaddress.ip_address(s)` makes of s: an IPv4 address, an address
      of another version, or a ValueError. */
  datatype Classification = IPv4 | OtherVersion | Unparseable

  /** `ipaddress.ip_address` is not modelled; the extractor is parameterised by it. */
  type Classifier = string -> Classification

  /** What every classifier that follows Python's parser satisfies: an IPv4
      address is a non-empty dotted quad of ASCII digits, so it has no
      whitespace at either end. */
  ghost predicate AcceptsOnlyTrimmed(classify: Classifier)
  {
    forall s :: classify(s) == IPv4 ==> s != [] && Trimmed(s)
  }

  /** `validate_ipv4`: no error exactly for an IPv4 address, "not IPv4" for an
      address of another version, "invalid format" for anything unparseable. */
  function ValidateIpv4(classify: Classifier, ip: string): (r: Option<Err>)
    ensures r.None? <==> classify(ip) == IPv4
    ensures r == Some(InvalidAddress(ip, NotIPv4)) <==> classify(ip) == OtherVersion
    ensures r == Some(InvalidAddress(ip, InvalidFormat)) <==> classify(ip) == Unparseable
  {
    match classify(ip)
    case IPv4 => None
    case OtherVersion => Some(InvalidAddress(ip, NotIPv4))
    case Unparseable => Some(InvalidAddress(ip, InvalidFormat))
  }

  /** The error of the first loop of `get_ips`: the verdict on the first
      address, in order, that fails validation; None if all pass. */
  function FirstInvalid(classify: Classifier, ips: seq<string>): (r: Option<Err>)
    ensures r.None? <==> forall i :: 0 <= i < |ips| ==> ValidateIpv4(classify, ips[i]).None?
    ensures r.Some? ==>
              exists i :: 0 <= i < |ips| && ValidateIpv4(classify, ips[i]) == r
                          && forall j :: 0 <= j < i ==> ValidateIpv4(classify, ips[j]).None?
  {
    if ips == [] then None
    else if ValidateIpv4(classify, ips[0]).Some? then ValidateIpv4(classify, ips[0])
    else
      var r := FirstInvalid(classify, ips[1..]);
      assert forall i :: 1 <= i < |ips| ==> ips[i] == ips[1..][i - 1];
      r
  }

  /** The first failing address is the one reported. */
  lemma FirstInvalidAt(classify: Classifier, ips: seq<string>, i: nat)
    requires i < |ips|
    requires ValidateIpv4(classify, ips[i]).Some?
    requires forall j :: 0 <= j < i ==> ValidateIpv4(classify, ips[j]).None?
    ensures FirstInvalid(classify, ips) == ValidateIpv4(classify, ips[i])
  {
    var r := FirstInvalid(classify, ips);
    var k :| 0 <= k < |ips| && ValidateIpv4(classify, ips[k]) == r
             && forall j :: 0 <= j < k ==> ValidateIpv4(classify, ips[j]).None?;
    assert !(k < i) && !(i < k);
  }

  /** One `vms` record as the network loop reads it: name, then address, then
      the address's validation. */
  function CheckedRecord(classify: Classifier, vm: Json): (r: Result<(string, string)>)
    requires WellTypedVm(vm)
    ensures r.Ok? <==> VmRecord(vm).Ok? && ValidateIpv4(classify, VmRecord(vm).value.1).None?
    ensures r.Ok? ==> r == VmRecord(vm)
    ensures VmRecord(vm).Failure? ==> r == VmRecord(vm)
    ensures VmRecord(vm).Ok? && ValidateIpv4(classify, VmRecord(vm).value.1).Some?
            ==> r == Failure(ValidateIpv4(classify, VmRecord(vm).value.1).value)
  {
    match VmRecord(vm)
    case Failure(e) => Failure(e)
    case Ok((name, ip)) =>
      match ValidateIpv4(classify, ip)
      case Some(e) => Failure(e)
      case None => Ok((name, ip))
  }

  /** Each `vms` record as the validating loop reads it. */
  function Checked(classify: Classifier, vms: seq<Json>): (rs: seq<Record>)
    requires WellTypedVms(vms)
  {
    seq(|vms|, i requires 0 <= i < |vms| => CheckedRecord(classify, vms[i]))
  }

  /** `network_values` after the validating loop over `vms`. */
  function NetworkMap(classify: Classifier, vms: seq<Json>): Result<map<string, string>>
    requires WellTypedVms(vms)
  {
    Assign(Checked(classify, vms))
  }

  /** What the validating `get_ips` returns, as a value. */
  function Extracted(classify: Classifier, doc: Json): Result<seq<string>>
    requires WellTyped(doc)
  {
    match PrivateIps(doc)
    case Failure(e) => Failure(e)
    case Ok(ipValues) =>
      match FirstInvalid(classify, Values(ipValues))
      case Some(e) => Failure(e)
      case None =>
        if !HasKey(doc.fields, "network") then Ok(Values(ipValues))
        else
          match NetworkMap(classify, Vms(doc))
          case Failure(e) => Failure(e)
          case Ok(net) => Ok(Merge(ipValues, net))
  }

  /** The first loop of `get_ips`: validate every private address in order. */
  method CheckPrivate(classify: Classifier, ips: seq<string>) returns (error: Option<Err>)
    ensures error == FirstInvalid(classify, ips)
  {
    for i := 0 to |ips|
      invariant forall j :: 0 <= j < i ==> ValidateIpv4(classify, ips[j]).None?
    {
      var e := ValidateIpv4(classify, ips[i]);
      if e.Some? {
        FirstInvalidAt(classify, ips, i);
        return e;
      }
    }
    return None;
  }

  /** The loop of `get_ips` that fills `network_values` from the `vms` records,
      leaving at the first record that lacks a key or has an invalid address. */
  method CollectNetwork(classify: Classifier, records: seq<Json>)
    returns (networkValues: map<string, string>, error: Option<Err>)
    requires WellTypedVms(records)
    ensures NetworkMap(classify, records)
            == if error.Some? then Failure(error.value) else Ok(networkValues)
  {
    ghost var rs := Checked(classify, records);
    networkValues := map[];
    for j := 0 to |records|
      invariant Assign(rs[..j]) == Ok(networkValues)
    {
      AssignStep(rs, j);
      var vm := records[j];
      var attributes := Get(vm.fields, "attributes");
      if attributes.None? {
        AssignFailureExtends(rs, j + 1);
        return networkValues, Some(MissingKey("attributes"));
      }
      var name := Get(attributes.value.fields, "name");
      if name.None? {
        AssignFailureExtends(rs, j + 1);
        return networkValues, Some(MissingKey("name"));
      }
      var ip := Get(attributes.value.fields, "access_ip_v4");
      if ip.None? {
        AssignFailureExtends(rs, j + 1);
        return networkValues, Some(MissingKey("access_ip_v4"));
      }
      var e := ValidateIpv4(classify, ip.value.s);
      if e.Some? {
        AssignFailureExtends(rs, j + 1);
        return networkValues, e;
      }
      networkValues := networkValues[name.value.s := ip.value.s];
    }
    assert rs[..|records|] == rs;
    return networkValues, None;
  }

  /** The validating `get_ips` of ip_print.py, step by step: it returns the
      pair `(ip_addresses, error)` of exactly the value Extracted describes. */
  method GetIps(classify: Classifier, doc: Json) returns (ipAddresses: Option<seq<string>>, error: Option<Err>)
    requires WellTyped(doc)
    ensures (ipAddresses, error) == ToPair(Extracted(classify, doc))
  {
    var privateIps := Get(doc.fields, "vm_private_ips");
    if privateIps.None? {
      return None, Some(MissingKey("vm_private_ips"));
    }
    var value := Get(privateIps.value.fields, "value");
    if value.None? {
      return None, Some(MissingKey("value"));
    }
    var ipValues := Entries(value.value.fields);
    assert PrivateIps(doc) == Ok(ipValues);

    var e := CheckPrivate(classify, Values(ipValues));
    if e.Some? {
      return None, e;
    }

    if HasKey(doc.fields, "network") {
      var networkValues: map<string, string> := map[];
      var network := Get(doc.fields, "network").value;
      var vms := Get(network.fields, "vms");
      if vms.Some? {
        networkValues, e := CollectNetwork(classify, vms.value.items);
        if e.Some? {
          return None, e;
        }
      }
      assert NetworkMap(classify, Vms(doc)) == Ok(networkValues);
      var addresses := JoinAddresses(ipValues, networkValues);
      return Some(addresses), None;
    } else {
      return Some(Values(ipValues)), None;
    }
  }

  // ---------------------------------------------------------------------------
  // The network loop

  /** Every address in a successful network map passed validation. */
  lemma NetworkMapValidated(classify: Classifier, vms: seq<Json>, net: map<string, string>)
    requires WellTypedVms(vms)
    requires NetworkMap(classify, vms) == Ok(net)
    ensures forall k :: k in net ==> classify(net[k]) == IPv4
  {
    var rs := Checked(classify, vms);
    AssignContents(rs, net);
    forall k | k in net
      ensures classify(net[k]) == IPv4
    {
      var i :| 0 <= i < |rs| && rs[i] == Ok((k, net[k]));
      assert ValidateIpv4(classify, VmRecord(vms[i]).value.1).None?;
    }
  }

  /** A record read from `vms` is read from any reordering of `vms`. */
  lemma CheckedMember(classify: Classifier, vms: seq<Json>, vms': seq<Json>, x: Record)
    requires WellTypedVms(vms) && WellTypedVms(vms')
    requires multiset(vms) == multiset(vms')
    requires x in Checked(classify, vms)
    ensures x in Checked(classify, vms')
  {
    var i :| 0 <= i < |vms| && Checked(classify, vms)[i] == x;
    assert vms[i] in multiset(vms');
    var i' :| 0 <= i' < |vms'| && vms'[i'] == vms[i];
    assert Checked(classify, vms')[i'] == x;
  }

  /** Validation keeps the names of the records it accepts. */
  lemma CheckedDistinct(classify: Classifier, vms: seq<Json>)
    requires WellTypedVms(vms)
    requires DistinctNames(Records(vms))
    ensures DistinctNames(Checked(classify, vms))
  {
    var rs := Checked(classify, vms);
    forall i, j | 0 <= i < j < |rs| && rs[i].Ok? && rs[j].Ok?
      ensures rs[i].value.0 != rs[j].value.0
    {
      assert Records(vms)[i] == rs[i] && Records(vms)[j] == rs[j];
    }
  }

  /** The order of `vms` does not matter when no two records share a name:
      any reordering of the records builds the same network map. */
  lemma NetworkMapReordered(classify: Classifier, vms: seq<Json>, vms': seq<Json>)
    requires WellTypedVms(vms) && WellTypedVms(vms')
    requires multiset(vms) == multiset(vms')
    requires DistinctNames(Records(vms))
    requires NetworkMap(classify, vms).Ok?
    ensures NetworkMap(classify, vms') == NetworkMap(classify, vms)
  {
    var rs, rs' := Checked(classify, vms), Checked(classify, vms');
    forall x
      ensures x in rs <==> x in rs'
    {
      if x in rs {
        CheckedMember(classify, vms, vms', x);
      }
      if x in rs' {
        CheckedMember(classify, vms', vms, x);
      }
    }
    CheckedDistinct(classify, vms);
    AssignReordered(rs, rs');
  }

  // ---------------------------------------------------------------------------
  // The extractor

  /** Without `vm_private_ips`, or without its `value`, the call fails with a
      KeyError naming that key. */
  lemma MissingPrivateMap(classify: Classifier, doc: Json)
    requires WellTyped(doc)
    ensures !HasKey(doc.fields, "vm_private_ips")
            ==> Extracted(classify, doc) == Failure(MissingKey("vm_private_ips"))
    ensures HasKey(doc.fields, "vm_private_ips")
            && !HasKey(Get(doc.fields, "vm_private_ips").value.fields, "value")
            ==> Extracted(classify, doc) == Failure(MissingKey("value"))
  {
  }

  /** The private addresses are validated first, in map order: the first
      invalid one is the error, whatever `network` holds. */
  lemma PrivateValidatedFirst(classify: Classifier, doc: Json, i: nat)
    requires WellTyped(doc)
    requires PrivateIps(doc).Ok? && i < |PrivateIps(doc).value|
    requires ValidateIpv4(classify, PrivateIps(doc).value[i].1).Some?
    requires forall j :: 0 <= j < i ==> ValidateIpv4(classify, PrivateIps(doc).value[j].1).None?
    ensures Extracted(classify, doc)
            == Failure(ValidateIpv4(classify, PrivateIps(doc).value[i].1).value)
  {
    FirstInvalidAt(classify, Values(PrivateIps(doc).value), i);
  }

  /** Without a top-level `network` key, success is the private addresses in
      insertion order, unmodified. */
  lemma NoNetworkGivesPrivateValues(classify: Classifier, doc: Json)
    requires WellTyped(doc)
    requires PrivateIps(doc).Ok?
    requires forall i :: 0 <= i < |PrivateIps(doc).value| ==>
               classify(PrivateIps(doc).value[i].1) == IPv4
    requires !HasKey(doc.fields, "network")
    ensures var ips := PrivateIps(doc).value;
            && Extracted(classify, doc).Ok?
            && |Extracted(classify, doc).value| == |ips|
            && forall i :: 0 <= i < |ips| ==> Extracted(classify, doc).value[i] == ips[i].1
  {
    var ips := PrivateIps(doc).value;
    assert forall i :: 0 <= i < |ips| ==> ValidateIpv4(classify, Values(ips)[i]).None?;
  }

  /** With `network` present, a valid private map and a successful network loop,
      entry i is the stripped join of private address i and the network
      address under name i (or "" when there is none). */
  lemma NetworkGivesMerge(classify: Classifier, doc: Json)
    requires WellTyped(doc)
    requires PrivateIps(doc).Ok?
    requires forall i :: 0 <= i < |PrivateIps(doc).value| ==>
               classify(PrivateIps(doc).value[i].1) == IPv4
    requires HasKey(doc.fields, "network")
    requires NetworkMap(classify, Vms(doc)).Ok?
    ensures var ips := PrivateIps(doc).value;
            var net := NetworkMap(classify, Vms(doc)).value;
            && Extracted(classify, doc).Ok?
            && |Extracted(classify, doc).value| == |ips|
            && forall i :: 0 <= i < |ips| ==>
                 Extracted(classify, doc).value[i] == Strip(ips[i].1 + " " + Lookup(net, ips[i].0))
  {
    var ips := PrivateIps(doc).value;
    assert forall i :: 0 <= i < |ips| ==> ValidateIpv4(classify, Values(ips)[i]).None?;
  }

  /** `network` without `vms` is an empty network map: it never fails for that
      reason, and with a classifier like Python's the result is the same as
      with no `network` at all. */
  lemma NetworkWithoutVms(classify: Classifier, doc: Json)
    requires WellTyped(doc)
    requires PrivateIps(doc).Ok?
    requires forall i :: 0 <= i < |PrivateIps(doc).value| ==>
               classify(PrivateIps(doc).value[i].1) == IPv4
    requires HasKey(doc.fields, "network")
    requires !HasKey(Get(doc.fields, "network").value.fields, "vms")
    ensures Extracted(classify, doc) == Ok(Merge(PrivateIps(doc).value, map[]))
    ensures AcceptsOnlyTrimmed(classify) ==> Extracted(classify, doc) == Ok(Values(PrivateIps(doc).value))
  {
    var ips := PrivateIps(doc).value;
    assert Vms(doc) == [];
    assert NetworkMap(classify, []) == Ok(map[]);
    assert FirstInvalid(classify, Values(ips)) == None;
    if AcceptsOnlyTrimmed(classify) {
      assert forall i :: 0 <= i < |ips| ==> classify(ips[i].1) == IPv4;
      MergeEmptyNetwork(ips);
    }
  }

  /** A `vms` record lacking `attributes`, `name` or `access_ip_v4` makes the
      whole call fail, whether or not its name matches a private entry. */
  lemma MalformedRecordFails(classify: Classifier, doc: Json, i: nat)
    requires WellTyped(doc)
    requires HasKey(doc.fields, "network")
    requires i < |Vms(doc)|
    requires VmRecord(Vms(doc)[i]).Failure?
    ensures Extracted(classify, doc).Failure?
  {
    var rs := Checked(classify, Vms(doc));
    assert rs[i].Failure?;
    AssignFailure(rs);
  }

  /** With valid private addresses, the first `vms` record that the loop
      refuses decides the error: the KeyError of its missing key when it is
      incomplete, else the validation error of its address. */
  lemma FirstBadRecordReported(classify: Classifier, doc: Json, i: nat)
    requires WellTyped(doc)
    requires PrivateIps(doc).Ok?
    requires forall k :: 0 <= k < |PrivateIps(doc).value| ==>
               classify(PrivateIps(doc).value[k].1) == IPv4
    requires HasKey(doc.fields, "network")
    requires i < |Vms(doc)|
    requires CheckedRecord(classify, Vms(doc)[i]).Failure?
    requires forall j :: 0 <= j < i ==> CheckedRecord(classify, Vms(doc)[j]).Ok?
    ensures VmRecord(Vms(doc)[i]).Failure?
            ==> Extracted(classify, doc) == Failure(VmRecord(Vms(doc)[i]).error)
    ensures VmRecord(Vms(doc)[i]).Ok?
            ==> Extracted(classify, doc)
                == Failure(ValidateIpv4(classify, VmRecord(Vms(doc)[i]).value.1).value)
  {
    var vms := Vms(doc);
    var rs := Checked(classify, vms);
    assert FirstInvalid(classify, Values(PrivateIps(doc).value)).None?;
    assert rs[i] == CheckedRecord(classify, vms[i]);
    AssignFailure(rs);
    var k :| 0 <= k < |rs| && rs[k] == Failure(Assign(rs).error)
             && forall j :: 0 <= j < k ==> rs[j].Ok?;
    assert k == i;
  }

  /** A success passed every stage: the private map was found and every one of
      its addresses is valid; then the result is the private addresses as they
      are, or, with `network` present, their merge with a network map that was
      built without error. */
  lemma SuccessStages(classify: Classifier, doc: Json)
    requires WellTyped(doc)
    requires Extracted(classify, doc).Ok?
    ensures PrivateIps(doc).Ok?
    ensures forall i :: 0 <= i < |PrivateIps(doc).value| ==>
              classify(PrivateIps(doc).value[i].1) == IPv4
    ensures !HasKey(doc.fields, "network") ==>
              Extracted(classify, doc) == Ok(Values(PrivateIps(doc).value))
    ensures HasKey(doc.fields, "network") ==>
              && NetworkMap(classify, Vms(doc)).Ok?
              && Extracted(classify, doc)
                 == Ok(Merge(PrivateIps(doc).value, NetworkMap(classify, Vms(doc)).value))
  {
    var ips := PrivateIps(doc).value;
    assert FirstInvalid(classify, Values(ips)).None?;
    assert forall i :: 0 <= i < |ips| ==> Values(ips)[i] == ips[i].1;
  }

  /** What a success looks like, for a classifier like Python's: one entry per
      private entry, in the private map's order; the private address alone
      when no record names it, "<private> <network>" when one does (with the
      address of the last such record, see Document.AssignContents). */
  lemma SuccessShape(classify: Classifier, doc: Json, r: seq<string>)
    requires AcceptsOnlyTrimmed(classify)
    requires WellTyped(doc)
    requires Extracted(classify, doc) == Ok(r)
    ensures PrivateIps(doc).Ok? && |r| == |PrivateIps(doc).value|
    ensures !HasKey(doc.fields, "network") ==> r == Values(PrivateIps(doc).value)
    ensures HasKey(doc.fields, "network") ==>
              && NetworkMap(classify, Vms(doc)).Ok?
              && var ips := PrivateIps(doc).value;
                 var net := NetworkMap(classify, Vms(doc)).value;
                 forall i :: 0 <= i < |ips| ==>
                   r[i] == if ips[i].0 in net then ips[i].1 + " " + net[ips[i].0] else ips[i].1
  {
    SuccessStages(classify, doc);
    var ips := PrivateIps(doc).value;
    if HasKey(doc.fields, "network") {
      var net := NetworkMap(classify, Vms(doc)).value;
      assert r == Merge(ips, net);
      NetworkMapValidated(classify, Vms(doc), net);
      forall i | 0 <= i < |ips|
        ensures r[i] == if ips[i].0 in net then ips[i].1 + " " + net[ips[i].0] else ips[i].1
      {
        assert classify(ips[i].1) == IPv4;
        MergeEntry(ips, net, i);
        if ips[i].0 in net {
          assert classify(net[ips[i].0]) == IPv4;
        }
      }
    }
  }

  // ---------------------------------------------------------------------------
  // The end of `execute`

  /** The exit status and the address lines `execute` prints. */
  datatype Exit = Exit(code: int, lines: seq<string>)

  /** `execute` after `get_ips`: exit 4 on an error, 5 on an empty list, and
      otherwise print the addresses one per line and exit 0. */
  function Finish(ipAddresses: Option<seq<string>>, error: Option<Err>): (x: Exit)
    requires error.None? ==> ipAddresses.Some?
    ensures x.code == 4 <==> error.Some?
    ensures x.code == 5 <==> error.None? && ipAddresses.value == []
    ensures x.code == 0 <==> error.None? && ipAddresses.value != []
    ensures x.lines == if x.code == 0 then ipAddresses.value else []
  {
    if error.Some? then Exit(4, [])
    else if |ipAddresses.value| == 0 then Exit(5, [])
    else Exit(0, ipAddresses.value)
  }

  /** The exit status of a whole run on a decoded document. */
  function Run(classify: Classifier, doc: Json): Exit
    requires WellTyped(doc)
  {
    var (ipAddresses, error) := ToPair(Extracted(classify, doc));
    Finish(ipAddresses, error)
  }

  /** Any failure of the extractor exits with 4 and prints no address. */
  lemma FailureExits4(classify: Classifier, doc: Json)
    requires WellTyped(doc)
    requires Extracted(classify, doc).Failure?
    ensures Run(classify, doc) == Exit(4, [])
  {
  }

  /** An empty private map with no `network` exits with 5. */
  lemma EmptyMapExits5(classify: Classifier, doc: Json)
    requires WellTyped(doc)
    requires PrivateIps(doc) == Ok([])
    requires !HasKey(doc.fields, "network")
    ensures Run(classify, doc) == Exit(5, [])
  {
  }

  // ---------------------------------------------------------------------------
  // Scenarios of the repository's tests

  function Vm(name: string, ip: string): Json
  {
    JObj([("attributes", JObj([("name", JStr(name)), ("access_ip_v4", JStr(ip))]))])
  }

  lemma VmRead(name: string, ip: string)
    ensures WellTypedVm(Vm(name, ip)) && VmRecord(Vm(name, ip)) == Ok((name, ip))
  {
    var attrs := [("name", JStr(name)), ("access_ip_v4", JStr(ip))];
    assert "name" != "access_ip_v4";
    assert Get(attrs, "name") == Some(JStr(name));
    assert Get(attrs, "access_ip_v4") == Get(attrs[1..], "access_ip_v4");
  }

  /** One private address and no `network`: the address is printed alone, exit 0. */
  lemma SinglePrivateAddress(classify: Classifier)
    requires classify("192.168.101.101") == IPv4
    ensures var doc := JObj([("vm_private_ips", JObj([("value", JObj([("name", JStr("192.168.101.101"))]))]))]);
            WellTyped(doc) && Run(classify, doc) == Exit(0, ["192.168.101.101"])
  {
  }

  /** The document of the test where some names are matched, with its
      addresses left as parameters. */
  function SomeMatchedDoc(p1: string, p2: string, p3: string, n3: string, n2: string): Json
  {
    JObj([("vm_private_ips", JObj([("value", JObj([("name1", JStr(p1)), ("name2", JStr(p2)), ("name3", JStr(p3))]))])),
         ("network", JObj([("vms", JArr([Vm("name3", n3), Vm("name2", n2)]))]))])
  }

  lemma SomeMatchedSucceeds(classify: Classifier, p1: string, p2: string, p3: string, n3: string, n2: string)
    requires classify(p1) == classify(p2) == classify(p3) == IPv4
    requires classify(n3) == classify(n2) == IPv4
    ensures WellTyped(SomeMatchedDoc(p1, p2, p3, n3, n2))
    ensures Extracted(classify, SomeMatchedDoc(p1, p2, p3, n3, n2)).Ok?
    ensures NetworkMap(classify, Vms(SomeMatchedDoc(p1, p2, p3, n3, n2)))
            == Ok(map["name3" := n3, "name2" := n2])
    ensures PrivateIps(SomeMatchedDoc(p1, p2, p3, n3, n2))
            == Ok([("name1", p1), ("name2", p2), ("name3", p3)])
  {
    DocumentRead(p1, p2, p3, [Vm("name3", n3), Vm("name2", n2)]);
    TwoRecords(classify, n3, n2);
    NetworkGivesMerge(classify, SomeMatchedDoc(p1, p2, p3, n3, n2));
  }

  /** Some names matched (the addresses of the test stand for any valid ones):
      the matched entries are joined with their network address, in the
      private map's order, not in the order of `vms`. */
  lemma SomeNamesMatched(classify: Classifier, p1: string, p2: string, p3: string, n3: string, n2: string)
    requires AcceptsOnlyTrimmed(classify)
    requires classify(p1) == classify(p2) == classify(p3) == IPv4
    requires classify(n3) == classify(n2) == IPv4
    ensures WellTyped(SomeMatchedDoc(p1, p2, p3, n3, n2))
    ensures Extracted(classify, SomeMatchedDoc(p1, p2, p3, n3, n2)) == Ok([p1, p2 + " " + n2, p3 + " " + n3])
  {
    var doc := SomeMatchedDoc(p1, p2, p3, n3, n2);
    SomeMatchedSucceeds(classify, p1, p2, p3, n3, n2);
    var r := Extracted(classify, doc).value;
    SuccessShape(classify, doc, r);
    MatchedList(PrivateIps(doc).value, NetworkMap(classify, Vms(doc)).value, r, p1, p2, p3, n3, n2);
  }

  /** The output list of the test where some names are matched, read off the
      shape of a success. */
  lemma MatchedList(ips: seq<(string, string)>, net: map<string, string>, r: seq<string>,
                    p1: string, p2: string, p3: string, n3: string, n2: string)
    requires ips == [("name1", p1), ("name2", p2), ("name3", p3)]
    requires net == map["name3" := n3, "name2" := n2]
    requires |r| == |ips|
    requires forall i :: 0 <= i < |ips| ==>
               r[i] == if ips[i].0 in net then ips[i].1 + " " + net[ips[i].0] else ips[i].1
    ensures r == [p1, p2 + " " + n2, p3 + " " + n3]
  {
    assert "name1" !in net && "name2" in net && "name3" in net;
    assert r[0] == p1 && r[1] == p2 + " " + n2 && r[2] == p3 + " " + n3;
  }

  lemma DocumentRead(p1: string, p2: string, p3: string, vms: seq<Json>)
    requires WellTypedVms(vms)
    ensures var doc := JObj([
              ("vm_private_ips", JObj([("value", JObj([("name1", JStr(p1)), ("name2", JStr(p2)), ("name3", JStr(p3))]))])),
              ("network", JObj([("vms", JArr(vms))]))]);
            && WellTyped(doc)
            && PrivateIps(doc) == Ok([("name1", p1), ("name2", p2), ("name3", p3)])
            && HasKey(doc.fields, "network")
            && Vms(doc) == vms
  {
    var fields := [("name1", JStr(p1)), ("name2", JStr(p2)), ("name3", JStr(p3))];
    var doc := JObj([
      ("vm_private_ips", JObj([("value", JObj(fields))])),
      ("network", JObj([("vms", JArr(vms))]))]);
    assert Get(doc.fields, "vm_private_ips") == Some(JObj([("value", JObj(fields))]));
    assert Entries(fields) == [("name1", p1), ("name2", p2), ("name3", p3)];
    assert Get(doc.fields, "network") == Get(doc.fields[1..], "network");
  }

  lemma TwoRecords(classify: Classifier, n3: string, n2: string)
    requires classify(n3) == classify(n2) == IPv4
    ensures NetworkMap(classify, [Vm("name3", n3), Vm("name2", n2)]) == Ok(map["name3" := n3, "name2" := n2])
  {
    VmRead("name3", n3);
    VmRead("name2", n2);
    var rs := Checked(classify, [Vm("name3", n3), Vm("name2", n2)]);
    assert rs == [Ok(("name3", n3)), Ok(("name2", n2))];
    AssignStep(rs, 0);
    AssignStep(rs, 1);
    assert rs[..2] == rs;
  }

  /** A `vms` record without `name` (the test's three valid private addresses
      left as parameters) fails the whole call with a KeyError for `name`:
      no partial list. */
  lemma RecordWithoutName(classify: Classifier, p1: string, p2: string, p3: string, n: string)
    requires classify(p1) == classify(p2) == classify(p3) == IPv4
    ensures var doc := JObj([
              ("vm_private_ips", JObj([("value", JObj([("name1", JStr(p1)), ("name2", JStr(p2)), ("name3", JStr(p3))]))])),
              ("network", JObj([("vms", JArr([JObj([("attributes", JObj([("access_ip_v4", JStr(n))]))])]))]))]);
            WellTyped(doc) && Extracted(classify, doc) == Failure(MissingKey("name"))
  {
    var vm := JObj([("attributes", JObj([("access_ip_v4", JStr(n))]))]);
    assert WellTypedVm(vm);
    DocumentRead(p1, p2, p3, [vm]);
    var ips := [("name1", p1), ("name2", p2), ("name3", p3)];
    assert Values(ips) == [p1, p2, p3];
    assert FirstInvalid(classify, [p1, p2, p3]) == None;
    var rs := Checked(classify, [vm]);
    assert rs == [Failure(MissingKey("name"))];
    AssignStep(rs, 0);
    assert rs[..1] == rs;
  }
}
