/** What both variants of `get_ips` share: the error kinds, the shape of the
    input document, the key lookups, and the final merge of the private-IP map
    with the network map. */
module Document {
  import opened Json
  import opened Text

  /** Why `validate_ipv4` refused an address. */
  datatype Reason = InvalidFormat | NotIPv4

  /** The exception `get_ips` returns: a KeyError naming the absent key, or the
      ValueError of `validate_ipv4` naming the offending address. */
  datatype Err = MissingKey(key: string) | InvalidAddress(ip: string, reason: Reason)

  datatype Result<+T> = Ok(value: T) | Failure(error: Err)

  /** The Python pair `(ip_addresses, error)` that `get_ips` returns. */
  function ToPair(r: Result<seq<string>>): (p: (Option<seq<string>>, Option<Err>))
    ensures p.0.Some? != p.1.Some?
    ensures p.0.Some? ==> r == Ok(p.0.value)
    ensures p.1.Some? ==> r == Failure(p.1.value)
  {
    match r
    case Ok(ips) => (Some(ips), None)
    case Failure(e) => (None, Some(e))
  }

  predicate StringValued(fields: seq<(string, Json)>)
  {
    forall i :: 0 <= i < |fields| ==> fields[i].1.JStr?
  }

  predicate StringOrAbsent(o: Option<Json>)
  {
    o.Some? ==> o.value.JStr?
  }

  /** A `vms` record that can be subscripted as `get_ips` does without a TypeError. */
  predicate WellTypedVm(vm: Json)
  {
    && IsObject(vm)
    && match Get(vm.fields, "attributes")
       case None => true
       case Some(attrs) =>
         && IsObject(attrs)
         && StringOrAbsent(Get(attrs.fields, "name"))
         && StringOrAbsent(Get(attrs.fields, "access_ip_v4"))
  }

  predicate WellTypedVms(vms: seq<Json>)
  {
    forall i :: 0 <= i < |vms| ==> WellTypedVm(vms[i])
  }

  /** A document on which `get_ips` raises nothing but KeyError: every value it
      reaches has the type its code treats it as. Absent keys are allowed. */
  predicate WellTyped(doc: Json)
  {
    && IsObject(doc)
    && (match Get(doc.fields, "vm_private_ips")
        case None => true
        case Some(v) =>
          && IsObject(v)
          && match Get(v.fields, "value")
             case None => true
             case Some(m) => IsObject(m) && StringValued(m.fields))
    && (match Get(doc.fields, "network")
        case None => true
        case Some(n) =>
          && IsObject(n)
          && match Get(n.fields, "vms")
             case None => true
             case Some(a) => a.JArr? && WellTypedVms(a.items))
  }

  /** The entries of a string-valued object, in insertion order. */
  function Entries(fields: seq<(string, Json)>): seq<(string, string)>
    requires StringValued(fields)
  {
    seq(|fields|, i requires 0 <= i < |fields| => (fields[i].0, fields[i].1.s))
  }

  /** `json_data["vm_private_ips"]["value"]`, as its ordered (name, ip) entries. */
  function PrivateIps(doc: Json): Result<seq<(string, string)>>
    requires WellTyped(doc)
  {
    match Get(doc.fields, "vm_private_ips")
    case None => Failure(MissingKey("vm_private_ips"))
    case Some(v) =>
      match Get(v.fields, "value")
      case None => Failure(MissingKey("value"))
      case Some(m) => Ok(Entries(m.fields))
  }

  /** `json_data["network"]["vms"]`, or no records when `network` has no `vms`. */
  function Vms(doc: Json): (vms: seq<Json>)
    requires WellTyped(doc) && HasKey(doc.fields, "network")
    ensures WellTypedVms(vms)
  {
    var n := Get(doc.fields, "network").value;
    match Get(n.fields, "vms")
    case None => []
    case Some(a) => a.items
  }

  /** `vm["attributes"]["name"]` then `vm["attributes"]["access_ip_v4"]`. */
  function VmRecord(vm: Json): Result<(string, string)>
    requires WellTypedVm(vm)
  {
    match Get(vm.fields, "attributes")
    case None => Failure(MissingKey("attributes"))
    case Some(attrs) =>
      match Get(attrs.fields, "name")
      case None => Failure(MissingKey("name"))
      case Some(name) =>
        match Get(attrs.fields, "access_ip_v4")
        case None => Failure(MissingKey("access_ip_v4"))
        case Some(ip) => Ok((name.s, ip.s))
  }

  /** `list(ip_values.values())`. */
  function Values(ipValues: seq<(string, string)>): seq<string>
  {
    seq(|ipValues|, i requires 0 <= i < |ipValues| => ipValues[i].1)
  }

  /** `network_values.get(name, "")`. */
  function Lookup(net: map<string, string>, name: string): string
  {
    if name in net then net[name] else ""
  }

  /** The list the second loop of `get_ips` appends to: one entry per private
      entry, in the private map's order, each the stripped join of the private
      address and the looked-up network address. */
  function Merge(ipValues: seq<(string, string)>, net: map<string, string>): (r: seq<string>)
    ensures |r| == |ipValues|
    ensures forall i :: 0 <= i < |ipValues| ==>
              r[i] == Strip(ipValues[i].1 + " " + Lookup(net, ipValues[i].0))
  {
    if ipValues == [] then []
    else
      var last := ipValues[|ipValues| - 1];
      Merge(ipValues[..|ipValues| - 1], net) + [Strip(last.1 + " " + Lookup(net, last.0))]
  }

  /** The loop of `get_ips` that appends one stripped join per private entry. */
  method JoinAddresses(ipValues: seq<(string, string)>, networkValues: map<string, string>)
    returns (addresses: seq<string>)
    ensures addresses == Merge(ipValues, networkValues)
  {
    addresses := [];
    for k := 0 to |ipValues|
      invariant addresses == Merge(ipValues[..k], networkValues)
    {
      var (name, ip) := ipValues[k];
      var networkIp := if name in networkValues then networkValues[name] else "";
      assert ipValues[..k + 1][..k] == ipValues[..k];
      assert Merge(ipValues[..k + 1], networkValues)
          == Merge(ipValues[..k], networkValues) + [Strip(ip + " " + networkIp)];
      addresses := addresses + [Strip(ip + " " + networkIp)];
    }
    assert ipValues[..|ipValues|] == ipValues;
  }

  /** Entry i of the merge in closed form, when the addresses have no whitespace
      at their ends: the private address alone for a name without a (non-empty)
      network address, and "<private> <network>" for a matched name. */
  lemma MergeEntry(ipValues: seq<(string, string)>, net: map<string, string>, i: nat)
    requires i < |ipValues|
    requires Trimmed(ipValues[i].1)
    ensures Lookup(net, ipValues[i].0) == "" ==> Merge(ipValues, net)[i] == ipValues[i].1
    ensures var (name, ip) := ipValues[i];
            name in net && ip != [] && net[name] != [] && Trimmed(net[name]) ==>
              Merge(ipValues, net)[i] == ip + " " + net[name]
  {
    var (name, ip) := ipValues[i];
    if Lookup(net, name) == "" {
      assert ip + " " + Lookup(net, name) == ip + " ";
      StripTrailingBlank(ip);
    }
    if name in net && ip != [] && net[name] != [] && Trimmed(net[name]) {
      StripJoin(ip, net[name]);
    }
  }

  /** With an empty network map the merge gives back the private addresses,
      provided none has whitespace at its ends. */
  lemma MergeEmptyNetwork(ipValues: seq<(string, string)>)
    requires forall i :: 0 <= i < |ipValues| ==> Trimmed(ipValues[i].1)
    ensures Merge(ipValues, map[]) == Values(ipValues)
  {
    forall i | 0 <= i < |ipValues|
      ensures Merge(ipValues, map[])[i] == Values(ipValues)[i]
    {
      MergeEntry(ipValues, map[], i);
    }
  }

  // ---------------------------------------------------------------------------
  // The network loop, on the records it reads

  /** One `vms` record read: its (name, address), or the error that ended the loop. */
  type Record = Result<(string, string)>

  /** Each `vms` record as `vm["attributes"]["name"]` and
      `vm["attributes"]["access_ip_v4"]` read it. */
  function Records(vms: seq<Json>): (rs: seq<Record>)
    requires WellTypedVms(vms)
  {
    seq(|vms|, i requires 0 <= i < |vms| => VmRecord(vms[i]))
  }

  /** `network_values` after the loop: each record's address assigned under its
      name in turn, or the error of the first record that has one. */
  function Assign(rs: seq<Record>): Result<map<string, string>>
    decreases |rs|
  {
    if rs == [] then Ok(map[])
    else
      match Assign(rs[..|rs| - 1])
      case Failure(e) => Failure(e)
      case Ok(net) =>
        match rs[|rs| - 1]
        case Failure(e) => Failure(e)
        case Ok((name, ip)) => Ok(net[name := ip])
  }

  /** One more step of the loop. */
  lemma AssignStep(rs: seq<Record>, j: nat)
    requires j < |rs|
    ensures Assign(rs[..j + 1]) ==
              match Assign(rs[..j])
              case Failure(e) => Failure(e)
              case Ok(net) =>
                match rs[j]
                case Failure(e) => Failure(e)
                case Ok((name, ip)) => Ok(net[name := ip])
  {
    assert rs[..j + 1][..j] == rs[..j];
  }

  /** Once a prefix of the records has failed, the whole loop fails the same way. */
  lemma {:induction false} AssignFailureExtends(rs: seq<Record>, j: nat)
    requires j <= |rs|
    requires Assign(rs[..j]).Failure?
    ensures Assign(rs) == Assign(rs[..j])
    decreases |rs|
  {
    if j < |rs| {
      var front := rs[..|rs| - 1];
      assert front[..j] == rs[..j];
      AssignFailureExtends(front, j);
    } else {
      assert rs[..j] == rs;
    }
  }

  /** The loop fails exactly when some record is an error, and then with the
      first such error. */
  lemma {:induction false} AssignFailure(rs: seq<Record>)
    ensures Assign(rs).Failure? <==> exists i :: 0 <= i < |rs| && rs[i].Failure?
    ensures var r := Assign(rs);
            r.Failure? ==>
              exists i :: 0 <= i < |rs| && rs[i] == Failure(r.error)
                          && forall j :: 0 <= j < i ==> rs[j].Ok?
    decreases |rs|
  {
    if rs != [] {
      var front := rs[..|rs| - 1];
      AssignFailure(front);
      assert forall i :: 0 <= i < |front| ==> front[i] == rs[i];
    }
  }

  /** A successful loop holds exactly the names of the records, and under each
      name the address of the LAST record that carries it. */
  lemma {:induction false} AssignContents(rs: seq<Record>, net: map<string, string>)
    requires Assign(rs) == Ok(net)
    ensures forall i :: 0 <= i < |rs| ==> rs[i].Ok?
    ensures forall k :: k in net <==> exists i :: 0 <= i < |rs| && rs[i].Ok? && rs[i].value.0 == k
    ensures forall k :: k in net ==>
              exists i :: 0 <= i < |rs| && rs[i] == Ok((k, net[k]))
                          && forall j :: i < j < |rs| ==> rs[j].Ok? && rs[j].value.0 != k
    decreases |rs|
  {
    if rs != [] {
      var n := |rs| - 1;
      var front := rs[..n];
      var frontNet := Assign(front).value;
      AssignContents(front, frontNet);
      assert forall i :: 0 <= i < n ==> front[i] == rs[i];
      var (name, ip) := rs[n].value;
      assert net == frontNet[name := ip];
      forall k | k in net
        ensures exists i :: 0 <= i < |rs| && rs[i] == Ok((k, net[k]))
                            && forall j :: i < j < |rs| ==> rs[j].Ok? && rs[j].value.0 != k
      {
        if k == name {
          assert rs[n] == Ok((k, net[k]));
        } else {
          var i :| 0 <= i < n && front[i] == Ok((k, frontNet[k]))
                   && forall j :: i < j < n ==> front[j].Ok? && front[j].value.0 != k;
          assert rs[i] == Ok((k, net[k]));
        }
      }
    }
  }

  /** No two records that were read carry the same name. */
  predicate DistinctNames(rs: seq<Record>)
  {
    forall i, j :: 0 <= i < j < |rs| && rs[i].Ok? && rs[j].Ok? ==> rs[i].value.0 != rs[j].value.0
  }

  /** An entry of the map built from rs is in the map built from any list of
      the same records, with the same address. */
  lemma ReorderedKeepsEntry(rs: seq<Record>, rs': seq<Record>, net: map<string, string>,
                            net': map<string, string>, k: string)
    requires forall x :: x in rs <==> x in rs'
    requires DistinctNames(rs)
    requires Assign(rs) == Ok(net) && Assign(rs') == Ok(net')
    requires k in net
    ensures k in net' && net'[k] == net[k]
  {
    AssignContents(rs, net);
    AssignContents(rs', net');
    var i :| 0 <= i < |rs| && rs[i] == Ok((k, net[k]));
    assert rs[i] in rs';
    var l' :| 0 <= l' < |rs'| && rs'[l'] == Ok((k, net'[k]));
    assert rs'[l'] in rs;
    var l :| 0 <= l < |rs| && rs[l] == rs'[l'];
    assert l == i;
  }

  /** The map built from a list of the same records has no other key. */
  lemma ReorderedNoNewKey(rs: seq<Record>, rs': seq<Record>, net: map<string, string>,
                          net': map<string, string>, k: string)
    requires forall x :: x in rs <==> x in rs'
    requires Assign(rs) == Ok(net) && Assign(rs') == Ok(net')
    requires k in net'
    ensures k in net
  {
    AssignContents(rs, net);
    AssignContents(rs', net');
    var i' :| 0 <= i' < |rs'| && rs'[i'].Ok? && rs'[i'].value.0 == k;
    assert rs'[i'] in rs;
  }

  /** The order of the records does not matter when no two share a name: any
      list holding the same records builds the same map. */
  lemma AssignReordered(rs: seq<Record>, rs': seq<Record>)
    requires forall x :: x in rs <==> x in rs'
    requires DistinctNames(rs)
    requires Assign(rs).Ok?
    ensures Assign(rs') == Assign(rs)
  {
    var net := Assign(rs).value;
    AssignContents(rs, net);
    AssignFailure(rs');
    assert forall i' :: 0 <= i' < |rs'| ==> rs'[i'] in rs;
    var net' := Assign(rs').value;
    forall k | k in net
      ensures k in net' && net'[k] == net[k]
    {
      ReorderedKeepsEntry(rs, rs', net, net', k);
    }
    forall k | k in net'
      ensures k in net
    {
      ReorderedNoNewKey(rs, rs', net, net', k);
    }
    assert net' == net;
  }

  /** A record read by a loop that also validates: the same record, or an
      InvalidAddress error in its place. */
  predicate RefinesRecord(checked: Record, read: Record)
  {
    checked == read || (checked.Failure? && checked.error.InvalidAddress?)
  }

  /** A loop whose records differ from another's only by InvalidAddress errors
      ends the same way, or with an InvalidAddress error. */
  lemma {:induction false} AssignRefined(checked: seq<Record>, read: seq<Record>)
    requires |checked| == |read|
    requires forall i :: 0 <= i < |read| ==> RefinesRecord(checked[i], read[i])
    ensures Assign(checked) == Assign(read)
            || (Assign(checked).Failure? && Assign(checked).error.InvalidAddress?)
    decreases |read|
  {
    if read != [] {
      var n := |read| - 1;
      AssignRefined(checked[..n], read[..n]);
    }
  }
}
