# ip_print in Dafny

`ip_print` reads a decoded JSON document and prints one line per entry of
the map `vm_private_ips.value`. Each line is the entry's private address,
followed by a blank and the network address `access_ip_v4` when a record in
`network.vms` has the same `name`. The
repository has two copies of the extractor `get_ips`:

- `ip_print.py` checks every private address and every network address
  with `validate_ipv4` and stops at the first bad one;
- `ip_print/ip_print.py` passes every string through unchecked.

Both copies return a pair `(ip_addresses, error)`, and `execute` maps that
pair to an exit status. The model is split into five modules:

- `Json` (json.dfy): a decoded JSON value. Objects are association lists,
  so the insertion order of a Python `dict` is kept. `Get` behaves like
  `d[key]`, with `None` where Python raises `KeyError`.
- `Text` (text.dfy): `str.strip()` with no argument, using the full table
  of characters for which Python's `str.isspace` holds.
- `Document` (document.dfy): the error and result types and the
  well-typedness of the document. It also holds the parts both copies
  share: reading the private map and the `vms` records, the merge loop of
  `get_ips` (`JoinAddresses`, specified by `Merge`), and the network loop.
  The network loop is written as a fold (`Assign`) over the records as each
  copy reads them.
- `IpPrint` (ip_print.dfy): the validating copy. `ipaddress.ip_address` is
  a parameter `classify` that sorts a string into IPv4, another IP version,
  or unparseable. `Extracted` specifies `get_ips`, and the method `GetIps`
  runs its loops and is proved equal to it. `Finish` and `Run` model the
  tail of `execute`. The lemmas at the end restate test cases of
  `test_ip_print.py` on the tests' own documents. Where a proof would have
  to run `strip` or the merge on literal text, the addresses are parameters
  that stand for any valid ones.
- `LaxIpPrint` (ip_print_lax.dfy): the unvalidated copy, with the same
  structure. It also proves how the two copies relate:
  - with a classifier that accepts everything, the validating copy is the
    unvalidated one;
  - otherwise the two agree on every outcome except an invalid-address error.

Two behaviours of the code are easy to misread:

- The merge calls `str.strip()`, which removes whitespace at both ends, not
  only trailing whitespace. So a private value with its own surrounding
  blanks is changed whenever `network` is present, and left as it is
  otherwise (`LaxIpPrint.StripTrimsPrivateValue`). A network address of ""
  gives the private address alone, like an unmatched name.
- The validating copy checks each network address while it reads that
  record, not after all records are read. So an incomplete record placed before a
  record with an invalid address is the error reported (`IpPrint.CheckedRecord`,
  `Document.AssignFailure`).

## Model

| member | source | states |
|---|---|---|
| Text.IsSpace | ip_print.py:41 | the characters `str.strip()` removes: those for which Python's `str.isspace` holds, TAB..CR, FS..US, SPACE, NEL, NO-BREAK SPACE and the Unicode space separators |
| Text.Strip | ip_print.py:41 | `str.strip()` with no argument, removing the longest whitespace prefix and suffix; its properties are the Strip lemmas below |
| Json.HasKey | ip_print.py:27 | `key in d` on an object: some field carries the key, which is how both `"network" in json_data` and `"vms" in json_data["network"]` are tested |
| Document.Entries | ip_print.py:39 | `ip_values.items()`: the private map's (name, address) pairs in insertion order, the order both the merge and the value list follow |
| Json.Get | ip_print.py:20 | `d[key]` on an object: no value exactly when no field carries the key, and otherwise a value stored under the key |
| Document.PrivateIps | ip_print.py:20 | `json_data["vm_private_ips"]["value"]`: a KeyError for whichever of the two keys is missing first, else the entries of the private map in insertion order |
| Document.VmRecord | ip_print.py:31-32 | one `vms` record read as `attributes`, then `name`, then `access_ip_v4`: a KeyError for the first missing key, else the pair of name and address |
| Document.Values | ip_print.py:44 | `list(ip_values.values())`: the private addresses in map order |
| Document.Lookup | ip_print.py:40 | `network_values.get(name, "")`: the stored address, or "" for an absent name |
| Document.Records | ip_print/ip_print.py:13-15 | the unvalidated loop reads each `vms` record with VmRecord, in list order |
| Document.Assign | ip_print.py:30-36 | the network loop as a fold: records are read in order, the first failing record ends the loop with its error, and each accepted record binds its name to its address, a later binding replacing an earlier one |
| IpPrint.Checked | ip_print.py:30-35 | the validating loop reads each `vms` record with CheckedRecord, in list order |
| IpPrint.NetworkMap | ip_print.py:28-36 | `network_values` after the validating loop is the fold of Assign over the checked records |
| IpPrint.Extracted | ip_print.py:18-46 | the stages of the validating `get_ips` in order: read the private map, validate its addresses, then return its values when there is no `network`, else read and validate the records and return the merge |
| IpPrint.Run | ip_print.py:68-81 | exit status and printed lines of `execute` for a decoded document: Finish applied to the pair `get_ips` returns |
| IpPrint.FirstBadRecordReported | ip_print.py:30-35 | with valid private addresses, the first refused `vms` record decides the error: the KeyError of its first missing key, or else the validation error of its address |
| IpPrint.CheckedMember | ip_print.py:30 | a record read from `vms` is also read from any reordering of `vms` |
| IpPrint.CheckedDistinct | ip_print.py:33-36 | validation keeps the names of the records it accepts, so distinct names stay distinct |
| IpPrint.MatchedList | test_ip_print.py:162-164 | applied to the private map and network map of that test, the shape of a success gives exactly the list the test expects |
| Document.ReorderedKeepsEntry | ip_print.py:36 | with distinct names, every entry of the map built from the records is in the map built from any list of the same records, with the same address |
| Document.ReorderedNoNewKey | ip_print.py:36 | the map built from a list of the same records has no key the original map lacks |
| LaxIpPrint.NetworkMap | ip_print/ip_print.py:11-16 | `network_values` after the unvalidated loop is the fold of Assign over the records as read |
| LaxIpPrint.Extracted | ip_print/ip_print.py:6-26 | the stages of the unvalidated `get_ips` in order: read the private map, return its values when there is no `network`, else read the records and return the merge |
| LaxIpPrint.RecordMember | ip_print/ip_print.py:13 | a record read from `vms` is also read from any reordering of `vms` |
| Text.StripLeftSpec | ip_print.py:41 | the left half of `strip` drops exactly the longest whitespace prefix: the rest is a suffix, the dropped part is all whitespace, and the new first character is not whitespace |
| Text.StripRightSpec | ip_print.py:41 | the right half of `strip` drops exactly the longest whitespace suffix, the mirror image of the left half |
| Text.StripIsInfix | ip_print.py:41 | `strip` returns a contiguous infix of its input, bounded only by whitespace, with no whitespace left at either end |
| Text.StripTrimmed | ip_print.py:41 | a string with no whitespace at either end is returned unchanged |
| Text.StripIdempotent | ip_print.py:41 | stripping twice is the same as stripping once |
| Text.StripTrailingBlank | ip_print.py:41 | `f"{p} ".strip()` is p when p has no outer whitespace, so an unmatched name yields the private address with no trailing blank |
| Text.StripJoin | ip_print.py:41 | `f"{p} {n}".strip()` is p, a blank and n when both are non-empty and have no outer whitespace |
| Text.StripPadded | ip_print.py:41 | a trimmed, non-empty p wrapped in one blank on each side strips back to p |
| Document.ToPair | ip_print.py:42-46 | the returned pair has exactly one side set: the list on success, the error on failure |
| Document.Vms | ip_print.py:29-30 | the records of `network.vms`, or none when `vms` is absent, each readable as a `vms` record |
| Document.Merge | ip_print.py:38-42 | one output entry per private entry, in map order; entry i is the strip of private value i, a blank and the network address of name i, or "" when the name is absent |
| Document.JoinAddresses | ip_print.py:38-42 | the merge loop appends, for each private entry in order, the stripped join with the looked-up network address; its result is exactly Merge |
| Document.MergeEntry | ip_print.py:39-41 | for a trimmed private address, a name that is absent or maps to "" gives the private address alone; a name mapped to a non-empty trimmed address gives "private network" |
| Document.MergeEmptyNetwork | ip_print.py:38-42 | with an empty network map and trimmed private addresses, the merge returns the private values unchanged |
| Document.AssignStep | ip_print.py:30-36 | one turn of the network loop: an earlier failure stays, a failed record fails, else name is bound to address |
| Document.AssignFailureExtends | ip_print.py:30-36 | once the loop has failed on a prefix of the records, the later records do not change the outcome |
| Document.AssignFailure | ip_print.py:30-36 | the network loop fails iff some record fails, and the error reported is that of the first failing record |
| Document.AssignContents | ip_print.py:36 | after a successful loop every record was read, the keys of the map are exactly the names read, and each name maps to the address of the last record carrying it |
| Document.AssignReordered | ip_print.py:30-36 | with pairwise distinct names, a successful loop gives the same map for any order of the same records |
| Document.AssignRefined | ip_print.py:33-35 | replacing records by invalid-address errors leaves the loop's outcome unchanged or makes it an invalid-address error |
| IpPrint.ValidateIpv4 | ip_print.py:7-14 | no error iff the address parses as IPv4; "not IPv4" iff it parses as another version; "invalid format" iff it does not parse |
| IpPrint.FirstInvalid | ip_print.py:22-25 | no error iff every private address validates; otherwise the error of an address all of whose predecessors validate |
| IpPrint.FirstInvalidAt | ip_print.py:22-25 | the first address that fails validation is the one whose error is reported |
| IpPrint.CheckedRecord | ip_print.py:31-35 | a record is read name first, then address, then validated: a missing key is reported before validation, and the record is accepted iff it is complete and its address is IPv4 |
| IpPrint.CheckPrivate | ip_print.py:22-25 | the first loop returns exactly the first validation error of the private addresses, in map order, or none |
| IpPrint.CollectNetwork | ip_print.py:28-36 | the validating network loop returns the map built from the records, or the first missing key or invalid address, as the network fold specifies |
| IpPrint.GetIps | ip_print.py:18-46 | the validating `get_ips` returns the pair of exactly the outcome Extracted specifies |
| IpPrint.NetworkMapValidated | ip_print.py:33-36 | every address stored in a successful network map is IPv4 |
| IpPrint.NetworkMapReordered | ip_print.py:30-36 | with pairwise distinct names, the order of `vms` does not change a successful network map |
| IpPrint.MissingPrivateMap | ip_print.py:20 | a missing `vm_private_ips`, or a missing `value` under it, fails with a KeyError naming that key |
| IpPrint.PrivateValidatedFirst | ip_print.py:22-25 | an invalid private address fails the call with its own error before anything under `network` is read |
| IpPrint.NoNetworkGivesPrivateValues | ip_print.py:43-44 | with valid private addresses and no `network`, the result is the private values in map order |
| IpPrint.NetworkGivesMerge | ip_print.py:27-42 | with valid private addresses and a successful network loop, entry i is the stripped join of private value i with the network address of its name |
| IpPrint.NetworkWithoutVms | ip_print.py:27-29 | `network` without `vms` merges against an empty map, which for Python's parser gives the private addresses unchanged |
| IpPrint.MalformedRecordFails | ip_print.py:30-32 | one `vms` record missing `attributes`, `name` or `access_ip_v4` makes the whole call fail, whether or not its name is used |
| IpPrint.SuccessStages | ip_print.py:18-46 | a success means that the private map was found, every private address is IPv4, and the network loop (if run) succeeded; the result is the private values or their merge |
| IpPrint.SuccessShape | ip_print.py:38-44 | for Python's parser, a success has one entry per private entry, and entry i is "private network" if the name was found, else the private address alone |
| IpPrint.Finish | ip_print.py:68-81 | exit 4 iff `get_ips` returned an error, 5 iff it returned an empty list, 0 iff it returned a non-empty list, and the list is printed only on exit 0 |
| IpPrint.FailureExits4 | ip_print.py:70-72 | every extraction failure exits with 4 and prints nothing |
| IpPrint.EmptyMapExits5 | ip_print.py:74-76 | an empty private map without `network` exits with 5 |
| IpPrint.SinglePrivateAddress | test_ip_print.py:8-18 | the test's document, one private address under `name` and no `network`, prints that address and exits with 0 |
| IpPrint.TwoRecords | test_ip_print.py:145-159 | two valid records give the map from each name to its address |
| IpPrint.SomeNamesMatched | test_ip_print.py:137-164 | with two of three names matched, the output is the first private address alone and the other two joined to their network addresses, in private-map order |
| IpPrint.RecordWithoutName | test_ip_print.py:217-238 | with the test's three valid private addresses, a record lacking `name` fails the call with a KeyError for `name` and no list |
| LaxIpPrint.CollectNetwork | ip_print/ip_print.py:11-16 | the unvalidated network loop returns the map built from the records, or the first missing key, as the network fold specifies |
| LaxIpPrint.GetIps | ip_print/ip_print.py:6-26 | the unvalidated `get_ips` returns the pair of exactly the outcome its Extracted specifies |
| LaxIpPrint.MissingPrivateMap | ip_print/ip_print.py:8 | a missing `vm_private_ips`, or a missing `value` under it, fails with a KeyError naming that key |
| LaxIpPrint.OnlyMissingKeyFails | ip_print/ip_print.py:6-26 | without validation, a missing key is the only possible failure |
| LaxIpPrint.NoNetworkGivesPrivateValues | ip_print/ip_print.py:23-24 | without `network`, the result is the private values in map order, exactly as stored |
| LaxIpPrint.NetworkGivesMerge | ip_print/ip_print.py:10-22 | with `network` and complete records, entry i is the stripped join of private value i with the network address of its name |
| LaxIpPrint.MalformedRecordFails | ip_print/ip_print.py:13-15 | one incomplete `vms` record makes the whole call fail with a missing-key error |
| LaxIpPrint.NetworkMapReordered | ip_print/ip_print.py:13-16 | with pairwise distinct names, the order of `vms` does not change a successful network map |
| LaxIpPrint.LaxIsStrictAcceptingAll | ip_print/ip_print.py:6-26 | the unvalidated extractor equals the validating one run with a classifier that accepts every string |
| LaxIpPrint.StrictAgreesUnlessInvalid | ip_print/ip_print.py:6-26 | for any classifier, the two copies give the same outcome unless the validating one reports an invalid address |
| LaxIpPrint.VariantsAgreeOnSuccess | ip_print/ip_print.py:6-26 | whenever the validating copy succeeds, the unvalidated copy returns the same list |
| LaxIpPrint.StripTrimsPrivateValue | ip_print/ip_print.py:21 | a private value with a leading blank is returned as stored without `network`, but stripped when an empty `network` is present |

## Left out

- The front of `execute` (ip_print.py:49-66 and ip_print/ip_print.py:29-46): argument count, `open`, `json.load` and exits 1-3. These are I/O. The model starts from a decoded document.
- Printing and `sys.exit` are modelled as the value `Exit(code, lines)`. The diagnostic messages are not modelled. The tail of `execute` in ip_print/ip_print.py:48-61 is the same text as ip_print.py:68-81, and `IpPrint.Finish` stands for both.
- `ipaddress.ip_address` is a parameter, not a parser. Where a lemma needs Python's behaviour, it assumes only `AcceptsOnlyTrimmed`: an accepted IPv4 string is non-empty and has no outer whitespace.
- Error texts are not modelled. An error is `MissingKey(key)` or `InvalidAddress(address, reason)`, keeping the parts the messages are built from.
- Documents whose values have the wrong JSON type are excluded by the `WellTyped` precondition: every address and every `name` is a string, `vms` is a list, and the document, `vm_private_ips`, its `value`, `network`, each record and its `attributes` are objects. What Python does with such documents is not modelled. For example:
  - In the validating copy, `ip_address` turns `null`, a number with a fraction, a list or an object into a ValueError, which `validate_ipv4` reports as an invalid format (ip_print.py:12-13). A boolean or an integer is taken as an address number, so it can pass as IPv4.
  - In the unvalidated copy, a non-string address is never checked. It is returned as it is without `network` (ip_print/ip_print.py:24), or turned into text by the f-string (line 21), so an `access_ip_v4` of `null` gives `"<private> None"`.
  - A `name` that is a number is stored and never matches a private name. One that is a list or an object raises TypeError, since it cannot be a dict key.
  - A `vms` that is an empty object or an empty string is iterated without raising and adds nothing.
  - A `network` that is a list or a string without an element or substring "vms" makes `"vms" in json_data["network"]` false (ip_print.py:29, ip_print/ip_print.py:12), so Python merges against an empty map and succeeds. A `network` that is `null`, a number or a boolean raises TypeError at that test, and a list or string that does contain "vms" raises TypeError at the subscript that follows.
  - A private map, document or record that is not an object raises AttributeError or TypeError, which `get_ips` does not catch.
- Duplicate keys in a JSON object are resolved by `json.load` before `get_ips` runs. The model takes objects with distinct keys (`IsObject`).
- The network map is a Dafny `map`. Only `.get` is used on it, so its insertion order is not modelled.

