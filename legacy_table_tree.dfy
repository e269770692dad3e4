/** `LegacyTableTree`: the firewalls of each Panorama device group, as a
    tree table. This module holds the screen's own parts: how the fetched
    groups become tree nodes and what its submit sends. */
module LegacyTableTree {
  import opened Js
  import opened TreeTable
  import opened TreeSubmit

  const NoDeviceGroup := "No Device Group"

  /** `name == '' ? 'No Device Group' : name` (loose equality). */
  function GroupName(name: Json): Json {
    if LooseEqualsEmpty(name) then Str(NoDeviceGroup) else name
  }

  /** For string names: only the empty name is replaced. */
  lemma GroupNameOfString(s: string)
    ensures GroupName(Str(s)) == if s == "" then Str(NoDeviceGroup) else Str(s)
  {
  }

  /** Loose equality also renames a group whose name is `0`, `false` or
      `[]`, but never one that is `null` or missing. */
  lemma GroupNameOfOthers()
    ensures GroupName(Num(0)) == Str(NoDeviceGroup)
    ensures GroupName(Bool(false)) == Str(NoDeviceGroup)
    ensures GroupName(Arr([])) == Str(NoDeviceGroup)
    ensures GroupName(Arr([Null])) == Str(NoDeviceGroup) && GroupName(Arr([Str("")])) == Str(NoDeviceGroup)
    ensures GroupName(Arr([Null, Null])) == Arr([Null, Null])
    ensures GroupName(Arr([Str(""), Str("")])) == Arr([Str(""), Str("")])
    ensures GroupName(Null) == Null && GroupName(Undefined) == Undefined
  {
  }

  /** The status column: `child['serial'] == true`. */
  function ConnectionStatus(serial: Json): Json {
    Str(if LooseEqualsTrue(serial) then "Connected" else "Disconnected")
  }

  /** A serial number of two or more digits, not starting with `0`, never
      shows as connected. */
  lemma SerialNumbersShowDisconnected(s: string)
    requires |s| >= 2 && s[0] != '0' && forall k :: 0 <= k < |s| ==> IsDigit(s[k])
    ensures ConnectionStatus(Str(s)) == Str("Disconnected")
  {
    DigitTextIsOne(s);
    DecValueAtLeastTen(s);
  }

  /** `Number` also reads `1.0` and `0x1` as 1, so such serials show as
      connected. */
  lemma OtherSpellingsOfOneConnect()
    ensures ConnectionStatus(Str("1.0")) == Str("Connected")
    ensures ConnectionStatus(Str("0x1")) == Str("Connected")
  {
    DotZeroIsOne();
    ConnectedWhenOne("1.0");
    HexOneIsOne();
    ConnectedWhenOne("0x1");
  }

  lemma ConnectedWhenOne(s: string)
    requires TextIsOne(s)
    ensures ConnectionStatus(Str(s)) == Str("Connected")
  {
  }

  /** A string of two or more digits that does not start with `0` has a
      value of at least 10. */
  lemma {:induction false} DecValueAtLeastTen(s: string)
    requires |s| >= 2 && forall k :: 0 <= k < |s| ==> IsDigit(s[k]) && s[0] != '0'
    ensures DecValue(s) >= 10
    decreases |s|
  {
    var init := s[..|s| - 1];
    if |s| == 2 {
      assert DecValue(init) == DecValue(init[..0]) * 10 + DigitValue(init[0]);
      assert DigitValue(s[0]) >= 1;
    } else {
      DecValueAtLeastTen(init);
    }
  }

  /** The row of one firewall of a device group. Reading the HA state
      throws when any level above it is missing. */
  function Firewall(child: Json): (r: Completion<Node>)
    ensures r.Threw? <==> StrictPath(child, ["peer_info_state", "group", "local-info", "state"]).Threw?
    ensures r.Normal? ==> r.value.Leaf? && r.value.name == Get(child, "devicename")
  {
    match StrictPath(child, ["peer_info_state", "group", "local-info", "state"])
    case Threw => Threw
    case Normal(hapair) =>
      var serial := Get(child, "serial");
      Normal(Leaf(Get(child, "devicename"), [
        Field("Firewall_Serial", serial),
        Field("IP_Address", Get(child, "ip-address")),
        Field("status", ConnectionStatus(serial)),
        Field("version", Get(child, "sw-version")),
        Field("Threat_Version", Get(child, "threat-version")),
        Field("Hapair_Status", hapair)]))
  }

  /** A device group: its name, and its firewalls as children when it has
      a `firewalls` array (none at all when it has no such property). */
  function Group(parent: Json): (r: Completion<Node>)
    ensures Nullish(parent) ==> r.Threw?
    ensures r.Normal? ==> r.value.name == GroupName(Get(parent, "name"))
    ensures r.Normal? && Nullish(Get(parent, "firewalls")) ==> r.value.Leaf?
  {
    if Nullish(parent) then Threw
    else match OptionalMap(Get(parent, "firewalls"), Firewall)
      case Threw => Threw
      case Normal(None) => Normal(Leaf(GroupName(Get(parent, "name")), []))
      case Normal(Some(children)) => Normal(Folder(GroupName(Get(parent, "name")), [], children))
  }

  /** `getdata?.map(...)`: the table's data. */
  function Data(getdata: Json): Completion<Option<seq<Node>>> {
    OptionalMap(getdata, Group)
  }

  /** A group whose firewalls all carry their HA state maps to a folder with
      one child per firewall, in order, named by `devicename` and with the
      address under `IP_Address` and the software version under `version`. */
  lemma GroupOfFirewalls(parent: Json, firewalls: seq<Json>)
    requires parent.Obj? && Get(parent, "firewalls") == Arr(firewalls)
    requires forall i :: 0 <= i < |firewalls| ==>
      StrictPath(firewalls[i], ["peer_info_state", "group", "local-info", "state"]).Normal?
    ensures Group(parent).Normal? && Group(parent).value.Folder?
    ensures |Group(parent).value.children| == |firewalls|
    ensures forall i :: 0 <= i < |firewalls| ==>
      && Group(parent).value.children[i].name == Get(firewalls[i], "devicename")
      && Lookup(Group(parent).value.children[i].fields, "IP_Address") == Get(firewalls[i], "ip-address")
      && Lookup(Group(parent).value.children[i].fields, "version") == Get(firewalls[i], "sw-version")
  {
    var m := MapAll(firewalls, Firewall);
    assert m.Normal?;
    var children := m.value;
    assert Group(parent) == Normal(Folder(GroupName(Get(parent, "name")), [], children));
    forall i | 0 <= i < |firewalls|
      ensures children[i].name == Get(firewalls[i], "devicename")
      ensures Lookup(children[i].fields, "IP_Address") == Get(firewalls[i], "ip-address")
      ensures Lookup(children[i].fields, "version") == Get(firewalls[i], "sw-version")
    {
      var f := firewalls[i];
      assert children[i] == Firewall(f).value;
      FirewallFields(f);
    }
  }

  lemma FirewallFields(child: Json)
    requires StrictPath(child, ["peer_info_state", "group", "local-info", "state"]).Normal?
    ensures Lookup(Firewall(child).value.fields, "IP_Address") == Get(child, "ip-address")
    ensures Lookup(Firewall(child).value.fields, "version") == Get(child, "sw-version")
  {
    var fields := Firewall(child).value.fields;
    assert fields[0].key == "Firewall_Serial" && fields[1].key == "IP_Address";
    assert fields[2].key == "status" && fields[3].key == "version";
    assert Lookup(fields, "IP_Address") == Lookup(fields[1..], "IP_Address");
    assert Lookup(fields[2..], "version") == Lookup(fields[3..], "version") by {
      assert fields[2..][1..] == fields[3..];
    }
    assert Lookup(fields[1..], "version") == Lookup(fields[2..], "version") by {
      assert fields[1..][1..] == fields[2..];
    }
  }

  /** What the submit records for a selected firewall: `{ip, name}`. */
  datatype Address = Address(ip: Json, name: Json)

  function AddressOf(n: Node): Address {
    Address(Lookup(n.fields, "IP_Address"), n.name)
  }

  /** The job template's `extra_vars`: the hosts and the version to install
      (`credential_passwords` is always empty). */
  datatype LaunchPayload = LaunchPayload(inventoryHostname: seq<RowChild<Address>>, panosVersionInput: Json)

  /** `handleSubmit`: the selected rows, the launch payload built from
      their `child` values, and the merged rows passed on to the result
      page. */
  method HandleSubmit(data: seq<Node>, selected: seq<Json>, softwareVersion: Json)
    returns (rows: seq<SelectedRow<Address>>, payload: LaunchPayload, merged: seq<MergedRow<Address>>)
    ensures forall k :: 0 <= k < |rows| ==> (rows[k].child.Many? <==> rows[k].parent in selected)
    ensures forall k :: 0 <= k < |rows| && rows[k].child.Many? ==>
      rows[k].child.items == GroupItems(data, rows[k].parent, selected, AddressOf)
    ensures OnlyOnes(rows) == Singles(data, selected, AddressOf)
    ensures forall j :: 0 <= j < |data| && data[j].name in selected ==> HasRow(rows, data[j].name)
    ensures forall k, l :: 0 <= k < l < |rows| && rows[k].parent in selected ==> rows[k].parent != rows[l].parent
    ensures GroupParents(rows) == Dedup(SelectedNames(data, selected))
    ensures forall k :: 0 <= k < |rows| && rows[k].child.Many? ==>
      exists j :: 0 <= j < |data| && data[j].name == rows[k].parent
    ensures |payload.inventoryHostname| == |rows|
    ensures forall k :: 0 <= k < |rows| ==> payload.inventoryHostname[k] == rows[k].child
    ensures payload.panosVersionInput == softwareVersion
    ensures |merged| == |Dedup(Parents(rows))|
    ensures forall k :: 0 <= k < |merged| ==>
      merged[k].parent == Dedup(Parents(rows))[k] && merged[k].children == ChildrenOf(rows, merged[k].parent)
  {
    rows := SelectRows(data, selected, AddressOf);
    merged := MergeRows(rows);
    payload := LaunchPayload(ChildValues(rows), softwareVersion);
  }
}
