/** `LegacyTableTree2`: the devices of each device group as the firewall
    listing endpoint returns them (`device_name`, `ip_address`, ...), as a
    tree table. Its `handleSubmit` is the same code as `LegacyTableTree1`'s
    and is modelled there. */
module LegacyTableTree2 {
  import opened Js
  import opened TreeTable
  import LegacyTableTree

  /** A device row: `device_name` as its name, then `ip_address`,
      `status`, `hapair` and `version` copied. */
  function Device(child: Json): (r: Completion<Node>)
    ensures r.Threw? <==> Nullish(child)
    ensures r.Normal? ==> r.value.Leaf? && r.value.name == Get(child, "device_name")
  {
    if Nullish(child) then Threw
    else Normal(Leaf(Get(child, "device_name"), [
      Field("ip_address", Get(child, "ip_address")),
      Field("status", Get(child, "status")),
      Field("hapair", Get(child, "hapair")),
      Field("version", Get(child, "version"))]))
  }

  /** A device group, renamed `No Device Group` when its name is empty. */
  function Group(parent: Json): (r: Completion<Node>)
    ensures Nullish(parent) ==> r.Threw?
    ensures r.Normal? ==> r.value.name == LegacyTableTree.GroupName(Get(parent, "name"))
  {
    if Nullish(parent) then Threw
    else match OptionalMap(Get(parent, "firewalls"), Device)
      case Threw => Threw
      case Normal(None) => Normal(Leaf(LegacyTableTree.GroupName(Get(parent, "name")), []))
      case Normal(Some(children)) => Normal(Folder(LegacyTableTree.GroupName(Get(parent, "name")), [], children))
  }

  /** `panoramalist?.map(...)`: the table's data. */
  function Data(panoramalist: Json): Completion<Option<seq<Node>>> {
    OptionalMap(panoramalist, Group)
  }

  /** An unnamed group with a list of devices becomes `No Device Group`
      with one child per device, in order, each keeping the device's
      fields. */
  lemma UnnamedGroup(parent: Json, devices: seq<Json>)
    requires parent.Obj? && Get(parent, "name") == Str("") && Get(parent, "firewalls") == Arr(devices)
    requires forall i :: 0 <= i < |devices| ==> !Nullish(devices[i])
    ensures Group(parent).Normal? && Group(parent).value.Folder?
    ensures Group(parent).value.name == Str(LegacyTableTree.NoDeviceGroup)
    ensures |Group(parent).value.children| == |devices|
    ensures forall i :: 0 <= i < |devices| ==>
      && Group(parent).value.children[i].name == Get(devices[i], "device_name")
      && Lookup(Group(parent).value.children[i].fields, "ip_address") == Get(devices[i], "ip_address")
  {
    assert MapAll(devices, Device).Normal?;
  }
}
