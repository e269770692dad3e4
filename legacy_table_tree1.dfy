/** `LegacyTableTree1`: the devices of each Panorama device group as
    Panorama lists them (`@name`, `devices.entry`), as a tree table. */
module LegacyTableTree1 {
  import opened Js
  import opened TreeTable
  import opened TreeSubmit

  /** A device: `{name: child['@name']}`. */
  function Device(child: Json): (r: Completion<Node>)
    ensures r.Threw? <==> Nullish(child)
    ensures r.Normal? ==> r.value == Leaf(Get(child, "@name"), [])
  {
    match Member(child, "@name")
    case Threw => Threw
    case Normal(name) => Normal(Leaf(name, []))
  }

  /** A device group: `{name: parent['@name'], children:
      parent?.devices?.entry?.map(...)}`. The name is taken as it is. */
  function Group(parent: Json): Completion<Node> {
    if Nullish(parent) then Threw
    else match OptionalMap(Path(parent, ["devices", "entry"]), Device)
      case Threw => Threw
      case Normal(None) => Normal(Leaf(Get(parent, "@name"), []))
      case Normal(Some(children)) => Normal(Folder(Get(parent, "@name"), [], children))
  }

  /** `panoramalist?.map(...)`: the table's data. */
  function Data(panoramalist: Json): Completion<Option<seq<Node>>> {
    OptionalMap(panoramalist, Group)
  }

  /** A group without `devices.entry` has no `children` at all, so it is a
      leaf: it stands for itself in the check box of any row above it. */
  lemma GroupWithoutEntry(parent: Json)
    requires parent.Obj? && Nullish(Path(parent, ["devices", "entry"]))
    ensures Group(parent) == Normal(Leaf(Get(parent, "@name"), []))
    ensures Descendants(Group(parent).value) == [Group(parent).value]
  {
  }

  /** With a list of devices the group is a folder with one child per
      device, named by `@name`, in order. */
  lemma GroupWithEntries(parent: Json, entries: seq<Json>)
    requires parent.Obj? && Path(parent, ["devices", "entry"]) == Arr(entries)
    requires forall i :: 0 <= i < |entries| ==> !Nullish(entries[i])
    ensures Group(parent).Normal? && Group(parent).value.Folder?
    ensures Group(parent).value.name == Get(parent, "@name")
    ensures |Group(parent).value.children| == |entries|
    ensures forall i :: 0 <= i < |entries| ==>
      Group(parent).value.children[i] == Leaf(Get(entries[i], "@name"), [])
  {
    assert MapAll(entries, Device).Normal?;
  }

  /** A single device listed as an object rather than a one-element list
      has no `map`: building the table throws. */
  lemma SingleEntryObjectThrows(parent: Json)
    requires parent.Obj? && Path(parent, ["devices", "entry"]).Obj?
    ensures Group(parent).Threw?
  {
  }

  /** A group without `@name` keeps the missing name, and rendering it
      throws: this screen builds `checkboxId` with `node.name.toLowerCase()`. */
  lemma UnnamedGroupThrows(parent: Json, level: nat, rowIndex: nat, hidden: bool, v: View)
    requires Group(parent).Normal? && Nullish(Get(parent, "@name"))
    ensures RenderChecked([Group(parent).value], level, 1, rowIndex, hidden, v, false).Threw?
  {
    var n := Group(parent).value;
    assert PreOrder([n])[0] == n;
  }

  /** What the submit records for a selected device: its name. */
  function NameOf(n: Node): Json {
    n.name
  }

  /** The payload `handleSubmit` builds (and only logs). */
  datatype SubmitPayload = SubmitPayload(mergedRows: seq<MergedRow<Json>>, username: Json, password: Json)

  /** `handleSubmit`: selected device names grouped by parent, then merged
      by parent. */
  method HandleSubmit(data: seq<Node>, selected: seq<Json>, username: Json, password: Json)
    returns (rows: seq<SelectedRow<Json>>, payload: SubmitPayload)
    ensures forall k :: 0 <= k < |rows| ==> (rows[k].child.Many? <==> rows[k].parent in selected)
    ensures forall k :: 0 <= k < |rows| && rows[k].child.Many? ==>
      rows[k].child.items == GroupItems(data, rows[k].parent, selected, NameOf)
    ensures OnlyOnes(rows) == Singles(data, selected, NameOf)
    ensures forall j :: 0 <= j < |data| && data[j].name in selected ==> HasRow(rows, data[j].name)
    ensures forall k, l :: 0 <= k < l < |rows| && rows[k].parent in selected ==> rows[k].parent != rows[l].parent
    ensures GroupParents(rows) == Dedup(SelectedNames(data, selected))
    ensures forall k :: 0 <= k < |rows| && rows[k].child.Many? ==>
      exists j :: 0 <= j < |data| && data[j].name == rows[k].parent
    ensures |payload.mergedRows| == |Dedup(Parents(rows))|
    ensures forall k :: 0 <= k < |payload.mergedRows| ==>
      && payload.mergedRows[k].parent == Dedup(Parents(rows))[k]
      && payload.mergedRows[k].children == ChildrenOf(rows, payload.mergedRows[k].parent)
    ensures payload.username == username && payload.password == password
  {
    rows := SelectRows(data, selected, NameOf);
    var merged := MergeRows(rows);
    payload := SubmitPayload(merged, username, password);
  }
}
