/** The two reducers of `handleSubmit` in the firewall tree screens: the
    selected rows (a selected group collects its selected children into one
    row, any other selected child gets a row of its own) and the rows merged
    by parent. The screens differ only in what they record for a child, so
    that is a parameter here. */
module TreeSubmit {
  import opened Js
  import opened TreeTable

  /** The `child` of a selected row: the array a selected group collects
      into, or the payload of one child. */
  datatype RowChild<P> = Many(items: seq<P>) | One(item: P)

  datatype SelectedRow<P> = SelectedRow(parent: Json, child: RowChild<P>)

  /** An entry of `mergedRows`: a parent and the `child` values of its
      selected rows, in order. */
  datatype MergedRow<P> = MergedRow(parent: Json, children: seq<RowChild<P>>)

  // ------------------------------------------------------ specification

  /** `children.filter((c) => selected.includes(c.name)).map(payload)` */
  function PayloadsOf<P>(children: seq<Node>, selected: seq<Json>, payload: Node -> P): (r: seq<P>)
    ensures |r| <= |children|
  {
    if children == [] then []
    else (if children[0].name in selected then [payload(children[0])] else [])
         + PayloadsOf(children[1..], selected, payload)
  }

  /** `parent.children ? ... : []` */
  function ChildPayloads<P>(parent: Node, selected: seq<Json>, payload: Node -> P): seq<P> {
    if parent.Folder? then PayloadsOf(parent.children, selected, payload) else []
  }

  /** Every child selected: every child's payload, in order; none
      selected: nothing. */
  lemma {:induction false} PayloadsOfExtremes<P>(children: seq<Node>, selected: seq<Json>, payload: Node -> P)
    ensures (forall k :: 0 <= k < |children| ==> children[k].name in selected) ==>
      |PayloadsOf(children, selected, payload)| == |children|
      && forall k :: 0 <= k < |children| ==> PayloadsOf(children, selected, payload)[k] == payload(children[k])
    ensures (forall k :: 0 <= k < |children| ==> children[k].name !in selected) ==>
      PayloadsOf(children, selected, payload) == []
    decreases |children|
  {
    if children != [] {
      PayloadsOfExtremes(children[1..], selected, payload);
    }
  }

  /** Everything the groups named `x` among `ps` contribute, in order. */
  function GroupItems<P>(ps: seq<Node>, x: Json, selected: seq<Json>, payload: Node -> P): seq<P> {
    if ps == [] then []
    else GroupItems(ps[..|ps| - 1], x, selected, payload)
         + (if ps[|ps| - 1].name == x then ChildPayloads(ps[|ps| - 1], selected, payload) else [])
  }

  lemma {:induction false} GroupItemsAbsent<P>(ps: seq<Node>, x: Json, selected: seq<Json>, payload: Node -> P)
    requires forall j :: 0 <= j < |ps| ==> ps[j].name != x
    ensures GroupItems(ps, x, selected, payload) == []
    decreases |ps|
  {
    if ps != [] {
      GroupItemsAbsent(ps[..|ps| - 1], x, selected, payload);
    }
  }

  /** One row per item, all under `parent`. */
  function OneRows<P>(parent: Json, items: seq<P>): (r: seq<SelectedRow<P>>)
    ensures |r| == |items|
  {
    if items == [] then [] else [SelectedRow(parent, One(items[0]))] + OneRows(parent, items[1..])
  }

  /** The rows of the children of unselected groups, in order. */
  function Singles<P>(ps: seq<Node>, selected: seq<Json>, payload: Node -> P): seq<SelectedRow<P>> {
    if ps == [] then []
    else Singles(ps[..|ps| - 1], selected, payload)
         + (if ps[|ps| - 1].name in selected then []
            else OneRows(ps[|ps| - 1].name, ChildPayloads(ps[|ps| - 1], selected, payload)))
  }

  /** The rows that hold a single child, in order. */
  function OnlyOnes<P>(rows: seq<SelectedRow<P>>): seq<SelectedRow<P>> {
    if rows == [] then []
    else (if rows[0].child.One? then [rows[0]] else []) + OnlyOnes(rows[1..])
  }

  lemma {:induction false} OnlyOnesAppend<P>(a: seq<SelectedRow<P>>, b: seq<SelectedRow<P>>)
    ensures OnlyOnes(a + b) == OnlyOnes(a) + OnlyOnes(b)
    decreases |a|
  {
    if a == [] {
      assert a + b == b;
    } else {
      var ab := a + b;
      assert ab[0] == a[0];
      assert ab[1..] == a[1..] + b;
      OnlyOnesAppend(a[1..], b);
    }
  }

  lemma {:induction false} OnlyOnesOfOneRows<P>(parent: Json, items: seq<P>)
    ensures OnlyOnes(OneRows(parent, items)) == OneRows(parent, items)
    decreases |items|
  {
    if items != [] {
      OnlyOnesOfOneRows(parent, items[1..]);
    }
  }

  /** Replacing a group row by another group row keeps the single rows. */
  lemma OnlyOnesReplaceMany<P>(rows: seq<SelectedRow<P>>, j: nat, row: SelectedRow<P>)
    requires j < |rows| && rows[j].child.Many? && row.child.Many?
    ensures OnlyOnes(rows[j := row]) == OnlyOnes(rows)
  {
    assert rows == rows[..j] + [rows[j]] + rows[j + 1..];
    assert rows[j := row] == rows[..j] + [row] + rows[j + 1..];
    OnlyOnesAppend(rows[..j] + [rows[j]], rows[j + 1..]);
    OnlyOnesAppend(rows[..j], [rows[j]]);
    OnlyOnesAppend(rows[..j] + [row], rows[j + 1..]);
    OnlyOnesAppend(rows[..j], [row]);
  }

  /** The names of the selected groups among `ps`, in order, repeats
      included. */
  function SelectedNames(ps: seq<Node>, selected: seq<Json>): seq<Json> {
    if ps == [] then []
    else SelectedNames(ps[..|ps| - 1], selected)
         + (if ps[|ps| - 1].name in selected then [ps[|ps| - 1].name] else [])
  }

  lemma {:induction false} SelectedNamesMembers(ps: seq<Node>, selected: seq<Json>, x: Json)
    ensures x in SelectedNames(ps, selected) <==> x in selected && exists j :: 0 <= j < |ps| && ps[j].name == x
    decreases |ps|
  {
    if ps != [] {
      var init := ps[..|ps| - 1];
      SelectedNamesMembers(init, selected, x);
      if exists j :: 0 <= j < |init| && init[j].name == x {
        var j :| 0 <= j < |init| && init[j].name == x;
        assert ps[j] == init[j];
      }
      if exists j :: 0 <= j < |ps| && ps[j].name == x {
        var j :| 0 <= j < |ps| && ps[j].name == x;
        if j < |init| {
          assert ps[j] == init[j];
        }
      }
    }
  }

  lemma SelectedNamesStep(ps: seq<Node>, parent: Node, selected: seq<Json>)
    ensures SelectedNames(ps + [parent], selected)
      == SelectedNames(ps, selected) + (if parent.name in selected then [parent.name] else [])
  {
    var ps' := ps + [parent];
    assert ps'[..|ps'| - 1] == ps;
  }

  /** The parents of the group rows, in order. */
  function GroupParents<P>(rows: seq<SelectedRow<P>>): seq<Json> {
    if rows == [] then []
    else (if rows[0].child.Many? then [rows[0].parent] else []) + GroupParents(rows[1..])
  }

  lemma {:induction false} GroupParentsAppend<P>(a: seq<SelectedRow<P>>, b: seq<SelectedRow<P>>)
    ensures GroupParents(a + b) == GroupParents(a) + GroupParents(b)
    decreases |a|
  {
    if a == [] {
      assert a + b == b;
    } else {
      var ab := a + b;
      assert ab[0] == a[0];
      assert ab[1..] == a[1..] + b;
      GroupParentsAppend(a[1..], b);
    }
  }

  lemma {:induction false} GroupParentsOfOneRows<P>(parent: Json, items: seq<P>)
    ensures GroupParents(OneRows(parent, items)) == []
    decreases |items|
  {
    if items != [] {
      GroupParentsOfOneRows(parent, items[1..]);
    }
  }

  lemma {:induction false} GroupParentsMembers<P>(rows: seq<SelectedRow<P>>, x: Json)
    ensures x in GroupParents(rows) <==> exists k :: 0 <= k < |rows| && rows[k].child.Many? && rows[k].parent == x
    decreases |rows|
  {
    if rows != [] {
      GroupParentsMembers(rows[1..], x);
      if exists k :: 0 <= k < |rows| && rows[k].child.Many? && rows[k].parent == x {
        var k :| 0 <= k < |rows| && rows[k].child.Many? && rows[k].parent == x;
        if k > 0 {
          assert rows[1..][k - 1] == rows[k];
        }
      }
      if exists k :: 0 <= k < |rows[1..]| && rows[1..][k].child.Many? && rows[1..][k].parent == x {
        var k :| 0 <= k < |rows[1..]| && rows[1..][k].child.Many? && rows[1..][k].parent == x;
        assert rows[k + 1] == rows[1..][k];
      }
    }
  }

  /** Replacing a group row by a group row of the same parent keeps the
      group parents. */
  lemma GroupParentsReplaceMany<P>(rows: seq<SelectedRow<P>>, j: nat, row: SelectedRow<P>)
    requires j < |rows| && rows[j].child.Many? && row.child.Many? && row.parent == rows[j].parent
    ensures GroupParents(rows[j := row]) == GroupParents(rows)
  {
    assert rows == rows[..j] + [rows[j]] + rows[j + 1..];
    assert rows[j := row] == rows[..j] + [row] + rows[j + 1..];
    GroupParentsAppend(rows[..j] + [rows[j]], rows[j + 1..]);
    GroupParentsAppend(rows[..j], [rows[j]]);
    GroupParentsAppend(rows[..j] + [row], rows[j + 1..]);
    GroupParentsAppend(rows[..j], [row]);
  }

  ghost predicate HasRow<P>(rows: seq<SelectedRow<P>>, x: Json) {
    exists k :: 0 <= k < |rows| && rows[k].parent == x
  }

  /** `result.find((row) => row.parent === x)`, as an index; both
      reducers search their accumulators this way. */
  function FindParent<R>(rows: seq<R>, parentOf: R -> Json, x: Json): (r: Option<nat>)
    ensures r.Some? ==> r.value < |rows| && parentOf(rows[r.value]) == x
    ensures r.None? ==> forall k :: 0 <= k < |rows| ==> parentOf(rows[k]) != x
  {
    if rows == [] then None
    else if parentOf(rows[0]) == x then Some(0)
    else match FindParent(rows[1..], parentOf, x)
      case None => None
      case Some(k) => Some(k + 1)
  }

  // ------------------------------------------------------ selected rows

  /** What the first reducer has built after the groups `ps`: single rows
      only under unselected names, group rows only under selected names
      and holding everything those groups contribute, one row per selected
      name, a row for every selected group, and the single rows in order. */
  ghost predicate SelectedSoFar<P>(ps: seq<Node>, selected: seq<Json>, payload: Node -> P, rows: seq<SelectedRow<P>>) {
    && OnesUnselected(rows, selected)
    && GroupsHoldAll(ps, selected, payload, rows)
    && OneRowPerGroup(rows, selected)
    && EveryGroupHasRow(ps, selected, rows)
    && OnlyOnes(rows) == Singles(ps, selected, payload)
  }

  ghost predicate OnesUnselected<P>(rows: seq<SelectedRow<P>>, selected: seq<Json>) {
    forall k :: 0 <= k < |rows| && rows[k].child.One? ==> rows[k].parent !in selected
  }

  ghost predicate GroupsHoldAll<P>(ps: seq<Node>, selected: seq<Json>, payload: Node -> P, rows: seq<SelectedRow<P>>) {
    forall k :: 0 <= k < |rows| && rows[k].child.Many? ==>
      rows[k].parent in selected && rows[k].child.items == GroupItems(ps, rows[k].parent, selected, payload)
  }

  ghost predicate OneRowPerGroup<P>(rows: seq<SelectedRow<P>>, selected: seq<Json>) {
    forall k, l :: 0 <= k < l < |rows| && rows[k].parent in selected ==> rows[k].parent != rows[l].parent
  }

  ghost predicate EveryGroupHasRow<P>(ps: seq<Node>, selected: seq<Json>, rows: seq<SelectedRow<P>>) {
    forall j :: 0 <= j < |ps| && ps[j].name in selected ==> HasRow(rows, ps[j].name)
  }

  lemma GroupItemsStep<P>(ps: seq<Node>, parent: Node, x: Json, selected: seq<Json>, payload: Node -> P)
    ensures GroupItems(ps + [parent], x, selected, payload)
      == GroupItems(ps, x, selected, payload) + (if parent.name == x then ChildPayloads(parent, selected, payload) else [])
  {
    var ps' := ps + [parent];
    assert ps'[..|ps'| - 1] == ps;
  }

  lemma SinglesStep<P>(ps: seq<Node>, parent: Node, selected: seq<Json>, payload: Node -> P)
    ensures Singles(ps + [parent], selected, payload)
      == Singles(ps, selected, payload)
         + (if parent.name in selected then [] else OneRows(parent.name, ChildPayloads(parent, selected, payload)))
  {
    var ps' := ps + [parent];
    assert ps'[..|ps'| - 1] == ps;
  }

  /** The groups so far with a row are the earlier ones with a row and
      the new one when it has a row. */
  lemma HaveRowsStep<P>(ps: seq<Node>, parent: Node, selected: seq<Json>, rows: seq<SelectedRow<P>>, rows': seq<SelectedRow<P>>)
    requires EveryGroupHasRow(ps, selected, rows) && |rows| <= |rows'|
    requires forall k :: 0 <= k < |rows| ==> rows'[k].parent == rows[k].parent
    requires parent.name in selected ==> HasRow(rows', parent.name)
    ensures EveryGroupHasRow(ps + [parent], selected, rows')
  {
    var ps' := ps + [parent];
    forall m | 0 <= m < |ps'| && ps'[m].name in selected
      ensures HasRow(rows', ps'[m].name)
    {
      if m < |ps| {
        assert ps'[m] == ps[m];
        var k :| 0 <= k < |rows| && rows[k].parent == ps[m].name;
        assert rows'[k].parent == rows[k].parent;
      }
    }
  }

  /** A selected group whose name already has a row adds its children to
      that row. */
  lemma StepExisting<P>(ps: seq<Node>, parent: Node, selected: seq<Json>, payload: Node -> P,
                        rows: seq<SelectedRow<P>>, j: nat)
    requires SelectedSoFar(ps, selected, payload, rows)
    requires parent.name in selected && j < |rows| && rows[j].parent == parent.name
    ensures rows[j].child.Many?
    ensures SelectedSoFar(ps + [parent], selected, payload,
      rows[j := SelectedRow(parent.name, Many(rows[j].child.items + ChildPayloads(parent, selected, payload)))])
  {
    var row := SelectedRow(parent.name, Many(rows[j].child.items + ChildPayloads(parent, selected, payload)));
    var rows' := rows[j := row];
    OnlyOnesReplaceMany(rows, j, row);
    SinglesStep(ps, parent, selected, payload);
    ExistingGroups(ps, parent, selected, payload, rows, j);
    assert rows'[j].parent == parent.name;
    HaveRowsStep(ps, parent, selected, rows, rows');
  }

  lemma ExistingGroups<P>(ps: seq<Node>, parent: Node, selected: seq<Json>, payload: Node -> P,
                          rows: seq<SelectedRow<P>>, j: nat)
    requires GroupsHoldAll(ps, selected, payload, rows) && OneRowPerGroup(rows, selected)
    requires OnesUnselected(rows, selected)
    requires parent.name in selected && j < |rows| && rows[j].parent == parent.name
    ensures rows[j].child.Many?
    ensures var rows' := rows[j := SelectedRow(parent.name, Many(rows[j].child.items + ChildPayloads(parent, selected, payload)))];
      GroupsHoldAll(ps + [parent], selected, payload, rows') && OneRowPerGroup(rows', selected)
      && OnesUnselected(rows', selected)
  {
    var row := SelectedRow(parent.name, Many(rows[j].child.items + ChildPayloads(parent, selected, payload)));
    var rows' := rows[j := row];
    forall k | 0 <= k < |rows'| && rows'[k].child.Many?
      ensures rows'[k].parent in selected && rows'[k].child.items == GroupItems(ps + [parent], rows'[k].parent, selected, payload)
    {
      GroupItemsStep(ps, parent, rows'[k].parent, selected, payload);
      if k != j {
        if k < j {
          assert rows[k].parent != rows[j].parent;
        } else {
          assert rows[j].parent != rows[k].parent;
        }
      }
    }
    forall k, l | 0 <= k < l < |rows'| && rows'[k].parent in selected
      ensures rows'[k].parent != rows'[l].parent
    {
      assert rows'[k].parent == rows[k].parent && rows'[l].parent == rows[l].parent;
    }
  }

  /** A selected group whose name has no row yet starts one. */
  lemma StepNew<P>(ps: seq<Node>, parent: Node, selected: seq<Json>, payload: Node -> P, rows: seq<SelectedRow<P>>)
    requires SelectedSoFar(ps, selected, payload, rows)
    requires parent.name in selected && forall k :: 0 <= k < |rows| ==> rows[k].parent != parent.name
    ensures SelectedSoFar(ps + [parent], selected, payload,
      rows + [SelectedRow(parent.name, Many(ChildPayloads(parent, selected, payload)))])
  {
    var row := SelectedRow(parent.name, Many(ChildPayloads(parent, selected, payload)));
    var rows' := rows + [row];
    NewGroups(ps, parent, selected, payload, rows);
    OnlyOnesAppend(rows, [row]);
    SinglesStep(ps, parent, selected, payload);
    assert OnlyOnes([row]) == [];
    assert rows'[|rows|].parent == parent.name;
    HaveRowsStep(ps, parent, selected, rows, rows');
  }

  lemma NewGroups<P>(ps: seq<Node>, parent: Node, selected: seq<Json>, payload: Node -> P, rows: seq<SelectedRow<P>>)
    requires GroupsHoldAll(ps, selected, payload, rows) && OneRowPerGroup(rows, selected)
    requires OnesUnselected(rows, selected) && EveryGroupHasRow(ps, selected, rows)
    requires parent.name in selected && forall k :: 0 <= k < |rows| ==> rows[k].parent != parent.name
    ensures var rows' := rows + [SelectedRow(parent.name, Many(ChildPayloads(parent, selected, payload)))];
      GroupsHoldAll(ps + [parent], selected, payload, rows') && OneRowPerGroup(rows', selected)
      && OnesUnselected(rows', selected)
  {
    var row := SelectedRow(parent.name, Many(ChildPayloads(parent, selected, payload)));
    var rows' := rows + [row];
    forall m | 0 <= m < |ps|
      ensures ps[m].name != parent.name
    {
      if ps[m].name in selected {
        assert HasRow(rows, ps[m].name);
      }
    }
    GroupItemsAbsent(ps, parent.name, selected, payload);
    forall k | 0 <= k < |rows'| && rows'[k].child.Many?
      ensures rows'[k].parent in selected && rows'[k].child.items == GroupItems(ps + [parent], rows'[k].parent, selected, payload)
    {
      GroupItemsStep(ps, parent, rows'[k].parent, selected, payload);
      if k < |rows| {
        assert rows'[k] == rows[k];
      }
    }
  }

  /** An unselected group adds one row per selected child. */
  lemma StepSingles<P>(ps: seq<Node>, parent: Node, selected: seq<Json>, payload: Node -> P, rows: seq<SelectedRow<P>>)
    requires SelectedSoFar(ps, selected, payload, rows)
    requires parent.name !in selected
    ensures SelectedSoFar(ps + [parent], selected, payload,
      rows + OneRows(parent.name, ChildPayloads(parent, selected, payload)))
  {
    var added := OneRows(parent.name, ChildPayloads(parent, selected, payload));
    var rows' := rows + added;
    SinglesGroups(ps, parent, selected, payload, rows);
    OnlyOnesAppend(rows, added);
    OnlyOnesOfOneRows(parent.name, ChildPayloads(parent, selected, payload));
    SinglesStep(ps, parent, selected, payload);
    HaveRowsStep(ps, parent, selected, rows, rows');
  }

  lemma SinglesGroups<P>(ps: seq<Node>, parent: Node, selected: seq<Json>, payload: Node -> P, rows: seq<SelectedRow<P>>)
    requires GroupsHoldAll(ps, selected, payload, rows) && OneRowPerGroup(rows, selected)
    requires OnesUnselected(rows, selected)
    requires parent.name !in selected
    ensures var rows' := rows + OneRows(parent.name, ChildPayloads(parent, selected, payload));
      GroupsHoldAll(ps + [parent], selected, payload, rows') && OneRowPerGroup(rows', selected)
      && OnesUnselected(rows', selected)
  {
    var added := OneRows(parent.name, ChildPayloads(parent, selected, payload));
    var rows' := rows + added;
    OneRowsShape(parent.name, ChildPayloads(parent, selected, payload));
    forall k | 0 <= k < |rows'| && rows'[k].child.Many?
      ensures rows'[k].parent in selected && rows'[k].child.items == GroupItems(ps + [parent], rows'[k].parent, selected, payload)
    {
      assert k < |rows| && rows'[k] == rows[k];
      GroupItemsStep(ps, parent, rows'[k].parent, selected, payload);
    }
    forall k, l | 0 <= k < l < |rows'| && rows'[k].parent in selected
      ensures rows'[k].parent != rows'[l].parent
    {
      assert k < |rows| && rows'[k] == rows[k];
    }
  }

  lemma {:induction false} OneRowsShape<P>(parent: Json, items: seq<P>)
    ensures forall k :: 0 <= k < |items| ==> OneRows(parent, items)[k] == SelectedRow(parent, One(items[k]))
    decreases |items|
  {
    if items != [] {
      OneRowsShape(parent, items[1..]);
    }
  }

  /** The group rows appear once per selected group name, in the order in
      which the names first appear among the groups `ps`. */
  ghost predicate GroupsInOrder<P>(ps: seq<Node>, selected: seq<Json>, rows: seq<SelectedRow<P>>) {
    GroupParents(rows) == Dedup(SelectedNames(ps, selected))
  }

  lemma DedupSnoc(s: seq<Json>, x: Json)
    ensures Dedup(s + [x]) == if x in s then Dedup(s) else Dedup(s) + [x]
  {
    var s' := s + [x];
    assert s'[..|s'| - 1] == s && s'[|s'| - 1] == x;
  }

  lemma OrderExisting<P>(ps: seq<Node>, parent: Node, selected: seq<Json>, rows: seq<SelectedRow<P>>, j: nat, items: seq<P>)
    requires GroupsInOrder(ps, selected, rows)
    requires parent.name in selected && j < |rows| && rows[j].child.Many? && rows[j].parent == parent.name
    ensures GroupsInOrder(ps + [parent], selected, rows[j := SelectedRow(parent.name, Many(items))])
  {
    GroupParentsReplaceMany(rows, j, SelectedRow(parent.name, Many(items)));
    GroupParentsMembers(rows, parent.name);
    DedupProperties(SelectedNames(ps, selected));
    SelectedNamesStep(ps, parent, selected);
    DedupSnoc(SelectedNames(ps, selected), parent.name);
  }

  lemma OrderNew<P>(ps: seq<Node>, parent: Node, selected: seq<Json>, rows: seq<SelectedRow<P>>, items: seq<P>)
    requires GroupsInOrder(ps, selected, rows)
    requires parent.name in selected && forall k :: 0 <= k < |rows| ==> rows[k].parent != parent.name
    ensures GroupsInOrder(ps + [parent], selected, rows + [SelectedRow(parent.name, Many(items))])
  {
    var row := SelectedRow(parent.name, Many(items));
    GroupParentsAppend(rows, [row]);
    assert GroupParents([row]) == [parent.name];
    GroupParentsMembers(rows, parent.name);
    DedupProperties(SelectedNames(ps, selected));
    SelectedNamesStep(ps, parent, selected);
    DedupSnoc(SelectedNames(ps, selected), parent.name);
  }

  lemma OrderSingles<P>(ps: seq<Node>, parent: Node, selected: seq<Json>, rows: seq<SelectedRow<P>>, items: seq<P>)
    requires GroupsInOrder(ps, selected, rows)
    requires parent.name !in selected
    ensures GroupsInOrder(ps + [parent], selected, rows + OneRows(parent.name, items))
  {
    GroupParentsAppend(rows, OneRows(parent.name, items));
    GroupParentsOfOneRows(parent.name, items);
    assert GroupParents(rows + OneRows(parent.name, items)) == GroupParents(rows);
    SelectedNamesStep(ps, parent, selected);
    assert SelectedNames(ps + [parent], selected) == SelectedNames(ps, selected);
  }

  /** Every group row names a group of `ps`. */
  lemma GroupRowsFromData<P>(ps: seq<Node>, selected: seq<Json>, rows: seq<SelectedRow<P>>)
    requires GroupsInOrder(ps, selected, rows)
    ensures forall k :: 0 <= k < |rows| && rows[k].child.Many? ==>
      exists j :: 0 <= j < |ps| && ps[j].name == rows[k].parent
  {
    forall k | 0 <= k < |rows| && rows[k].child.Many?
      ensures exists j :: 0 <= j < |ps| && ps[j].name == rows[k].parent
    {
      GroupParentsMembers(rows, rows[k].parent);
      DedupProperties(SelectedNames(ps, selected));
      SelectedNamesMembers(ps, selected, rows[k].parent);
    }
  }

  /** The first reducer of `handleSubmit`, over the whole `data`. A row is
      a group row exactly when its parent is selected; each selected group
      name has one row, holding the selected children of every group of
      that name; the group rows name groups of `data`, in the order in
      which their names first appear there; the other rows are the selected
      children of unselected groups, one each, in order. So
      `existingRow.child.push` always finds an array. */
  method SelectRows<P>(data: seq<Node>, selected: seq<Json>, payload: Node -> P) returns (rows: seq<SelectedRow<P>>)
    ensures forall k :: 0 <= k < |rows| && rows[k].child.One? ==> rows[k].parent !in selected
    ensures forall k :: 0 <= k < |rows| && rows[k].child.Many? ==>
      rows[k].parent in selected && rows[k].child.items == GroupItems(data, rows[k].parent, selected, payload)
    ensures forall k, l :: 0 <= k < l < |rows| && rows[k].parent in selected ==> rows[k].parent != rows[l].parent
    ensures forall j :: 0 <= j < |data| && data[j].name in selected ==> HasRow(rows, data[j].name)
    ensures OnlyOnes(rows) == Singles(data, selected, payload)
    ensures GroupParents(rows) == Dedup(SelectedNames(data, selected))
    ensures forall k :: 0 <= k < |rows| && rows[k].child.Many? ==>
      exists j :: 0 <= j < |data| && data[j].name == rows[k].parent
  {
    rows := ReduceGroups(data, selected, payload);
    GroupRowsFromData(data, selected, rows);
  }

  /** The `reduce` loop of the first reducer, one group at a time. */
  method ReduceGroups<P>(data: seq<Node>, selected: seq<Json>, payload: Node -> P) returns (rows: seq<SelectedRow<P>>)
    ensures SelectedSoFar(data, selected, payload, rows) && GroupsInOrder(data, selected, rows)
  {
    rows := [];
    var i := 0;
    while i < |data|
      invariant 0 <= i <= |data|
      invariant SelectedSoFar(data[..i], selected, payload, rows)
      invariant GroupsInOrder(data[..i], selected, rows)
    {
      assert data[..i + 1] == data[..i] + [data[i]];
      rows := AddGroup(data[..i], data[i], selected, payload, rows);
      i := i + 1;
    }
    assert data[..i] == data;
  }

  /** One call of the first reducer's callback: a selected group extends
      the row of its name or starts one; any other group adds a row per
      selected child. */
  method AddGroup<P>(ps: seq<Node>, parent: Node, selected: seq<Json>, payload: Node -> P, rows: seq<SelectedRow<P>>)
    returns (rows': seq<SelectedRow<P>>)
    requires SelectedSoFar(ps, selected, payload, rows) && GroupsInOrder(ps, selected, rows)
    ensures SelectedSoFar(ps + [parent], selected, payload, rows') && GroupsInOrder(ps + [parent], selected, rows')
  {
    var childRows := ChildPayloads(parent, selected, payload);
    if parent.name in selected {
      var found := FindParent(rows, (r: SelectedRow<P>) => r.parent, parent.name);
      if found.Some? {
        var j := found.value;
        StepExisting(ps, parent, selected, payload, rows, j);
        OrderExisting(ps, parent, selected, rows, j, rows[j].child.items + childRows);
        rows' := rows[j := SelectedRow(parent.name, Many(rows[j].child.items + childRows))];
      } else {
        StepNew(ps, parent, selected, payload, rows);
        OrderNew(ps, parent, selected, rows, childRows);
        rows' := rows + [SelectedRow(parent.name, Many(childRows))];
      }
    } else {
      StepSingles(ps, parent, selected, payload, rows);
      OrderSingles(ps, parent, selected, rows, childRows);
      rows' := rows + OneRows(parent.name, childRows);
    }
  }

  // ------------------------------------------------------- merged rows

  /** The parents of the rows, in order. */
  function Parents<P>(rows: seq<SelectedRow<P>>): (r: seq<Json>)
    ensures |r| == |rows|
  {
    if rows == [] then [] else Parents(rows[..|rows| - 1]) + [rows[|rows| - 1].parent]
  }

  lemma {:induction false} ParentsMembers<P>(rows: seq<SelectedRow<P>>, x: Json)
    ensures x in Parents(rows) <==> exists k :: 0 <= k < |rows| && rows[k].parent == x
    decreases |rows|
  {
    if rows != [] {
      var init := rows[..|rows| - 1];
      ParentsMembers(init, x);
      if exists k :: 0 <= k < |init| && init[k].parent == x {
        var k :| 0 <= k < |init| && init[k].parent == x;
        assert rows[k] == init[k];
      }
      if exists k :: 0 <= k < |rows| && rows[k].parent == x {
        var k :| 0 <= k < |rows| && rows[k].parent == x;
        if k < |init| {
          assert rows[k] == init[k];
        }
      }
    }
  }

  /** Reference definition: the distinct values of `s`, in order of first
      appearance. */
  function Dedup(s: seq<Json>): seq<Json> {
    if s == [] then []
    else if s[|s| - 1] in s[..|s| - 1] then Dedup(s[..|s| - 1])
    else Dedup(s[..|s| - 1]) + [s[|s| - 1]]
  }

  /** `Dedup` keeps every value and repeats none. */
  lemma {:induction false} DedupProperties(s: seq<Json>)
    ensures forall x :: x in Dedup(s) <==> x in s
    ensures forall k, l :: 0 <= k < l < |Dedup(s)| ==> Dedup(s)[k] != Dedup(s)[l]
    decreases |s|
  {
    if s != [] {
      var init := s[..|s| - 1];
      DedupProperties(init);
      assert s == init + [s[|s| - 1]];
    }
  }

  /** The `child` values of the rows under `x`, in order. */
  function ChildrenOf<P>(rows: seq<SelectedRow<P>>, x: Json): seq<RowChild<P>> {
    if rows == [] then []
    else ChildrenOf(rows[..|rows| - 1], x)
         + (if rows[|rows| - 1].parent == x then [rows[|rows| - 1].child] else [])
  }

  lemma {:induction false} ChildrenOfAbsent<P>(rows: seq<SelectedRow<P>>, x: Json)
    requires x !in Parents(rows)
    ensures ChildrenOf(rows, x) == []
    decreases |rows|
  {
    if rows != [] {
      ChildrenOfAbsent(rows[..|rows| - 1], x);
    }
  }

  /** After the rows `rs`: one entry per distinct parent in order of first
      appearance, each holding the `child` values of its rows. */
  ghost predicate MergedSoFar<P>(rs: seq<SelectedRow<P>>, merged: seq<MergedRow<P>>) {
    && |merged| == |Dedup(Parents(rs))|
    && (forall k :: 0 <= k < |merged| ==> merged[k].parent == Dedup(Parents(rs))[k])
    && (forall k :: 0 <= k < |merged| ==> merged[k].children == ChildrenOf(rs, merged[k].parent))
  }

  lemma MergeExisting<P>(rs: seq<SelectedRow<P>>, row: SelectedRow<P>, merged: seq<MergedRow<P>>, j: nat)
    requires MergedSoFar(rs, merged)
    requires j < |merged| && merged[j].parent == row.parent
    ensures MergedSoFar(rs + [row], merged[j := MergedRow(row.parent, merged[j].children + [row.child])])
  {
    var rs' := rs + [row];
    assert rs'[..|rs'| - 1] == rs;
    var ps := Parents(rs);
    assert Parents(rs') == ps + [row.parent];
    assert (ps + [row.parent])[..|ps|] == ps;
    DedupProperties(ps);
    assert row.parent in ps;
    assert Dedup(Parents(rs')) == Dedup(ps);
    var merged' := merged[j := MergedRow(row.parent, merged[j].children + [row.child])];
    forall k | 0 <= k < |merged'|
      ensures merged'[k].children == ChildrenOf(rs', merged'[k].parent)
    {
      if k != j {
        assert merged[k].parent != merged[j].parent;
      }
    }
  }

  lemma MergeNew<P>(rs: seq<SelectedRow<P>>, row: SelectedRow<P>, merged: seq<MergedRow<P>>)
    requires MergedSoFar(rs, merged)
    requires forall k :: 0 <= k < |merged| ==> merged[k].parent != row.parent
    ensures MergedSoFar(rs + [row], merged + [MergedRow(row.parent, [row.child])])
  {
    var rs' := rs + [row];
    assert rs'[..|rs'| - 1] == rs;
    var ps := Parents(rs);
    assert Parents(rs') == ps + [row.parent];
    assert (ps + [row.parent])[..|ps|] == ps;
    DedupProperties(ps);
    assert row.parent !in Dedup(ps);
    assert row.parent !in ps;
    ChildrenOfAbsent(rs, row.parent);
    assert Dedup(Parents(rs')) == Dedup(ps) + [row.parent];
  }

  /** The second reducer of `handleSubmit`: one entry per distinct parent,
      in order of first appearance, holding the `child` of each of its rows
      in order. Every entry's `child` is created as an array, so the branch
      for a non-array `child` is never taken. */
  method MergeRows<P>(rows: seq<SelectedRow<P>>) returns (merged: seq<MergedRow<P>>)
    ensures |merged| == |Dedup(Parents(rows))|
    ensures forall k :: 0 <= k < |merged| ==> merged[k].parent == Dedup(Parents(rows))[k]
    ensures forall k :: 0 <= k < |merged| ==> merged[k].children == ChildrenOf(rows, merged[k].parent)
  {
    merged := [];
    var i := 0;
    while i < |rows|
      invariant 0 <= i <= |rows|
      invariant MergedSoFar(rows[..i], merged)
    {
      var row := rows[i];
      assert rows[..i + 1] == rows[..i] + [row];
      var found := FindParent(merged, (m: MergedRow<P>) => m.parent, row.parent);
      if found.Some? {
        var j := found.value;
        MergeExisting(rows[..i], row, merged, j);
        merged := merged[j := MergedRow(row.parent, merged[j].children + [row.child])];
      } else {
        MergeNew(rows[..i], row, merged);
        merged := merged + [MergedRow(row.parent, [row.child])];
      }
      i := i + 1;
    }
    assert rows[..i] == rows;
  }

  /** The merged parents are distinct and are exactly the rows' parents. */
  lemma MergedParentsDistinct<P>(rows: seq<SelectedRow<P>>, x: Json)
    ensures x in Dedup(Parents(rows)) <==> exists k :: 0 <= k < |rows| && rows[k].parent == x
    ensures forall k, l :: 0 <= k < l < |Dedup(Parents(rows))| ==> Dedup(Parents(rows))[k] != Dedup(Parents(rows))[l]
  {
    DedupProperties(Parents(rows));
    ParentsMembers(rows, x);
  }

  /** `selectedRows.map((item) => item.child)` */
  function ChildValues<P>(rows: seq<SelectedRow<P>>): (r: seq<RowChild<P>>)
    ensures |r| == |rows|
    ensures forall k :: 0 <= k < |rows| ==> r[k] == rows[k].child
  {
    if rows == [] then [] else [rows[0].child] + ChildValues(rows[1..])
  }
}
