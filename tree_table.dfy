/** The tree-table helpers that the three firewall tree screens
    (`LegacyTableTree`, `LegacyTableTree1`, `LegacyTableTree2`) define
    identically: leaf collection, the tri-state check box, the selection and
    expansion updates of a row, pre-order row numbering and paging. */
module TreeTable {
  import opened Js

  /** A node of the tree. A `Leaf` has no `children` property; a `Folder`
      has a `children` array, which may be empty. `fields` are the node's
      other properties. Names are compared as `===` and `includes` do. */
  datatype Node =
    | Leaf(name: Json, fields: seq<Field>)
    | Folder(name: Json, fields: seq<Field>, children: seq<Node>)

  /** `!node.children || !node.children.length` */
  predicate NoChildren(n: Node) {
    n.Leaf? || n.children == []
  }

  // ------------------------------------------------------------ descendants

  /** `getDescendants`: a node without children stands for itself; any
      other node for the descendants of its children, in order. */
  function Descendants(n: Node): (r: seq<Node>)
    ensures |r| >= 1
    ensures forall i :: 0 <= i < |r| ==> NoChildren(r[i])
    ensures NoChildren(n) ==> r == [n]
  {
    if NoChildren(n) then [n] else DescendantsOf(n.children)
  }

  /** The concatenation of the descendants of `ns`. */
  function DescendantsOf(ns: seq<Node>): (r: seq<Node>)
    ensures |r| >= |ns|
    ensures forall i :: 0 <= i < |r| ==> NoChildren(r[i])
  {
    if ns == [] then [] else Descendants(ns[0]) + DescendantsOf(ns[1..])
  }

  /** Reference definition: `m` is a childless node reached from `n` by
      following children. */
  ghost predicate LeafOf(n: Node, m: Node) {
    if NoChildren(n) then m == n
    else exists i :: 0 <= i < |n.children| && LeafOf(n.children[i], m)
  }

  /** The descendants are exactly the childless nodes under `n`. */
  lemma {:induction false} DescendantsAreLeaves(n: Node, m: Node)
    ensures m in Descendants(n) <==> LeafOf(n, m)
    decreases n, 1
  {
    if !NoChildren(n) {
      DescendantsOfAreLeaves(n.children, m);
    }
  }

  lemma {:induction false} DescendantsOfAreLeaves(ns: seq<Node>, m: Node)
    ensures m in DescendantsOf(ns) <==> exists i :: 0 <= i < |ns| && LeafOf(ns[i], m)
    decreases ns, 0
  {
    if ns != [] {
      DescendantsAreLeaves(ns[0], m);
      DescendantsOfAreLeaves(ns[1..], m);
      if m in DescendantsOf(ns[1..]) {
        var i :| 0 <= i < |ns[1..]| && LeafOf(ns[1..][i], m);
        assert LeafOf(ns[i + 1], m);
      }
      if exists i :: 0 <= i < |ns| && LeafOf(ns[i], m) {
        var i :| 0 <= i < |ns| && LeafOf(ns[i], m);
        if i > 0 {
          assert ns[1..][i - 1] == ns[i];
        }
      }
    }
  }

  // --------------------------------------------------------- check box

  /** The check box state: `true`, `null` and `false` in the screens. */
  datatype Check = Checked | Indeterminate | Unchecked

  /** `areAllDescendantsSelected` / `areSomeDescendantsSelected` on a list
      of descendants. */
  predicate AllSelected(ds: seq<Node>, selected: seq<Json>) {
    forall i :: 0 <= i < |ds| ==> ds[i].name in selected
  }

  predicate SomeSelected(ds: seq<Node>, selected: seq<Json>) {
    exists i :: 0 <= i < |ds| && ds[i].name in selected
  }

  /** `isNodeChecked` */
  function IsNodeChecked(n: Node, selected: seq<Json>): Check {
    var ds := Descendants(n);
    if AllSelected(ds, selected) then Checked
    else if SomeSelected(ds, selected) then Indeterminate
    else Unchecked
  }

  /** The three states against the leaves under the node: all selected,
      some but not all, none. */
  lemma NodeCheckedExactly(n: Node, selected: seq<Json>)
    ensures IsNodeChecked(n, selected) == Checked <==>
      forall m :: LeafOf(n, m) ==> m.name in selected
    ensures IsNodeChecked(n, selected) == Unchecked <==>
      forall m :: LeafOf(n, m) ==> m.name !in selected
    ensures IsNodeChecked(n, selected) == Indeterminate <==>
      (exists m :: LeafOf(n, m) && m.name in selected) && (exists m :: LeafOf(n, m) && m.name !in selected)
  {
    var ds := Descendants(n);
    forall m {
      DescendantsAreLeaves(n, m);
    }
    assert LeafOf(n, ds[0]);
  }

  // ------------------------------------------------------- selection

  /** `s.filter((x) => !drop.includes(x))` */
  function Without(s: seq<Json>, drop: seq<Json>): (r: seq<Json>)
    ensures |r| <= |s|
    ensures forall x :: x in r <==> x in s && x !in drop
  {
    if s == [] then []
    else (if s[0] in drop then [] else [s[0]]) + Without(s[1..], drop)
  }

  /** The filter keeps the relative order of what it keeps. */
  lemma {:induction false} WithoutAppend(a: seq<Json>, b: seq<Json>, drop: seq<Json>)
    ensures Without(a + b, drop) == Without(a, drop) + Without(b, drop)
    decreases |a|
  {
    if a == [] {
      assert a + b == b;
    } else {
      var head := if a[0] in drop then [] else [a[0]];
      assert (a + b)[0] == a[0];
      assert (a + b)[1..] == a[1..] + b;
      calc {
        Without(a + b, drop);
        head + Without(a[1..] + b, drop);
        { WithoutAppend(a[1..], b, drop); }
        head + (Without(a[1..], drop) + Without(b, drop));
        (head + Without(a[1..], drop)) + Without(b, drop);
      }
    }
  }

  /** Filtering out what does not occur changes nothing. */
  lemma {:induction false} WithoutNothing(s: seq<Json>, drop: seq<Json>)
    requires forall i :: 0 <= i < |s| ==> s[i] !in drop
    ensures Without(s, drop) == s
    decreases |s|
  {
    if s != [] {
      WithoutNothing(s[1..], drop);
    }
  }

  /** The names of a list of nodes, in order. */
  function Names(ns: seq<Node>): (r: seq<Json>)
    ensures |r| == |ns|
    ensures forall i :: 0 <= i < |ns| ==> r[i] == ns[i].name
  {
    if ns == [] then [] else [ns[0].name] + Names(ns[1..])
  }

  /** The leaf names under `n`: `getDescendants(node).map((n) => n.name)`. */
  function LeafNames(n: Node): seq<Json> {
    Names(Descendants(n))
  }

  /** `onCheckChange`: the previous selection without the subtree's leaf
      names, followed by those names when checking. */
  function OnCheckChange(n: Node, selected: seq<Json>, checking: bool): seq<Json> {
    var names := LeafNames(n);
    var others := Without(selected, names);
    if checking then others + names else others
  }

  /** Checking a node checks it fully; unchecking clears it. */
  lemma CheckChangeDecides(n: Node, selected: seq<Json>)
    ensures IsNodeChecked(n, OnCheckChange(n, selected, true)) == Checked
    ensures IsNodeChecked(n, OnCheckChange(n, selected, false)) == Unchecked
  {
    var ds := Descendants(n);
    var names := LeafNames(n);
    assert forall i :: 0 <= i < |ds| ==> ds[i].name == names[i];
    assert forall i :: 0 <= i < |ds| ==> ds[i].name in names;
    var cleared := OnCheckChange(n, selected, false);
    assert forall i :: 0 <= i < |ds| ==> ds[i].name !in cleared;
    assert ds[0].name !in cleared;
  }

  /** Names outside the subtree keep their membership and their relative
      order; the subtree's names come last, once each, when checking. */
  lemma CheckChangeKeepsOthers(n: Node, selected: seq<Json>, checking: bool)
    ensures Without(OnCheckChange(n, selected, checking), LeafNames(n)) == Without(selected, LeafNames(n))
    ensures forall x :: x !in LeafNames(n) ==>
      (x in OnCheckChange(n, selected, checking) <==> x in selected)
    ensures checking ==> forall x :: x in LeafNames(n) ==>
      multiset(OnCheckChange(n, selected, true))[x] == multiset(LeafNames(n))[x]
  {
    var names := LeafNames(n);
    var others := Without(selected, names);
    WithoutNothing(others, names);
    if checking {
      WithoutAppend(others, names, names);
      assert forall i :: 0 <= i < |names| ==> names[i] in names;
      assert Without(names, names) == [] by {
        WithoutIsEmpty(names, names);
      }
      assert others + [] == others;
      forall x | x in names
        ensures multiset(others + names)[x] == multiset(names)[x]
      {
        assert x !in multiset(others);
      }
    }
  }

  lemma {:induction false} WithoutIsEmpty(s: seq<Json>, drop: seq<Json>)
    requires forall i :: 0 <= i < |s| ==> s[i] in drop
    ensures Without(s, drop) == []
    decreases |s|
  {
    if s != [] {
      WithoutIsEmpty(s[1..], drop);
    }
  }

  /** A node whose leaves share no name with the changed subtree keeps its
      check box state. */
  lemma CheckChangeLeavesOthers(n: Node, m: Node, selected: seq<Json>, checking: bool)
    requires forall i :: 0 <= i < |Descendants(m)| ==> Descendants(m)[i].name !in LeafNames(n)
    ensures IsNodeChecked(m, OnCheckChange(n, selected, checking)) == IsNodeChecked(m, selected)
  {
    CheckChangeKeepsOthers(n, selected, checking);
  }

  // ------------------------------------------------------- expansion

  /** `onCollapse`: the one expanded name (`null` for none) is toggled. */
  function OnCollapse(expanded: Json, name: Json): Json {
    if expanded == name then Null else name
  }

  /** A named node becomes expanded exactly when it was not, and every
      other node is then collapsed: at most one node is expanded. */
  lemma CollapseToggles(expanded: Json, name: Json, other: Json)
    requires name != Null
    ensures OnCollapse(expanded, name) == name <==> expanded != name
    ensures other != name ==> OnCollapse(expanded, name) != other || other == Null
  {
  }

  // --------------------------------------------------- row details

  /** An entry of `expandedDetailsNodeNames` as `onToggleRowDetails`
      fills it: a name, or the node object itself. */
  datatype DetailEntry = NameEntry(name: Json) | NodeEntry(node: Node)

  /** `prev.filter((name) => name !== node.name)`: a node object is never
      `===` to a name. */
  function OtherEntries(prev: seq<DetailEntry>, name: Json): (r: seq<DetailEntry>)
    ensures NameEntry(name) !in r
    ensures forall e :: e != NameEntry(name) ==> (e in r <==> e in prev)
  {
    if prev == [] then []
    else (if prev[0] == NameEntry(name) then [] else [prev[0]]) + OtherEntries(prev[1..], name)
  }

  /** `onToggleRowDetails` as written: it tests for the node's name but
      appends the node object. */
  function ToggleDetailsAsWritten(prev: seq<DetailEntry>, n: Node): seq<DetailEntry> {
    var isDetailsExpanded := NameEntry(n.name) in prev;
    var others := OtherEntries(prev, n.name);
    if isDetailsExpanded then others else others + [NodeEntry(n)]
  }

  /** From the initial empty list no name ever enters the list, so the
      details of a node never show as expanded and every toggle only grows
      the list. */
  lemma AsWrittenNeverExpands(prev: seq<DetailEntry>, n: Node)
    requires forall i :: 0 <= i < |prev| ==> prev[i].NodeEntry?
    ensures ToggleDetailsAsWritten(prev, n) == prev + [NodeEntry(n)]
    ensures NameEntry(n.name) !in ToggleDetailsAsWritten(prev, n)
  {
    OtherEntriesKeepsNodes(prev, n.name);
  }

  lemma {:induction false} OtherEntriesKeepsNodes(prev: seq<DetailEntry>, name: Json)
    requires forall i :: 0 <= i < |prev| ==> prev[i].NodeEntry?
    ensures OtherEntries(prev, name) == prev
    decreases |prev|
  {
    if prev != [] {
      OtherEntriesKeepsNodes(prev[1..], name);
    }
  }

  /** Toggling a node twice leaves two copies of the node and no name. */
  lemma ToggleTwiceAsWritten(n: Node)
    ensures ToggleDetailsAsWritten(ToggleDetailsAsWritten([], n), n) == [NodeEntry(n), NodeEntry(n)]
  {
    AsWrittenNeverExpands([], n);
    assert [] + [NodeEntry(n)] == [NodeEntry(n)];
    AsWrittenNeverExpands([NodeEntry(n)], n);
  }

  /** The evidently intended toggle, on names. */
  function ToggleDetails(prev: seq<Json>, name: Json): (r: seq<Json>)
    ensures name in r <==> name !in prev
    ensures forall x :: x != name ==> (x in r <==> x in prev)
  {
    var others := Without(prev, [name]);
    if name in prev then others else others + [name]
  }

  /** Opening and closing the details of a node restores the list. */
  lemma ToggleDetailsTwice(prev: seq<Json>, name: Json)
    requires name !in prev
    ensures ToggleDetails(ToggleDetails(prev, name), name) == prev
  {
    WithoutNothing(prev, [name]);
    var once := prev + [name];
    assert ToggleDetails(prev, name) == once;
    WithoutAppend(prev, [name], [name]);
    assert Without([name], [name]) == [];
  }

  // ------------------------------------------------------------ rows

  datatype Icon = LeafIcon | FolderIcon | FolderOpenIcon

  /** The props of one rendered tree row. */
  datatype Row = Row(
    name: Json,
    level: nat,
    posinset: nat,
    rowIndex: nat,
    hidden: bool,
    expanded: bool,
    detailsExpanded: bool,
    setsize: nat,
    checked: Check,
    icon: Icon)

  /** The screen state `renderRows` reads: the expanded name, the names
      whose details are open and the selected names. */
  datatype View = View(expanded: Json, details: seq<Json>, selected: seq<Json>)

  /** The number of nodes of a forest, each counted once. */
  function Size(ns: seq<Node>): nat {
    if ns == [] then 0
    else 1 + (if ns[0].Folder? then Size(ns[0].children) else 0) + Size(ns[1..])
  }

  /** The rows below a node: `node.children && node.children.length`. */
  function ChildCount(n: Node): nat {
    if n.Folder? then Size(n.children) else 0
  }

  /** `renderRows`: a row for the first node, then the rows of its
      children one level down (hidden unless it is expanded and visible),
      then the rows of its siblings, numbered on from there. */
  function RenderRows(ns: seq<Node>, level: nat, posinset: nat, rowIndex: nat, hidden: bool, v: View): (rows: seq<Row>)
    ensures |rows| == Size(ns)
    decreases ns, 1
  {
    if ns == [] then []
    else
      var childRows := ChildRows(ns[0], level, rowIndex, hidden, v);
      [RowOf(ns[0], level, posinset, rowIndex, hidden, v)] + childRows
        + RenderRows(ns[1..], level, posinset + 1, rowIndex + 1 + |childRows|, hidden, v)
  }

  /** The rows of the children of `n`, one level down from `n`'s row:
      hidden unless `n` is expanded and visible. */
  function ChildRows(n: Node, level: nat, rowIndex: nat, hidden: bool, v: View): (rows: seq<Row>)
    ensures |rows| == ChildCount(n)
    decreases n, 0
  {
    if n.Folder? && n.children != []
    then RenderRows(n.children, level + 1, 1, rowIndex + 1, v.expanded != n.name || hidden, v)
    else []
  }

  /** The props of the row of node `n`. */
  function RowOf(n: Node, level: nat, posinset: nat, rowIndex: nat, hidden: bool, v: View): (row: Row)
    ensures row.name == n.name && row.level == level && row.posinset == posinset
    ensures row.rowIndex == rowIndex && row.hidden == hidden
  {
    var isExpanded := v.expanded == n.name;
    var icon := if n.Leaf? then LeafIcon else if isExpanded then FolderOpenIcon else FolderIcon;
    Row(n.name, level, posinset, rowIndex, hidden, isExpanded, n.name in v.details,
        if n.Folder? then |n.children| else 0, IsNodeChecked(n, v.selected), icon)
  }

  /** Rows numbered consecutively from `rowIndex`, none above `level`,
      the rows at `level` itself hidden exactly when the list is, and
      everything under a hidden list hidden. */
  ghost predicate Numbered(rows: seq<Row>, level: nat, rowIndex: nat, hidden: bool) {
    forall k :: 0 <= k < |rows| ==>
      && rows[k].rowIndex == rowIndex + k
      && rows[k].level >= level
      && (rows[k].level == level ==> rows[k].hidden == hidden)
      && (hidden ==> rows[k].hidden)
  }

  lemma RenderRowsUnfold(ns: seq<Node>, level: nat, posinset: nat, rowIndex: nat, hidden: bool, v: View)
    requires ns != []
    ensures var c := ChildRows(ns[0], level, rowIndex, hidden, v);
      RenderRows(ns, level, posinset, rowIndex, hidden, v) == [RowOf(ns[0], level, posinset, rowIndex, hidden, v)] + c + RenderRows(ns[1..], level, posinset + 1, rowIndex + 1 + |c|, hidden, v)
  {
  }

  /** A row at `level`, rows one level down hidden at least when it is,
      then rows at `level` again, all numbered on, are `Numbered`. */
  lemma NumberedConcat(r: Row, c: seq<Row>, rest: seq<Row>, level: nat, rowIndex: nat, hidden: bool, childHidden: bool)
    requires r.rowIndex == rowIndex && r.level == level && r.hidden == hidden
    requires hidden ==> childHidden
    requires Numbered(c, level + 1, rowIndex + 1, childHidden)
    requires Numbered(rest, level, rowIndex + 1 + |c|, hidden)
    ensures Numbered([r] + c + rest, level, rowIndex, hidden)
  {
    var rows := [r] + c + rest;
    forall k | 0 <= k < |rows|
      ensures rows[k].rowIndex == rowIndex + k && rows[k].level >= level
      ensures rows[k].level == level ==> rows[k].hidden == hidden
      ensures hidden ==> rows[k].hidden
    {
      if k == 0 {
      } else if k < 1 + |c| {
        assert rows[k] == c[k - 1];
      } else {
        assert rows[k] == rest[k - 1 - |c|];
      }
    }
  }

  /** The rows of a list are `Numbered` from where the list starts. */
  lemma {:induction false} RowNumbering(ns: seq<Node>, level: nat, posinset: nat, rowIndex: nat, hidden: bool, v: View)
    ensures Numbered(RenderRows(ns, level, posinset, rowIndex, hidden, v), level, rowIndex, hidden)
    decreases ns, 1
  {
    if ns != [] {
      RenderRowsUnfold(ns, level, posinset, rowIndex, hidden, v);
      ChildNumbering(ns[0], level, rowIndex, hidden, v);
      var c := ChildRows(ns[0], level, rowIndex, hidden, v);
      RowNumbering(ns[1..], level, posinset + 1, rowIndex + 1 + |c|, hidden, v);
      NumberedConcat(RowOf(ns[0], level, posinset, rowIndex, hidden, v), c,
        RenderRows(ns[1..], level, posinset + 1, rowIndex + 1 + |c|, hidden, v),
        level, rowIndex, hidden, v.expanded != ns[0].name || hidden);
    }
  }

  /** The rows under a node are one level down, numbered on from its row,
      and hidden unless it is expanded and visible. */
  lemma {:induction false} ChildNumbering(n: Node, level: nat, rowIndex: nat, hidden: bool, v: View)
    ensures Numbered(ChildRows(n, level, rowIndex, hidden, v), level + 1, rowIndex + 1, v.expanded != n.name || hidden)
    decreases n, 0
  {
    if n.Folder? && n.children != [] {
      RowNumbering(n.children, level + 1, 1, rowIndex + 1, v.expanded != n.name || hidden, v);
    }
  }

  /** Reference order: every node, then its subtree, then its siblings. */
  function PreOrder(ns: seq<Node>): seq<Node>
    decreases ns, 1
  {
    if ns == [] then [] else [ns[0]] + Below(ns[0]) + PreOrder(ns[1..])
  }

  /** The nodes under `n`, in pre-order. */
  function Below(n: Node): seq<Node>
    decreases n, 0
  {
    if n.Folder? then PreOrder(n.children) else []
  }

  /** The names shown by a list of rows. */
  function RowNames(rows: seq<Row>): seq<Json> {
    if rows == [] then [] else [rows[0].name] + RowNames(rows[1..])
  }

  lemma {:induction false} NamesAppend(a: seq<Node>, b: seq<Node>)
    ensures Names(a + b) == Names(a) + Names(b)
    decreases |a|
  {
    if a == [] {
      assert a + b == b;
    } else {
      assert (a + b)[1..] == a[1..] + b;
      NamesAppend(a[1..], b);
    }
  }

  lemma {:induction false} RowNamesAppend(a: seq<Row>, b: seq<Row>)
    ensures RowNames(a + b) == RowNames(a) + RowNames(b)
    decreases |a|
  {
    if a == [] {
      assert a + b == b;
    } else {
      assert (a + b)[1..] == a[1..] + b;
      RowNamesAppend(a[1..], b);
    }
  }

  /** The rows list the nodes in pre-order, one row per node. */
  lemma {:induction false} RowsInPreOrder(ns: seq<Node>, level: nat, posinset: nat, rowIndex: nat, hidden: bool, v: View)
    ensures RowNames(RenderRows(ns, level, posinset, rowIndex, hidden, v)) == Names(PreOrder(ns))
    decreases ns, 1
  {
    if ns != [] {
      var n := ns[0];
      RenderRowsUnfold(ns, level, posinset, rowIndex, hidden, v);
      var row := RowOf(n, level, posinset, rowIndex, hidden, v);
      var c := ChildRows(n, level, rowIndex, hidden, v);
      var rest := RenderRows(ns[1..], level, posinset + 1, rowIndex + 1 + |c|, hidden, v);
      ChildrenInPreOrder(n, level, rowIndex, hidden, v);
      RowsInPreOrder(ns[1..], level, posinset + 1, rowIndex + 1 + |c|, hidden, v);
      RowNamesAppend([row] + c, rest);
      RowNamesAppend([row], c);
      NamesAppend([n] + Below(n), PreOrder(ns[1..]));
      NamesAppend([n], Below(n));
      assert RowNames([row]) == [n.name] == Names([n]);
      calc {
        RowNames(RenderRows(ns, level, posinset, rowIndex, hidden, v));
        RowNames([row] + c + rest);
        RowNames([row]) + RowNames(c) + RowNames(rest);
        Names([n]) + Names(Below(n)) + Names(PreOrder(ns[1..]));
        Names([n] + Below(n) + PreOrder(ns[1..]));
        Names(PreOrder(ns));
      }
    }
  }

  /** The rows under a node list the nodes under it in pre-order. */
  lemma {:induction false} ChildrenInPreOrder(n: Node, level: nat, rowIndex: nat, hidden: bool, v: View)
    ensures RowNames(ChildRows(n, level, rowIndex, hidden, v)) == Names(Below(n))
    decreases n, 0
  {
    if n.Folder? && n.children != [] {
      RowsInPreOrder(n.children, level + 1, 1, rowIndex + 1, v.expanded != n.name || hidden, v);
    }
  }

  /** Whether the `checkboxId` prop can be built from a node's name:
      `node?.name?.toLowerCase()` (LegacyTableTree.js) accepts a string or
      a missing name, `node.name.toLowerCase()` (the other two screens)
      only a string. Any other name has no `toLowerCase` to call. */
  predicate CheckboxIdBuilds(name: Json, optional: bool) {
    name.Str? || (optional && Nullish(name))
  }

  lemma {:induction false} RowNamesAt(rows: seq<Row>)
    ensures |RowNames(rows)| == |rows|
    ensures forall i :: 0 <= i < |rows| ==> RowNames(rows)[i] == rows[i].name
  {
    if rows != [] {
      RowNamesAt(rows[1..]);
    }
  }

  /** `renderRows` together with its `checkboxId` prop: the rows of
      `RenderRows`, or a throw when some node, at any depth, has a name
      the prop cannot be built from. */
  function RenderChecked(ns: seq<Node>, level: nat, posinset: nat, rowIndex: nat, hidden: bool, v: View, optional: bool)
    : (r: Completion<seq<Row>>)
    ensures r.Normal? ==> r.value == RenderRows(ns, level, posinset, rowIndex, hidden, v)
    ensures r.Threw? <==>
      exists k :: 0 <= k < |PreOrder(ns)| && !CheckboxIdBuilds(PreOrder(ns)[k].name, optional)
  {
    var rows := RenderRows(ns, level, posinset, rowIndex, hidden, v);
    RowsInPreOrder(ns, level, posinset, rowIndex, hidden, v);
    RowNamesAt(rows);
    if forall k :: 0 <= k < |rows| ==> CheckboxIdBuilds(rows[k].name, optional) then Normal(rows)
    else Threw
  }

  /** A leaf without a name renders in LegacyTableTree.js and throws in
      the other two screens; a leaf named by a number throws in all three. */
  lemma NameKindsRender(name: Json, level: nat, rowIndex: nat, v: View)
    requires Nullish(name)
    ensures RenderChecked([Leaf(name, [])], level, 1, rowIndex, false, v, true).Normal?
    ensures RenderChecked([Leaf(name, [])], level, 1, rowIndex, false, v, false).Threw?
    ensures RenderChecked([Leaf(Num(0), [])], level, 1, rowIndex, false, v, true).Threw?
  {
    assert PreOrder([Leaf(name, [])]) == [Leaf(name, [])] by {
      assert [Leaf(name, [])][1..] == [];
    }
    assert PreOrder([Leaf(Num(0), [])]) == [Leaf(Num(0), [])] by {
      assert [Leaf(Num(0), [])][1..] == [];
    }
  }

  /** The shape `renderRows` promises around one node: its row is first,
      its children start one level down at position 1 (hidden iff it is
      collapsed or hidden itself), and the next sibling's row comes after
      the whole subtree, one position further on. */
  lemma SiblingRows(ns: seq<Node>, level: nat, posinset: nat, rowIndex: nat, hidden: bool, v: View)
    requires |ns| >= 1
    ensures var rows := RenderRows(ns, level, posinset, rowIndex, hidden, v);
      var c := ChildCount(ns[0]);
      && rows[0].name == ns[0].name && rows[0].level == level && rows[0].posinset == posinset
      && rows[0].rowIndex == rowIndex && rows[0].hidden == hidden
      && (c > 0 ==> rows[1].name == ns[0].children[0].name && rows[1].level == level + 1
                    && rows[1].posinset == 1
                    && rows[1].hidden == (v.expanded != ns[0].name || hidden))
      && (c > 0 && (v.expanded != ns[0].name || hidden) ==> forall k :: 1 <= k <= c ==> rows[k].hidden)
      && (|ns| >= 2 ==> rows[1 + c].name == ns[1].name && rows[1 + c].level == level
                        && rows[1 + c].posinset == posinset + 1 && rows[1 + c].rowIndex == rowIndex + 1 + c)
  {
    var n := ns[0];
    var childHidden := v.expanded != n.name || hidden;
    var rows := RenderRows(ns, level, posinset, rowIndex, hidden, v);
    RowAt(ns, level, posinset, rowIndex, hidden, v, 0);
    if ChildCount(n) > 0 {
      var c := ChildRows(n, level, rowIndex, hidden, v);
      ChildNumbering(n, level, rowIndex, hidden, v);
      RowAt(n.children, level + 1, 1, rowIndex + 1, childHidden, v, 0);
      forall k | 1 <= k <= ChildCount(n)
        ensures rows[k] == c[k - 1]
      {
        RowAt(ns, level, posinset, rowIndex, hidden, v, k);
      }
    }
    if |ns| >= 2 {
      RowAt(ns, level, posinset, rowIndex, hidden, v, 1 + ChildCount(n));
      RowAt(ns[1..], level, posinset + 1, rowIndex + 1 + ChildCount(n), hidden, v, 0);
    }
  }

  /** Row `k` of a non-empty list: the first node's row, one of its
      children's rows, or one of its siblings' rows. */
  lemma RowAt(ns: seq<Node>, level: nat, posinset: nat, rowIndex: nat, hidden: bool, v: View, k: nat)
    requires ns != [] && k < Size(ns)
    ensures var rows := RenderRows(ns, level, posinset, rowIndex, hidden, v);
      var c := ChildRows(ns[0], level, rowIndex, hidden, v);
      rows[k] == if k == 0 then RowOf(ns[0], level, posinset, rowIndex, hidden, v)
        else if k <= |c| then c[k - 1]
        else RenderRows(ns[1..], level, posinset + 1, rowIndex + 1 + |c|, hidden, v)[k - 1 - |c|]
  {
    RenderRowsUnfold(ns, level, posinset, rowIndex, hidden, v);
  }

  // ------------------------------------------------------------ paging

  const PageSize := 10

  /** `data.slice(startIndex, endIndex)` for the current page. */
  function Page<T>(data: seq<T>, page: int): (r: seq<T>)
    ensures |r| <= PageSize
  {
    Slice(data, (page - 1) * PageSize, (page - 1) * PageSize + PageSize)
  }

  /** Page `p` holds `data[(p - 1) * 10 .. p * 10)`, cut at the end of the
      data. */
  lemma PageContents<T>(data: seq<T>, page: int)
    requires page >= 1
    ensures (page - 1) * PageSize >= |data| ==> Page(data, page) == []
    ensures page * PageSize <= |data| ==> Page(data, page) == data[(page - 1) * PageSize .. page * PageSize]
    ensures (page - 1) * PageSize < |data| < page * PageSize ==>
      Page(data, page) == data[(page - 1) * PageSize ..]
  {
  }

  /** Every item is on exactly the page its index says. */
  lemma ItemOnItsPage<T>(data: seq<T>, i: nat)
    requires i < |data|
    ensures i % PageSize < |Page(data, i / PageSize + 1)|
    ensures Page(data, i / PageSize + 1)[i % PageSize] == data[i]
  {
    PageContents(data, i / PageSize + 1);
  }
}
