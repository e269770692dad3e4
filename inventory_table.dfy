/** The firewall-upgrade screen `InventoryTable`: a flat table of the
    hosts of the chosen inventory with one check box per host, shift-click
    range selection, a header check box, and a submit button that launches
    job template 11. */
module InventoryTable {
  import opened Js
  import opened TreeTable

  /** The job template the upgrade is launched from. */
  const UpgradeTemplate := 11

  predicate Distinct(s: seq<Json>) {
    forall i, j :: 0 <= i < j < |s| ==> s[i] != s[j]
  }

  // ------------------------------------------------------- selection

  /** The updater `setRepoSelected(repo, isSelecting)` hands to the state
      hook: drop every copy of `repo`, then append it when selecting. */
  function SetRepoSelected(prev: seq<Json>, repo: Json, isSelecting: bool): (r: seq<Json>)
    ensures repo in r <==> isSelecting
    ensures forall x :: x != repo ==> (x in r <==> x in prev)
    ensures isSelecting ==> |r| > 0 && r[|r| - 1] == repo
    ensures |r| <= |prev| + 1
  {
    var others := Without(prev, [repo]);
    if isSelecting then others + [repo] else others
  }

  lemma {:induction false} WithoutKeepsDistinct(s: seq<Json>, drop: seq<Json>)
    requires Distinct(s)
    ensures Distinct(Without(s, drop))
    decreases |s|
  {
    if s != [] {
      WithoutKeepsDistinct(s[1..], drop);
      var rest := Without(s[1..], drop);
      assert s[0] !in s[1..] by {
        forall j | 0 <= j < |s[1..]|
          ensures s[1..][j] != s[0]
        {
          assert s[1..][j] == s[j + 1];
        }
      }
    }
  }

  /** A selection built by the updater never holds a host twice. */
  lemma SetRepoSelectedKeepsDistinct(prev: seq<Json>, repo: Json, isSelecting: bool)
    requires Distinct(prev)
    ensures Distinct(SetRepoSelected(prev, repo, isSelecting))
  {
    WithoutKeepsDistinct(prev, [repo]);
  }

  /** Selecting (or deselecting) the same host twice is the same as once. */
  lemma SetRepoSelectedIdempotent(prev: seq<Json>, repo: Json, isSelecting: bool)
    ensures SetRepoSelected(SetRepoSelected(prev, repo, isSelecting), repo, isSelecting)
         == SetRepoSelected(prev, repo, isSelecting)
  {
    var others := Without(prev, [repo]);
    WithoutNothing(others, [repo]);
    if isSelecting {
      WithoutAppend(others, [repo], [repo]);
      assert Without([repo], [repo]) == [];
      assert others + [] == others;
    }
  }

  /** `selectedRepoNames.includes(repo)` */
  predicate IsRepoSelected(selected: seq<Json>, repo: Json) {
    repo in selected
  }

  /** `gethostname[index]`: `undefined` outside the list. */
  function HostAt(hosts: seq<Json>, index: int): (r: Json)
    ensures 0 <= index < |hosts| ==> r == hosts[index]
    ensures !(0 <= index < |hosts|) ==> r == Undefined
  {
    if 0 <= index < |hosts| then hosts[index] else Undefined
  }

  /** The indexes a shift-click covers: from the smaller of the two rows to
      the larger, both included. */
  function Between(recent: int, rowIndex: int): (r: seq<int>)
    ensures |r| == (if recent <= rowIndex then rowIndex - recent else recent - rowIndex) + 1
    ensures forall k :: 0 <= k < |r| ==> r[k] == (if recent <= rowIndex then recent else rowIndex) + k
    ensures recent in r && rowIndex in r
  {
    var lo := if recent <= rowIndex then recent else rowIndex;
    var hi := if recent <= rowIndex then rowIndex else recent;
    var r := seq(hi - lo + 1, k => lo + k);
    assert r[recent - lo] == recent && r[rowIndex - lo] == rowIndex;
    r
  }

  /** The selection after `setRepoSelected(gethostname[index], isSelecting)`
      for each index in turn. */
  function SelectIndexes(prev: seq<Json>, hosts: seq<Json>, indexes: seq<int>, isSelecting: bool): (r: seq<Json>)
    ensures forall k :: 0 <= k < |indexes| ==> (HostAt(hosts, indexes[k]) in r <==> isSelecting)
    ensures forall x :: x !in prev && x in r ==> exists k :: 0 <= k < |indexes| && HostAt(hosts, indexes[k]) == x
    ensures forall x :: x in prev && x !in r ==> exists k :: 0 <= k < |indexes| && HostAt(hosts, indexes[k]) == x
  {
    if indexes == [] then prev
    else
      var init := indexes[..|indexes| - 1];
      var before := SelectIndexes(prev, hosts, init, isSelecting);
      var r := SetRepoSelected(before, HostAt(hosts, indexes[|indexes| - 1]), isSelecting);
      assert forall k :: 0 <= k < |init| ==> indexes[k] == init[k];
      r
  }

  /** The `forEach` over the intermediate indexes, each step one call of
      the updater. */
  method SelectRange(prev: seq<Json>, hosts: seq<Json>, indexes: seq<int>, isSelecting: bool) returns (selected: seq<Json>)
    ensures selected == SelectIndexes(prev, hosts, indexes, isSelecting)
  {
    selected := prev;
    var k := 0;
    while k < |indexes|
      invariant 0 <= k <= |indexes|
      invariant selected == SelectIndexes(prev, hosts, indexes[..k], isSelecting)
    {
      assert indexes[..k + 1][..k] == indexes[..k];
      selected := SetRepoSelected(selected, HostAt(hosts, indexes[k]), isSelecting);
      k := k + 1;
    }
    assert indexes[..k] == indexes;
  }

  // ---------------------------------------------------- header box

  /** `areAllReposSelected` as written: the two lists have equal length. */
  predicate AreAllReposSelectedAsWritten(selected: seq<Json>, hosts: seq<Json>) {
    |selected| == |hosts|
  }

  /** What the header check box is meant to show: every host is selected. */
  predicate AreAllReposSelected(selected: seq<Json>, hosts: seq<Json>) {
    forall i :: 0 <= i < |hosts| ==> IsRepoSelected(selected, hosts[i])
  }

  /** `selectAllRepos(true)` checks the header box, and a cleared selection
      of a non-empty table does not. */
  lemma SelectAllReposChecksHeader(hosts: seq<Json>)
    ensures AreAllReposSelected(hosts, hosts)
    ensures |hosts| > 0 ==> !AreAllReposSelected([], hosts)
  {
    if |hosts| > 0 {
      assert !IsRepoSelected([], hosts[0]);
    }
  }

  /** A selection left over from another inventory is reported as complete
      by the length test. */
  lemma StaleSelectionAsWritten()
    ensures AreAllReposSelectedAsWritten([Str("10.0.0.1")], [Str("10.0.0.2")])
    ensures !AreAllReposSelected([Str("10.0.0.1")], [Str("10.0.0.2")])
  {
    assert "10.0.0.1"[7] != "10.0.0.2"[7];
    assert !IsRepoSelected([Str("10.0.0.1")], [Str("10.0.0.2")][0]);
  }

  /** Two hosts with the same address: select all, then untick and tick one
      row again. Every row shows as selected, but the length test leaves
      the header box unchecked. */
  lemma DuplicateHostAsWritten()
    ensures var hosts := [Str("10.0.0.1"), Str("10.0.0.1")];
      var s := SetRepoSelected(SetRepoSelected(hosts, hosts[0], false), hosts[0], true);
      AreAllReposSelected(s, hosts) && !AreAllReposSelectedAsWritten(s, hosts)
  {
    var hosts := [Str("10.0.0.1"), Str("10.0.0.1")];
    var cleared := SetRepoSelected(hosts, hosts[0], false);
    assert cleared == [] by {
      WithoutIsEmpty(hosts, [hosts[0]]);
    }
    assert SetRepoSelected(cleared, hosts[0], true) == [hosts[0]];
  }

  lemma {:induction false} DistinctCard(s: seq<Json>)
    requires Distinct(s)
    ensures |set x | x in s| == |s|
    decreases |s|
  {
    if s != [] {
      var rest := s[1..];
      DistinctCard(rest);
      assert (set x | x in s) == (set x | x in rest) + {s[0]};
      assert s[0] !in rest by {
        forall j | 0 <= j < |rest|
          ensures rest[j] != s[0]
        {
          assert rest[j] == s[j + 1];
        }
      }
    }
  }

  /** Where the length test is right: a repeat-free selection of the
      table's own repeat-free hosts has every host exactly when it has as
      many entries as the table. */
  lemma LengthTestSoundForDistinctSubsets(selected: seq<Json>, hosts: seq<Json>)
    requires Distinct(selected) && Distinct(hosts)
    requires forall x :: x in selected ==> x in hosts
    ensures AreAllReposSelectedAsWritten(selected, hosts) <==> AreAllReposSelected(selected, hosts)
  {
    var sel := set x | x in selected;
    var all := set x | x in hosts;
    DistinctCard(selected);
    DistinctCard(hosts);
    assert sel <= all;
    if |selected| == |hosts| {
      assert all == sel + (all - sel);
      assert |all - sel| == 0;
      assert sel == all by {
        forall y | y in all
          ensures y in sel
        {
          assert y !in all - sel;
        }
      }
      forall i | 0 <= i < |hosts|
        ensures IsRepoSelected(selected, hosts[i])
      {
        assert hosts[i] in all;
      }
    }
    if AreAllReposSelected(selected, hosts) {
      assert all <= sel by {
        forall y | y in all
          ensures y in sel
        {
          var i :| 0 <= i < |hosts| && hosts[i] == y;
          assert IsRepoSelected(selected, hosts[i]);
        }
      }
      assert sel == all;
    }
  }

  // ---------------------------------------------------------- submit

  datatype Launch = Launch(template: nat, inventoryHostname: seq<Json>, panosVersionInput: Json)

  datatype Outcome = Launched(request: Launch) | Alert(message: string)

  const SelectInventory := "please select the Inventory"
  const SelectVersion := "please select the version"
  const SelectFirewall := "please select the Firewall"

  /** `handleSubmit`: launch the upgrade when an inventory, a version and
      at least one host are chosen; otherwise name the first thing missing,
      inventory before version before firewall. */
  function HandleSubmit(selectinventory: Json, selected: seq<Json>, selectversion: Json): (r: Outcome)
    ensures r.Launched? <==> Truthy(selectinventory) && |selected| != 0 && Truthy(selectversion)
    ensures r.Launched? ==> r.request == Launch(UpgradeTemplate, selected, selectversion)
    ensures r == Alert(SelectInventory) <==> !Truthy(selectinventory)
    ensures r == Alert(SelectVersion) <==> Truthy(selectinventory) && !Truthy(selectversion)
    ensures r == Alert(SelectFirewall) <==> Truthy(selectinventory) && Truthy(selectversion) && |selected| == 0
  {
    if Truthy(selectinventory) && |selected| != 0 && Truthy(selectversion) then
      Launched(Launch(UpgradeTemplate, selected, selectversion))
    else if !Truthy(selectinventory) then Alert(SelectInventory)
    else if !Truthy(selectversion) then Alert(SelectVersion)
    else Alert(SelectFirewall)
  }

  /** The launch request's body: the payload is wrapped in a second
      `extra_vars`. */
  function LaunchBody(l: Launch): (r: Json)
    ensures Get(Get(Get(r, "extra_vars"), "extra_vars"), "inventory_hostname") == Arr(l.inventoryHostname)
    ensures Get(Get(Get(r, "extra_vars"), "extra_vars"), "panos_version_input") == l.panosVersionInput
    ensures Get(Get(r, "extra_vars"), "credential_passwords") == Obj([])
  {
    var payload := Obj([
      Field("credential_passwords", Obj([])),
      Field("extra_vars", Obj([
        Field("inventory_hostname", Arr(l.inventoryHostname)),
        Field("panos_version_input", l.panosVersionInput)]))]);
    var r := Obj([Field("extra_vars", payload)]);
    assert "credential_passwords"[0] != "extra_vars"[0];
    assert "inventory_hostname"[0] != "panos_version_input"[0];
    var inner := Get(payload, "extra_vars");
    assert inner == Lookup(payload.fields[1..], "extra_vars");
    assert Get(inner, "panos_version_input") == Lookup(inner.fields[1..], "panos_version_input");
    r
  }

  // ----------------------------------------------------------- state

  /** The component's state hooks that selection and submit read and
      write; `alerts` and `launches` record the toasts raised and the
      launch requests sent. */
  class Table {
    var gethostname: seq<Json>
    var selectinventory: Json
    var selectversion: Json
    var selectedRepoNames: seq<Json>
    var recentSelectedRowIndex: Option<int>
    var shifting: bool
    var issave: bool
    var alerts: seq<string>
    var launches: seq<Launch>

    constructor ()
      ensures gethostname == [] && selectedRepoNames == []
      ensures selectinventory == Null && selectversion == Null
      ensures recentSelectedRowIndex == None && !shifting && !issave
      ensures alerts == [] && launches == []
    {
      gethostname := [];
      selectinventory := Null;
      selectversion := Null;
      selectedRepoNames := [];
      recentSelectedRowIndex := None;
      shifting := false;
      issave := false;
      alerts := [];
      launches := [];
    }

    /** `onSelectinventory` and `onSelecversion`. */
    method OnSelect(inventory: bool, selection: Json)
      modifies this
      ensures inventory ==> selectinventory == selection && selectversion == old(selectversion)
      ensures !inventory ==> selectversion == selection && selectinventory == old(selectinventory)
      ensures gethostname == old(gethostname) && selectedRepoNames == old(selectedRepoNames)
      ensures recentSelectedRowIndex == old(recentSelectedRowIndex) && shifting == old(shifting)
      ensures issave == old(issave) && alerts == old(alerts) && launches == old(launches)
    {
      if inventory {
        selectinventory := selection;
      } else {
        selectversion := selection;
      }
    }

    /** `handleSubmit`: exactly one launch request or exactly one toast;
        the spinner flag is raised for the duration and lowered at the
        end. */
    method Submit() returns (outcome: Outcome)
      modifies this
      ensures outcome == HandleSubmit(selectinventory, selectedRepoNames, selectversion)
      ensures outcome.Launched? ==> launches == old(launches) + [outcome.request] && alerts == old(alerts)
      ensures outcome.Alert? ==> alerts == old(alerts) + [outcome.message] && launches == old(launches)
      ensures !issave
      ensures gethostname == old(gethostname) && selectedRepoNames == old(selectedRepoNames)
      ensures selectinventory == old(selectinventory) && selectversion == old(selectversion)
      ensures recentSelectedRowIndex == old(recentSelectedRowIndex) && shifting == old(shifting)
    {
      issave := true;
      outcome := HandleSubmit(selectinventory, selectedRepoNames, selectversion);
      match outcome {
        case Launched(request) => launches := launches + [request];
        case Alert(message) => alerts := alerts + [message];
      }
      issave := false;
    }

    /** `setGethostname`: a new host list; the selection is kept. */
    method SetHosts(hosts: seq<Json>)
      modifies this
      ensures gethostname == hosts
      ensures selectedRepoNames == old(selectedRepoNames)
      ensures recentSelectedRowIndex == old(recentSelectedRowIndex) && shifting == old(shifting)
      ensures selectinventory == old(selectinventory) && selectversion == old(selectversion)
      ensures issave == old(issave) && alerts == old(alerts) && launches == old(launches)
    {
      gethostname := hosts;
    }

    /** The `keydown` and `keyup` listeners: only Shift matters. */
    method OnKey(key: string, down: bool)
      modifies this
      ensures shifting == (if key == "Shift" then down else old(shifting))
      ensures gethostname == old(gethostname) && selectedRepoNames == old(selectedRepoNames)
      ensures recentSelectedRowIndex == old(recentSelectedRowIndex)
      ensures selectinventory == old(selectinventory) && selectversion == old(selectversion)
      ensures issave == old(issave) && alerts == old(alerts) && launches == old(launches)
    {
      if key == "Shift" {
        shifting := down;
      }
    }

    /** `selectAllRepos` */
    method SelectAllRepos(isSelecting: bool)
      modifies this
      ensures isSelecting ==> AreAllReposSelected(selectedRepoNames, gethostname)
      ensures selectedRepoNames == (if isSelecting then gethostname else [])
      ensures gethostname == old(gethostname)
      ensures recentSelectedRowIndex == old(recentSelectedRowIndex) && shifting == old(shifting)
      ensures selectinventory == old(selectinventory) && selectversion == old(selectversion)
      ensures issave == old(issave) && alerts == old(alerts) && launches == old(launches)
    {
      selectedRepoNames := if isSelecting then gethostname else [];
      SelectAllReposChecksHeader(gethostname);
    }

    /** `onSelectRepo`: a plain click selects one host; a shift-click after
        an earlier click applies the same choice to every row between the
        two. The clicked row becomes the most recent one. */
    method OnSelectRepo(repo: Json, rowIndex: int, isSelecting: bool)
      modifies this
      ensures recentSelectedRowIndex == Some(rowIndex)
      ensures old(shifting) && old(recentSelectedRowIndex).Some? ==>
        selectedRepoNames == SelectIndexes(old(selectedRepoNames), gethostname,
                                           Between(old(recentSelectedRowIndex).value, rowIndex), isSelecting)
      ensures !(old(shifting) && old(recentSelectedRowIndex).Some?) ==>
        selectedRepoNames == SetRepoSelected(old(selectedRepoNames), repo, isSelecting)
      ensures gethostname == old(gethostname) && shifting == old(shifting)
      ensures selectinventory == old(selectinventory) && selectversion == old(selectversion)
      ensures issave == old(issave) && alerts == old(alerts) && launches == old(launches)
    {
      if shifting && recentSelectedRowIndex.Some? {
        var indexes := Between(recentSelectedRowIndex.value, rowIndex);
        selectedRepoNames := SelectRange(selectedRepoNames, gethostname, indexes, isSelecting);
      } else {
        selectedRepoNames := SetRepoSelected(selectedRepoNames, repo, isSelecting);
      }
      recentSelectedRowIndex := Some(rowIndex);
    }
  }

  /** A shift-click selects every listed host between the two rows and
      leaves every host outside them as it was. */
  lemma ShiftClickRange(prev: seq<Json>, hosts: seq<Json>, recent: int, rowIndex: int, isSelecting: bool)
    requires Distinct(hosts) && Undefined !in hosts
    ensures var r := SelectIndexes(prev, hosts, Between(recent, rowIndex), isSelecting);
      var lo := if recent <= rowIndex then recent else rowIndex;
      var hi := if recent <= rowIndex then rowIndex else recent;
      (forall i :: 0 <= i < |hosts| && lo <= i <= hi ==> (hosts[i] in r <==> isSelecting)) &&
      (forall i :: 0 <= i < |hosts| && !(lo <= i <= hi) ==> (hosts[i] in r <==> hosts[i] in prev))
  {
    var indexes := Between(recent, rowIndex);
    var r := SelectIndexes(prev, hosts, indexes, isSelecting);
    var lo := if recent <= rowIndex then recent else rowIndex;
    var hi := if recent <= rowIndex then rowIndex else recent;
    forall i | 0 <= i < |hosts| && lo <= i <= hi
      ensures hosts[i] in r <==> isSelecting
    {
      assert indexes[i - lo] == i;
    }
    forall i | 0 <= i < |hosts| && !(lo <= i <= hi)
      ensures hosts[i] in r <==> hosts[i] in prev
    {
      OutsideKept(prev, hosts, indexes, isSelecting, lo, hi, i);
    }
  }

  /** A host whose row no index names keeps its selection. */
  lemma OutsideKept(prev: seq<Json>, hosts: seq<Json>, indexes: seq<int>, isSelecting: bool, lo: int, hi: int, i: int)
    requires Distinct(hosts) && Undefined !in hosts
    requires forall k :: 0 <= k < |indexes| ==> lo <= indexes[k] <= hi
    requires 0 <= i < |hosts| && !(lo <= i <= hi)
    ensures hosts[i] in SelectIndexes(prev, hosts, indexes, isSelecting) <==> hosts[i] in prev
  {
    forall k | 0 <= k < |indexes|
      ensures HostAt(hosts, indexes[k]) != hosts[i]
    {
      var j := indexes[k];
      if 0 <= j < |hosts| {
        assert j != i;
        if j < i {
          assert hosts[j] != hosts[i];
        } else {
          assert hosts[i] != hosts[j];
        }
      }
    }
  }
}
