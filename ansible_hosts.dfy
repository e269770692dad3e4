/** The `ansible_host` values the firewall screens collect from an
    inventory's variables: for every group under a path, for every host of
    the group, its truthy `ansible_host`, in `for...in` order. */
module AnsibleHosts {
  import opened Js

  /** Where `LegacyTableTree` and `LegacyTableTree1` look for groups. */
  const PanoramaGroups := ["all", "children", "panoramas", "children"]
  /** Where `InventoryTable` looks for groups. */
  const FirewallGroups := ["all", "children", "firewalls", "children", "fw_dev", "children"]

  /** `h?.ansible_host` when `optional`, else `h.ansible_host`, which throws
      for a `null` host. */
  function HostAddress(h: Json, optional: bool): (r: Completion<Json>)
    ensures r.Threw? <==> !optional && Nullish(h)
  {
    if optional then Normal(Get(h, "ansible_host")) else Member(h, "ansible_host")
  }

  /** The truthy addresses of the hosts of one group, in order. */
  function HostsOf(hosts: seq<Json>, optional: bool): (r: Completion<seq<Json>>)
    ensures r.Normal? ==> forall i :: 0 <= i < |r.value| ==> Truthy(r.value[i])
    ensures r.Normal? ==> |r.value| <= |hosts|
  {
    if hosts == [] then Normal([])
    else match HostsOf(hosts[..|hosts| - 1], optional)
      case Threw => Threw
      case Normal(xs) =>
        match HostAddress(hosts[|hosts| - 1], optional)
        case Threw => Threw
        case Normal(a) => Normal(xs + (if Truthy(a) then [a] else []))
  }

  /** The addresses of all groups: a `null` group throws (`.hosts`), a
      group whose `hosts` is falsy adds nothing. */
  function GroupsHosts(groups: seq<Json>, optional: bool): (r: Completion<seq<Json>>)
    ensures r.Normal? ==> forall i :: 0 <= i < |r.value| ==> Truthy(r.value[i])
  {
    if groups == [] then Normal([])
    else match GroupsHosts(groups[..|groups| - 1], optional)
      case Threw => Threw
      case Normal(xs) =>
        var g := groups[|groups| - 1];
        if Nullish(g) then Threw
        else if !Truthy(Get(g, "hosts")) then Normal(xs)
        else match HostsOf(ForInValues(Get(g, "hosts")), optional)
          case Threw => Threw
          case Normal(ys) => Normal(xs + ys)
  }

  /** Once a throw happens, the whole extraction throws. */
  lemma {:induction false} GroupsThrewSticks(groups: seq<Json>, i: nat, optional: bool)
    requires i <= |groups| && GroupsHosts(groups[..i], optional).Threw?
    ensures GroupsHosts(groups, optional).Threw?
    decreases |groups| - i
  {
    if i < |groups| {
      assert groups[..i + 1][..i] == groups[..i];
      GroupsThrewSticks(groups, i + 1, optional);
    } else {
      assert groups[..i] == groups;
    }
  }

  lemma {:induction false} HostsThrewSticks(hosts: seq<Json>, j: nat, optional: bool)
    requires j <= |hosts| && HostsOf(hosts[..j], optional).Threw?
    ensures HostsOf(hosts, optional).Threw?
    decreases |hosts| - j
  {
    if j < |hosts| {
      assert hosts[..j + 1][..j] == hosts[..j];
      HostsThrewSticks(hosts, j + 1, optional);
    } else {
      assert hosts[..j] == hosts;
    }
  }

  /** With optional access, the extraction throws exactly when some group
      is `null`. */
  lemma {:induction false} OptionalThrowsOnlyOnNullGroup(groups: seq<Json>)
    ensures GroupsHosts(groups, true).Threw? <==> exists i :: 0 <= i < |groups| && Nullish(groups[i])
    decreases |groups|
  {
    if groups != [] {
      var init := groups[..|groups| - 1];
      OptionalThrowsOnlyOnNullGroup(init);
      var g := groups[|groups| - 1];
      if !Nullish(g) && Truthy(Get(g, "hosts")) {
        OptionalHostsNeverThrow(ForInValues(Get(g, "hosts")));
      }
      if exists i :: 0 <= i < |init| && Nullish(init[i]) {
        var i :| 0 <= i < |init| && Nullish(init[i]);
        assert groups[i] == init[i];
      }
      if exists i :: 0 <= i < |groups| && Nullish(groups[i]) {
        var i :| 0 <= i < |groups| && Nullish(groups[i]);
        if i < |init| {
          assert init[i] == groups[i];
        }
      }
    }
  }

  lemma {:induction false} OptionalHostsNeverThrow(hosts: seq<Json>)
    ensures HostsOf(hosts, true).Normal?
    decreases |hosts|
  {
    if hosts != [] {
      OptionalHostsNeverThrow(hosts[..|hosts| - 1]);
    }
  }

  /** With strict access, a group listing a `null` host throws. */
  lemma StrictThrowsOnNullHost(hosts: seq<Json>, j: nat)
    requires j < |hosts| && Nullish(hosts[j])
    ensures HostsOf(hosts, false).Threw?
  {
    var prefix := hosts[..j + 1];
    assert prefix[..|prefix| - 1] == hosts[..j];
    HostsThrewSticks(hosts, j + 1, false);
  }

  /** One more host: its address is appended when truthy. */
  lemma HostsStep(hs: seq<Json>, j: nat, optional: bool, found: seq<Json>, a: Json)
    requires j < |hs| && HostsOf(hs[..j], optional) == Normal(found)
    requires HostAddress(hs[j], optional) == Normal(a)
    ensures HostsOf(hs[..j + 1], optional) == Normal(found + if Truthy(a) then [a] else [])
  {
    var prefix := hs[..j + 1];
    assert prefix[..|prefix| - 1] == hs[..j];
    assert prefix[|prefix| - 1] == hs[j];
  }

  /** One more group that is not `null`. */
  lemma GroupsStep(groups: seq<Json>, i: nat, optional: bool, xs: seq<Json>)
    requires i < |groups| && GroupsHosts(groups[..i], optional) == Normal(xs) && !Nullish(groups[i])
    ensures var hosts := Get(groups[i], "hosts");
      GroupsHosts(groups[..i + 1], optional) ==
        if !Truthy(hosts) then Normal(xs)
        else match HostsOf(ForInValues(hosts), optional)
          case Threw => Threw
          case Normal(ys) => Normal(xs + ys)
  {
    var prefix := groups[..i + 1];
    assert prefix[..|prefix| - 1] == groups[..i];
    assert prefix[|prefix| - 1] == groups[i];
  }

  /** The inner `for...in` loop: the addresses of one group's hosts. */
  method CollectHosts(hs: seq<Json>, optional: bool) returns (r: Completion<seq<Json>>)
    ensures r == HostsOf(hs, optional)
  {
    var found: seq<Json> := [];
    var j := 0;
    while j < |hs|
      invariant 0 <= j <= |hs|
      invariant HostsOf(hs[..j], optional) == Normal(found)
    {
      var h := hs[j];
      if !optional && Nullish(h) {
        HostsThrewSticks(hs, j + 1, optional);
        return Threw;
      }
      var a := Get(h, "ansible_host");
      assert HostAddress(h, optional) == Normal(a);
      HostsStep(hs, j, optional, found, a);
      if Truthy(a) {
        found := found + [a];
      } else {
        assert found + [] == found;
      }
      j := j + 1;
    }
    assert hs[..j] == hs;
    r := Normal(found);
  }

  /** The two nested `for...in` loops. */
  method ExtractHosts(parsed: Json, path: seq<string>, optional: bool) returns (r: Completion<seq<Json>>)
    ensures r == GroupsHosts(ForInValues(Path(parsed, path)), optional)
  {
    var groups := ForInValues(Path(parsed, path));
    var ansibleHosts: seq<Json> := [];
    var i := 0;
    while i < |groups|
      invariant 0 <= i <= |groups|
      invariant GroupsHosts(groups[..i], optional) == Normal(ansibleHosts)
    {
      var g := groups[i];
      assert groups[..i + 1][..i] == groups[..i];
      if Nullish(g) {
        GroupsThrewSticks(groups, i + 1, optional);
        return Threw;
      }
      var hosts := Get(g, "hosts");
      GroupsStep(groups, i, optional, ansibleHosts);
      if Truthy(hosts) {
        var found := CollectHosts(ForInValues(hosts), optional);
        if found.Threw? {
          GroupsThrewSticks(groups, i + 1, optional);
          return Threw;
        }
        ansibleHosts := ansibleHosts + found.value;
      }
      i := i + 1;
    }
    assert groups[..i] == groups;
    r := Normal(ansibleHosts);
  }
}
