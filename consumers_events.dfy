/** `EventConsumer`: a browser's websocket. The session remembers the CSRF
    token taken from the cookie at connect time and the channel groups the
    socket is subscribed to; the channel layer holds the socket's actual
    group memberships; every change is announced on the broadcast group.

    The channel layer and the broadcast group are fields of the class; the
    permission check is the `Policy` parameter. */
module EventGroups {
  import opened Js

  /** An object id in a subscription request. */
  datatype Oid = IntOid(n: int) | StrOid(s: string)

  function OidText(o: Oid): string {
    match o
    case IntOid(n) => Decimal(n)
    case StrOid(s) => s
  }

  /** `'{}-{}'.format(group_name, oid)` */
  function ChannelName(group: string, oid: Oid): string {
    group + "-" + OidText(oid)
  }

  /** A value of the request's `groups` object: a list of ids, or anything else. */
  datatype GroupValue = OidList(oids: seq<Oid>) | NotList
  datatype Entry = Entry(group: string, value: GroupValue)

  /** The request's `groups` key: absent, an object given as its entries in
      key order, or any other value (a list, `null`, a string, a number),
      which has no `items()`. */
  datatype GroupsField = Absent | GroupsObject(entries: seq<Entry>) | NotObject

  /** A message from the browser: its `xrftoken` (`Undefined` when absent)
      and its `groups` key. */
  datatype Request = Request(xrftoken: Json, groups: GroupsField)

  /** JSON messages sent back to the browser. */
  datatype Reply =
    | Accept(user: int)
    | Close
    | AccessDenied
    | ResourceDenied(group: string, oid: Oid)
    | GroupsReply(current: set<string>, left: set<string>, joined: set<string>)

  /** Messages sent to the broadcast group. */
  datatype Broadcast = Subscribe(groups: set<string>) | Unsubscribe(groups: set<string>)

  /** `guarded(g)`: `consumer_access(g)` is a class; `canSee(g, oid)`: the
      user may see object `oid` through it. */
  datatype Policy = Policy(guarded: string -> bool, canSee: (string, Oid) -> bool)

  predicate Permitted(p: Policy, group: string, oid: Oid) {
    !p.guarded(group) || p.canSee(group, oid)
  }

  // ------------------------------------------------------------ specification

  /** Names of the permitted ids of one list. */
  function GrantedIds(p: Policy, group: string, oids: seq<Oid>): set<string>
    decreases |oids|
  {
    if oids == [] then {}
    else
      var last := oids[|oids| - 1];
      GrantedIds(p, group, oids[..|oids| - 1])
        + (if Permitted(p, group, last) then {ChannelName(group, last)} else {})
  }

  /** Errors for the refused ids of one list, in order. */
  function RefusedIds(p: Policy, group: string, oids: seq<Oid>): seq<Reply>
    decreases |oids|
  {
    if oids == [] then []
    else
      var last := oids[|oids| - 1];
      RefusedIds(p, group, oids[..|oids| - 1])
        + (if Permitted(p, group, last) then [] else [ResourceDenied(group, last)])
  }

  function Granted(p: Policy, entries: seq<Entry>): set<string>
    decreases |entries|
  {
    if entries == [] then {}
    else
      var e := entries[|entries| - 1];
      Granted(p, entries[..|entries| - 1])
        + (if e.value.OidList? then GrantedIds(p, e.group, e.value.oids) else {})
  }

  function Refused(p: Policy, entries: seq<Entry>): seq<Reply>
    decreases |entries|
  {
    if entries == [] then []
    else
      var e := entries[|entries| - 1];
      Refused(p, entries[..|entries| - 1])
        + (if e.value.OidList? then RefusedIds(p, e.group, e.value.oids) else [])
  }

  /** Index of the first entry whose value is not a list, or `|entries|`. */
  function Stop(entries: seq<Entry>): (r: nat)
    ensures r <= |entries|
    ensures forall i :: 0 <= i < r ==> entries[i].value.OidList?
    ensures r < |entries| ==> entries[r].value.NotList?
  {
    if entries == [] || entries[0].value.NotList? then 0 else 1 + Stop(entries[1..])
  }

  lemma {:induction false} GrantedIdsMembership(p: Policy, group: string, oids: seq<Oid>, name: string)
    ensures name in GrantedIds(p, group, oids) <==>
      exists j :: 0 <= j < |oids| && Permitted(p, group, oids[j]) && name == ChannelName(group, oids[j])
    decreases |oids|
  {
    if oids != [] {
      var init := oids[..|oids| - 1];
      GrantedIdsMembership(p, group, init, name);
      if exists j :: 0 <= j < |init| && Permitted(p, group, init[j]) && name == ChannelName(group, init[j]) {
        var j :| 0 <= j < |init| && Permitted(p, group, init[j]) && name == ChannelName(group, init[j]);
        assert oids[j] == init[j];
      }
      if exists j :: 0 <= j < |oids| && Permitted(p, group, oids[j]) && name == ChannelName(group, oids[j]) {
        var j :| 0 <= j < |oids| && Permitted(p, group, oids[j]) && name == ChannelName(group, oids[j]);
        if j < |init| {
          assert init[j] == oids[j];
        }
      }
    }
  }

  /** A channel group is subscribed exactly when some listed id names it
      and the user is permitted to see that id. */
  lemma {:induction false} GrantedMembership(p: Policy, entries: seq<Entry>, name: string)
    ensures name in Granted(p, entries) <==>
      exists i, j :: (0 <= i < |entries| && entries[i].value.OidList? && 0 <= j < |entries[i].value.oids|
        && Permitted(p, entries[i].group, entries[i].value.oids[j])
        && name == ChannelName(entries[i].group, entries[i].value.oids[j]))
    decreases |entries|
  {
    if entries != [] {
      var init := entries[..|entries| - 1];
      var e := entries[|entries| - 1];
      GrantedMembership(p, init, name);
      if e.value.OidList? {
        GrantedIdsMembership(p, e.group, e.value.oids, name);
      }
      if exists i, j :: (0 <= i < |entries| && entries[i].value.OidList? && 0 <= j < |entries[i].value.oids|
        && Permitted(p, entries[i].group, entries[i].value.oids[j])
        && name == ChannelName(entries[i].group, entries[i].value.oids[j]))
      {
        WitnessInInit(p, entries, name);
      }
    }
  }

  /** A witness in the entries is one in all but the last entry or one in
      the last entry's list. */
  lemma WitnessInInit(p: Policy, entries: seq<Entry>, name: string)
    requires entries != []
    requires exists i, j :: (0 <= i < |entries| && entries[i].value.OidList? && 0 <= j < |entries[i].value.oids|
      && Permitted(p, entries[i].group, entries[i].value.oids[j])
      && name == ChannelName(entries[i].group, entries[i].value.oids[j]))
    ensures var init := entries[..|entries| - 1];
      var e := entries[|entries| - 1];
      (exists i, j :: (0 <= i < |init| && init[i].value.OidList? && 0 <= j < |init[i].value.oids|
        && Permitted(p, init[i].group, init[i].value.oids[j])
        && name == ChannelName(init[i].group, init[i].value.oids[j])))
      || (e.value.OidList? && exists j :: (0 <= j < |e.value.oids| && Permitted(p, e.group, e.value.oids[j])
        && name == ChannelName(e.group, e.value.oids[j])))
  {
    var init := entries[..|entries| - 1];
    var i, j :| 0 <= i < |entries| && entries[i].value.OidList? && 0 <= j < |entries[i].value.oids|
      && Permitted(p, entries[i].group, entries[i].value.oids[j])
      && name == ChannelName(entries[i].group, entries[i].value.oids[j]);
    if i < |init| {
      assert init[i] == entries[i];
    }
  }

  /** The errors sent for one list are, in order, exactly those for the
      ids the user may not see. */
  lemma {:induction false} RefusedIdsAreRefusals(p: Policy, group: string, oids: seq<Oid>, k: nat)
    requires k < |RefusedIds(p, group, oids)|
    ensures exists j :: (0 <= j < |oids| && !Permitted(p, group, oids[j])
      && RefusedIds(p, group, oids)[k] == ResourceDenied(group, oids[j]))
    decreases |oids|
  {
    var init := oids[..|oids| - 1];
    var last := oids[|oids| - 1];
    if k < |RefusedIds(p, group, init)| {
      RefusedIdsAreRefusals(p, group, init, k);
      var j :| 0 <= j < |init| && !Permitted(p, group, init[j])
        && RefusedIds(p, group, init)[k] == ResourceDenied(group, init[j]);
      assert oids[j] == init[j];
    } else {
      assert !Permitted(p, group, last);
      assert RefusedIds(p, group, oids)[k] == ResourceDenied(group, oids[|oids| - 1]);
    }
  }

  /** At most one error per id, and none exactly when the user may see
      every id of the list. */
  lemma {:induction false} RefusedIdsCount(p: Policy, group: string, oids: seq<Oid>)
    ensures |RefusedIds(p, group, oids)| <= |oids|
    ensures (forall j :: 0 <= j < |oids| ==> Permitted(p, group, oids[j])) <==> RefusedIds(p, group, oids) == []
    decreases |oids|
  {
    if oids != [] {
      var init := oids[..|oids| - 1];
      RefusedIdsCount(p, group, init);
      if forall j :: 0 <= j < |oids| ==> Permitted(p, group, oids[j]) {
        assert forall j :: 0 <= j < |init| ==> Permitted(p, group, init[j]) by {
          forall j | 0 <= j < |init| ensures Permitted(p, group, init[j]) {
            assert init[j] == oids[j];
          }
        }
      }
      if RefusedIds(p, group, oids) == [] {
        forall j | 0 <= j < |oids| ensures Permitted(p, group, oids[j]) {
          if j < |init| {
            assert oids[j] == init[j];
          }
        }
      }
    }
  }

  /** `ScanIds` and `ScanEntries` are the two loops of `receive_json` that
      look at the requested ids. */
  method ScanIds(p: Policy, group: string, oids: seq<Oid>) returns (granted: set<string>, refused: seq<Reply>)
    ensures granted == GrantedIds(p, group, oids)
    ensures refused == RefusedIds(p, group, oids)
  {
    granted, refused := {}, [];
    var j := 0;
    while j < |oids|
      invariant 0 <= j <= |oids|
      invariant granted == GrantedIds(p, group, oids[..j])
      invariant refused == RefusedIds(p, group, oids[..j])
    {
      assert oids[..j + 1][..j] == oids[..j];
      if !Permitted(p, group, oids[j]) {
        refused := refused + [ResourceDenied(group, oids[j])];
      } else {
        granted := granted + {ChannelName(group, oids[j])};
      }
      j := j + 1;
    }
    assert oids[..j] == oids;
  }

  method ScanEntries(p: Policy, entries: seq<Entry>) returns (granted: set<string>, refused: seq<Reply>, stop: nat)
    ensures stop == Stop(entries)
    ensures granted == Granted(p, entries[..stop])
    ensures refused == Refused(p, entries[..stop])
  {
    granted, refused := {}, [];
    var i := 0;
    while i < |entries| && entries[i].value.OidList?
      invariant 0 <= i <= |entries|
      invariant forall k :: 0 <= k < i ==> entries[k].value.OidList?
      invariant granted == Granted(p, entries[..i])
      invariant refused == Refused(p, entries[..i])
    {
      ScanStep(p, entries, i);
      var g, r := ScanIds(p, entries[i].group, entries[i].value.oids);
      granted := granted + g;
      refused := refused + r;
      i := i + 1;
    }
    stop := i;
    StopUnique(entries, stop);
  }

  lemma ScanStep(p: Policy, entries: seq<Entry>, i: nat)
    requires i < |entries| && entries[i].value.OidList?
    ensures Granted(p, entries[..i + 1])
      == Granted(p, entries[..i]) + GrantedIds(p, entries[i].group, entries[i].value.oids)
    ensures Refused(p, entries[..i + 1])
      == Refused(p, entries[..i]) + RefusedIds(p, entries[i].group, entries[i].value.oids)
  {
    assert entries[..i + 1][..i] == entries[..i];
  }

  /** `Stop` is the only index before which every value is a list and at
      which the values end or one is not a list. */
  lemma StopUnique(entries: seq<Entry>, i: nat)
    requires i <= |entries| && forall k :: 0 <= k < i ==> entries[k].value.OidList?
    requires i < |entries| ==> entries[i].value.NotList?
    ensures Stop(entries) == i
  {
    var r := Stop(entries);
  }

  /** The groups left and the groups joined never overlap, and when the
      socket was in every current group it ends up in every wanted one. */
  lemma MoveKeepsGroups(layer: set<string>, current: set<string>, wanted: set<string>)
    ensures (current - wanted) * (wanted - current) == {}
    ensures current <= layer ==> wanted <= layer - (current - wanted) + (wanted - current)
  {
  }

  // ------------------------------------------------------------ the consumer

  class EventConsumer {
    /** `session[XRF_KEY]`: the CSRF token stored at connect time. */
    var sessionXrf: Option<string>
    /** `session['groups']`, `None` when the key is absent. */
    var sessionGroups: Option<set<string>>
    /** The groups the channel layer has this socket in. */
    var layerGroups: set<string>
    var outbox: seq<Reply>
    var broadcasts: seq<Broadcast>
    var closed: bool

    /** Every group the session records is one the layer has the socket in. */
    predicate Valid()
      reads this
    {
      sessionGroups.Some? ==> sessionGroups.value <= layerGroups
    }

    constructor ()
      ensures sessionXrf.None? && sessionGroups.None? && layerGroups == {}
      ensures outbox == [] && broadcasts == [] && !closed
      ensures Valid()
    {
      sessionXrf := None;
      sessionGroups := None;
      layerGroups := {};
      outbox := [];
      broadcasts := [];
      closed := false;
    }

    /** `connect`: an authenticated user is accepted and, when the cookie
        holds a non-empty `csrftoken`, the session remembers it; anyone
        else is told to close. */
    method Connect(authenticated: bool, user: int, cookieToken: Option<string>)
      modifies this
      ensures authenticated ==> outbox == old(outbox) + [Accept(user)] && closed == old(closed)
      ensures authenticated ==>
        sessionXrf == (if cookieToken.Some? && cookieToken.value != "" then cookieToken else old(sessionXrf))
      ensures !authenticated ==> outbox == old(outbox) + [Close] && closed && sessionXrf == old(sessionXrf)
      ensures sessionGroups == old(sessionGroups) && layerGroups == old(layerGroups)
      ensures broadcasts == old(broadcasts)
    {
      if authenticated {
        outbox := outbox + [Accept(user)];
        if cookieToken.Some? && cookieToken.value != "" {
          sessionXrf := cookieToken;
        }
      } else {
        outbox := outbox + [Close];
        closed := true;
      }
    }

    /** `disconnect`: leave every group the session records and announce
        the unsubscription, even of no groups. */
    method Disconnect()
      modifies this
      ensures var current := if old(sessionGroups).Some? then old(sessionGroups).value else {};
        sessionGroups.None? && layerGroups == old(layerGroups) - current
        && broadcasts == old(broadcasts) + [Unsubscribe(current)]
      ensures outbox == old(outbox) && sessionXrf == old(sessionXrf) && closed == old(closed)
      ensures Valid()
    {
      var current := if sessionGroups.Some? then sessionGroups.value else {};
      sessionGroups := None;
      layerGroups := layerGroups - current;
      broadcasts := broadcasts + [Unsubscribe(current)];
    }

    predicate XrfMatches(token: Json)
      reads this
    {
      Truthy(token) && sessionXrf.Some? && token == Str(sessionXrf.value)
    }

    /** `receive_json`. A missing or wrong `xrftoken` is answered with an
        error and changes nothing else. Otherwise, when `groups` is given,
        the session's groups are taken out; a value that is not a list is
        answered with an error and ends the call with the groups gone.
        When every value is a list the new groups are the permitted
        `<group>-<oid>` names: the socket leaves `current - new`, joins
        `new - current`, and the session records exactly `new`. A `groups`
        value that is not an object raises `AttributeError` at `items()`,
        after the session's groups were taken out and before anything is
        sent. */
    method ReceiveJson(data: Request, policy: Policy) returns (raised: bool)
      modifies this
      ensures raised <==> old(XrfMatches(data.xrftoken)) && data.groups.NotObject?
      ensures !old(XrfMatches(data.xrftoken)) ==>
        outbox == old(outbox) + [AccessDenied] && sessionGroups == old(sessionGroups)
        && layerGroups == old(layerGroups) && broadcasts == old(broadcasts)
      ensures old(XrfMatches(data.xrftoken)) && data.groups.Absent? ==>
        outbox == old(outbox) && sessionGroups == old(sessionGroups)
        && layerGroups == old(layerGroups) && broadcasts == old(broadcasts)
      ensures old(XrfMatches(data.xrftoken)) && data.groups.NotObject? ==>
        sessionGroups.None? && outbox == old(outbox)
        && layerGroups == old(layerGroups) && broadcasts == old(broadcasts)
      ensures old(XrfMatches(data.xrftoken)) && data.groups.GroupsObject? ==>
        var entries := data.groups.entries;
        var stop := Stop(entries);
        stop < |entries| ==>
          sessionGroups.None? && layerGroups == old(layerGroups) && broadcasts == old(broadcasts)
          && outbox == old(outbox) + Refused(policy, entries[..stop]) + [AccessDenied]
      ensures old(XrfMatches(data.xrftoken)) && data.groups.GroupsObject? ==>
        var entries := data.groups.entries;
        var current := if old(sessionGroups).Some? then old(sessionGroups).value else {};
        var wanted := Granted(policy, entries);
        var left := current - wanted;
        var joined := wanted - current;
        Stop(entries) == |entries| ==>
          sessionGroups == Some(wanted)
          && layerGroups == old(layerGroups) - left + joined
          && broadcasts == old(broadcasts) + (if left == {} then [] else [Unsubscribe(left)]) + [Subscribe(wanted)]
          && outbox == old(outbox) + Refused(policy, entries) + [GroupsReply(wanted, left, joined)]
          && left * joined == {}
      ensures sessionXrf == old(sessionXrf) && closed == old(closed)
      ensures old(Valid()) ==> Valid()
    {
      raised := false;
      if !XrfMatches(data.xrftoken) {
        outbox := outbox + [AccessDenied];
        return;
      }
      match data.groups
      case Absent =>
      case NotObject =>
        sessionGroups := None;
        raised := true;
      case GroupsObject(entries) =>
        Resubscribe(entries, policy);
    }

    /** The part of `receive_json` that follows an accepted token and a
        given `groups` object. */
    method Resubscribe(entries: seq<Entry>, policy: Policy)
      modifies this
      ensures var stop := Stop(entries);
        stop < |entries| ==>
          sessionGroups.None? && layerGroups == old(layerGroups) && broadcasts == old(broadcasts)
          && outbox == old(outbox) + Refused(policy, entries[..stop]) + [AccessDenied]
      ensures var current := if old(sessionGroups).Some? then old(sessionGroups).value else {};
        var wanted := Granted(policy, entries);
        var left := current - wanted;
        var joined := wanted - current;
        Stop(entries) == |entries| ==>
          sessionGroups == Some(wanted)
          && layerGroups == old(layerGroups) - left + joined
          && broadcasts == old(broadcasts) + (if left == {} then [] else [Unsubscribe(left)]) + [Subscribe(wanted)]
          && outbox == old(outbox) + Refused(policy, entries) + [GroupsReply(wanted, left, joined)]
          && left * joined == {}
      ensures sessionXrf == old(sessionXrf) && closed == old(closed)
      ensures old(Valid()) ==> Valid()
    {
      var current := if sessionGroups.Some? then sessionGroups.value else {};
      sessionGroups := None;
      var wanted, refused, stop := ScanEntries(policy, entries);
      if stop < |entries| {
        outbox := outbox + refused + [AccessDenied];
        return;
      }
      assert entries[..stop] == entries;
      Move(current, wanted, refused);
      MoveKeepsGroups(old(layerGroups), current, wanted);
    }

    /** Leave `current - wanted`, join `wanted - current`, announce both and
        answer with the new groups after the refusals. */
    method Move(current: set<string>, wanted: set<string>, refused: seq<Reply>)
      modifies this
      ensures var left := current - wanted;
        var joined := wanted - current;
        sessionGroups == Some(wanted)
        && layerGroups == old(layerGroups) - left + joined
        && broadcasts == old(broadcasts) + (if left == {} then [] else [Unsubscribe(left)]) + [Subscribe(wanted)]
        && outbox == old(outbox) + refused + [GroupsReply(wanted, left, joined)]
      ensures sessionXrf == old(sessionXrf) && closed == old(closed)
    {
      outbox := outbox + refused;
      var left := current - wanted;
      layerGroups := layerGroups - left;
      if left != {} {
        broadcasts := broadcasts + [Unsubscribe(left)];
      }
      var joined := wanted - current;
      layerGroups := layerGroups + joined;
      broadcasts := broadcasts + [Subscribe(wanted)];
      sessionGroups := Some(wanted);
      outbox := outbox + [GroupsReply(wanted, left, joined)];
    }
  }
}
