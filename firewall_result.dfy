/** The job screen `FirewallResult`: it opens the `updatefirewall` socket
    for the IP addresses handed over in the location state, asks for their
    statuses on open, shows one `{firewall, status}` line per address for
    every message, and schedules a reconnect when the socket closes
    abnormally. */
module FirewallResult {
  import opened Js

  const CookieSeparator := "; csrftoken="
  /** The close code of a normal closure. */
  const NormalClosure := 1000
  /** Milliseconds before the reconnect. */
  const ReconnectDelay := 1000

  // -------------------------------------------------------- csrftoken

  lemma {:induction false} SplitFirstPart(s: string, sep: string)
    requires |sep| > 0
    ensures var first := Split(s, sep)[0];
      |first| <= |s| && s[..|first|] == first && (|first| == |s| || OccursAt(s, sep, |first|))
  {
  }

  lemma OccursInSuffix(s: string, sep: string, offset: nat, j: int)
    requires offset <= j && OccursAt(s, sep, j)
    ensures OccursAt(s[offset..], sep, j - offset)
  {
    assert s[j..j + |sep|] == s[offset..][j - offset..j - offset + |sep|];
  }

  /** The last part of a split is everything after an occurrence of the
      separator that no other occurrence follows. */
  lemma {:induction false} SplitLastPart(s: string, sep: string) returns (i: int)
    requires |sep| > 0
    ensures !Contains(s, sep) ==> Split(s, sep) == [s]
    ensures Contains(s, sep) ==> AfterLast(s, sep, i, Split(s, sep)[|Split(s, sep)| - 1])
    decreases |s|
  {
    i := 0;
    match IndexOf(s, sep)
    case None =>
    case Some(at) =>
      var offset := at + |sep|;
      var rest := s[offset..];
      var parts := Split(rest, sep);
      assert Split(s, sep) == [s[..at]] + parts;
      var i' := SplitLastPart(rest, sep);
      if Contains(rest, sep) {
        i := offset + i';
        AfterLastShift(s, sep, offset, i', parts[|parts| - 1]);
      } else {
        i := at;
        NothingAfter(s, sep, at);
      }
  }

  /** The last occurrence in a suffix is the last occurrence in the whole
      string. */
  lemma AfterLastShift(s: string, sep: string, offset: nat, i: int, tail: string)
    requires offset <= |s| && AfterLast(s[offset..], sep, i, tail)
    ensures AfterLast(s, sep, offset + i, tail)
  {
    var rest := s[offset..];
    assert s[offset + i..offset + i + |sep|] == rest[i..i + |sep|];
    assert s[offset + i + |sep|..] == rest[i + |sep|..];
    forall j | offset + i + |sep| <= j < |s|
      ensures !OccursAt(s, sep, j)
    {
      if OccursAt(s, sep, j) {
        OccursInSuffix(s, sep, offset, j);
      }
    }
  }

  /** An occurrence with none in the text after it is the last one. */
  lemma NothingAfter(s: string, sep: string, at: nat)
    requires OccursAt(s, sep, at) && !Contains(s[at + |sep|..], sep)
    ensures AfterLast(s, sep, at, s[at + |sep|..])
  {
    forall j | at + |sep| <= j < |s|
      ensures !OccursAt(s, sep, j)
    {
      if OccursAt(s, sep, j) {
        OccursInSuffix(s, sep, at + |sep|, j);
      }
    }
  }

  /** The reference reading: the last occurrence of `sep` starting before
      `n`. */
  function LastAt(s: string, sep: string, n: nat): (r: Option<nat>)
    ensures r.Some? ==> r.value < n && OccursAt(s, sep, r.value)
    ensures r.Some? ==> forall j :: r.value < j < n ==> !OccursAt(s, sep, j)
    ensures r.None? ==> forall j :: 0 <= j < n ==> !OccursAt(s, sep, j)
  {
    if n == 0 then None
    else if OccursAt(s, sep, n - 1) then Some(n - 1)
    else LastAt(s, sep, n - 1)
  }

  /** The reference reading: the text of `t` before its first `c`. */
  function UpTo(t: string, c: char): (r: string)
    ensures |r| <= |t| && t[..|r|] == r && c !in r && (|r| == |t| || t[|r|] == c)
  {
    if t == [] || t[0] == c then [] else [t[0]] + UpTo(t[1..], c)
  }

  /** `tail` is what follows the occurrence of `sep` at `i`, and no
      occurrence starts in it. */
  ghost predicate AfterLast(s: string, sep: string, i: int, tail: string) {
    OccursAt(s, sep, i) && tail == s[i + |sep|..] &&
    forall j :: i + |sep| <= j < |s| ==> !OccursAt(s, sep, j)
  }

  /** The `xrftoken` computed in `connect`: the value of the last
      `csrftoken` cookie, read up to the next `;`. */
  function CsrfToken(cookie: string): (r: string)
    ensures ';' !in r
  {
    var parts := Split("; " + cookie, CookieSeparator);
    var first := Split(parts[|parts| - 1], ";")[0];
    ContainsChar(first, ';');
    first
  }

  /** With no `csrftoken` cookie the token is empty: the prefixed string
      starts with `;`. */
  lemma CsrfTokenAbsent(cookie: string)
    requires !Contains("; " + cookie, CookieSeparator)
    ensures CsrfToken(cookie) == ""
  {
    var s := "; " + cookie;
    var _ := SplitLastPart(s, CookieSeparator);
    assert OccursAt(s, ";", 0);
  }

  /** The separator holds `;` only at its start, so two of its
      occurrences never overlap. */
  lemma SeparatorsDoNotOverlap(s: string, i: int, j: int)
    requires OccursAt(s, CookieSeparator, i) && i < j < i + |CookieSeparator|
    ensures !OccursAt(s, CookieSeparator, j)
  {
    assert s[j] == s[i..i + |CookieSeparator|][j - i] == CookieSeparator[j - i];
    assert forall k :: 1 <= k < |CookieSeparator| ==> CookieSeparator[k] != ';';
    if j + |CookieSeparator| <= |s| {
      assert s[j..j + |CookieSeparator|][0] == s[j] != ';';
    }
  }

  lemma LastSeparatorAt(s: string, i: int, tail: string)
    requires AfterLast(s, CookieSeparator, i, tail)
    ensures LastAt(s, CookieSeparator, |s|) == Some(i)
  {
    forall j | i < j < |s|
      ensures !OccursAt(s, CookieSeparator, j)
    {
      if j < i + |CookieSeparator| {
        SeparatorsDoNotOverlap(s, i, j);
      }
    }
  }

  /** With a `csrftoken` cookie the token is the text after the last
      `; csrftoken=`, up to the next `;`; without one it is empty. */
  lemma CsrfTokenIsLastValue(cookie: string)
    ensures var s := "; " + cookie;
      CsrfToken(cookie) == match LastAt(s, CookieSeparator, |s|)
        case None => ""
        case Some(i) => UpTo(s[i + |CookieSeparator|..], ';')
  {
    var s := "; " + cookie;
    if !Contains(s, CookieSeparator) {
      CsrfTokenAbsent(cookie);
      assert LastAt(s, CookieSeparator, |s|).Some? ==> Contains(s, CookieSeparator);
    } else {
      var parts := Split(s, CookieSeparator);
      var last := parts[|parts| - 1];
      var i := SplitLastPart(s, CookieSeparator);
      LastSeparatorAt(s, i, last);
      SplitFirstPart(last, ";");
      var r := Split(last, ";")[0];
      UpToUnique(last, ';', r);
    }
  }

  /** `UpTo` is the only prefix that stops at the first `c`. */
  lemma {:induction false} UpToUnique(t: string, c: char, r: string)
    requires |r| <= |t| && t[..|r|] == r && (|r| == |t| || OccursAt(t, [c], |r|))
    requires !Contains(r, [c])
    ensures r == UpTo(t, c)
    decreases |t|
  {
    ContainsChar(r, c);
    if |r| < |t| {
      assert t[|r|] == t[|r|..|r| + 1][0] == c;
    }
    if t != [] && t[0] != c {
      assert |r| > 0;
      assert !Contains(r[1..], [c]) by {
        ContainsChar(r[1..], c);
      }
      if |r| < |t| {
        assert t[1..][|r| - 1..|r| - 1 + 1] == t[|r|..|r| + 1];
      }
      UpToUnique(t[1..], c, r[1..]);
    }
  }

  /** A page whose only cookie is `csrftoken=t` reads `t`. */
  lemma CsrfTokenOfSingleCookie(t: string)
    requires ';' !in t
    ensures CsrfToken("csrftoken=" + t) == t
  {
    var s := "; " + ("csrftoken=" + t);
    assert s == CookieSeparator + t;
    assert OccursAt(s, CookieSeparator, 0);
    assert Split(s, CookieSeparator) == [""] + Split(t, CookieSeparator) by {
      assert s[..0] == "" && s[|CookieSeparator|..] == t;
    }
    assert !Contains(t, CookieSeparator) by {
      forall j | 0 <= j < |t|
        ensures !OccursAt(t, CookieSeparator, j)
      {
        if j + |CookieSeparator| <= |t| {
          assert t[j..j + |CookieSeparator|][0] == t[j] != ';';
        }
      }
    }
    var _ := SplitLastPart(t, CookieSeparator);
    ContainsChar(t, ';');
    var _ := SplitLastPart(t, ";");
  }

  // --------------------------------------------------------- messages

  datatype StatusRow = StatusRow(firewall: Json, status: Json)

  /** `{ firewall, status: ipstatus[firewall] }`: the property key is
      `String(firewall)`, and reading a property of a `null` message
      throws. */
  function StatusOf(ipstatus: Json, firewall: Json): (r: Completion<StatusRow>)
    ensures r.Threw? <==> Nullish(ipstatus)
    ensures r.Normal? ==> r.value.firewall == firewall
  {
    if Nullish(ipstatus) then Threw
    else match ToText(firewall)
      case Some(key) => Normal(StatusRow(firewall, Get(ipstatus, key)))
      case None => Normal(StatusRow(firewall, Undefined))
  }

  /** `data?.data?.map(...)` for one parsed message. */
  function Project(ipstatus: Json, data: Json): Completion<Option<seq<StatusRow>>> {
    OptionalMap(Get(data, "data"), firewall => StatusOf(ipstatus, firewall))
  }

  lemma {:induction false} LookupMissing(fields: seq<Field>, key: string)
    requires forall k :: 0 <= k < |fields| ==> fields[k].key != key
    ensures Lookup(fields, key) == Undefined
    decreases |fields|
  {
    if fields != [] {
      LookupMissing(fields[1..], key);
    }
  }

  /** Every message yields one row per address, in order, each carrying the
      message's entry for that address; an address the message does not
      mention gets an undefined status. */
  lemma ProjectRows(ipstatus: Json, data: Json)
    requires !Nullish(ipstatus) && Get(data, "data").Arr?
    ensures var ips := Get(data, "data").items;
      var r := Project(ipstatus, data);
      r.Normal? && r.value.Some? && |r.value.value| == |ips| &&
      (forall i :: 0 <= i < |ips| ==> r.value.value[i].firewall == ips[i]) &&
      (forall i :: 0 <= i < |ips| && ips[i].Str? ==> r.value.value[i].status == Get(ipstatus, ips[i].s)) &&
      (forall i :: (0 <= i < |ips| && ips[i].Str? && ipstatus.Obj? &&
                    (forall k :: 0 <= k < |ipstatus.fields| ==> ipstatus.fields[k].key != ips[i].s))
                    ==> r.value.value[i].status == Undefined)
  {
    var ips := Get(data, "data").items;
    var f := firewall => StatusOf(ipstatus, firewall);
    assert forall i :: 0 <= i < |ips| ==> f(ips[i]).Normal?;
    forall i | 0 <= i < |ips| && ips[i].Str? && ipstatus.Obj? &&
        (forall k :: 0 <= k < |ipstatus.fields| ==> ipstatus.fields[k].key != ips[i].s)
      ensures Get(ipstatus, ips[i].s) == Undefined
    {
      LookupMissing(ipstatus.fields, ips[i].s);
    }
  }

  /** A `null` message throws as soon as there is an address to look up. */
  lemma NullMessageThrows(data: Json)
    requires Get(data, "data").Arr? && |Get(data, "data").items| > 0
    ensures Project(Null, data).Threw?
  {
    var f := firewall => StatusOf(Null, firewall);
    assert f(Get(data, "data").items[0]).Threw?;
  }

  /** The request `connect` sends: `{ip_addresses: data?.data}`. When
      `data?.data` is `undefined`, `JSON.stringify` leaves the field out of
      the text sent (`{}`); the value here keeps the field as `Undefined`. */
  function OpenRequest(data: Json): (r: Json)
    ensures r.Obj? && |r.fields| == 1 && r.fields[0].key == "ip_addresses"
    ensures Get(r, "ip_addresses") == Get(data, "data")
  {
    Obj([Field("ip_addresses", Get(data, "data"))])
  }

  /** `onclose`: the delay of the reconnect, if one is scheduled. */
  function ReconnectAfter(code: int): (r: Option<nat>)
    ensures r.Some? <==> code != NormalClosure
    ensures r.Some? ==> r.value == ReconnectDelay
  {
    if code != NormalClosure then Some(ReconnectDelay) else None
  }

  // ------------------------------------------------------------ socket

  datatype ReadyState = Connecting | Open | Closed

  /** The page's socket life cycle: `sockets` lists every socket it created
      (the last is `ws.current`), `delivered` the requests that reached
      the server, `timers` the reconnects scheduled and not yet run. */
  class ResultPage {
    const data: Json
    var sockets: seq<ReadyState>
    var delivered: seq<Json>
    var newrecord: Option<seq<StatusRow>>
    var timers: nat

    /** Mounting: a socket is created only when there is location state. */
    constructor (state: Json)
      ensures data == state
      ensures sockets == (if Truthy(state) then [Connecting] else [])
      ensures delivered == [] && newrecord == None && timers == 0
    {
      data := state;
      sockets := if Truthy(state) then [Connecting] else [];
      delivered := [];
      newrecord := None;
      timers := 0;
    }

    /** `connect`: the request goes out on `ws.current`; a socket that is
        no longer open discards it. */
    method Connect()
      requires |sockets| > 0 && sockets[|sockets| - 1] != Connecting
      modifies this
      ensures sockets == old(sockets) && newrecord == old(newrecord) && timers == old(timers)
      ensures delivered == old(delivered) + (if sockets[|sockets| - 1] == Open then [OpenRequest(data)] else [])
    {
      if sockets[|sockets| - 1] == Open {
        delivered := delivered + [OpenRequest(data)];
      }
    }

    /** `onopen = connect` */
    method OnOpen()
      requires |sockets| > 0 && sockets[|sockets| - 1] == Connecting
      modifies this
      ensures sockets == old(sockets)[|old(sockets)| - 1 := Open]
      ensures delivered == old(delivered) + [OpenRequest(data)]
      ensures newrecord == old(newrecord) && timers == old(timers)
    {
      sockets := sockets[|sockets| - 1 := Open];
      Connect();
    }

    /** `onmessage`: a message that throws leaves the rows as they were;
        otherwise they are replaced (by nothing when there are no
        addresses). */
    method OnMessage(ipstatus: Json)
      modifies this
      ensures Project(ipstatus, data).Normal? ==> newrecord == Project(ipstatus, data).value
      ensures Project(ipstatus, data).Threw? ==> newrecord == old(newrecord)
      ensures sockets == old(sockets) && delivered == old(delivered) && timers == old(timers)
    {
      match Project(ipstatus, data) {
        case Normal(rows) => newrecord := rows;
        case Threw =>
      }
    }

    /** `onclose`: a reconnect is scheduled unless the closure was normal. */
    method OnClose(code: int)
      requires |sockets| > 0 && sockets[|sockets| - 1] != Closed
      modifies this
      ensures sockets == old(sockets)[|old(sockets)| - 1 := Closed]
      ensures timers == old(timers) + (if ReconnectAfter(code).Some? then 1 else 0)
      ensures delivered == old(delivered) && newrecord == old(newrecord)
    {
      sockets := sockets[|sockets| - 1 := Closed];
      if ReconnectAfter(code).Some? {
        timers := timers + 1;
      }
    }

    /** The reconnect timer as written: it calls `connect` again, which
        sends on the closed socket. */
    method OnTimerAsWritten()
      requires timers > 0 && |sockets| > 0 && sockets[|sockets| - 1] == Closed
      modifies this
      ensures timers == old(timers) - 1
      ensures sockets == old(sockets) && delivered == old(delivered) && newrecord == old(newrecord)
    {
      timers := timers - 1;
      Connect();
    }

    /** The reconnect the timer is evidently meant to make: a fresh socket,
        whose `onopen` sends the request again. */
    method OnTimer()
      requires timers > 0
      modifies this
      ensures timers == old(timers) - 1
      ensures sockets == old(sockets) + [Connecting]
      ensures delivered == old(delivered) && newrecord == old(newrecord)
    {
      timers := timers - 1;
      sockets := sockets + [Connecting];
    }
  }

  /** An abnormal closure followed by the reconnect timer, as written: no
      socket is open and the server got the request only once. */
  method ReconnectAsWritten(state: Json) returns (anyOpen: bool, requests: nat)
    requires Truthy(state)
    ensures !anyOpen && requests == 1
  {
    var page := new ResultPage(state);
    page.OnOpen();
    page.OnClose(1006);
    page.OnTimerAsWritten();
    anyOpen := Open in page.sockets;
    requests := |page.delivered|;
  }

  /** The same events with the intended reconnect: the new socket is open
      and the request has been sent again. */
  method ReconnectIntended(state: Json) returns (anyOpen: bool, requests: nat)
    requires Truthy(state)
    ensures anyOpen && requests == 2
  {
    var page := new ResultPage(state);
    page.OnOpen();
    page.OnClose(1006);
    page.OnTimer();
    page.OnOpen();
    assert page.sockets == [Closed, Open];
    anyOpen := Open in page.sockets;
    requests := |page.delivered|;
  }
}
