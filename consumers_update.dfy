/** `UpdateFirewallsConsumer`: the websocket that walks a list of firewall
    addresses through `processing`, `installing` and `updated`, sends the
    whole status table after every change, and records each finished
    address in the status table of the database.

    The waits between steps do nothing observable, so the steps run one
    after another. The database table is a map keyed by (job, address). */
module UpdateFirewalls {
  import opened Js
  import opened FirewallStatus

  /** The job id `receive` files every record under. */
  const JobId: nat := 97

  datatype Key = Key(jobId: Option<nat>, ip: string)

  type Store = map<Key, StatusRecord>

  /** The status table sent to the browser (JSON key order is not modelled). */
  type Table = map<string, Status>

  /** Every row sits under its own job id and address. */
  predicate Consistent(store: Store) {
    forall k :: k in store ==> store[k].jobId == k.jobId && store[k].ipAddress == k.ip
  }

  // ------------------------------------------------------------ status tables

  /** The table once the first `k` addresses are done: those `updated`,
      the others still `waiting`. */
  function Progress(ips: seq<string>, k: nat): Table
    requires k <= |ips|
  {
    map x | x in ips :: if x in ips[..k] then Updated else Waiting
  }

  /** The table sent when address number `k` has reached `phase`. */
  function Snapshot(ips: seq<string>, k: nat, phase: Status): Table
    requires k < |ips|
  {
    Progress(ips, k)[ips[k] := phase]
  }

  /** The tables sent while the first `n` addresses are handled: three per
      address, in list order. */
  function Sent(ips: seq<string>, n: nat): (r: seq<Table>)
    requires n <= |ips|
    ensures |r| == 3 * n
  {
    if n == 0 then []
    else
      var k := n - 1;
      Sent(ips, k) + [Snapshot(ips, k, Processing), Snapshot(ips, k, Installing), Snapshot(ips, k, Updated)]
  }

  /** The phase of table `p` of an address's three, one step further
      along each time. */
  function PhaseAt(p: nat): (phase: Status)
    requires p < 3
    ensures Rank(phase) == p + 1
  {
    if p == 0 then Processing else if p == 1 then Installing else Updated
  }

  /** Table number `3k + p` is the one for address `k` in phase `p`. */
  lemma {:induction false} SentAt(ips: seq<string>, n: nat, k: nat, p: nat)
    requires k < n <= |ips| && p < 3
    ensures Sent(ips, n)[3 * k + p] == Snapshot(ips, k, PhaseAt(p))
  {
    if k < n - 1 {
      SentAt(ips, n - 1, k, p);
      assert Sent(ips, n)[3 * k + p] == Sent(ips, n - 1)[3 * k + p];
    }
  }

  /** In the table for address `k`, that address shows the phase, the
      other addresses handled before it show `updated` and the rest
      `waiting`. */
  lemma SnapshotReads(ips: seq<string>, k: nat, phase: Status, x: string)
    requires k < |ips| && x in ips
    ensures x in Snapshot(ips, k, phase)
    ensures Snapshot(ips, k, phase)[x] ==
      if x == ips[k] then phase else if x in ips[..k] then Updated else Waiting
  {
  }

  /** Every table lists exactly the addresses of the message. */
  lemma SnapshotKeys(ips: seq<string>, k: nat, phase: Status, x: string)
    requires k < |ips|
    ensures x in Snapshot(ips, k, phase) <==> x in ips
  {
  }

  predicate Distinct(ips: seq<string>) {
    forall i, j :: 0 <= i < j < |ips| ==> ips[i] != ips[j]
  }

  function Rank(s: Status): nat {
    match s
    case Waiting => 0
    case Processing => 1
    case Installing => 2
    case Updated => 3
  }

  lemma SnapshotOfDistinct(ips: seq<string>, k: nat, phase: Status, m: nat)
    requires Distinct(ips) && k < |ips| && m < |ips|
    ensures ips[m] in Snapshot(ips, k, phase)
    ensures Snapshot(ips, k, phase)[ips[m]] ==
      if k < m then Waiting else if k > m then Updated else phase
  {
    var x := ips[m];
    SnapshotReads(ips, k, phase, x);
    if k < m {
      assert x != ips[k];
      assert x !in ips[..k] by {
        forall j | 0 <= j < k ensures ips[..k][j] != x {
          assert ips[..k][j] == ips[j];
        }
      }
    } else if k > m {
      assert x != ips[k];
      assert ips[..k][m] == x;
    }
  }

  /** With distinct addresses, address `m` is `waiting` in every table
      before its own three, goes through the phases in them, and is
      `updated` in every table after. */
  lemma StatusOverTime(ips: seq<string>, k: nat, p: nat, m: nat)
    requires Distinct(ips) && k < |ips| && p < 3 && m < |ips|
    ensures ips[m] in Sent(ips, |ips|)[3 * k + p]
    ensures Sent(ips, |ips|)[3 * k + p][ips[m]] ==
      if k < m then Waiting else if k > m then Updated else PhaseAt(p)
  {
    SentAt(ips, |ips|, k, p);
    SnapshotOfDistinct(ips, k, PhaseAt(p), m);
  }

  /** With distinct addresses no status ever goes back: in table `i` an
      address is never further along than in a later table `j`. */
  lemma NeverBack(ips: seq<string>, i: nat, j: nat, x: string)
    requires Distinct(ips) && i <= j < 3 * |ips| && x in ips
    ensures x in Sent(ips, |ips|)[i] && x in Sent(ips, |ips|)[j]
    ensures Rank(Sent(ips, |ips|)[i][x]) <= Rank(Sent(ips, |ips|)[j][x])
  {
    var m :| 0 <= m < |ips| && ips[m] == x;
    var ki, pi := SentTable(ips, |ips|, i);
    var kj, pj := SentTable(ips, |ips|, j);
    SnapshotsNeverBack(ips, ki, pi, kj, pj, m);
  }

  lemma SnapshotsNeverBack(ips: seq<string>, ki: nat, pi: nat, kj: nat, pj: nat, m: nat)
    requires Distinct(ips) && m < |ips| && pi < 3 && pj < 3 && kj < |ips|
    requires 3 * ki + pi <= 3 * kj + pj
    ensures ips[m] in Snapshot(ips, ki, PhaseAt(pi)) && ips[m] in Snapshot(ips, kj, PhaseAt(pj))
    ensures Rank(Snapshot(ips, ki, PhaseAt(pi))[ips[m]]) <= Rank(Snapshot(ips, kj, PhaseAt(pj))[ips[m]])
  {
    assert ki <= kj;
    SnapshotOfDistinct(ips, ki, PhaseAt(pi), m);
    SnapshotOfDistinct(ips, kj, PhaseAt(pj), m);
  }

  /** Table `t` is table `p` of address `k`. */
  lemma SentTable(ips: seq<string>, n: nat, t: nat) returns (k: nat, p: nat)
    requires n <= |ips| && t < 3 * n
    ensures k < n && p < 3 && t == 3 * k + p
    ensures Sent(ips, n)[t] == Snapshot(ips, k, PhaseAt(p))
  {
    k, p := t / 3, t % 3;
    SentAt(ips, n, k, p);
  }

  /** A repeated address is taken through the phases again: after its
      first round it shows `updated`, then `processing` once more. */
  lemma RepeatedAddressRestarts(a: string, b: string)
    requires a != b
    ensures a in Sent([a, b, a], 3)[5] && Sent([a, b, a], 3)[5][a] == Updated
    ensures a in Sent([a, b, a], 3)[6] && Sent([a, b, a], 3)[6][a] == Processing
  {
    var ips := [a, b, a];
    SentAt(ips, 3, 1, 2);
    SentAt(ips, 3, 2, 0);
    assert ips[..1] == [a];
    assert ips[..2] == [a, b];
  }

  /** The last table holds exactly the listed addresses, all `updated`. */
  lemma AllUpdatedAtEnd(ips: seq<string>, x: string)
    requires ips != []
    ensures x in Sent(ips, |ips|)[3 * |ips| - 1] <==> x in ips
    ensures x in ips ==> Sent(ips, |ips|)[3 * |ips| - 1][x] == Updated
  {
    var k := |ips| - 1;
    assert 3 * |ips| - 1 == 3 * k + 2;
    SentAt(ips, |ips|, k, 2);
    LastSnapshot(ips, x);
  }

  lemma LastSnapshot(ips: seq<string>, x: string)
    requires ips != []
    ensures x in Snapshot(ips, |ips| - 1, Updated) <==> x in ips
    ensures x in ips ==> Snapshot(ips, |ips| - 1, Updated)[x] == Updated
  {
    var k := |ips| - 1;
    SnapshotKeys(ips, k, Updated, x);
    if x in ips {
      SnapshotReads(ips, k, Updated, x);
      if x != ips[k] {
        var m :| 0 <= m < |ips| && ips[m] == x;
        assert ips[..k][m] == x;
      }
    }
  }

  // ------------------------------------------------------------ the store

  /** `get_or_create(job_id=97, ip_address=ip, defaults={'status': 'updated'})`
      followed, for an existing row, by setting its status to `updated`. */
  function Upsert(store: Store, ip: string): (r: Store)
    ensures Consistent(store) ==> Consistent(r)
  {
    var key := Key(Some(JobId), ip);
    store[key := if key in store then store[key].(status := Updated)
                 else StatusRecord(Some(JobId), None, ip, Updated)]
  }

  function Recorded(store: Store, ips: seq<string>): Store
    decreases |ips|
  {
    if ips == [] then store else Upsert(Recorded(store, ips[..|ips| - 1]), ips[|ips| - 1])
  }

  /** After `receive`, every listed address has exactly one row under job 97
      with status `updated`, a row that already existed keeps its group
      name, and no other row changes. */
  lemma RecordedRows(store: Store, ips: seq<string>)
    requires Consistent(store)
    ensures var r := Recorded(store, ips);
      Consistent(r)
      && r.Keys == store.Keys + (set ip | ip in ips :: Key(Some(JobId), ip))
      && (forall k :: k in store && !(k.jobId == Some(JobId) && k.ip in ips) ==> r[k] == store[k])
      && (forall ip :: ip in ips ==>
            var k := Key(Some(JobId), ip);
            r[k].status == Updated
            && r[k].groupName == (if k in store then store[k].groupName else None))
  {
    RecordedConsistent(store, ips);
    RecordedKeys(store, ips);
    RecordedOthers(store, ips);
    RecordedUpdated(store, ips);
  }

  lemma {:induction false} RecordedConsistent(store: Store, ips: seq<string>)
    requires Consistent(store)
    ensures Consistent(Recorded(store, ips))
    decreases |ips|
  {
    if ips != [] {
      RecordedConsistent(store, ips[..|ips| - 1]);
    }
  }

  /** The last address and the ones before it are all the addresses. */
  lemma LastOrBefore(ips: seq<string>, ip: string)
    requires ips != []
    ensures ip in ips <==> ip in ips[..|ips| - 1] || ip == ips[|ips| - 1]
  {
    if ip in ips {
      var m :| 0 <= m < |ips| && ips[m] == ip;
      if m < |ips| - 1 {
        assert ips[..|ips| - 1][m] == ip;
      }
    }
  }

  lemma {:induction false} RecordedKeys(store: Store, ips: seq<string>)
    ensures Recorded(store, ips).Keys == store.Keys + (set ip | ip in ips :: Key(Some(JobId), ip))
    decreases |ips|
  {
    if ips != [] {
      RecordedKeys(store, ips[..|ips| - 1]);
      forall ip ensures ip in ips <==> ip in ips[..|ips| - 1] || ip == ips[|ips| - 1] {
        LastOrBefore(ips, ip);
      }
    }
  }

  lemma {:induction false} RecordedOthers(store: Store, ips: seq<string>)
    ensures forall k :: k in store && !(k.jobId == Some(JobId) && k.ip in ips) ==>
      k in Recorded(store, ips) && Recorded(store, ips)[k] == store[k]
    decreases |ips|
  {
    if ips != [] {
      var init := ips[..|ips| - 1];
      RecordedOthers(store, init);
      RecordedKeys(store, init);
      forall k | k in store && !(k.jobId == Some(JobId) && k.ip in ips)
        ensures k in Recorded(store, ips) && Recorded(store, ips)[k] == store[k]
      {
        LastOrBefore(ips, k.ip);
      }
    }
  }

  lemma {:induction false} RecordedUpdated(store: Store, ips: seq<string>)
    ensures forall ip :: ip in ips ==>
      var k := Key(Some(JobId), ip);
      && k in Recorded(store, ips)
      && Recorded(store, ips)[k].status == Updated
      && Recorded(store, ips)[k].groupName == (if k in store then store[k].groupName else None)
    decreases |ips|
  {
    if ips != [] {
      var init := ips[..|ips| - 1];
      RecordedUpdated(store, init);
      RecordedOthers(store, init);
      RecordedKeys(store, init);
      forall ip | ip in ips
        ensures var k := Key(Some(JobId), ip);
          && k in Recorded(store, ips)
          && Recorded(store, ips)[k].status == Updated
          && Recorded(store, ips)[k].groupName == (if k in store then store[k].groupName else None)
      {
        LastOrBefore(ips, ip);
      }
    }
  }

  /** What `send_initial_status` computes from the rows, in query order:
      each address with the status of its last row. */
  function InitialStatus(rows: seq<StatusRecord>): Table
    decreases |rows|
  {
    if rows == [] then map[]
    else
      var last := rows[|rows| - 1];
      InitialStatus(rows[..|rows| - 1])[last.ipAddress := last.status]
  }

  lemma {:induction false} InitialStatusLastWins(rows: seq<StatusRecord>, i: nat)
    requires i < |rows|
    requires forall j :: i < j < |rows| ==> rows[j].ipAddress != rows[i].ipAddress
    ensures rows[i].ipAddress in InitialStatus(rows)
    ensures InitialStatus(rows)[rows[i].ipAddress] == rows[i].status
    decreases |rows|
  {
    if i < |rows| - 1 {
      var init := rows[..|rows| - 1];
      assert init[i] == rows[i];
      InitialStatusLastWins(init, i);
    }
  }

  lemma {:induction false} InitialStatusKeys(rows: seq<StatusRecord>)
    ensures InitialStatus(rows).Keys == set r | r in rows :: r.ipAddress
    decreases |rows|
  {
    if rows != [] {
      var init := rows[..|rows| - 1];
      InitialStatusKeys(init);
      assert rows == init + [rows[|rows| - 1]];
    }
  }
  /** `UpdateFirewallStatus.objects.all()`: the rows list exactly the
      store's records, in some order. */
  predicate Enumerates(rows: seq<StatusRecord>, store: Store) {
    (forall i :: 0 <= i < |rows| ==> rows[i] in store.Values)
    && (forall k :: k in store ==> store[k] in rows)
  }

  /** For any listing of a consistent store, the initial table holds
      exactly the addresses the store has records for. */
  lemma InitialStatusOfStore(rows: seq<StatusRecord>, store: Store)
    requires Consistent(store) && Enumerates(rows, store)
    ensures InitialStatus(rows).Keys == set k | k in store :: k.ip
  {
    InitialStatusKeys(rows);
    forall r | r in rows
      ensures r.ipAddress in set k | k in store :: k.ip
    {
      var i :| 0 <= i < |rows| && rows[i] == r;
      var k :| k in store && store[k] == r;
    }
    forall ip | ip in set k | k in store :: k.ip
      ensures ip in InitialStatus(rows).Keys
    {
      var k :| k in store && k.ip == ip;
      assert store[k] in rows;
    }
  }


  function AllWaiting(ips: seq<string>): Table {
    map x | x in ips :: Waiting
  }

  lemma WaitingStep(ips: seq<string>, i: nat)
    requires i < |ips|
    ensures AllWaiting(ips[..i])[ips[i] := Waiting] == AllWaiting(ips[..i + 1])
  {
    assert ips[..i + 1] == ips[..i] + [ips[i]];
  }

  /** One round of the second loop of `receive`: setting the address to
      each phase in turn gives the three tables `Sent` lists for it, and
      the last of them is the table with one more address done. */
  lemma RoundStep(ips: seq<string>, k: nat)
    requires k < |ips|
    ensures var t1 := Progress(ips, k)[ips[k] := Processing];
      var t2 := t1[ips[k] := Installing];
      var t3 := t2[ips[k] := Updated];
      && t1 == Snapshot(ips, k, Processing) && t2 == Snapshot(ips, k, Installing)
      && t3 == Snapshot(ips, k, Updated) && t3 == Progress(ips, k + 1)
  {
    var base := Progress(ips, k);
    var ip := ips[k];
    assert base[ip := Processing][ip := Installing] == base[ip := Installing];
    assert base[ip := Processing][ip := Installing][ip := Updated] == base[ip := Updated];
    assert ips[..k + 1] == ips[..k] + [ip];
    assert base[ip := Updated] == Progress(ips, k + 1);
  }

  /** The first loop of `receive`: every address `waiting`. */
  method WaitingTable(ips: seq<string>) returns (table: Table)
    ensures table == Progress(ips, 0)
  {
    table := map[];
    var i := 0;
    while i < |ips|
      invariant 0 <= i <= |ips|
      invariant table == AllWaiting(ips[..i])
    {
      WaitingStep(ips, i);
      table := table[ips[i] := Waiting];
      i := i + 1;
    }
    assert ips[..i] == ips;
  }

  /** Three more tables sent, in the order `Sent` lists them. */
  lemma SentStep(start: seq<Table>, ips: seq<string>, k: nat)
    requires k < |ips|
    ensures start + Sent(ips, k) + [Snapshot(ips, k, Processing), Snapshot(ips, k, Installing), Snapshot(ips, k, Updated)]
      == start + Sent(ips, k + 1)
  {
  }

  /** Recording the addresses one more at a time. */
  lemma RecordedStep(store: Store, ips: seq<string>, k: nat)
    requires k < |ips|
    ensures Recorded(store, ips[..k + 1]) == Upsert(Recorded(store, ips[..k]), ips[k])
  {
    assert ips[..k + 1][..k] == ips[..k];
  }

  // ------------------------------------------------------------ the consumer

  /** The exception that ends `connect`. Under Django's async-safety check
      the query of `send_initial_status`, run inside the event loop, raises
      `SynchronousOnlyOperation`; with the check switched off
      (`DJANGO_ALLOW_ASYNC_UNSAFE`) the query runs and awaiting the method's
      `None` raises `TypeError`. */
  datatype ConnectError = SynchronousOnlyOperation | TypeErrorOnAwait

  class UpdateFirewallsConsumer {
    var store: Store
    /** Tables sent to the browser, oldest first. */
    var outbox: seq<Table>
    var accepted: bool

    constructor (rows: Store)
      requires Consistent(rows)
      ensures store == rows && outbox == [] && !accepted
    {
      store := rows;
      outbox := [];
      accepted := false;
    }

    /** `connect` accepts the socket and then calls the plain method
        `send_initial_status`. Under the async-safety check its query
        raises first; without it, the send inside is never awaited, and
        awaiting the method's `None` raises. Either way no table is sent. */
    method Connect(asyncUnsafeAllowed: bool) returns (raised: ConnectError)
      modifies this
      ensures accepted
      ensures raised == (if asyncUnsafeAllowed then TypeErrorOnAwait else SynchronousOnlyOperation)
      ensures outbox == old(outbox) && store == old(store)
    {
      accepted := true;
      if asyncUnsafeAllowed {
        raised := TypeErrorOnAwait;
      } else {
        raised := SynchronousOnlyOperation;
      }
    }

    /** `receive` with the message's `ip_addresses` (an absent list is
        empty): all addresses start `waiting`; each in turn is sent as
        `processing`, `installing`, `updated`, then recorded. The
        `get_or_create` that records an address is not wrapped in
        `sync_to_async`: under the async-safety check it raises
        `SynchronousOnlyOperation` after the first address's three tables,
        and nothing is recorded. */
    method Receive(ips: seq<string>, asyncUnsafeAllowed: bool) returns (raised: bool)
      requires Consistent(store)
      modifies this
      ensures raised <==> !asyncUnsafeAllowed && |ips| > 0
      ensures !raised ==> outbox == old(outbox) + Sent(ips, |ips|) && store == Recorded(old(store), ips)
      ensures raised ==> outbox == old(outbox) + Sent(ips, 1) && store == old(store)
      ensures Consistent(store)
      ensures accepted == old(accepted)
    {
      raised := !asyncUnsafeAllowed && |ips| > 0;
      var table := WaitingTable(ips);
      if raised {
        ghost var sent := outbox;
        table := SendRound(ips, 0, table);
        SentStep(sent, ips, 0);
      } else {
        Rounds(ips, table);
      }
    }

    /** The second loop of `receive` when every `get_or_create` succeeds. */
    method Rounds(ips: seq<string>, table: Table)
      requires table == Progress(ips, 0) && Consistent(store)
      modifies this
      ensures outbox == old(outbox) + Sent(ips, |ips|)
      ensures store == Recorded(old(store), ips)
      ensures Consistent(store)
      ensures accepted == old(accepted)
    {
      ghost var sent, recorded := outbox, store;
      var next := table;
      var k := 0;
      while k < |ips|
        invariant 0 <= k <= |ips|
        invariant next == Progress(ips, k)
        invariant outbox == sent + Sent(ips, k)
        invariant store == Recorded(recorded, ips[..k])
        invariant Consistent(store)
        invariant accepted == old(accepted)
      {
        next := Round(ips, k, next);
        SentStep(sent, ips, k);
        RecordedStep(recorded, ips, k);
        k := k + 1;
      }
      assert ips[..k] == ips;
    }

    /** One round of the second loop of `receive`: address `k` is sent as
        `processing`, `installing` and `updated`, then recorded. */
    method Round(ips: seq<string>, k: nat, table: Table) returns (next: Table)
      requires k < |ips| && table == Progress(ips, k) && Consistent(store)
      modifies this
      ensures next == Progress(ips, k + 1)
      ensures outbox == old(outbox) + [Snapshot(ips, k, Processing), Snapshot(ips, k, Installing), Snapshot(ips, k, Updated)]
      ensures store == Upsert(old(store), ips[k]) && Consistent(store)
      ensures accepted == old(accepted)
    {
      next := SendRound(ips, k, table);
      store := Upsert(store, ips[k]);
    }

    /** The three sends of one round, before the address is recorded. */
    method SendRound(ips: seq<string>, k: nat, table: Table) returns (next: Table)
      requires k < |ips| && table == Progress(ips, k)
      modifies this
      ensures next == Progress(ips, k + 1)
      ensures outbox == old(outbox) + [Snapshot(ips, k, Processing), Snapshot(ips, k, Installing), Snapshot(ips, k, Updated)]
      ensures store == old(store) && accepted == old(accepted)
    {
      var ip := ips[k];
      RoundStep(ips, k);
      next := table[ip := Processing];
      outbox := outbox + [next];
      next := next[ip := Installing];
      outbox := outbox + [next];
      next := next[ip := Updated];
      outbox := outbox + [next];
    }
  }
}
