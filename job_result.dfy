/** The job screen `JobResult`: it picks the job's result table out of the
    job's events, and renders its columns, header cells and row cells, or
    a message while there is no table. */
module JobResult {
  import opened Js

  const NoResult := "This job did not produce a result."
  const Running := "Job is currently running..."

  // ------------------------------------------------------------ events

  /** The events are fetched only while there is no result yet. */
  predicate FetchNeeded(result: Json) {
    !Truthy(result)
  }

  /** `fetchData`, given the events the request returns (the request is
      not modelled). With a result already set nothing is fetched and
      nothing changes; otherwise the events are applied in order. */
  method FetchData(result: Json, events: seq<Json>) returns (newResult: Json, threw: bool, fetched: bool)
    ensures fetched <==> FetchNeeded(result)
    ensures !fetched ==> newResult == result && !threw
    ensures fetched && !threw ==> newResult == Scanned(events, result)
    ensures fetched && threw ==> exists n :: (0 <= n < |events| && Nullish(events[n]) &&
                                             (forall k :: 0 <= k < n ==> !Nullish(events[k])) &&
                                             newResult == Scanned(events[..n], result))
  {
    if !FetchNeeded(result) {
      return result, false, false;
    }
    fetched := true;
    newResult, threw := ApplyEvents(events, result);
  }

  /** Once an event carries a result, the next run of `fetchData` finds it
      set and fetches nothing. */
  lemma FetchSettles(events: seq<Json>, current: Json, k: nat)
    requires k < |events| && Truthy(AwxResult(events[k]))
    ensures !FetchNeeded(Scanned(events, current))
  {
    var c := LastCarrier(events, k);
    ScannedIsLast(events, current);
  }

  /** `event.event_data?.res?.awx_result` for an event that is not
      `null`. */
  function AwxResult(event: Json): Json {
    Path(event, ["event_data", "res", "awx_result"])
  }

  /** The result after `setResult` for every event, in order, that
      carries a truthy `awx_result`: the last such event wins. */
  function Scanned(events: seq<Json>, current: Json): (r: Json)
    ensures r == current || exists k :: 0 <= k < |events| && r == AwxResult(events[k])
  {
    if events == [] then current
    else
      var prev := Scanned(events[..|events| - 1], current);
      var a := AwxResult(events[|events| - 1]);
      assert forall k :: 0 <= k < |events| - 1 ==> events[..|events| - 1][k] == events[k];
      if Truthy(a) then a else prev
  }

  /** The result is the `awx_result` of the last event carrying one, and
      stays as it was when no event carries one. */
  lemma {:induction false} ScannedIsLast(events: seq<Json>, current: Json)
    ensures (forall k :: 0 <= k < |events| ==> !Truthy(AwxResult(events[k]))) ==> Scanned(events, current) == current
    ensures forall k :: (0 <= k < |events| && Truthy(AwxResult(events[k])) &&
                         (forall j :: k < j < |events| ==> !Truthy(AwxResult(events[j]))))
                         ==> Scanned(events, current) == AwxResult(events[k])
    decreases |events|
  {
    if events != [] {
      var n := |events| - 1;
      var init := events[..n];
      ScannedIsLast(init, current);
      var last := AwxResult(events[n]);
      assert Scanned(events, current) == if Truthy(last) then last else Scanned(init, current);
      if forall k :: 0 <= k < |events| ==> !Truthy(AwxResult(events[k])) {
        forall k | 0 <= k < |init|
          ensures !Truthy(AwxResult(init[k]))
        {
          assert init[k] == events[k];
        }
      }
      forall k | 0 <= k < |events| && Truthy(AwxResult(events[k])) &&
                 (forall j :: k < j < |events| ==> !Truthy(AwxResult(events[j])))
        ensures Scanned(events, current) == AwxResult(events[k])
      {
        if k < n {
          assert !Truthy(last);
          assert init[k] == events[k];
          forall j | k < j < |init|
            ensures !Truthy(AwxResult(init[j]))
          {
            assert init[j] == events[j];
          }
        }
      }
    }
  }

  /** `readEvents` orders by `-counter`, so the chosen event is the one
      with the lowest counter among those carrying a result. */
  lemma LowestCounterWins(events: seq<Json>, current: Json, counter: Json -> int, k: nat)
    requires forall i, j :: 0 <= i < j < |events| ==> counter(events[i]) > counter(events[j])
    requires k < |events| && Truthy(AwxResult(events[k]))
    ensures exists c :: (0 <= c < |events| && Truthy(AwxResult(events[c])) &&
                         Scanned(events, current) == AwxResult(events[c]) && counter(events[c]) <= counter(events[k]))
  {
    var c := LastCarrier(events, k);
    ScannedIsLast(events, current);
  }

  /** The last event carrying a result, at or after `k`. */
  lemma {:induction false} LastCarrier(events: seq<Json>, k: nat) returns (c: nat)
    requires k < |events| && Truthy(AwxResult(events[k]))
    ensures k <= c < |events| && Truthy(AwxResult(events[c]))
    ensures forall j :: c < j < |events| ==> !Truthy(AwxResult(events[j]))
    decreases |events| - k
  {
    if exists j :: k < j < |events| && Truthy(AwxResult(events[j])) {
      var j :| k < j < |events| && Truthy(AwxResult(events[j]));
      c := LastCarrier(events, j);
    } else {
      c := k;
    }
  }

  /** `fetchData`'s `forEach`: reading `event_data` of a `null` event
      throws, after the earlier events have been applied. */
  method ApplyEvents(events: seq<Json>, current: Json) returns (result: Json, threw: bool)
    ensures !threw ==> result == Scanned(events, current) && forall k :: 0 <= k < |events| ==> !Nullish(events[k])
    ensures threw ==> exists n :: (0 <= n < |events| && Nullish(events[n]) &&
                                   (forall k :: 0 <= k < n ==> !Nullish(events[k])) &&
                                   result == Scanned(events[..n], current))
  {
    result := current;
    threw := false;
    var i := 0;
    while i < |events|
      invariant 0 <= i <= |events|
      invariant result == Scanned(events[..i], current)
      invariant forall k :: 0 <= k < i ==> !Nullish(events[k])
    {
      var event := events[i];
      if Nullish(event) {
        threw := true;
        return;
      }
      assert events[..i + 1][..i] == events[..i];
      var a := AwxResult(event);
      if Truthy(a) {
        result := a;
      }
      i := i + 1;
    }
    assert events[..i] == events;
  }

  // ----------------------------------------------------------- columns

  datatype Column = Column(name: Json, key: Option<string>, isDefault: bool)

  /** `` t`${column.rowKey}__icontains` ``; the text of an array or object
      key is not modelled. */
  function SearchKey(rowKey: Json): Option<string> {
    match ToText(rowKey)
    case None => None
    case Some(t) => Some(t + "__icontains")
  }

  /** `{name: column.name, key: ...}`; reading a `null` column throws. */
  function ColumnOf(column: Json): Completion<Column> {
    if Nullish(column) then Threw
    else Normal(Column(Get(column, "name"), SearchKey(Get(column, "rowKey")), false))
  }

  /** `result?.columns.map(...)` with the first column marked as the
      default one: `None` without a result, a throw when the result has no
      array of columns. */
  function Columns(result: Json): (r: Completion<Option<seq<Column>>>)
    ensures Nullish(result) ==> r == Normal(None)
    ensures !Nullish(result) && !Get(result, "columns").Arr? ==> r.Threw?
    ensures r.Normal? && r.value.Some? ==>
      var cs := Get(result, "columns").items;
      |r.value.value| == |cs| &&
      (forall i :: 0 <= i < |cs| ==>
         r.value.value[i] == Column(Get(cs[i], "name"), SearchKey(Get(cs[i], "rowKey")), i == 0))
  {
    if Nullish(result) then Normal(None)
    else match Get(result, "columns")
      case Arr(cs) =>
        (match MapAll(cs, ColumnOf)
         case Threw => Threw
         case Normal(cols) =>
           Normal(Some(if |cols| > 0 then cols[0 := cols[0].(isDefault := true)] else cols)))
      case _ => Threw
  }

  /** A header cell: `column.name`, or `rowKey` when the name is falsy. */
  function Header(column: Json): (r: Json)
    ensures Truthy(Get(column, "name")) ==> r == Get(column, "name")
    ensures !Truthy(Get(column, "name")) ==> r == Get(column, "rowKey")
  {
    Or(Get(column, "name"), Get(column, "rowKey"))
  }

  /** A row cell: `String(row[rowKey])` when the row has its own
      property `rowKey`, and `''` otherwise; `hasOwnProperty.call` on a
      `null` or `undefined` row throws. */
  function Cell(row: Json, column: Json): (r: Completion<Option<string>>)
    ensures r.Threw? <==> Nullish(row)
    ensures (match ToText(Get(column, "rowKey"))
             case Some(k) => HasOwn(row, k) ==> r == Normal(ToText(OwnValue(row, k)))
             case None => true)
    ensures !Nullish(row) && (forall k :: ToText(Get(column, "rowKey")) == Some(k) ==> !HasOwn(row, k)) ==>
      r == Normal(Some(""))
  {
    if Nullish(row) then Threw
    else match ToText(Get(column, "rowKey"))
      case Some(k) => Normal(if HasOwn(row, k) then ToText(OwnValue(row, k)) else Some(""))
      case None => Normal(Some(""))
  }

  /** An array row shows the element at a numeric `rowKey` below its
      length, and `''` at one past it. */
  lemma CellOfArrayRow(items: seq<string>, i: nat)
    requires i < |items|
    ensures Cell(Arr(seq(|items|, k requires 0 <= k < |items| => Str(items[k]))), Obj([Field("rowKey", Num(i))]))
      == Normal(Some(items[i]))
    ensures Cell(Arr(seq(|items|, k requires 0 <= k < |items| => Str(items[k]))), Obj([Field("rowKey", Num(|items|))]))
      == Normal(Some(""))
  {
    ArrayIndexOfDigits(i);
    ArrayIndexOfDigits(|items|);
    assert Get(Obj([Field("rowKey", Num(i))]), "rowKey") == Num(i);
    assert Get(Obj([Field("rowKey", Num(|items|))]), "rowKey") == Num(|items|);
  }

  lemma {:induction false} LookupFound(fields: seq<Field>, k: string, i: nat)
    requires i < |fields| && fields[i].key == k
    requires forall j :: 0 <= j < i ==> fields[j].key != k
    ensures Lookup(fields, k) == fields[i].value
    decreases i
  {
    if i > 0 {
      LookupFound(fields[1..], k, i - 1);
    }
  }

  /** A row holding the key once, with a string value, shows that string;
      a row without the key shows nothing. */
  lemma CellOfRow(before: seq<Field>, k: string, v: string, after: seq<Field>)
    requires forall j :: 0 <= j < |before| ==> before[j].key != k
    ensures Cell(Obj(before + [Field(k, Str(v))] + after), Obj([Field("rowKey", Str(k))])) == Normal(Some(v))
    ensures Cell(Obj(before), Obj([Field("rowKey", Str(k))])) == Normal(Some(""))
  {
    var fields := before + [Field(k, Str(v))] + after;
    assert fields[|before|].key == k;
    LookupFound(fields, k, |before|);
    assert HasOwn(Obj(fields), k);
  }

  // ----------------------------------------------------------- message

  /** Without rows the screen shows a message instead of the table: the
      job produced no result once it has finished, and is still running
      otherwise. */
  function Message(result: Json, finished: Json): (r: Option<string>)
    ensures r.None? <==> Truthy(Get(result, "rows"))
    ensures r.Some? ==> (r.value == NoResult <==> Truthy(finished))
    ensures r.Some? ==> (r.value == Running <==> !Truthy(finished))
  {
    if !Truthy(Get(result, "rows")) then Some(if Truthy(finished) then NoResult else Running)
    else None
  }

  /** What the screen renders: `result?.columns.map` runs first, so a
      result without a columns array throws before any message or table;
      otherwise the message, or `None` for the table. */
  function Screen(result: Json, finished: Json): (r: Completion<Option<string>>)
    ensures r.Threw? <==> Columns(result).Threw?
    ensures r.Normal? ==> r.value == Message(result, finished)
  {
    match Columns(result)
    case Threw => Threw
    case Normal(_) => Normal(Message(result, finished))
  }

  /** Without a result the screen always shows a message; a result that is
      not `null` but has no columns array throws even when it has no rows,
      so the message is never reached. */
  lemma ScreenOutcomes(result: Json, finished: Json)
    ensures Nullish(result) ==>
      Screen(result, finished) == Normal(Some(if Truthy(finished) then NoResult else Running))
    ensures !Nullish(result) && !Get(result, "columns").Arr? ==> Screen(result, finished).Threw?
    ensures Screen(result, finished).Normal? && Screen(result, finished).value.None? ==>
      Get(result, "columns").Arr? && Truthy(Get(result, "rows"))
  {
  }
}
