/** Decisions of the inventory API views: the `kind` of an inventory cannot
    change on update, a constructed inventory cannot feed another one, the
    constructed-inventory list, and the status mapping of the firewall
    version update endpoint. */
module InventoryViews {
  import opened Js
  import opened FirewallStatus

  const Constructed := "constructed"

  /** Python truthiness of a request value (`None` for an absent key). */
  predicate PyTruthy(v: Json) {
    match v
    case Undefined => false
    case Null => false
    case Bool(b) => b
    case Num(n) => n != 0
    case Str(s) => s != ""
    case Arr(items) => items != []
    case Obj(fields) => fields != []
  }

  /** `request.data.get('kind') or kwargs.get('kind')`; `Undefined` stands
      for an absent key, which `get` reads as `None`. */
  function RequestedKind(body: Json, urlKind: Json): (k: Json)
    ensures PyTruthy(body) ==> k == body
    ensures !PyTruthy(body) ==> k == urlKind
  {
    if PyTruthy(body) then body else urlKind
  }

  datatype UpdateOutcome = MethodNotAllowed | Delegated

  /** `InventoryDetail.update` for an inventory whose stored kind is
      `stored` (`''` for a regular inventory). */
  function Update(stored: string, body: Json, urlKind: Json): UpdateOutcome {
    var kind := RequestedKind(body, urlKind);
    if !Nullish(kind) && kind != Str(stored) then MethodNotAllowed else Delegated
  }

  /** The update is refused exactly when a kind is requested and it is not
      the stored one; otherwise it goes through unchanged. */
  lemma UpdateRefusedExactly(stored: string, body: Json, urlKind: Json)
    ensures Update(stored, body, urlKind) == MethodNotAllowed <==>
      (PyTruthy(body) && body != Str(stored))
      || (!PyTruthy(body) && !Nullish(urlKind) && urlKind != Str(stored))
  {
  }

  /** A non-empty kind in the body decides, whatever the URL says. */
  lemma BodyKindDecides(stored: string, kind: string, urlKind: Json)
    requires kind != ""
    ensures Update(stored, Str(kind), urlKind) == if kind == stored then Delegated else MethodNotAllowed
  {
  }

  /** An empty or absent kind in the body defers to the URL; with neither,
      the update goes through. */
  lemma EmptyBodyKindDefers(stored: string, body: Json)
    requires body == Undefined || body == Null || body == Str("")
    ensures Update(stored, body, Undefined) == Delegated
    ensures Update(stored, body, Str(stored)) == Delegated
  {
  }

  datatype Relation = Valid | ValidationError(message: string)

  /** `InventoryInputInventoriesList.is_valid_relation`. */
  function IsValidRelation(subKind: string): (r: Relation)
    ensures r.ValidationError? <==> subKind == Constructed
  {
    if subKind == Constructed
    then ValidationError("You cannot add a constructed inventory to another constructed inventory.")
    else Valid
  }

  datatype Inventory = Inventory(id: nat, kind: string)

  /** `ConstructedInventoryList.get_queryset`: the inventories of kind
      `constructed`, in their original order. */
  function ConstructedOnly(inventories: seq<Inventory>): seq<Inventory>
    decreases |inventories|
  {
    if inventories == [] then []
    else
      var rest := ConstructedOnly(inventories[1..]);
      if inventories[0].kind == Constructed then [inventories[0]] + rest else rest
  }

  /** The list holds exactly the constructed inventories and no more rows
      than there are inventories. */
  lemma {:induction false} ConstructedOnlyExactly(inventories: seq<Inventory>)
    ensures |ConstructedOnly(inventories)| <= |inventories|
    ensures forall x :: x in ConstructedOnly(inventories) <==> x in inventories && x.kind == Constructed
    decreases |inventories|
  {
    if inventories != [] {
      ConstructedOnlyExactly(inventories[1..]);
      assert inventories == [inventories[0]] + inventories[1..];
    }
  }

  /** The filter keeps the relative order: it distributes over concatenation. */
  lemma {:induction false} ConstructedOnlyAppend(a: seq<Inventory>, b: seq<Inventory>)
    ensures ConstructedOnly(a + b) == ConstructedOnly(a) + ConstructedOnly(b)
    decreases |a|
  {
    if a != [] {
      ConstructedOnlyAppend(a[1..], b);
      assert (a + b)[0] == a[0];
      assert (a + b)[1..] == a[1..] + b;
    } else {
      assert a + b == b;
    }
  }

  // ------------------------------------------------------------ firewall version update

  /** `process_ip`'s status for the outcomes of the two steps. */
  function ProcessIp(processed: bool, installed: bool): (s: Status)
    ensures s != Waiting
  {
    if processed then Processing else if installed then Installing else Updated
  }

  lemma ProcessIpExactly(processed: bool, installed: bool)
    ensures ProcessIp(processed, installed) == Processing <==> processed
    ensures ProcessIp(processed, installed) == Installing <==> !processed && installed
    ensures ProcessIp(processed, installed) == Updated <==> !processed && !installed
  {
  }

  /** `processing_firewalls` and `installing_firewalls`: placeholders that
      always succeed. */
  function StepSucceeds(ip: string): bool {
    true
  }

  /** `UpdateFireWallsVersion.post`: `None` when the serializer rejects the
      request (the view then returns nothing); otherwise the `data` map
      from each address to its status. */
  method Post(valid: bool, ips: seq<string>) returns (response: Option<map<string, Status>>)
    ensures response.Some? <==> valid
    ensures response.Some? ==> response.value.Keys == set ip | ip in ips
    ensures response.Some? ==> forall ip :: ip in response.value ==> response.value[ip] == Processing
  {
    if !valid {
      return None;
    }
    var data: map<string, Status> := map[];
    var i := 0;
    while i < |ips|
      invariant 0 <= i <= |ips|
      invariant data.Keys == set ip | ip in ips[..i]
      invariant forall ip :: ip in data ==> data[ip] == Processing
    {
      var ip := ips[i];
      data := data[ip := ProcessIp(StepSucceeds(ip), StepSucceeds(ip))];
      assert ips[..i + 1] == ips[..i] + [ip];
      i := i + 1;
    }
    assert ips[..i] == ips;
    response := Some(data);
  }
}
