/** The initial values of the inventory form, each taken from the
    inventory being edited or defaulted when missing or falsy. */
module InventoryForm {
  import opened Js

  datatype InitialValues = InitialValues(
    name: Json,
    description: Json,
    variables: Json,
    organization: Json,
    instanceGroups: Json,
    labels: Json,
    preventInstanceGroupFallback: Json)

  /** The `inventory = {}` parameter default. */
  function InventoryParam(inventory: Json): Json {
    if inventory == Undefined then Obj([]) else inventory
  }

  /** `initialValues`: `||` defaults for every field; the organization is
      read from `summary_fields` only when that is truthy. Reading a
      property of a `null` inventory throws. */
  function Initial(inventory: Json, instanceGroups: Json): (r: Completion<InitialValues>)
    ensures r.Threw? <==> inventory == Null
  {
    var inv := InventoryParam(inventory);
    if Nullish(inv) then Threw
    else
      var summary := Get(inv, "summary_fields");
      Normal(InitialValues(
        Or(Get(inv, "name"), Str("")),
        Or(Get(inv, "description"), Str("")),
        Or(Get(inv, "variables"), Str("---")),
        Or(And(summary, Get(summary, "organization")), Null),
        Or(instanceGroups, Arr([])),
        Or(Path(inv, ["summary_fields", "labels", "results"]), Arr([])),
        Or(Get(inv, "prevent_instance_group_fallback"), Bool(false))))
  }

  /** Every field keeps a truthy value of the inventory and otherwise takes
      its default: `''`, `'---'`, `null`, `[]` or `false`. */
  lemma InitialDefaults(inventory: Json, instanceGroups: Json)
    requires inventory != Null
    ensures var inv := InventoryParam(inventory);
      var v := Initial(inventory, instanceGroups).value;
      var summary := Get(inv, "summary_fields");
      var labels := Path(inv, ["summary_fields", "labels", "results"]);
      (v.name == if Truthy(Get(inv, "name")) then Get(inv, "name") else Str("")) &&
      (v.description == if Truthy(Get(inv, "description")) then Get(inv, "description") else Str("")) &&
      (v.variables == if Truthy(Get(inv, "variables")) then Get(inv, "variables") else Str("---")) &&
      (v.organization == if Truthy(summary) && Truthy(Get(summary, "organization")) then Get(summary, "organization") else Null) &&
      (v.instanceGroups == if Truthy(instanceGroups) then instanceGroups else Arr([])) &&
      (v.labels == if Truthy(labels) then labels else Arr([])) &&
      (v.preventInstanceGroupFallback ==
         if Truthy(Get(inv, "prevent_instance_group_fallback")) then Get(inv, "prevent_instance_group_fallback") else Bool(false))
  {
  }

  /** A new form, without an inventory, starts from the defaults alone. */
  lemma NewInventoryDefaults(instanceGroups: Json)
    ensures Initial(Undefined, instanceGroups) == Normal(InitialValues(
      Str(""), Str(""), Str("---"), Null, Or(instanceGroups, Arr([])), Arr([]), Bool(false)))
  {
    assert Path(Obj([]), ["summary_fields", "labels", "results"]) == Undefined by {
      assert Get(Obj([]), "summary_fields") == Undefined;
      assert Path(Undefined, ["labels", "results"]) == Path(Undefined, ["results"]);
    }
  }

  /** `autoPopulate={!inventory?.id}`: the organization lookup fills
      itself in only for an inventory without an id. */
  predicate AutoPopulate(inventory: Json) {
    !Truthy(Get(InventoryParam(inventory), "id"))
  }

  lemma AutoPopulateOnlyWhenNew(id: int, rest: seq<Field>)
    requires id != 0
    ensures AutoPopulate(Undefined)
    ensures !AutoPopulate(Obj([Field("id", Num(id))] + rest))
  {
  }
}
