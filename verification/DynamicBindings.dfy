/**
  Materializing one dynamic predicate value against its contract: scalars are
  serialized on the host side and validated on both sides.
 */
module DynamicBindings {
  import opened DynamicInput
  import opened Wrappers

  datatype Representation = Host | Wire

  datatype ContractOperator = ContractOperator(name: string, kind: ValueKind)

  /** A serializer that gives no value throws. */
  datatype ContractField = ContractField(key: string, operators: seq<ContractOperator>,
                                         serialize: Option<Value -> Option<Value>>, valid: Value -> bool)

  function FindContractField(fields: seq<ContractField>, key: string): Option<ContractField> {
    if fields == [] then None else if fields[0].key == key then Some(fields[0]) else FindContractField(fields[1..], key)
  }

  function FindContractOperator(operators: seq<ContractOperator>, name: string): Option<ContractOperator> {
    if operators == [] then None else if operators[0].name == name then Some(operators[0])
    else FindContractOperator(operators[1..], name)
  }

  /** The wire form of a scalar; nothing where the original throws. */
  function ScalarForm(field: ContractField, representation: Representation, value: Value): Option<Value> {
    var wire := if representation == Host && field.serialize.Some? then field.serialize.value(value) else Some(value);
    if wire.None? || wire.value.Null? || !field.valid(wire.value) then None else wire
  }

  function OperandForm(field: ContractField, representation: Representation, name: string,
                       operand: Value): Option<Value>
  {
    match FindContractOperator(field.operators, name)
    case None => None
    case Some(operator) =>
      match operator.kind
      case Flag => if operand.Boolean? then Some(operand) else None
      case Scalar => ScalarForm(field, representation, operand)
      case Collection =>
        if operand.Array? && forall i :: 0 <= i < |operand.items| ==>
            ScalarForm(field, representation, operand.items[i]).Some? then
          Some(Array(seq(|operand.items|,
                         i requires 0 <= i < |operand.items| =>
                             ScalarForm(field, representation, operand.items[i]).value)))
        else None
      case UnknownKind => None
  }

  function EntryForm(fields: seq<ContractField>, representation: Representation, key: string,
                     item: Value): Option<Value>
    decreases item, 1
  {
    if key == "and" || key == "or" then
      if item.Array? && forall i :: 0 <= i < |item.items| ==>
          PredicateForm(fields, representation, item.items[i]).Some? then
        Some(Array(seq(|item.items|,
                       i requires 0 <= i < |item.items| => PredicateForm(fields, representation, item.items[i]).value)))
      else None
    else if key == "not" then PredicateForm(fields, representation, item)
    else
      match FindContractField(fields, key)
      case None => None
      case Some(field) =>
        if item.Object? && forall name :: name in item.entries ==>
            OperandForm(field, representation, name, item.entries[name]).Some? then
          Some(Object(map name | name in item.entries ::
                      OperandForm(field, representation, name, item.entries[name]).value))
        else None
  }

  /** The wire form of a predicate; an entry without a form makes the whole fail. */
  function PredicateForm(fields: seq<ContractField>, representation: Representation, value: Value): Option<Value>
    decreases value, 0
  {
    if value.Object? && forall key :: key in value.entries ==>
        EntryForm(fields, representation, key, value.entries[key]).Some? then
      Some(Object(map key | key in value.entries :: EntryForm(fields, representation, key, value.entries[key]).value))
    else None
  }

  lemma OperandFormTwice(field: ContractField, representation: Representation, name: string, operand: Value)
    requires OperandForm(field, representation, name, operand).Some?
    ensures OperandForm(field, Wire, name, OperandForm(field, representation, name, operand).value) ==
              OperandForm(field, representation, name, operand)
  {
    var form := OperandForm(field, representation, name, operand).value;
    if FindContractOperator(field.operators, name).value.kind.Collection? {
      var again := seq(|form.items|, i requires 0 <= i < |form.items| => ScalarForm(field, Wire, form.items[i]).value);
      assert again == form.items;
    }
  }

  lemma {:induction false} EntryFormTwice(fields: seq<ContractField>, representation: Representation, key: string,
                                          item: Value)
    requires EntryForm(fields, representation, key, item).Some?
    ensures EntryForm(fields, Wire, key, EntryForm(fields, representation, key, item).value) ==
              EntryForm(fields, representation, key, item)
    decreases item, 1
  {
    var form := EntryForm(fields, representation, key, item).value;
    if key == "and" || key == "or" {
      forall i | 0 <= i < |item.items| ensures PredicateForm(fields, Wire, form.items[i]) == Some(form.items[i]) {
        PredicateFormTwice(fields, representation, item.items[i]);
      }
      assert seq(|form.items|, i requires 0 <= i < |form.items| => PredicateForm(fields, Wire, form.items[i]).value) ==
               form.items;
    } else if key == "not" {
      PredicateFormTwice(fields, representation, item);
    } else {
      var field := FindContractField(fields, key).value;
      forall name | name in item.entries
        ensures OperandForm(field, Wire, name, form.entries[name]) == Some(form.entries[name])
      {
        OperandFormTwice(field, representation, name, item.entries[name]);
      }
      assert (map name | name in form.entries :: OperandForm(field, Wire, name, form.entries[name]).value) ==
               form.entries;
    }
  }

  /** The wire side leaves the form of a predicate as it is. */
  lemma {:induction false} PredicateFormTwice(fields: seq<ContractField>, representation: Representation, value: Value)
    requires PredicateForm(fields, representation, value).Some?
    ensures PredicateForm(fields, Wire, PredicateForm(fields, representation, value).value) ==
              PredicateForm(fields, representation, value)
    decreases value, 0
  {
    var form := PredicateForm(fields, representation, value).value;
    forall key | key in value.entries
      ensures EntryForm(fields, Wire, key, form.entries[key]) == Some(form.entries[key])
    {
      EntryFormTwice(fields, representation, key, value.entries[key]);
    }
    assert form.Object? && forall key :: key in form.entries ==> EntryForm(fields, Wire, key, form.entries[key]).Some?;
    var again := PredicateForm(fields, Wire, form);
    assert again.Some? && again.value.Object? && again.value.entries.Keys == form.entries.Keys;
    forall key | key in form.entries ensures again.value.entries[key] == form.entries[key] {
      assert EntryForm(fields, Wire, key, form.entries[key]) == Some(form.entries[key]);
    }
    assert again.value.entries == form.entries;
  }
}
