/**
  Materializing the bindings of an operation: defaults filled in, host values
  serialized, nulls of dynamic inputs replaced by their identity.  The host pass
  runs before transport and the wire pass again before execution.
 */
module Bindings {
  import opened DynamicBindings
  import opened DynamicInput
  import opened Wrappers

  /* ---- paths into nested objects ---- */

  type KeyPath = seq<string>

  datatype Lookup = Found(value: Value) | Missing | NotAnObject

  function At(value: Value, path: KeyPath): Lookup {
    if path == [] then Found(value)
    else if !value.Object? then NotAnObject
    else if path[0] !in value.entries then Missing
    else At(value.entries[path[0]], path[1..])
  }

  /** The value with the path set; missing objects on the way are created. */
  function Set(value: Value, path: KeyPath, replacement: Value): Option<Value>
    requires path != []
    decreases |path|
  {
    if !value.Object? then None
    else if |path| == 1 then Some(Object(value.entries[path[0] := replacement]))
    else
      var child := if path[0] in value.entries then value.entries[path[0]] else Object(map[]);
      match Set(child, path[1..], replacement)
      case None => None
      case Some(next) => Some(Object(value.entries[path[0] := next]))
  }

  /** Neither path leads through the other. */
  predicate Apart(p: KeyPath, q: KeyPath) {
    !(p <= q) && !(q <= p)
  }

  /** A path can be set exactly when looking it up meets objects only, and then it holds the new value. */
  lemma {:induction false} SetAt(value: Value, path: KeyPath, replacement: Value)
    requires path != []
    ensures Set(value, path, replacement).Some? <==> !At(value, path).NotAnObject?
    ensures Set(value, path, replacement).Some? ==> At(Set(value, path, replacement).value, path) == Found(replacement)
    decreases |path|
  {
    if value.Object? && |path| > 1 {
      var child := if path[0] in value.entries then value.entries[path[0]] else Object(map[]);
      SetAt(child, path[1..], replacement);
    }
  }

  /** Setting one path changes nothing at a path apart from it. */
  lemma {:induction false} SetApart(value: Value, path: KeyPath, replacement: Value, other: KeyPath)
    requires path != [] && Apart(path, other) && Set(value, path, replacement).Some?
    ensures At(Set(value, path, replacement).value, other) == At(value, other)
    decreases |path|
  {
    if path[0] == other[0] {
      assert path == [path[0]] + path[1..] && other == [other[0]] + other[1..];
      assert path[1..] <= other[1..] ==> path <= other;
      assert other[1..] <= path[1..] ==> other <= path;
      if |path| > 1 {
        var child := if path[0] in value.entries then value.entries[path[0]] else Object(map[]);
        SetApart(child, path[1..], replacement, other[1..]);
      }
    }
  }

  /** Setting what is already there changes nothing. */
  lemma {:induction false} SetSame(value: Value, path: KeyPath)
    requires path != [] && At(value, path).Found?
    ensures Set(value, path, At(value, path).value) == Some(value)
    decreases |path|
  {
    assert value.entries[path[0] := value.entries[path[0]]] == value.entries;
    if |path| > 1 {
      SetSame(value.entries[path[0]], path[1..]);
    }
  }

  /** Only the last of two settings of a path counts. */
  lemma {:induction false} SetTwice(value: Value, path: KeyPath, first: Value, second: Value)
    requires path != [] && Set(value, path, first).Some?
    ensures Set(Set(value, path, first).value, path, second) == Set(value, path, second)
    decreases |path|
  {
    var between := Set(value, path, first).value;
    if |path| == 1 {
      assert between.entries[path[0] := second] == value.entries[path[0] := second];
    } else {
      var child := if path[0] in value.entries then value.entries[path[0]] else Object(map[]);
      SetTwice(child, path[1..], first, second);
      SetAt(child, path[1..], first);
      SetAt(child, path[1..], second);
      var next := Set(child, path[1..], second).value;
      assert between.entries[path[0] := next] == value.entries[path[0] := next];
    }
  }

  /* ---- fields ---- */

  datatype Role = Ordinary | DynamicPredicate | DynamicOrder

  datatype Default = NoDefault | BadDefault | DefaultValue(value: Value)

  /** A field of an operation, or the contract of one of its dynamic inputs; a serializer that gives no value throws. */
  datatype InputField =
    | InputField(path: KeyPath, default: Default, required: bool, nullable: bool, role: Role,
                 serialize: Option<Value -> Option<Value>>, valid: Value -> bool)
    | Contract(path: KeyPath, predicateKind: bool, contract: seq<ContractField>)

  datatype BindingError = Envelope(path: KeyPath) | MissingContext(path: KeyPath) | MissingValue(path: KeyPath)
    | InvalidDefault(path: KeyPath) | NullInput(path: KeyPath) | SerializerFailed(path: KeyPath)
    | InvalidInput(path: KeyPath)
    | InvalidPredicate(path: KeyPath)

  predicate Trusted(field: InputField) {
    |field.path| > 1 && field.path[0] == "context"
  }

  function Identity(role: Role): Value
    requires role != Ordinary
  {
    if role == DynamicPredicate then Object(map[]) else Array([])
  }

  predicate Validates(field: InputField, value: Value)
    requires field.InputField?
  {
    value.Null? || field.role != Ordinary || field.valid(value)
  }

  /* ---- what one field becomes ---- */

  function Defaulted(field: InputField, found: Lookup): Result<Lookup, BindingError>
    requires field.InputField?
  {
    match found
    case NotAnObject => Err(Envelope(field.path))
    case Found(value) => Ok(found)
    case Missing =>
      if Trusted(field) then Err(MissingContext(field.path))
      else
        match field.default
        case DefaultValue(value) => Ok(Found(value))
        case BadDefault => Err(InvalidDefault(field.path))
        case NoDefault => if field.required then Err(MissingValue(field.path)) else Ok(Missing)
  }

  /** The serializer runs on present values of the host, not on defaults. */
  predicate Serializes(field: InputField, representation: Representation, found: Lookup)
    requires field.InputField?
  {
    representation == Host && field.serialize.Some? && found.Found? && !found.value.Null?
  }

  function Serialized(field: InputField, representation: Representation, found: Lookup,
                      current: Lookup): Result<Lookup, BindingError>
    requires field.InputField?
  {
    if !Serializes(field, representation, found) then Ok(current)
    else
      match field.serialize.value(found.value)
      case None => Err(SerializerFailed(field.path))
      case Some(value) => Ok(Found(value))
  }

  /** What the pass over fields leaves at the path of a field, from what it finds there. */
  function FieldSettled(field: InputField, representation: Representation, found: Lookup): Result<Lookup, BindingError>
    requires field.InputField?
  {
    match Defaulted(field, found)
    case Err(error) => Err(error)
    case Ok(current) =>
      if current == Found(Null) && !field.nullable then
        Err(if Trusted(field) then MissingContext(field.path) else NullInput(field.path))
      else
        match Serialized(field, representation, found, current)
        case Err(error) => Err(error)
        case Ok(Found(value)) =>
          if !Validates(field, value) then Err(InvalidInput(field.path))
          else Ok(Found(if value.Null? && field.role != Ordinary then Identity(field.role) else value))
        case Ok(_) => Ok(Missing)
  }

  /** What the pass over dynamic inputs leaves: the wire form of a predicate, and an order as it is. */
  function ContractSettled(field: InputField, representation: Representation,
                           found: Lookup): Result<Lookup, BindingError>
    requires field.Contract?
  {
    match found
    case NotAnObject => Err(Envelope(field.path))
    case Missing => Err(MissingValue(field.path))
    case Found(value) =>
      if !field.predicateKind then Ok(found)
      else
        match PredicateForm(field.contract, representation, value)
        case None => Err(InvalidPredicate(field.path))
        case Some(form) => Ok(Found(form))
  }

  function Settled(field: InputField, representation: Representation, found: Lookup): Result<Lookup, BindingError> {
    if field.Contract? then ContractSettled(field, representation, found)
    else FieldSettled(field, representation, found)
  }

  /** The serializer turned a value into the null that the field does not admit. */
  predicate NullSerialized(field: InputField, representation: Representation, found: Lookup) {
    && field.InputField? && Serializes(field, representation, found)
    && field.serialize.value(found.value) == Some(Null) && !field.nullable && field.role == Ordinary
  }

  /** What one pass left is what the wire pass leaves, unless the serializer produced a forbidden null. */
  lemma SettledTwice(field: InputField, representation: Representation, found: Lookup)
    requires Settled(field, representation, found).Ok?
    ensures var left := Settled(field, representation, found).value;
            && (Settled(field, Wire, left) == Ok(left) <==> !NullSerialized(field, representation, found))
            && (NullSerialized(field, representation, found) ==> Settled(field, Wire, left).Err?)
  {
    if field.Contract? && field.predicateKind {
      PredicateFormTwice(field.contract, representation, found.value);
    }
  }

  /* ---- the whole pass ---- */

  /** The bindings once a field holds what it settled to. */
  function Stored(bindings: Value, path: KeyPath, left: Lookup): Value
    requires path != []
  {
    if left.Found? && Set(bindings, path, left.value).Some? then Set(bindings, path, left.value).value else bindings
  }

  function FieldPass(field: InputField, bindings: Value, representation: Representation): Result<Value, BindingError>
    requires field.path != []
  {
    match Settled(field, representation, At(bindings, field.path))
    case Err(error) => Err(error)
    case Ok(left) => Ok(Stored(bindings, field.path, left))
  }

  predicate PathsNonempty(fields: seq<InputField>) {
    forall i :: 0 <= i < |fields| ==> fields[i].path != []
  }

  /** The first `n` fields one after another. */
  function Pass(fields: seq<InputField>, n: nat, bindings: Value,
                representation: Representation): Result<Value, BindingError>
    requires n <= |fields| && PathsNonempty(fields)
  {
    if n == 0 then Ok(bindings)
    else
      match Pass(fields, n - 1, bindings, representation)
      case Err(error) => Err(error)
      case Ok(between) => FieldPass(fields[n - 1], between, representation)
  }

  lemma {:induction false} PassFailsEarly(fields: seq<InputField>, n: nat, m: nat, bindings: Value,
                                          representation: Representation)
    requires n <= m <= |fields| && PathsNonempty(fields) && Pass(fields, n, bindings, representation).Err?
    ensures Pass(fields, m, bindings, representation) == Pass(fields, n, bindings, representation)
  {
    if n < m {
      PassFailsEarly(fields, n, m - 1, bindings, representation);
    }
  }

  /** One field of the pass, with its assignments one by one. */
  method MaterializeField(field: InputField, bindings: Value, representation: Representation)
    returns (r: Result<Value, BindingError>)
    requires field.InputField? && field.path != []
    ensures r == FieldPass(field, bindings, representation)
  {
    var found := At(bindings, field.path);
    var current := Defaulted(field, found);
    if current.Err? {
      return Err(current.error);
    }
    var materialized := bindings;
    if found.Missing? && current.value.Found? {
      materialized := Assign(materialized, field.path, current.value.value);
    }
    if current.value == Found(Null) && !field.nullable {
      return Err(if Trusted(field) then MissingContext(field.path) else NullInput(field.path));
    }
    var value := current.value;
    if representation == Host && found.Found? && !found.value.Null? && field.serialize.Some? {
      var serialized := field.serialize.value(found.value);
      if serialized.None? {
        return Err(SerializerFailed(field.path));
      }
      value := Found(serialized.value);
      materialized := Assign(materialized, field.path, serialized.value);
    }
    if found.Found? && value == found {
      SetSame(bindings, field.path);
    }
    if value == Found(Null) && field.role != Ordinary {
      SetTwiceNull(bindings, field.path, Identity(field.role));
      materialized := Assign(materialized, field.path, Identity(field.role));
    }
    if value.Found? && !Validates(field, value.value) {
      return Err(InvalidInput(field.path));
    }
    r := Ok(materialized);
  }

  lemma SetTwiceNull(bindings: Value, path: KeyPath, value: Value)
    requires path != [] && !At(bindings, path).NotAnObject?
    ensures Set(bindings, path, Null).Some?
            && Set(Set(bindings, path, Null).value, path, value) == Set(bindings, path, value)
  {
    SetAt(bindings, path, Null);
    SetTwice(bindings, path, Null, value);
  }

  method Assign(bindings: Value, path: KeyPath, value: Value) returns (r: Value)
    requires path != [] && !At(bindings, path).NotAnObject?
    ensures Set(bindings, path, value) == Some(r) && At(r, path) == Found(value)
  {
    SetAt(bindings, path, value);
    r := Set(bindings, path, value).value;
  }

  method MaterializeBindings(fields: seq<InputField>, bindings: Value, representation: Representation)
    returns (r: Result<Value, BindingError>)
    requires PathsNonempty(fields) && forall i :: 0 <= i < |fields| ==> fields[i].InputField?
    ensures r == Pass(fields, |fields|, bindings, representation)
  {
    var materialized := bindings;
    for i := 0 to |fields|
      invariant Pass(fields, i, bindings, representation) == Ok(materialized)
    {
      var step := MaterializeField(fields[i], materialized, representation);
      if step.Err? {
        PassFailsEarly(fields, i + 1, |fields|, bindings, representation);
        return Err(step.error);
      }
      materialized := step.value;
    }
    r := Ok(materialized);
  }

  /** The pass over dynamic inputs stores every value it looked up, changed or not. */
  method MaterializeDynamicBindings(contracts: seq<InputField>, bindings: Value, representation: Representation)
    returns (r: Result<Value, BindingError>)
    requires PathsNonempty(contracts) && forall i :: 0 <= i < |contracts| ==> contracts[i].Contract?
    ensures r == Pass(contracts, |contracts|, bindings, representation)
  {
    var materialized := bindings;
    for i := 0 to |contracts|
      invariant Pass(contracts, i, bindings, representation) == Ok(materialized)
    {
      var contract := contracts[i];
      var left := ContractSettled(contract, representation, At(materialized, contract.path));
      if left.Err? {
        PassFailsEarly(contracts, i + 1, |contracts|, bindings, representation);
        return Err(left.error);
      }
      materialized := Assign(materialized, contract.path, left.value.value);
    }
    r := Ok(materialized);
  }

  /* ---- the pass field by field ---- */

  predicate PathsApart(fields: seq<InputField>) {
    PathsNonempty(fields) && forall i, j :: 0 <= i < j < |fields| ==> Apart(fields[i].path, fields[j].path)
  }

  function SettledAt(field: InputField, bindings: Value, representation: Representation): Result<Lookup, BindingError> {
    Settled(field, representation, At(bindings, field.path))
  }

  /** Each of the first `n` fields holds what it settles to from the original bindings. */
  predicate HoldsSettled(fields: seq<InputField>, n: nat, bindings: Value, representation: Representation,
                         result: Value)
    requires n <= |fields|
  {
    forall i :: 0 <= i < n ==> SettledAt(fields[i], bindings, representation) == Ok(At(result, fields[i].path))
  }

  /** A path apart from the first `n` fields. */
  predicate Beside(fields: seq<InputField>, n: nat, q: KeyPath)
    requires n <= |fields|
  {
    forall i :: 0 <= i < n ==> Apart(fields[i].path, q)
  }

  /** No path beside the first `n` fields changed. */
  ghost predicate SameBeside(fields: seq<InputField>, n: nat, bindings: Value, result: Value)
    requires n <= |fields|
  {
    forall q :: Beside(fields, n, q) ==> At(result, q) == At(bindings, q)
  }

  /** Field `i` is the first that does not settle from the original bindings. */
  predicate FailsFirst(fields: seq<InputField>, bindings: Value, representation: Representation, i: nat,
                       error: BindingError)
    requires i < |fields|
  {
    SettledAt(fields[i], bindings, representation) == Err(error)
    && forall k :: 0 <= k < i ==> SettledAt(fields[k], bindings, representation).Ok?
  }

  /** One field holds what it settles to, and nothing apart from it changes. */
  lemma FieldPassAt(field: InputField, bindings: Value, representation: Representation)
    requires field.path != [] && FieldPass(field, bindings, representation).Ok?
    ensures var after := FieldPass(field, bindings, representation).value;
            && SettledAt(field, bindings, representation) == Ok(At(after, field.path))
            && (forall q :: Apart(field.path, q) ==> At(after, q) == At(bindings, q))
            && (SettledAt(field, bindings, representation) == Ok(At(bindings, field.path)) ==> after == bindings)
  {
    var left := SettledAt(field, bindings, representation).value;
    if left.Found? {
      SetAt(bindings, field.path, left.value);
      forall q | Apart(field.path, q) ensures At(Stored(bindings, field.path, left), q) == At(bindings, q) {
        SetApart(bindings, field.path, left.value, q);
      }
      if left == At(bindings, field.path) {
        SetSame(bindings, field.path);
      }
    }
  }

  lemma HoldsOneMore(fields: seq<InputField>, n: nat, bindings: Value, representation: Representation, before: Value,
                     after: Value)
    requires PathsApart(fields) && n < |fields| && HoldsSettled(fields, n, bindings, representation, before)
    requires SettledAt(fields[n], bindings, representation) == Ok(At(after, fields[n].path))
    requires forall q :: Apart(fields[n].path, q) ==> At(after, q) == At(before, q)
    ensures HoldsSettled(fields, n + 1, bindings, representation, after)
  {
    forall i | 0 <= i < n ensures At(after, fields[i].path) == At(before, fields[i].path) {
      assert Apart(fields[n].path, fields[i].path);
    }
  }

  lemma SameOneMore(fields: seq<InputField>, n: nat, bindings: Value, before: Value, after: Value)
    requires n < |fields| && SameBeside(fields, n, bindings, before)
    requires forall q :: Apart(fields[n].path, q) ==> At(after, q) == At(before, q)
    ensures SameBeside(fields, n + 1, bindings, after)
  {
    forall q | Beside(fields, n + 1, q) ensures At(after, q) == At(bindings, q) {
      assert Beside(fields, n, q) && Apart(fields[n].path, q);
    }
  }

  /** A field meets the original bindings at its path, whatever the fields before it did. */
  lemma SettlesAlike(fields: seq<InputField>, n: nat, bindings: Value, representation: Representation, before: Value)
    requires PathsApart(fields) && n < |fields| && SameBeside(fields, n, bindings, before)
    ensures SettledAt(fields[n], before, representation) == SettledAt(fields[n], bindings, representation)
  {
    assert Beside(fields, n, fields[n].path);
  }

  lemma PassStep(fields: seq<InputField>, n: nat, bindings: Value, representation: Representation, before: Value,
                 after: Value)
    requires PathsApart(fields) && n < |fields|
    requires HoldsSettled(fields, n, bindings, representation, before) && SameBeside(fields, n, bindings, before)
    requires FieldPass(fields[n], before, representation) == Ok(after)
    ensures HoldsSettled(fields, n + 1, bindings, representation, after) && SameBeside(fields, n + 1, bindings, after)
  {
    FieldPassAt(fields[n], before, representation);
    SettlesAlike(fields, n, bindings, representation, before);
    HoldsOneMore(fields, n, bindings, representation, before, after);
    SameOneMore(fields, n, bindings, before, after);
  }

  /**
    Over independent paths the pass settles every field from the original bindings and
    changes no other path, or fails with the first field that does not settle.
   */
  lemma {:induction false} PassSettles(fields: seq<InputField>, n: nat, bindings: Value, representation: Representation)
    requires n <= |fields| && PathsApart(fields)
    ensures match Pass(fields, n, bindings, representation)
            case Ok(result) =>
                HoldsSettled(fields, n, bindings, representation, result) && SameBeside(fields, n, bindings, result)
            case Err(error) => exists i :: 0 <= i < n && FailsFirst(fields, bindings, representation, i, error)
  {
    if n > 0 {
      var m := n - 1;
      PassSettles(fields, m, bindings, representation);
      match Pass(fields, m, bindings, representation) {
        case Err(error) =>
          assert Pass(fields, n, bindings, representation) == Err(error);
          var i :| 0 <= i < m && FailsFirst(fields, bindings, representation, i, error);
          assert 0 <= i < n && FailsFirst(fields, bindings, representation, i, error);
        case Ok(between) =>
          match FieldPass(fields[m], between, representation) {
            case Ok(after) => PassStep(fields, m, bindings, representation, between, after);
            case Err(error) =>
              SettlesAlike(fields, m, bindings, representation, between);
              assert Pass(fields, n, bindings, representation) == Err(error);
              assert FailsFirst(fields, bindings, representation, m, error);
          }
      }
    }
  }

  /** A pass over fields that all rest changes nothing. */
  lemma {:induction false} PassRests(fields: seq<InputField>, n: nat, bindings: Value, representation: Representation)
    requires n <= |fields| && PathsNonempty(fields) && HoldsSettled(fields, n, bindings, representation, bindings)
    ensures Pass(fields, n, bindings, representation) == Ok(bindings)
  {
    if n > 0 {
      PassRests(fields, n - 1, bindings, representation);
      FieldPassAt(fields[n - 1], bindings, representation);
    }
  }

  /**
    Bindings that went through a pass go through the wire pass unchanged, exactly
    when no serializer produced a null that its field does not admit; otherwise
    the wire pass fails.
   */
  lemma WirePassAfter(fields: seq<InputField>, bindings: Value, representation: Representation)
    requires PathsApart(fields) && Pass(fields, |fields|, bindings, representation).Ok?
    ensures var result := Pass(fields, |fields|, bindings, representation).value;
            if forall i :: 0 <= i < |fields| ==>
                !NullSerialized(fields[i], representation, At(bindings, fields[i].path))
            then Pass(fields, |fields|, result, Wire) == Ok(result)
            else Pass(fields, |fields|, result, Wire).Err?
  {
    var result := Pass(fields, |fields|, bindings, representation).value;
    PassSettles(fields, |fields|, bindings, representation);
    forall i | 0 <= i < |fields|
      ensures SettledAt(fields[i], result, Wire) == Ok(At(result, fields[i].path)) <==>
                !NullSerialized(fields[i], representation, At(bindings, fields[i].path))
      ensures NullSerialized(fields[i], representation, At(bindings, fields[i].path)) ==>
                SettledAt(fields[i], result, Wire).Err?
    {
      SettledTwice(fields[i], representation, At(bindings, fields[i].path));
    }
    if forall i :: 0 <= i < |fields| ==> !NullSerialized(fields[i], representation, At(bindings, fields[i].path)) {
      PassRests(fields, |fields|, result, Wire);
    } else {
      PassSettles(fields, |fields|, result, Wire);
    }
  }

  /* ---- a whole operation ---- */

  /** The fields of an operation, and the contracts of the dynamic inputs among them. */
  datatype Operation = Operation(fields: seq<InputField>, contracts: seq<InputField>)

  predicate ContractOf(fields: seq<InputField>, contract: InputField, i: nat) {
    i < |fields| && fields[i].InputField? && fields[i].path == contract.path && contract.Contract?
    && fields[i].role == (if contract.predicateKind then DynamicPredicate else DynamicOrder)
  }

  /** Independent fields, and contracts of different dynamic fields. */
  ghost predicate WellFormed(operation: Operation) {
    && PathsApart(operation.fields) && (forall i :: 0 <= i < |operation.fields| ==> operation.fields[i].InputField?)
    && (forall c :: 0 <= c < |operation.contracts| ==>
        exists i :: ContractOf(operation.fields, operation.contracts[c], i))
    && forall c, d :: 0 <= c < d < |operation.contracts| ==> operation.contracts[c].path != operation.contracts[d].path
  }

  lemma ContractsApart(operation: Operation)
    requires WellFormed(operation)
    ensures PathsApart(operation.contracts)
  {
    forall c, d | 0 <= c < d < |operation.contracts|
      ensures Apart(operation.contracts[c].path, operation.contracts[d].path)
    {
      var i :| ContractOf(operation.fields, operation.contracts[c], i);
      var j :| ContractOf(operation.fields, operation.contracts[d], j);
      FieldsApart(operation.fields, i, j);
    }
  }

  lemma FieldsApart(fields: seq<InputField>, i: nat, j: nat)
    requires PathsApart(fields) && i < |fields| && j < |fields| && fields[i].path != fields[j].path
    ensures Apart(fields[i].path, fields[j].path)
  {
    if j < i {
      assert Apart(fields[j].path, fields[i].path);
    }
  }

  /** Both passes over the variables of an operation. */
  function OperationPass(operation: Operation, variables: Value,
                         representation: Representation): Result<Value, BindingError>
    requires PathsNonempty(operation.fields) && PathsNonempty(operation.contracts)
  {
    match Pass(operation.fields, |operation.fields|, variables, representation)
    case Err(error) => Err(error)
    case Ok(ordinary) => Pass(operation.contracts, |operation.contracts|, ordinary, representation)
  }

  method MaterializeOperation(operation: Operation, variables: Value, representation: Representation)
    returns (r: Result<Value, BindingError>)
    requires WellFormed(operation) && PathsNonempty(operation.contracts)
    ensures r == OperationPass(operation, variables, representation)
  {
    var ordinary := MaterializeBindings(operation.fields, variables, representation);
    if ordinary.Err? {
      return ordinary;
    }
    r := MaterializeDynamicBindings(operation.contracts, ordinary.value, representation);
  }

  /** A dynamic field rests on what its contract left. */
  lemma RestsOnContract(field: InputField, contract: InputField, representation: Representation, found: Lookup,
                        between: Lookup, left: Lookup)
    requires field.InputField? && contract.Contract?
             && field.role == (if contract.predicateKind then DynamicPredicate else DynamicOrder)
    requires Settled(field, representation, found) == Ok(between)
             && Settled(contract, representation, between) == Ok(left)
    ensures RestsOn(field, left)
  {
  }

  /** No contract touches a field other than its own. */
  lemma BesideContracts(operation: Operation, i: nat)
    requires WellFormed(operation) && i < |operation.fields|
    requires forall c :: 0 <= c < |operation.contracts| ==> operation.contracts[c].path != operation.fields[i].path
    ensures Beside(operation.contracts, |operation.contracts|, operation.fields[i].path)
  {
    forall c | 0 <= c < |operation.contracts| ensures Apart(operation.contracts[c].path, operation.fields[i].path) {
      var j :| ContractOf(operation.fields, operation.contracts[c], j);
      FieldsApart(operation.fields, j, i);
    }
  }

  /**
    After both passes a field holds what the wire pass leaves alone, unless its serializer
    produced a forbidden null.
   */
  lemma FieldAfterContracts(operation: Operation, variables: Value, representation: Representation, ordinary: Value,
                            result: Value, i: nat, field: InputField)
    requires WellFormed(operation) && i < |operation.fields| && field == operation.fields[i]
    requires SettledAt(field, variables, representation) == Ok(At(ordinary, field.path))
    requires HoldsSettled(operation.contracts, |operation.contracts|, ordinary, representation, result)
    requires SameBeside(operation.contracts, |operation.contracts|, ordinary, result)
    ensures SettledAt(field, result, Wire) == Ok(At(result, field.path)) <==>
              !NullSerialized(field, representation, At(variables, field.path))
    ensures NullSerialized(field, representation, At(variables, field.path)) ==> SettledAt(field, result, Wire).Err?
  {
    var found, between, left := At(variables, field.path), At(ordinary, field.path), At(result, field.path);
    assert left == between || RestsOn(field, left) by {
      if c :| 0 <= c < |operation.contracts| && operation.contracts[c].path == field.path {
        DynamicFieldRests(operation, c, i);
        assert Settled(operation.contracts[c], representation, between) == Ok(left);
        RestsOnContract(field, operation.contracts[c], representation, found, between, left);
      } else {
        BesideContracts(operation, i);
      }
    }
    RestsEitherWay(field, representation, found, between, left);
  }

  predicate RestsOn(field: InputField, left: Lookup) {
    field.InputField? && field.role != Ordinary && Settled(field, Wire, left) == Ok(left)
  }

  lemma RestsEitherWay(field: InputField, representation: Representation, found: Lookup, between: Lookup, left: Lookup)
    requires Settled(field, representation, found) == Ok(between) && (left == between || RestsOn(field, left))
    ensures Settled(field, Wire, left) == Ok(left) <==> !NullSerialized(field, representation, found)
    ensures NullSerialized(field, representation, found) ==> Settled(field, Wire, left).Err?
  {
    if left == between {
      SettledTwice(field, representation, found);
    }
  }

  lemma DynamicFieldRests(operation: Operation, c: nat, i: nat)
    requires WellFormed(operation) && c < |operation.contracts| && i < |operation.fields|
             && operation.contracts[c].path == operation.fields[i].path
    ensures ContractOf(operation.fields, operation.contracts[c], i)
  {
    var j :| ContractOf(operation.fields, operation.contracts[c], j);
    if i != j {
      FieldsApartAlways(operation.fields, i, j);
    }
  }

  lemma FieldsApartAlways(fields: seq<InputField>, i: nat, j: nat)
    requires PathsApart(fields) && i < |fields| && j < |fields| && i != j
    ensures fields[i].path != fields[j].path
  {
    if j < i {
      assert Apart(fields[j].path, fields[i].path);
    } else {
      assert Apart(fields[i].path, fields[j].path);
    }
  }

  /**
    Variables materialized for transport are what the executor's wire passes
    leave: the passes succeed and change nothing, exactly when no serializer
    produced a null that its field does not admit; otherwise they fail.
   */
  lemma HostThenWire(operation: Operation, variables: Value, representation: Representation)
    requires WellFormed(operation) && PathsNonempty(operation.contracts)
    requires OperationPass(operation, variables, representation).Ok?
    ensures var wire := OperationPass(operation, variables, representation).value;
            if forall i :: 0 <= i < |operation.fields| ==>
                !NullSerialized(operation.fields[i], representation, At(variables, operation.fields[i].path))
            then OperationPass(operation, wire, Wire) == Ok(wire)
            else OperationPass(operation, wire, Wire).Err?
  {
    var fields, contracts := operation.fields, operation.contracts;
    ContractsApart(operation);
    var ordinary := Pass(fields, |fields|, variables, representation).value;
    var wire := OperationPass(operation, variables, representation).value;
    PassSettles(fields, |fields|, variables, representation);
    PassSettles(contracts, |contracts|, ordinary, representation);
    forall i | 0 <= i < |fields|
      ensures SettledAt(fields[i], wire, Wire) == Ok(At(wire, fields[i].path)) <==>
                !NullSerialized(fields[i], representation, At(variables, fields[i].path))
      ensures NullSerialized(fields[i], representation, At(variables, fields[i].path)) ==>
                SettledAt(fields[i], wire, Wire).Err?
    {
      FieldAfterContracts(operation, variables, representation, ordinary, wire, i, fields[i]);
    }
    if forall i :: 0 <= i < |fields| ==> !NullSerialized(fields[i], representation, At(variables, fields[i].path)) {
      PassRests(fields, |fields|, wire, Wire);
      WirePassAfter(contracts, ordinary, representation);
    } else {
      PassSettles(fields, |fields|, wire, Wire);
    }
  }

  /** Passing the trusted context afterwards changes no public variable. */
  lemma ContextKeepsVariables(fields: seq<InputField>, variables: Value, context: Value, q: KeyPath)
    requires PathsApart(fields) && (forall i :: 0 <= i < |fields| ==> fields[i].path[0] == "context")
    requires q != [] && q[0] != "context" && Set(variables, ["context"], context).Some?
    ensures var r := Pass(fields, |fields|, Set(variables, ["context"], context).value, Host);
            r.Ok? ==> At(r.value, q) == At(variables, q)
  {
    var bindings := Set(variables, ["context"], context).value;
    assert ["context"][0] == "context";
    SetApart(variables, ["context"], context, q);
    PassSettles(fields, |fields|, bindings, Host);
    assert Beside(fields, |fields|, q);
  }

  /* ---- a forbidden null, concretely ---- */

  /** A field that admits no null, and a serializer that turns every value into one. */
  function Nulling(): InputField {
    InputField(["x"], NoDefault, true, false, Ordinary, Some((value: Value) => Some(Null)), (value: Value) => true)
  }

  lemma NullReachesWire(variables: Value)
    requires variables == Object(map["x" := Boolean(true)])
    ensures FieldPass(Nulling(), variables, Host) == Ok(Object(map["x" := Null]))
    ensures FieldPass(Nulling(), Object(map["x" := Null]), Wire) == Err(NullInput(["x"]))
  {
    var after := Object(map["x" := Null]);
    assert Set(variables, ["x"], Null) == Some(after) by {
      assert variables.entries["x" := Null] == after.entries;
    }
    assert ["x"][1..] == [];
    assert At(variables, ["x"]) == Found(Boolean(true)) && At(after, ["x"]) == Found(Null);
  }

  /** The wire passes do fail on what the host passes returned: the serialized null is transported and then refused. */
  lemma SerializedNullRefused()
    ensures var operation := Operation([Nulling()], []);
            var variables, wire := Object(map["x" := Boolean(true)]), Object(map["x" := Null]);
            && WellFormed(operation) && PathsNonempty(operation.contracts)
            && NullSerialized(operation.fields[0], Host, At(variables, operation.fields[0].path))
            && OperationPass(operation, variables, Host) == Ok(wire)
            && OperationPass(operation, wire, Wire) == Err(NullInput(["x"]))
  {
    var fields, variables, wire := [Nulling()], Object(map["x" := Boolean(true)]), Object(map["x" := Null]);
    NullReachesWire(variables);
    assert Pass(fields, 0, variables, Host) == Ok(variables) && Pass(fields, 0, wire, Wire) == Ok(wire);
    assert Pass(fields, 1, variables, Host) == Ok(wire) && Pass(fields, 1, wire, Wire) == Err(NullInput(["x"]));
    assert ["x"][1..] == [] && At(variables, ["x"]) == Found(Boolean(true));
  }
}
