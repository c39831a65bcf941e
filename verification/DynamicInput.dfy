/**
  Dynamic predicate inputs: the metadata of an input and its SQL sites, and what
  rendering one value at one site amounts to.  Rendering is described in two
  parts.  `Elaborate` turns the value into a tree of SQL fragments or gets stuck
  on the first invalid part, with the operands emitted before that point; the
  tree then fixes the tokens, and the operands are absorbed into the shared
  parameter vector.
 */
module DynamicInput {
  import opened KeyOrder
  import opened Wrappers

  /* ---- values and metadata ---- */

  datatype Value =
    | Null
    | Boolean(flag: bool)
    | Number(text: string)
    | Text(text: string)
    | Array(items: seq<Value>)
    | Object(entries: map<string, Value>)

  datatype PathStep = Key(name: string) | Index(position: nat)

  type InputPath = seq<PathStep>

  datatype ValueKind = Scalar | Collection | Flag | UnknownKind

  datatype Case = Case(value: string, text: string)

  datatype Operator = Operator(name: string, kind: ValueKind, before: string, after: string, cases: seq<Case>)

  datatype SiteField = SiteField(key: string, operators: seq<Operator>, directions: seq<Case>)

  datatype Site = Site(marker: string, identitySql: string, fields: seq<SiteField>)

  datatype Field = Field(key: string, dataType: string, wire: string, provider: Option<(string, string)>)

  datatype InputKind = Predicate | Order | UnknownInput

  /** `accepts` is the scalar validation of a field: wire encoding and pattern. */
  datatype Input = Input(path: string, kind: InputKind, fields: seq<Field>, sites: seq<Site>,
                         accepts: (Field, Value) -> bool)

  datatype Bound = Bound(path: InputPath, dataType: string, wire: string, provider: Option<(string, string)>,
                         collection: bool, value: Value)

  datatype Error =
    | Invalid(path: InputPath)
    | InvalidMetadata(path: InputPath)
    | Disagreement
    | NotContiguous
    | SiteCount
    | BadMarker(marker: string)
    | NoSites
    | MissingInput
    | UnknownInputKind
    | NoContract

  function FindOperator(operators: seq<Operator>, name: string): Option<Operator> {
    if operators == [] then None
    else if operators[0].name == name then Some(operators[0])
    else FindOperator(operators[1..], name)
  }

  function FindCase(cases: seq<Case>, value: string): Option<Case> {
    if cases == [] then None
    else if cases[0].value == value then Some(cases[0])
    else FindCase(cases[1..], value)
  }

  function FindField(fields: seq<Field>, key: string): Option<Field> {
    if fields == [] then None
    else if fields[0].key == key then Some(fields[0])
    else FindField(fields[1..], key)
  }

  function FindSiteField(fields: seq<SiteField>, key: string): Option<SiteField> {
    if fields == [] then None
    else if fields[0].key == key then Some(fields[0])
    else FindSiteField(fields[1..], key)
  }

  /* ---- trees ---- */

  /** A rendered predicate before placeholders are numbered. */
  datatype Tree =
    | Leaf(before: string, operand: Bound, after: string)
    | Fixed(text: string)
    | Falsum
    | Verum
    | AllOf(children: seq<Tree>)
    | AnyOf(children: seq<Tree>)
    | Negation(child: Tree)

  function Operands(tree: Tree): seq<Bound>
    decreases tree
  {
    match tree
    case Leaf(_, operand, _) => [operand]
    case AllOf(children) => OperandsOf(children)
    case AnyOf(children) => OperandsOf(children)
    case Negation(child) => Operands(child)
    case _ => []
  }

  function OperandsOf(trees: seq<Tree>): seq<Bound>
    decreases trees
  {
    if trees == [] then []
    else OperandsOf(trees[..|trees| - 1]) + Operands(trees[|trees| - 1])
  }

  /* ---- elaboration ---- */

  /** Complete, or stuck on an error after emitting some operands. */
  datatype Elaboration = Done(trees: seq<Tree>) | Stuck(error: Error, emitted: seq<Bound>)

  /** What an elaboration may get stuck on: an invalid value, or metadata without a lowering for it. */
  predicate ValueError(e: Elaboration) {
    e.Stuck? ==> e.error.Invalid? || e.error.InvalidMetadata?
  }

  function Emission(e: Elaboration): seq<Bound> {
    match e case Done(trees) => OperandsOf(trees) case Stuck(_, emitted) => emitted
  }

  function Append(first: Elaboration, second: Elaboration): Elaboration {
    if first.Stuck? then first
    else
      match second
      case Stuck(error, emitted) => Stuck(error, OperandsOf(first.trees) + emitted)
      case Done(trees) => Done(first.trees + trees)
  }

  function Chain(parts: seq<Elaboration>): Elaboration {
    if parts == [] then Done([]) else Append(Chain(parts[..|parts| - 1]), parts[|parts| - 1])
  }

  lemma {:induction false} ChainErrors(parts: seq<Elaboration>)
    requires forall i :: 0 <= i < |parts| ==> ValueError(parts[i])
    ensures ValueError(Chain(parts))
  {
    if parts != [] {
      ChainErrors(parts[..|parts| - 1]);
    }
  }

  /** What a group of children becomes: nothing when no child is present. */
  function Grouped(e: Elaboration): Elaboration {
    match e
    case Stuck(_, _) => e
    case Done(trees) => if trees == [] then e else Done([AllOf(trees)])
  }

  function Alternatives(e: Elaboration): Elaboration {
    match e
    case Stuck(_, _) => e
    case Done(trees) => Done([if trees == [] then Falsum else AnyOf(trees)])
  }

  function Negated(e: Elaboration): Elaboration {
    match e
    case Stuck(_, _) => e
    case Done(trees) => if |trees| == 1 then Done([Negation(trees[0])]) else Done([])
  }

  function AcceptsAll(input: Input, field: Field, items: seq<Value>): bool {
    forall i :: 0 <= i < |items| ==> !items[i].Null? && input.accepts(field, items[i])
  }

  function BindOperand(field: Field, path: InputPath, collection: bool, value: Value): Bound {
    Bound(path, field.dataType, field.wire, field.provider, collection, value)
  }

  function FlagText(flag: bool): string {
    if flag then "true" else "false"
  }

  /** JavaScript's `String(value)`. */
  function ScriptText(value: Value): string {
    match value
    case Null => "null"
    case Boolean(flag) => FlagText(flag)
    case Number(text) => text
    case Text(text) => text
    case Array(items) => ScriptJoined(items)
    case Object(_) => "[object Object]"
  }

  /** The items of an array separated by commas, null as nothing. */
  function ScriptJoined(items: seq<Value>): string {
    if items == [] then ""
    else
      var n := |items| - 1;
      (if n == 0 then "" else ScriptJoined(items[..n]) + ",") + (if items[n].Null? then "" else ScriptText(items[n]))
  }

  /** JavaScript's `value.length === 0`, which throws for null. */
  predicate ScriptEmpty(value: Value) {
    match value
    case Array(items) => items == []
    case Text(text) => text == ""
    case Object(entries) => "length" in entries && entries["length"] == Number("0")
    case _ => false
  }

  function EmptyCollection(name: string): Tree {
    if name == "in" then Falsum else Verum
  }

  /** One operator of one field; only the native renderer validates the operand here. */
  function ElaborateOperator(input: Input, field: Field, siteField: SiteField, dialect: Dialect, name: string,
                             operand: Value, path: InputPath): (e: Elaboration)
    ensures ValueError(e) && (e.Stuck? ==> e.emitted == [])
    ensures e.Done? ==> |e.trees| == 1 && match e.trees[0] case Leaf(_, placed, _) => placed.path == path
            case other => Operands(other) == []
  {
    match FindOperator(siteField.operators, name)
    case None => Stuck(Invalid(path), [])
    case Some(operator) =>
      match operator.kind
      case Scalar =>
        if dialect.Native? && (operand.Null? || !input.accepts(field, operand)) then Stuck(Invalid(path), [])
        else Done([Leaf(operator.before, BindOperand(field, path, false, operand), operator.after)])
      case Collection =>
        if dialect.Native? && !(operand.Array? && AcceptsAll(input, field, operand.items)) then Stuck(Invalid(path), [])
        else if operand.Null? then Stuck(Invalid(path), [])
        else if ScriptEmpty(operand) then Done([EmptyCollection(name)])
        else Done([Leaf(operator.before, BindOperand(field, path, true, operand), operator.after)])
      case Flag =>
        if dialect.Native? && !operand.Boolean? then Stuck(Invalid(path), [])
        else
          (match FindCase(operator.cases, ScriptText(operand))
           case None => Stuck(InvalidMetadata(path), [])
           case Some(c) => Done([Fixed(c.text)]))
      case UnknownKind => Stuck(InvalidMetadata(path), [])
  }

  function ElaborateOperators(input: Input, field: Field, siteField: SiteField, dialect: Dialect, operators: Value,
                              path: InputPath): (e: Elaboration)
    ensures ValueError(e)
  {
    if !operators.Object? then Stuck(Invalid(path), [])
    else
      var names := Sorted(dialect, operators.entries.Keys);
      var parts := seq(|names|, i requires 0 <= i < |names| =>
        ElaborateOperator(input, field, siteField, dialect, names[i], operators.entries[names[i]],
                          path + [Key(names[i])]));
      ChainErrors(parts);
      Chain(parts)
  }

  /** One entry of a predicate object. */
  function ElaborateEntry(input: Input, site: Site, dialect: Dialect, key: string, value: Value,
                          path: InputPath): (e: Elaboration)
    ensures ValueError(e)
    decreases value, 2
  {
    if key == "and" || key == "or" then
      if !value.Array? then Stuck(Invalid(path + [Key(key)]), [])
      else
        var parts := seq(|value.items|, i requires 0 <= i < |value.items| =>
          Elaborate(input, site, dialect, value.items[i], path + [Key(key), Index(i)]));
        ChainErrors(parts);
        var children := Chain(parts);
        if key == "and" then Grouped(children) else Alternatives(children)
    else if key == "not" then Negated(Elaborate(input, site, dialect, value, path + [Key(key)]))
    else
      match FindField(input.fields, key)
      case None => Stuck(Invalid(path + [Key(key)]), [])
      case Some(field) =>
        match FindSiteField(site.fields, key)
        case None => Stuck(InvalidMetadata(path + [Key(key)]), [])
        case Some(siteField) => ElaborateOperators(input, field, siteField, dialect, value, path + [Key(key)])
  }

  /** A predicate object: at most one tree, none when nothing in it is present. */
  function Elaborate(input: Input, site: Site, dialect: Dialect, value: Value, path: InputPath): (e: Elaboration)
    ensures ValueError(e)
    decreases value, 1
  {
    if !value.Object? then Stuck(Invalid(path), [])
    else
      var keys := Sorted(dialect, value.entries.Keys);
      var parts := seq(|keys|, i requires 0 <= i < |keys| =>
        ElaborateEntry(input, site, dialect, keys[i], value.entries[keys[i]], path));
      ChainErrors(parts);
      Grouped(Chain(parts))
  }

  /* ---- the parts of an elaboration ---- */

  function OperatorParts(input: Input, field: Field, siteField: SiteField, dialect: Dialect,
                         entries: map<string, Value>, names: seq<string>, path: InputPath): seq<Elaboration>
    requires forall name :: name in names ==> name in entries
  {
    seq(|names|,
        i requires 0 <= i < |names| =>
            ElaborateOperator(input, field, siteField, dialect, names[i], entries[names[i]], path + [Key(names[i])]))
  }

  lemma ChainOfParts(input: Input, field: Field, siteField: SiteField, dialect: Dialect, entries: map<string, Value>,
                     path: InputPath)
    ensures ElaborateOperators(input, field, siteField, dialect, Object(entries), path) ==
            Chain(OperatorParts(input, field, siteField, dialect, entries, Sorted(dialect, entries.Keys), path))
  {
  }

  function EntryParts(input: Input, site: Site, dialect: Dialect, entries: map<string, Value>, keys: seq<string>,
                      path: InputPath): seq<Elaboration>
    requires forall key :: key in keys ==> key in entries
  {
    seq(|keys|, i requires 0 <= i < |keys| => ElaborateEntry(input, site, dialect, keys[i], entries[keys[i]], path))
  }

  lemma ChainOfEntries(input: Input, site: Site, dialect: Dialect, value: Value, path: InputPath)
    requires value.Object?
    ensures Elaborate(input, site, dialect, value, path) ==
            Grouped(Chain(EntryParts(input, site, dialect, value.entries, Sorted(dialect, value.entries.Keys), path)))
  {
  }

  /* ---- tokens ---- */

  datatype Token =
    | Open | Close | AndWord | OrWord | NotWord | TrueWord | FalseWord
    | Placeholder(before: string, number: nat, after: string)
    | Fragment(text: string)

  function Join(lists: seq<seq<Token>>, separator: Token): seq<Token> {
    if lists == [] then []
    else if |lists| == 1 then lists[0]
    else lists[0] + [separator] + Join(lists[1..], separator)
  }

  function Parenthesized(lists: seq<seq<Token>>, separator: Token): seq<Token> {
    [Open] + Join(lists, separator) + [Close]
  }

  /** The tokens of a tree whose first operand follows `start` parameters. */
  function Tokens(tree: Tree, start: nat): seq<Token>
    decreases tree
  {
    match tree
    case Leaf(before, _, after) => [Placeholder(before, start + 1, after)]
    case Fixed(text) => [Fragment(text)]
    case Falsum => [FalseWord]
    case Verum => [TrueWord]
    case AllOf(children) => Parenthesized(TokenLists(children, start), AndWord)
    case AnyOf(children) => Parenthesized(TokenLists(children, start), OrWord)
    case Negation(child) => [NotWord, Open] + Tokens(child, start) + [Close]
  }

  function TokenLists(trees: seq<Tree>, start: nat): (lists: seq<seq<Token>>)
    ensures |lists| == |trees|
    decreases trees
  {
    if trees == [] then []
    else
      var rest := trees[..|trees| - 1];
      TokenLists(rest, start) + [Tokens(trees[|trees| - 1], start + |OperandsOf(rest)|)]
  }

  /** The placeholder numbers in a token sequence, in order. */
  function Numbers(tokens: seq<Token>): seq<nat> {
    if tokens == [] then []
    else (if tokens[0].Placeholder? then [tokens[0].number] else []) + Numbers(tokens[1..])
  }

  function Consecutive(start: nat, count: nat): seq<nat>
    decreases count
  {
    if count == 0 then [] else [start + 1] + Consecutive(start + 1, count - 1)
  }

  /* ---- the shared parameter vector ---- */

  /** Reused operands must agree on everything but the path they came from. */
  predicate SameOperand(existing: Bound, operand: Bound) {
    && existing.dataType == operand.dataType && existing.wire == operand.wire && existing.provider == operand.provider
    && existing.collection == operand.collection && existing.value == operand.value
  }

  /* ---- lemmas ---- */

  lemma {:induction false} OperandsOfAppend(first: seq<Tree>, second: seq<Tree>)
    ensures OperandsOf(first + second) == OperandsOf(first) + OperandsOf(second)
  {
    if second == [] {
      assert first + second == first;
    } else {
      var n := |second| - 1;
      OperandsOfAppend(first, second[..n]);
      assert (first + second)[..|first + second| - 1] == first + second[..n];
    }
  }

  lemma {:induction false} TokenListsAppend(first: seq<Tree>, second: seq<Tree>, start: nat)
    ensures TokenLists(first + second, start) ==
              TokenLists(first, start) + TokenLists(second, start + |OperandsOf(first)|)
  {
    if second == [] {
      assert first + second == first;
    } else {
      var n := |second| - 1;
      TokenListsAppend(first, second[..n], start);
      OperandsOfAppend(first, second[..n]);
      assert (first + second)[..|first + second| - 1] == first + second[..n];
    }
  }

  lemma AppendEmission(first: Elaboration, second: Elaboration)
    requires first.Done?
    ensures Emission(Append(first, second)) == Emission(first) + Emission(second)
  {
    if second.Done? {
      OperandsOfAppend(first.trees, second.trees);
    }
  }

  lemma SingletonOperands(tree: Tree)
    ensures OperandsOf([tree]) == Operands(tree)
  {
    assert [tree][..0] == [];
  }

  /** Grouping, alternatives and negation change the tree but not the operands. */
  lemma WrappingEmission(e: Elaboration)
    ensures Emission(Grouped(e)) == Emission(e)
    ensures Emission(Alternatives(e)) == Emission(e)
    ensures e.Done? && |e.trees| <= 1 ==> Emission(Negated(e)) == Emission(e)
  {
    if e.Done? {
      SingletonOperands(AllOf(e.trees));
      SingletonOperands(if e.trees == [] then Falsum else AnyOf(e.trees));
      if |e.trees| == 1 {
        SingletonOperands(Negation(e.trees[0]));
        SingletonOperands(e.trees[0]);
        assert e.trees == [e.trees[0]];
      }
    }
  }

  lemma ChainStep(parts: seq<Elaboration>, n: nat)
    requires n < |parts|
    ensures Chain(parts[..n + 1]) == Append(Chain(parts[..n]), parts[n])
  {
    assert parts[..n + 1][..n] == parts[..n];
  }

  /** A prefix of the parts that is stuck is where the whole is stuck. */
  lemma {:induction false} ChainPrefix(parts: seq<Elaboration>, n: nat)
    requires n <= |parts|
    ensures Chain(parts[..n]).Stuck? ==> Chain(parts) == Chain(parts[..n])
    ensures Emission(Chain(parts[..n])) <= Emission(Chain(parts))
    decreases |parts| - n
  {
    if n == |parts| {
      assert parts[..n] == parts;
    } else {
      ChainPrefix(parts, n + 1);
      assert parts[..n + 1][..n] == parts[..n];
      if Chain(parts[..n]).Done? {
        AppendEmission(Chain(parts[..n]), parts[n]);
      }
    }
  }
}
