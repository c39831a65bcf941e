/**
  Where the two materialisers part: two sites that lower the operators of one
  field the other way round, and two empty arrays as their operands.  Natively the
  sites agree, since the arrays are equal; in JavaScript they agree exactly when
  the two arrays are one object.
 */
module OperandIdentity {
  import opened Decimals
  import opened DynamicAgreement
  import opened DynamicInput
  import opened DynamicMaterialization
  import opened DynamicMirror
  import opened KeyOrder
  import opened TextSearch
  import opened Wrappers

  /* ---- the input ---- */

  function Lowered(name: string, kind: ValueKind): Operator {
    Operator(name, kind, "", "", [])
  }

  /** A site that binds one operator as a scalar and expands the other. */
  function SiteBinding(marker: string, scalar: string, collection: string): Site {
    Site(marker, "TRUE", [SiteField("f", [Lowered(scalar, Scalar), Lowered(collection, Collection)], [])])
  }

  function TornInput(): Input {
    Input("w", Predicate, [Field("f", "", "", None)], [SiteBinding("m", "a", "b"), SiteBinding("n", "b", "a")],
          (f: Field, v: Value) => true)
  }

  function TornOperands(): map<string, Value> {
    map["a" := Array([]), "b" := Array([])]
  }

  function TornValue(): Value {
    Object(map["f" := Object(TornOperands())])
  }

  function PlaceOf(name: string): InputPath {
    [Key("w"), Key("f"), Key(name)]
  }

  function OperandOf(name: string): Bound {
    BindOperand(Field("f", "", "", None), PlaceOf(name), false, Array([]))
  }

  /* ---- one site ---- */

  lemma SortedPair(dialect: Dialect, a: string, b: string)
    requires a != b
    ensures Sorted(dialect, {a, b}) == [a, b] || Sorted(dialect, {a, b}) == [b, a]
  {
    var least := Least(dialect, {a, b});
    var other := if least == a then b else a;
    assert {a, b} - {least} == {other};
    SortedOne(dialect, other);
  }

  /** The trees of a site: the scalar's comparison and the constant of the other operator, in key order. */
  predicate TornTrees(trees: seq<Tree>, scalar: string) {
    trees == [Leaf("", OperandOf(scalar), ""), Verum] || trees == [Verum, Leaf("", OperandOf(scalar), "")]
  }

  lemma ChainTwo(p: Elaboration, q: Elaboration)
    requires p.Done? && q.Done?
    ensures Chain([p, q]) == Done(p.trees + q.trees)
  {
    ChainOne(p);
    assert [p, q][..1] == [p];
  }

  lemma ScalarBinds(input: Input, field: Field, siteField: SiteField, name: string, path: InputPath, place: InputPath)
    requires input == TornInput() && field == input.fields[0] && place == PlaceOf(name) && path == [Key("w"), Key("f")]
    requires FindOperator(siteField.operators, name) == Some(Lowered(name, Scalar))
    ensures ElaborateOperator(input, field, siteField, Native, name, Array([]), path + [Key(name)]) ==
              Done([Leaf("", OperandOf(name), "")])
  {
    assert path + [Key(name)] == place;
  }

  lemma CollectionExpands(input: Input, field: Field, siteField: SiteField, name: string, path: InputPath)
    requires FindOperator(siteField.operators, name) == Some(Lowered(name, Collection)) && name != "in"
    ensures ElaborateOperator(input, field, siteField, Native, name, Array([]), path) == Done([Verum])
  {
  }

  /** Two operators, in key order. */
  lemma EitherOrder(input: Input, field: Field, siteField: SiteField, entries: map<string, Value>, x: string, y: string,
                    path: InputPath, p: Elaboration, q: Elaboration)
    requires x != y && entries.Keys == {x, y} && p.Done? && q.Done?
    requires p == ElaborateOperator(input, field, siteField, Native, x, entries[x], path + [Key(x)])
    requires q == ElaborateOperator(input, field, siteField, Native, y, entries[y], path + [Key(y)])
    ensures var e := ElaborateOperators(input, field, siteField, Native, Object(entries), path);
            e == Done(p.trees + q.trees) || e == Done(q.trees + p.trees)
  {
    SortedPair(Native, x, y);
    ChainOfParts(input, field, siteField, Native, entries, path);
    if Sorted(Native, entries.Keys) == [x, y] {
      PairChained(input, field, siteField, entries, x, y, path, p, q);
    } else {
      PairChained(input, field, siteField, entries, y, x, path, q, p);
    }
  }

  lemma PairChained(input: Input, field: Field, siteField: SiteField, entries: map<string, Value>, x: string, y: string,
                    path: InputPath,
                    p: Elaboration, q: Elaboration)
    requires x in entries && y in entries && p.Done? && q.Done?
    requires p == ElaborateOperator(input, field, siteField, Native, x, entries[x], path + [Key(x)])
    requires q == ElaborateOperator(input, field, siteField, Native, y, entries[y], path + [Key(y)])
    ensures Chain(OperatorParts(input, field, siteField, Native, entries, [x, y], path)) == Done(p.trees + q.trees)
  {
    ChainTwo(p, q);
    assert OperatorParts(input, field, siteField, Native, entries, [x, y], path) == [p, q];
  }

  lemma BothNames(operators: seq<Operator>, scalar: string, collection: string)
    requires {scalar, collection} == {"a", "b"}
    requires operators == [Lowered(scalar, Scalar), Lowered(collection, Collection)]
    ensures scalar != collection && collection != "in" && TornOperands().Keys == {scalar, collection}
    ensures FindOperator(operators, scalar) == Some(Lowered(scalar, Scalar))
    ensures FindOperator(operators, collection) == Some(Lowered(collection, Collection))
  {
    assert "a" in {scalar, collection} && "b" in {scalar, collection} && collection in {"a", "b"};
    assert operators[1..] == [Lowered(collection, Collection)];
  }

  lemma FieldTorn(input: Input, field: Field, siteField: SiteField, entries: map<string, Value>, scalar: string,
                  collection: string, path: InputPath)
    requires input == TornInput() && field == input.fields[0] && path == [Key("w"), Key("f")]
    requires entries == TornOperands() && {scalar, collection} == {"a", "b"}
    requires siteField.operators == [Lowered(scalar, Scalar), Lowered(collection, Collection)]
    ensures var e := ElaborateOperators(input, field, siteField, Native, Object(entries), path);
            e.Done? && TornTrees(e.trees, scalar)
  {
    BothNames(siteField.operators, scalar, collection);
    ScalarBinds(input, field, siteField, scalar, path, PlaceOf(scalar));
    CollectionExpands(input, field, siteField, collection, path + [Key(collection)]);
    EitherOrder(input, field, siteField, entries, scalar, collection, path,
                Done([Leaf("", OperandOf(scalar), "")]), Done([Verum]));
  }

  lemma SiteTorn(site: Site, scalar: string, collection: string) returns (trees: seq<Tree>)
    requires site == SiteBinding(site.marker, scalar, collection) && {scalar, collection} == {"a", "b"}
    ensures TornTrees(trees, scalar) && ElaborateSite(TornInput(), site, Native, TornValue()) == Done([AllOf(trees)])
    ensures OperandsOf([AllOf(trees)]) == [OperandOf(scalar)]
  {
    var input, field, operators := TornInput(), TornInput().fields[0], Object(TornOperands());
    var path := [Key("w"), Key("f")];
    FieldTorn(input, field, site.fields[0], TornOperands(), scalar, collection, path);
    trees := ElaborateOperators(input, field, site.fields[0], Native, operators, path).trees;
    assert [Key("w")] + [Key("f")] == path;
    LoneField(input, site, field, site.fields[0], Native, operators, [Key("w")]);
    WrappingEmission(Done(trees));
    TornEmission(trees, scalar);
  }

  lemma TornEmission(trees: seq<Tree>, scalar: string)
    requires TornTrees(trees, scalar)
    ensures OperandsOf(trees) == [OperandOf(scalar)]
  {
    var leaf := Leaf("", OperandOf(scalar), "");
    SingletonOperands(leaf);
    SingletonOperands(Verum);
    OperandsOfAppend([leaf], [Verum]);
    OperandsOfAppend([Verum], [leaf]);
    assert [leaf] + [Verum] == [leaf, Verum] && [Verum] + [leaf] == [Verum, leaf];
  }

  /* ---- its text ---- */

  lemma {:induction false} PrintOmits(tokens: seq<Token>, c: char)
    requires forall i :: 0 <= i < |tokens| ==> c !in Word(tokens[i])
    ensures c !in Print(tokens)
  {
    if tokens != [] {
      PrintOmits(tokens[1..], c);
    }
  }

  lemma TwoTrees(p: Tree, q: Tree, start: nat, next: nat)
    requires next == start + |Operands(p)|
    ensures Tokens(AllOf([p, q]), start) == [Open] + Tokens(p, start) + [AndWord] + Tokens(q, next) + [Close]
  {
    SingletonOperands(p);
    assert [p, q][..1] == [p] && [p][..0] == [];
    assert TokenLists([p], start) == [Tokens(p, start)];
    var lists := [Tokens(p, start), Tokens(q, next)];
    assert TokenLists([p, q], start) == lists;
    assert lists[1..] == [Tokens(q, next)];
    assert Join(lists, AndWord) == Tokens(p, start) + [AndWord] + Tokens(q, next);
  }

  /** The text of the first site does not hold the marker of the second. */
  lemma TextOmitsMarker(trees: seq<Tree>, scalar: string)
    requires TornTrees(trees, scalar)
    ensures 'n' !in Print(Tokens(AllOf(trees), 0))
  {
    var leaf := Leaf("", OperandOf(scalar), "");
    TwoTrees(leaf, Verum, 0, 1);
    TwoTrees(Verum, leaf, 0, 0);
    assert Tokens(leaf, 0) == [Placeholder("", 1, "")] && Tokens(Verum, 0) == [TrueWord]
           && Tokens(Verum, 1) == [TrueWord];
    assert Word(Placeholder("", 1, "")) == "$1";
    PrintOmits(Tokens(AllOf(trees), 0), 'n');
  }

  /** A marker of one character at the end of a text that does not hold it otherwise. */
  lemma LastMarker(text: string, c: char, other: string, sql: string, marker: string)
    requires c !in text && sql == text + [c] && marker == [c]
    ensures ReplaceMarker(Native, sql, marker, other) == Some(text + other)
  {
    forall j: nat | At(sql, marker, j) ensures j == |text| {
      assert sql[j..j + 1][0] == sql[j];
    }
    assert sql[..|text|] == text && sql[|text| + 1..] == "";
    assert text + other + "" == text + other;
    assert OnlyAt(sql, marker, |text|);
    MarkerReplaced(Native, sql, marker, other, text + other);
  }

  /* ---- the two materialisers ---- */

  lemma FirstStep(input: Input, site: Site, value: Value, e: Elaboration, p: Bound, sql: string, text: string,
                  one: string)
    requires e == ElaborateSite(input, site, Native, value) && e.Done? && Emission(e) == [p]
             && text == SiteText(site, e.trees, 0)
    requires ReplaceMarker(Native, sql, site.marker, text) == Some(one)
    ensures SiteStep(NATIVE, input, site, value, 0, None, Progress(sql, [])) == Advanced(Progress(one, [p]), Some(1))
  {
    AbsorbPast(NATIVE, [], [p]);
    BindNative([p]);
    assert [] + [p] == [p];
  }

  lemma SecondStep(input: Input, site: Site, value: Value, e: Elaboration, p: Bound, q: Bound, sql: string,
                   text: string, two: string)
    requires e == ElaborateSite(input, site, Native, value) && e.Done? && Emission(e) == [q]
             && text == SiteText(site, e.trees, 0)
    requires ReplaceMarker(Native, sql, site.marker, text) == Some(two) && SameOperand(p, q)
    ensures SiteStep(NATIVE, input, site, value, 0, Some(1), Progress(sql, [p])) ==
              Advanced(Progress(two, [p]), Some(1))
  {
    AbsorbWithin(NATIVE, [p], 0, [q]);
    assert [q][..0] == [];
  }

  lemma BothSteps(input: Input, first: Site, second: Site, value: Value, before: Progress<Bound>, one: Advance<Bound>)
    requires one == SiteStep(NATIVE, input, first, value, 0, None, before) && one.Advanced?
    ensures SiteSteps(NATIVE, input, [first, second], value, 0, before) ==
              SiteStep(NATIVE, input, second, value, 0, one.end, one.progress)
  {
    assert [first, second][..1] == [first] && [first][..0] == [];
    assert SiteSteps(NATIVE, input, [first], value, 0, before) == one;
  }

  lemma BothMarkers(text: string, other: string)
    requires 'n' !in text
    ensures ReplaceMarker(Native, "m n", "m", text) == Some(text + " n")
    ensures ReplaceMarker(Native, text + " n", "n", other) == Some(text + " " + other)
  {
    FirstMarker(text);
    assert text + " n" == text + " " + "n";
    LastMarker(text + " ", 'n', other, text + " n", "n");
  }

  /** Natively both sites bind the one operand. */
  lemma NativeAgrees()
    ensures Materialize(NATIVE, [TornInput()], map["w" := TornValue()], Progress("m n", [])).Ok?
  {
    var input, value := TornInput(), TornValue();
    var first, second := input.sites[0], input.sites[1];
    var trees := SiteTorn(first, "a", "b");
    var trees' := SiteTorn(second, "b", "a");
    var text, other := Print(Tokens(AllOf(trees), 0)), Print(Tokens(AllOf(trees'), 0));
    TextOmitsMarker(trees, "a");
    BothMarkers(text, other);
    FirstStep(input, first, value, Done([AllOf(trees)]), OperandOf("a"), "m n", text, text + " n");
    SecondStep(input, second, value, Done([AllOf(trees')]), OperandOf("a"), OperandOf("b"), text + " n", other,
               text + " " + other);
    BothSteps(input, first, second, value, Progress("m n", []),
              Advanced(Progress(text + " n", [OperandOf("a")]), Some(1)));
    LoneInput(input, first, second, value, "m n");
  }

  lemma LoneInput(input: Input, first: Site, second: Site, value: Value, sql: string)
    requires input.sites == [first, second] && !value.Null?
    requires SiteSteps(NATIVE, input, [first, second], value, 0, Progress(sql, [])).Advanced?
    ensures Materialize(NATIVE, [input], map[input.path := value], Progress(sql, [])).Ok?
  {
    assert [input][..0] == [];
  }

  lemma PortablePair(client: Client, input: Input, first: Site, second: Site, value: Value, p: Bound, q: Bound)
    requires input.sites == [first, second] && first.marker != "" && second.marker != ""
    requires Emission(ElaborateSite(input, first, Native, value)) == [p]
             && Emission(ElaborateSite(input, second, Native, value)) == [q]
    ensures AllPortable(client, input, input.sites, value) <==> SameObject(client, p, q)
  {
    assert Portable(client, input, first, first, value);
    if Portable(client, input, first, second, value) {
      assert SameObject(client, [p][0], [q][0]);
    }
    if AllPortable(client, input, input.sites, value) {
      assert Portable(client, input, input.sites[0], input.sites[1], value);
    }
  }

  lemma TornPortable(client: Client)
    ensures AllPortable(client, TornInput(), TornInput().sites, TornValue()) <==>
              client.heap(PlaceOf("a")) == client.heap(PlaceOf("b"))
  {
    var input := TornInput();
    var trees := SiteTorn(input.sites[0], "a", "b");
    var trees' := SiteTorn(input.sites[1], "b", "a");
    PortablePair(client, input, input.sites[0], input.sites[1], TornValue(), OperandOf("a"), OperandOf("b"));
  }

  lemma TornKeysAlike()
    ensures KeysAlike(TornValue())
  {
    forall a, b | a in {"a", "b", "f"} && b in {"a", "b", "f"} ensures !Crossing(a, b) {
      BasicUncrossed(a, b);
    }
    assert TornOperands().Keys == {"a", "b"};
    assert KeysAlike(Object(TornOperands()));
  }

  /** The native materialiser succeeds; the JavaScript one succeeds exactly when one array stands at both places. */
  lemma IdentityDecides(client: Client)
    requires ("w", Predicate) in client.contracts
    ensures Materialize(NATIVE, [TornInput()], map["w" := TornValue()], Progress("m n", [])).Ok?
    ensures Materialize(Script(0, client), [TornInput()], map["w" := TornValue()], Progress("m n", [])).Ok? <==>
            client.heap(PlaceOf("a")) == client.heap(PlaceOf("b"))
  {
    var inputs, values := [TornInput()], map["w" := TornValue()];
    NativeAgrees();
    TornKeysAlike();
    ScriptMatchesNative(inputs, values, "m n", [], client);
    TornPortable(client);
    assert InputPortable(inputs[0], values, client) <==> client.heap(PlaceOf("a")) == client.heap(PlaceOf("b"));
  }
}
