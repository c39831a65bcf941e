/**
  Agreement of the sites of one input: which operator kinds two sites may declare
  without ever disagreeing about operands, and what happens with other ones.
 */
module DynamicAgreement {
  import opened DynamicBlocks
  import opened DynamicInput
  import opened DynamicMaterialization
  import opened KeyOrder
  import opened TextSearch
  import opened Wrappers

  /* ---- kinds that go together ---- */

  /** No value of one operator makes two lowerings of these kinds emit different operands. */
  predicate KindsAgree(dialect: Dialect, a: ValueKind, b: ValueKind) {
    a == b || a.UnknownKind? || b.UnknownKind? || (dialect.Native? && !a.Scalar? && !b.Scalar?)
  }

  function Lowering(site: Site, key: string, name: string): Option<Operator> {
    match FindSiteField(site.fields, key)
    case None => None
    case Some(field) => FindOperator(field.operators, name)
  }

  /** Operators that both sites declare have kinds that go together. */
  ghost predicate SitesAgree(dialect: Dialect, a: Site, b: Site) {
    forall key, name :: Lowering(a, key, name).Some? && Lowering(b, key, name).Some? ==>
      KindsAgree(dialect, Lowering(a, key, name).value.kind, Lowering(b, key, name).value.kind)
  }

  ghost predicate FieldsAgree(dialect: Dialect, a: SiteField, b: SiteField) {
    forall name :: FindOperator(a.operators, name).Some? && FindOperator(b.operators, name).Some? ==>
      KindsAgree(dialect, FindOperator(a.operators, name).value.kind, FindOperator(b.operators, name).value.kind)
  }

  /** Where `f` completes, `e` emits the same operands, or a prefix of them if it gets stuck. */
  ghost predicate Follows(e: Elaboration, f: Elaboration) {
    f.Done? ==> Emission(e) <= Emission(f) && (e.Done? ==> Emission(e) == Emission(f))
  }

  lemma AppendFollows(e: Elaboration, e': Elaboration, f: Elaboration, f': Elaboration)
    requires Follows(e, f) && Follows(e', f')
    ensures Follows(Append(e, e'), Append(f, f'))
  {
    if f.Done? && f'.Done? {
      AppendEmission(f, f');
      if e.Done? {
        AppendEmission(e, e');
      }
    }
  }

  lemma {:induction false} ChainFollows(es: seq<Elaboration>, fs: seq<Elaboration>)
    requires |es| == |fs| && forall i :: 0 <= i < |es| ==> Follows(es[i], fs[i])
    ensures Follows(Chain(es), Chain(fs))
  {
    if es != [] {
      var n := |es| - 1;
      ChainFollows(es[..n], fs[..n]);
      AppendFollows(Chain(es[..n]), es[n], Chain(fs[..n]), fs[n]);
    }
  }

  lemma WrappedFollows(e: Elaboration, f: Elaboration)
    requires Follows(e, f)
    ensures Follows(Grouped(e), Grouped(f)) && Follows(Alternatives(e), Alternatives(f))
    ensures (e.Done? ==> |e.trees| <= 1) && (f.Done? ==> |f.trees| <= 1) ==> Follows(Negated(e), Negated(f))
  {
    WrappingEmission(e);
    WrappingEmission(f);
  }

  /** The operands that a completed lowering of a kind emits. */
  function EmittedBy(kind: ValueKind, field: Field, path: InputPath, operand: Value): seq<Bound> {
    match kind
    case Scalar => [BindOperand(field, path, false, operand)]
    case Collection => if ScriptEmpty(operand) then [] else [BindOperand(field, path, true, operand)]
    case _ => []
  }

  /** What has to be so for a lowering to complete. */
  lemma OperatorEmits(input: Input, field: Field, siteField: SiteField, dialect: Dialect, name: string, operand: Value,
                      path: InputPath)
    ensures var e := ElaborateOperator(input, field, siteField, dialect, name, operand, path);
            e.Done? ==>
              && FindOperator(siteField.operators, name).Some?
              && var kind := FindOperator(siteField.operators, name).value.kind;
              && Emission(e) == EmittedBy(kind, field, path, operand) && !kind.UnknownKind?
              && (dialect.Native? && kind.Collection? ==> operand.Array?)
                 && (dialect.Native? && kind.Flag? ==> operand.Boolean?)
  {
    var e := ElaborateOperator(input, field, siteField, dialect, name, operand, path);
    if e.Done? {
      SingletonOperands(e.trees[0]);
      assert e.trees == [e.trees[0]];
    }
  }

  lemma OperatorFollows(input: Input, field: Field, a: SiteField, b: SiteField, dialect: Dialect, name: string,
                        operand: Value, path: InputPath)
    requires FindOperator(a.operators, name).Some? && FindOperator(b.operators, name).Some? ==>
               KindsAgree(dialect, FindOperator(a.operators, name).value.kind,
                          FindOperator(b.operators, name).value.kind)
    ensures Follows(ElaborateOperator(input, field, b, dialect, name, operand, path),
                    ElaborateOperator(input, field, a, dialect, name, operand, path))
  {
    OperatorEmits(input, field, a, dialect, name, operand, path);
    OperatorEmits(input, field, b, dialect, name, operand, path);
  }

  lemma OperatorsFollow(input: Input, field: Field, a: SiteField, b: SiteField, dialect: Dialect, operators: Value,
                        path: InputPath)
    requires FieldsAgree(dialect, a, b)
    ensures Follows(ElaborateOperators(input, field, b, dialect, operators, path),
                    ElaborateOperators(input, field, a, dialect, operators, path))
  {
    if operators.Object? {
      var entries := operators.entries;
      var names := Sorted(dialect, entries.Keys);
      var es, fs := OperatorParts(input, field, b, dialect, entries, names, path),
          OperatorParts(input, field, a, dialect, entries, names, path);
      forall i | 0 <= i < |names| ensures Follows(es[i], fs[i]) {
        OperatorFollows(input, field, a, b, dialect, names[i], entries[names[i]], path + [Key(names[i])]);
      }
      ChainFollows(es, fs);
      ChainOfParts(input, field, b, dialect, entries, path);
      ChainOfParts(input, field, a, dialect, entries, path);
    }
  }

  lemma SiteFieldsAgree(dialect: Dialect, a: Site, b: Site, key: string)
    requires SitesAgree(dialect, a, b) && FindSiteField(a.fields, key).Some? && FindSiteField(b.fields, key).Some?
    ensures FieldsAgree(dialect, FindSiteField(a.fields, key).value, FindSiteField(b.fields, key).value)
  {
    var f, g := FindSiteField(a.fields, key).value, FindSiteField(b.fields, key).value;
    forall name | FindOperator(f.operators, name).Some? && FindOperator(g.operators, name).Some?
      ensures KindsAgree(dialect, FindOperator(f.operators, name).value.kind,
                         FindOperator(g.operators, name).value.kind)
    {
      assert Lowering(a, key, name).Some? && Lowering(b, key, name).Some?;
    }
  }

  lemma {:induction false} EntryFollows(input: Input, a: Site, b: Site, dialect: Dialect, key: string, value: Value,
                                        path: InputPath)
    requires SitesAgree(dialect, a, b)
    ensures Follows(ElaborateEntry(input, b, dialect, key, value, path),
                    ElaborateEntry(input, a, dialect, key, value, path))
    decreases value, 2
  {
    if key == "and" || key == "or" {
      if value.Array? {
        var es :=
            seq(|value.items|,
                i requires 0 <= i < |value.items| =>
                    Elaborate(input, b, dialect, value.items[i], path + [Key(key), Index(i)]));
        var fs :=
            seq(|value.items|,
                i requires 0 <= i < |value.items| =>
                    Elaborate(input, a, dialect, value.items[i], path + [Key(key), Index(i)]));
        forall i | 0 <= i < |value.items| ensures Follows(es[i], fs[i]) {
          PredicateFollows(input, a, b, dialect, value.items[i], path + [Key(key), Index(i)]);
        }
        ChainFollows(es, fs);
        WrappedFollows(Chain(es), Chain(fs));
      }
    } else if key == "not" {
      PredicateFollows(input, a, b, dialect, value, path + [Key(key)]);
      WrappedFollows(Elaborate(input, b, dialect, value, path + [Key(key)]),
                     Elaborate(input, a, dialect, value, path + [Key(key)]));
    } else if FindField(input.fields, key).Some? && FindSiteField(a.fields, key).Some?
        && FindSiteField(b.fields, key).Some? {
      SiteFieldsAgree(dialect, a, b, key);
      OperatorsFollow(input, FindField(input.fields, key).value, FindSiteField(a.fields, key).value,
                      FindSiteField(b.fields, key).value, dialect, value, path + [Key(key)]);
    }
  }

  lemma {:induction false} PredicateFollows(input: Input, a: Site, b: Site, dialect: Dialect, value: Value,
                                            path: InputPath)
    requires SitesAgree(dialect, a, b)
    ensures Follows(Elaborate(input, b, dialect, value, path), Elaborate(input, a, dialect, value, path))
    decreases value, 1
  {
    if value.Object? {
      var entries := value.entries;
      var keys := Sorted(dialect, entries.Keys);
      var es, fs := EntryParts(input, b, dialect, entries, keys, path),
          EntryParts(input, a, dialect, entries, keys, path);
      forall i | 0 <= i < |keys| ensures Follows(es[i], fs[i]) {
        EntryFollows(input, a, b, dialect, keys[i], entries[keys[i]], path);
      }
      ChainFollows(es, fs);
      WrappedFollows(Chain(es), Chain(fs));
      ChainOfEntries(input, b, dialect, value, path);
      ChainOfEntries(input, a, dialect, value, path);
    }
  }

  lemma OrderEmitsNothing(e: Elaboration)
    requires e.Stuck? ==> e.emitted == []
    requires e.Done? ==> |e.trees| <= 1 && (e.trees != [] ==> e.trees[0].Fixed?)
    ensures Emission(e) == []
  {
    if e.Done? && e.trees != [] {
      SingletonOperands(e.trees[0]);
      assert e.trees == [e.trees[0]];
    }
  }

  lemma SiteFollows(input: Input, a: Site, b: Site, dialect: Dialect, value: Value)
    requires SitesAgree(dialect, a, b)
    ensures Follows(ElaborateSite(input, b, dialect, value), ElaborateSite(input, a, dialect, value))
  {
    match input.kind
    case Predicate => PredicateFollows(input, a, b, dialect, value, [Key(input.path)]);
    case Order =>
      OrderEmitsNothing(ElaborateOrder(input, a, value, [Key(input.path)]));
      OrderEmitsNothing(ElaborateOrder(input, b, value, [Key(input.path)]));
    case UnknownInput =>
  }

  lemma {:induction false} OverlapPrefix<T>(target: Target<T>, items: seq<T>, cursor: nat, shorter: seq<Bound>,
                                            operands: seq<Bound>)
    requires shorter <= operands && OverlapAgrees(target, items, cursor, operands)
    ensures OverlapAgrees(target, items, cursor, shorter)
    decreases |operands|
  {
    if |shorter| == |operands| {
      assert shorter == operands;
    } else {
      OverlapPrefix(target, items, cursor, shorter, operands[..|operands| - 1]);
    }
  }

  /** A site whose operands follow the block's is drawn on the block, or is stuck on a value of its own. */
  lemma FollowerDraws<T(!new)>(target: Target<T>, site: Site, e: Elaboration, f: Elaboration, before: seq<T>,
                               between: seq<T>, start: nat)
    requires Reflexive(target) && f.Done? && Follows(e, f) && between == before + Bind(target, Emission(f))
             && start == |before|
    ensures match DrawAt(target, site, e, start, between)
            case Refused(error) => e.Stuck? && error == e.error
            case Drawn(operands, end, _) => operands == between && end == |between|
  {
    BlockAgrees(target, before, Emission(f));
    OverlapPrefix(target, between, start, Emission(e), Emission(f));
    AbsorbWithin(target, between, start, Emission(e));
  }

  ghost predicate AllAgree(dialect: Dialect, sites: seq<Site>) {
    forall j :: 0 <= j < |sites| ==> SitesAgree(dialect, sites[0], sites[j])
  }

  lemma FirstStep<T>(target: Target<T>, input: Input, site: Site, value: Value, before: Progress<T>)
    ensures var step := SiteStep(target, input, site, value, |before.operands|, None, before);
            step.Halted? ==> !step.error.SiteCount? && !step.error.Disagreement?
    ensures var step := SiteStep(target, input, site, value, |before.operands|, None, before);
            step.Advanced? ==> ElaborateSite(input, site, target.dialect, value).Done?
  {
    AbsorbPast(target, before.operands, Emission(ElaborateSite(input, site, target.dialect, value)));
  }

  lemma LaterStep<T(!new)>(target: Target<T>, input: Input, first: Site, site: Site, value: Value, before: Progress<T>,
                           between: Progress<T>)
    requires Reflexive(target) && SitesAgree(target.dialect, first, site)
             && ElaborateSite(input, first, target.dialect, value).Done?
    requires between.operands ==
               before.operands + Bind(target, Emission(ElaborateSite(input, first, target.dialect, value)))
    ensures var step := SiteStep(target, input, site, value, |before.operands|, Some(|between.operands|), between);
            match step
            case Halted(error) => !error.SiteCount? && !error.Disagreement?
            case Advanced(after, end) => after.operands == between.operands && end == Some(|after.operands|)
  {
    SiteFollows(input, first, site, target.dialect, value);
    FollowerDraws(target, site, ElaborateSite(input, site, target.dialect, value),
                  ElaborateSite(input, first, target.dialect, value),
                  before.operands, between.operands, |before.operands|);
  }

  lemma {:induction false} SitesNeverDisagree<T(!new)>(target: Target<T>, input: Input, sites: seq<Site>, value: Value,
                                                       before: Progress<T>)
    requires Reflexive(target) && sites != [] && AllAgree(target.dialect, sites)
    ensures var done := SiteSteps(target, input, sites, value, |before.operands|, before);
            match done
            case Halted(error) => !error.SiteCount? && !error.Disagreement?
            case Advanced(after, end) =>
              && ElaborateSite(input, sites[0], target.dialect, value).Done? && end == Some(|after.operands|)
              && after.operands ==
                   before.operands + Bind(target, Emission(ElaborateSite(input, sites[0], target.dialect, value)))
    decreases |sites|
  {
    var n, start := |sites| - 1, |before.operands|;
    if n == 0 {
      FirstStep(target, input, sites[0], value, before);
      if SiteSteps(target, input, sites, value, start, before).Advanced? {
        FirstDraw(target, sites[0], ElaborateSite(input, sites[0], target.dialect, value), before.operands);
      }
    } else {
      SitesNeverDisagree(target, input, sites[..n], value, before);
      var between := SiteSteps(target, input, sites[..n], value, start, before);
      if between.Advanced? {
        assert SitesAgree(target.dialect, sites[0], sites[n]);
        LaterStep(target, input, sites[0], sites[n], value, before, between.progress);
      }
    }
  }

  /**
    The two site-disagreement errors cannot happen when the operator kinds that the sites
    of every input declare go together.
   */
  lemma {:induction false} InputsNeverDisagree<T(!new)>(target: Target<T>, inputs: seq<Input>,
                                                        values: map<string, Value>, before: Progress<T>)
    requires Reflexive(target) && forall i :: 0 <= i < |inputs| ==> AllAgree(target.dialect, inputs[i].sites)
    ensures var r := Materialize(target, inputs, values, before);
              r.Err? ==> !r.error.SiteCount? && !r.error.Disagreement?
    decreases |inputs|
  {
    if inputs != [] {
      var n := |inputs| - 1;
      InputsNeverDisagree(target, inputs[..n], values, before);
      var between, input := Materialize(target, inputs[..n], values, before), inputs[n];
      if between.Ok? && InputValue(target.dialect, input, values).Ok? && input.sites != [] {
        SitesNeverDisagree(target, input, input.sites, InputValue(target.dialect, input, values).value, between.value);
      }
    }
  }

  /* ---- kinds that do not go together ---- */

  /** Any two lowerings of one operator with these kinds emit alike. */
  ghost predicate NeverDiverge(dialect: Dialect, a: ValueKind, b: ValueKind) {
    forall input: Input, field: Field, x: Operator, y: Operator, operand: Value, path: InputPath ::
        x.kind == a && y.kind == b && x.name == y.name ==>
      Follows(ElaborateOperator(input, field, SiteField(field.key, [y], []), dialect, y.name, operand, path),
              ElaborateOperator(input, field, SiteField(field.key, [x], []), dialect, x.name, operand, path))
  }

  function Declared(kind: ValueKind): Operator {
    Operator("is", kind, "", "", [Case("true", "TRUE")])
  }

  /** A value on which two kinds that do not go together emit different operands. */
  function Divider(a: ValueKind, b: ValueKind): Value {
    if a.Scalar? || b.Scalar? then if a.Collection? || b.Collection? then Array([]) else Boolean(true)
    else Text("true")
  }

  /** Two kinds go together exactly when no input, field, operator and value make them emit different operands. */
  lemma KindsExact(dialect: Dialect, a: ValueKind, b: ValueKind)
    ensures KindsAgree(dialect, a, b) <==> NeverDiverge(dialect, a, b)
  {
    if KindsAgree(dialect, a, b) {
      forall input: Input, field: Field, x: Operator, y: Operator, operand: Value, path: InputPath | x.kind == a
          && y.kind == b && x.name == y.name
        ensures Follows(ElaborateOperator(input, field, SiteField(field.key, [y], []), dialect, y.name, operand, path),
                        ElaborateOperator(input, field, SiteField(field.key, [x], []), dialect, x.name, operand, path))
      {
        LoneFollows(input, field, x, y, dialect, operand, path);
      }
    } else {
      KindsDiverge(dialect, a, b);
    }
  }

  lemma LoneFollows(input: Input, field: Field, x: Operator, y: Operator, dialect: Dialect, operand: Value,
                    path: InputPath)
    requires KindsAgree(dialect, x.kind, y.kind) && x.name == y.name
    ensures Follows(ElaborateOperator(input, field, SiteField(field.key, [y], []), dialect, y.name, operand, path),
                    ElaborateOperator(input, field, SiteField(field.key, [x], []), dialect, x.name, operand, path))
  {
    OperatorFollows(input, field, SiteField(field.key, [x], []), SiteField(field.key, [y], []), dialect, x.name,
                    operand, path);
  }

  lemma KindsDiverge(dialect: Dialect, a: ValueKind, b: ValueKind)
    requires !KindsAgree(dialect, a, b)
    ensures !NeverDiverge(dialect, a, b)
  {
    var field := Field("f", "", "", None);
    var input := Input("w", Predicate, [field], [], (f: Field, v: Value) => true);
    var x, y := Declared(a), Declared(b);
    OperatorCompletes(input, field, dialect, a, Divider(a, b));
    OperatorCompletes(input, field, dialect, b, Divider(a, b));
    assert !Follows(ElaborateOperator(input, field, SiteField(field.key, [y], []), dialect, y.name, Divider(a, b), []),
                    ElaborateOperator(input, field, SiteField(field.key, [x], []), dialect, x.name, Divider(a, b), []));
  }

  lemma OperatorCompletes(input: Input, field: Field, dialect: Dialect, kind: ValueKind, value: Value)
    requires !kind.UnknownKind? && forall v :: input.accepts(field, v)
    requires !value.Null?
    requires kind.Collection? ==> value == Array([]) || dialect.JavaScript?
    requires kind.Flag? ==> value == Boolean(true) || (dialect.JavaScript? && value == Text("true"))
    ensures var e :=
              ElaborateOperator(input, field, SiteField(field.key, [Declared(kind)], []), dialect, "is", value, []);
            e.Done? && Emission(e) == EmittedBy(kind, field, [], value)
  {
    OperatorEmits(input, field, SiteField(field.key, [Declared(kind)], []), dialect, "is", value, []);
    assert FindCase([Case("true", "TRUE")], "true").Some?;
  }

  /* ---- a disagreement, concretely ---- */

  lemma SortedOne(dialect: Dialect, key: string)
    ensures Sorted(dialect, {key}) == [key]
  {
    var sorted := Sorted(dialect, {key});
    assert key in sorted;
  }

  lemma ChainOne(e: Elaboration)
    requires e.Done?
    ensures Chain([e]) == e
  {
    assert [e][..0] == [];
    assert [] + e.trees == e.trees;
  }

  /** A predicate of one field is the group of that field's operators. */
  lemma LoneField(input: Input, site: Site, field: Field, siteField: SiteField, dialect: Dialect, operators: Value,
                  path: InputPath)
    requires field.key !in {"and", "or", "not"} && FindField(input.fields, field.key) == Some(field)
             && FindSiteField(site.fields, field.key) == Some(siteField)
    requires ElaborateOperators(input, field, siteField, dialect, operators, path + [Key(field.key)]).Done?
    ensures Elaborate(input, site, dialect, Object(map[field.key := operators]), path) ==
            Grouped(ElaborateOperators(input, field, siteField, dialect, operators, path + [Key(field.key)]))
  {
    var value := Object(map[field.key := operators]);
    var part := ElaborateOperators(input, field, siteField, dialect, operators, path + [Key(field.key)]);
    SortedOne(dialect, field.key);
    assert value.entries.Keys == {field.key};
    ChainOne(part);
    ChainOfEntries(input, site, dialect, value, path);
    assert EntryParts(input, site, dialect, value.entries, [field.key], path) == [part];
  }

  /** A predicate of one field with one operator emits what the operator emits. */
  lemma LoneOperator(input: Input, site: Site, field: Field, siteField: SiteField, dialect: Dialect, name: string,
                     operand: Value, path: InputPath)
    requires field.key !in {"and", "or", "not"} && FindField(input.fields, field.key) == Some(field)
             && FindSiteField(site.fields, field.key) == Some(siteField)
    requires ElaborateOperator(input, field, siteField, dialect, name, operand,
                               path + [Key(field.key)] + [Key(name)]).Done?
    ensures var e := Elaborate(input, site, dialect, Object(map[field.key := Object(map[name := operand])]), path);
            e.Done?
                && Emission(e) ==
                     Emission(ElaborateOperator(input, field, siteField, dialect, name, operand,
                                                path + [Key(field.key)] + [Key(name)]))
  {
    var entries := map[name := operand];
    var part :=
        ElaborateOperator(input, field, siteField, dialect, name, operand, path + [Key(field.key)] + [Key(name)]);
    SortedOne(dialect, name);
    assert entries.Keys == {name};
    ChainOne(part);
    ChainOfParts(input, field, siteField, dialect, entries, path + [Key(field.key)]);
    assert OperatorParts(input, field, siteField, dialect, entries, [name], path + [Key(field.key)]) == [part];
    LoneField(input, site, field, siteField, dialect, Object(entries), path);
    WrappingEmission(part);
  }

  function TwoSites(): Input {
    Input("w", Predicate, [Field("f", "", "", None)],
          [Site("m", "TRUE", [SiteField("f", [Declared(Scalar)], [])]),
           Site("n", "TRUE", [SiteField("f", [Declared(Collection)], [])])],
          (f: Field, v: Value) => true)
  }

  /** A scalar site and a collection site disagree on an empty array: the one binds it, the other needs no operand. */
  lemma SitesDisagree()
    ensures Materialize(NATIVE, [TwoSites()], map["w" := Object(map["f" := Object(map["is" := Array([])])])],
                        Progress("m n", [])) == Err(SiteCount)
  {
    var input, value := TwoSites(), Object(map["f" := Object(map["is" := Array([])])]);
    var field, path := input.fields[0], [Key("w")];
    var first, second := input.sites[0], input.sites[1];
    OperatorEmits(input, field, first.fields[0], Native, "is", Array([]), path + [Key("f")] + [Key("is")]);
    OperatorEmits(input, field, second.fields[0], Native, "is", Array([]), path + [Key("f")] + [Key("is")]);
    LoneOperator(input, first, field, first.fields[0], Native, "is", Array([]), path);
    LoneOperator(input, second, field, second.fields[0], Native, "is", Array([]), path);
    var e, f := ElaborateSite(input, first, Native, value), ElaborateSite(input, second, Native, value);
    assert |Emission(e)| == 1 && Emission(f) == [];
    AbsorbPast(NATIVE, [], Emission(e));
    FirstMarker(SiteText(first, e.trees, 0));
    TwoSteps(input, first, second, value, e, f);
  }

  lemma FirstMarker(text: string)
    ensures ReplaceMarker(Native, "m n", "m", text) == Some(text + " n")
  {
    MarkerReplaced(Native, "m n", "m", text, text + " n");
    assert "m n"[..0] + text + "m n"[1..] == text + " n";
    forall j: nat | At("m n", "m", j) ensures j == 0 {
      assert "m n"[j..j + 1][0] == "m n"[j];
    }
    assert OnlyAt("m n", "m", 0);
  }

  lemma TwoSteps(input: Input, first: Site, second: Site, value: Value, e: Elaboration, f: Elaboration)
    requires input == TwoSites() && first == input.sites[0] && second == input.sites[1]
             && value == Object(map["f" := Object(map["is" := Array([])])])
    requires e == ElaborateSite(input, first, Native, value) && f == ElaborateSite(input, second, Native, value)
             && e.Done? && f.Done?
    requires |Emission(e)| == 1 && Emission(f) == [] && Absorb(NATIVE, [], 0, Emission(e)).Some?
    requires ReplaceMarker(Native, "m n", "m", SiteText(first, e.trees, 0)).Some?
    ensures Materialize(NATIVE, [input], map["w" := value], Progress("m n", [])) == Err(SiteCount)
  {
    var before := Progress("m n", []);
    var one := SiteStep(NATIVE, input, first, value, 0, None, before);
    assert one.Advanced? && one.end == Some(1);
    assert SiteStep(NATIVE, input, second, value, 0, one.end, one.progress) == Halted(SiteCount);
    assert input.sites[..1] == [first] && [first][..0] == [];
    assert SiteSteps(NATIVE, input, [first], value, 0, before) == one;
    assert SiteSteps(NATIVE, input, input.sites, value, 0, before) == Halted(SiteCount);
    assert [input][..0] == [];
  }
}
