/**
  The order of an input's operands: depth first, keys sorted, array items in
  sequence.  Stated on the operands' own paths, which strictly ascend.
 */
module DynamicTraversal {
  import opened DynamicInput
  import opened KeyOrder
  import opened Wrappers

  predicate StepBefore(dialect: Dialect, a: PathStep, b: PathStep) {
    match (a, b)
    case (Key(x), Key(y)) => Before(dialect, x, y)
    case (Index(x), Index(y)) => x < y
    case _ => false
  }

  predicate DivergesAt(dialect: Dialect, p: InputPath, q: InputPath, d: nat) {
    d < |p| && d < |q| && p[..d] == q[..d] && StepBefore(dialect, p[d], q[d])
  }

  /** One path comes first where the two first differ; neither contains the other. */
  ghost predicate PathBefore(dialect: Dialect, p: InputPath, q: InputPath) {
    exists d :: DivergesAt(dialect, p, q, d)
  }

  ghost predicate Ascending(dialect: Dialect, operands: seq<Bound>) {
    forall a, b :: 0 <= a < b < |operands| ==> PathBefore(dialect, operands[a].path, operands[b].path)
  }

  predicate Under(operands: seq<Bound>, prefix: InputPath) {
    forall k :: 0 <= k < |operands| ==> prefix <= operands[k].path
  }

  /** Below `base`, every operand comes before the step. */
  predicate Below(dialect: Dialect, operands: seq<Bound>, base: InputPath, step: PathStep) {
    forall k :: 0 <= k < |operands| ==>
        |base| < |operands[k].path| && base <= operands[k].path && StepBefore(dialect, operands[k].path[|base|], step)
  }

  lemma AppendAscends(dialect: Dialect, first: seq<Bound>, second: seq<Bound>, base: InputPath, step: PathStep)
    requires Ascending(dialect, first) && Ascending(dialect, second)
    requires Below(dialect, first, base, step) && Under(second, base + [step])
    ensures Ascending(dialect, first + second)
  {
    var all := first + second;
    forall a, b | 0 <= a < b < |all| ensures PathBefore(dialect, all[a].path, all[b].path) {
      if a < |first| <= b {
        var p, q := first[a].path, second[b - |first|].path;
        assert base + [step] <= q;
        assert p[..|base|] == base == q[..|base|];
        assert DivergesAt(dialect, p, q, |base|);
      }
    }
  }

  lemma UnderIsBelow(dialect: Dialect, operands: seq<Bound>, base: InputPath, step: PathStep, later: PathStep)
    requires Under(operands, base + [step]) && StepBefore(dialect, step, later)
    ensures Below(dialect, operands, base, later)
  {
    forall k | 0 <= k < |operands|
      ensures |base| < |operands[k].path| && base <= operands[k].path && operands[k].path[|base|] == step
    {
      assert (base + [step])[..|base|] == base;
      assert base + [step] <= operands[k].path;
    }
  }

  /** Parts under ascending steps of a common base. */
  ghost predicate Ordered(dialect: Dialect, parts: seq<Elaboration>, base: InputPath, steps: seq<PathStep>) {
    && |parts| == |steps|
    && (forall i :: 0 <= i < |parts| ==>
        Under(Emission(parts[i]), base + [steps[i]]) && Ascending(dialect, Emission(parts[i])))
    && forall i, j :: 0 <= i < j < |steps| ==> StepBefore(dialect, steps[i], steps[j])
  }

  lemma {:induction false} ChainBelow(dialect: Dialect, parts: seq<Elaboration>, base: InputPath, steps: seq<PathStep>,
                                      later: PathStep)
    requires Ordered(dialect, parts, base, steps) && forall i :: 0 <= i < |steps| ==>
               StepBefore(dialect, steps[i], later)
    ensures Below(dialect, Emission(Chain(parts)), base, later)
  {
    if parts != [] {
      var n := |parts| - 1;
      ChainBelow(dialect, parts[..n], base, steps[..n], later);
      UnderIsBelow(dialect, Emission(parts[n]), base, steps[n], later);
      if Chain(parts[..n]).Done? {
        AppendEmission(Chain(parts[..n]), parts[n]);
      }
    }
  }

  lemma {:induction false} ChainAscends(dialect: Dialect, parts: seq<Elaboration>, base: InputPath,
                                        steps: seq<PathStep>)
    requires Ordered(dialect, parts, base, steps)
    ensures Ascending(dialect, Emission(Chain(parts))) && Under(Emission(Chain(parts)), base)
  {
    if parts != [] {
      var n := |parts| - 1;
      ChainAscends(dialect, parts[..n], base, steps[..n]);
      if Chain(parts[..n]).Done? {
        AppendEmission(Chain(parts[..n]), parts[n]);
        ChainBelow(dialect, parts[..n], base, steps[..n], steps[n]);
        AppendAscends(dialect, Emission(Chain(parts[..n])), Emission(parts[n]), base, steps[n]);
        assert forall k :: 0 <= k < |Emission(parts[n])| ==> base + [steps[n]] <= Emission(parts[n])[k].path;
      }
    }
  }

  lemma FewAscend(dialect: Dialect, operands: seq<Bound>, path: InputPath)
    requires operands == [] || (|operands| == 1 && operands[0].path == path)
    ensures Ascending(dialect, operands) && Under(operands, path)
  {
  }

  lemma LoneOperandAscends(e: Elaboration, dialect: Dialect, path: InputPath)
    requires e.Stuck? ==> e.emitted == []
    requires e.Done? ==> |e.trees| == 1 && match e.trees[0] case Leaf(_, placed, _) => placed.path == path
             case other => Operands(other) == []
    ensures Ascending(dialect, Emission(e)) && Under(Emission(e), path)
  {
    var emitted := Emission(e);
    if e.Done? {
      SingletonOperands(e.trees[0]);
      assert e.trees == [e.trees[0]];
    }
    FewAscend(dialect, emitted, path);
  }

  lemma OperatorsAscend(input: Input, field: Field, siteField: SiteField, dialect: Dialect, operators: Value,
                        path: InputPath)
    ensures var emitted := Emission(ElaborateOperators(input, field, siteField, dialect, operators, path));
            Ascending(dialect, emitted) && Under(emitted, path)
  {
    if operators.Object? {
      var names := Sorted(dialect, operators.entries.Keys);
      var parts := seq(|names|, i requires 0 <= i < |names| =>
        ElaborateOperator(input, field, siteField, dialect, names[i], operators.entries[names[i]],
                          path + [Key(names[i])]));
      var steps := seq(|names|, i requires 0 <= i < |names| => Key(names[i]));
      forall i | 0 <= i < |names|
        ensures Under(Emission(parts[i]), path + [steps[i]]) && Ascending(dialect, Emission(parts[i]))
      {
        LoneOperandAscends(parts[i], dialect, path + [steps[i]]);
      }
      ChainAscends(dialect, parts, path, steps);
    }
  }

  lemma {:induction false} ItemsAscend(input: Input, site: Site, dialect: Dialect, key: string, value: Value,
                                       path: InputPath)
    requires value.Array? && (key == "and" || key == "or")
    ensures var emitted := Emission(ElaborateEntry(input, site, dialect, key, value, path));
            Ascending(dialect, emitted) && Under(emitted, path + [Key(key)])
    decreases value, 1
  {
    var parts :=
        seq(|value.items|,
            i requires 0 <= i < |value.items| =>
                Elaborate(input, site, dialect, value.items[i], path + [Key(key), Index(i)]));
    var base: InputPath, steps: seq<PathStep> := path + [Key(key)],
        seq(|value.items|, i requires 0 <= i < |value.items| => Index(i));
    forall i | 0 <= i < |value.items|
      ensures Under(Emission(parts[i]), base + [steps[i]]) && Ascending(dialect, Emission(parts[i]))
    {
      OperandsAscend(input, site, dialect, value.items[i], path + [Key(key), Index(i)]);
      assert base + [steps[i]] == path + [Key(key), Index(i)];
    }
    ChainAscends(dialect, parts, base, steps);
    WrappingEmission(Chain(parts));
  }

  lemma {:induction false} EntryAscends(input: Input, site: Site, dialect: Dialect, key: string, value: Value,
                                        path: InputPath)
    ensures var emitted := Emission(ElaborateEntry(input, site, dialect, key, value, path));
            Ascending(dialect, emitted) && Under(emitted, path + [Key(key)])
    decreases value, 2
  {
    if key == "and" || key == "or" {
      if value.Array? {
        ItemsAscend(input, site, dialect, key, value, path);
      }
    } else if key == "not" {
      OperandsAscend(input, site, dialect, value, path + [Key(key)]);
      WrappingEmission(Elaborate(input, site, dialect, value, path + [Key(key)]));
    } else if FindField(input.fields, key).Some? && FindSiteField(site.fields, key).Some? {
      OperatorsAscend(input, FindField(input.fields, key).value, FindSiteField(site.fields, key).value, dialect, value,
                      path + [Key(key)]);
    }
  }

  /** A predicate's operands strictly ascend in depth-first, sorted-key order, also up to a failure. */
  lemma {:induction false} OperandsAscend(input: Input, site: Site, dialect: Dialect, value: Value, path: InputPath)
    ensures var emitted := Emission(Elaborate(input, site, dialect, value, path));
            Ascending(dialect, emitted) && Under(emitted, path)
    decreases value, 1
  {
    if value.Object? {
      var keys := Sorted(dialect, value.entries.Keys);
      var parts :=
          seq(|keys|,
              i requires 0 <= i < |keys| =>
                  ElaborateEntry(input, site, dialect, keys[i], value.entries[keys[i]], path));
      var steps := seq(|keys|, i requires 0 <= i < |keys| => Key(keys[i]));
      forall i | 0 <= i < |keys|
        ensures Under(Emission(parts[i]), path + [steps[i]]) && Ascending(dialect, Emission(parts[i]))
      {
        EntryAscends(input, site, dialect, keys[i], value.entries[keys[i]], path);
      }
      ChainAscends(dialect, parts, path, steps);
      WrappingEmission(Chain(parts));
    }
  }
}
