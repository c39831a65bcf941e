/**
  Properties of whole materialisations: every input owns one contiguous block of
  the operand vector, each of its sites names exactly that block, and every
  inserted text means what the input's value means.
 */
module DynamicBlocks {
  import opened DynamicInput
  import opened DynamicMaterialization
  import opened DynamicMeaning
  import opened KeyOrder
  import opened ThreeValuedLogic
  import opened Wrappers

  /* ---- placeholder numbers ---- */

  lemma {:induction false} NumbersAppend(first: seq<Token>, second: seq<Token>)
    ensures Numbers(first + second) == Numbers(first) + Numbers(second)
  {
    if first == [] {
      assert first + second == second;
    } else {
      var rest := first[1..];
      assert (first + second)[1..] == rest + second && (first + second)[0] == first[0];
      NumbersAppend(rest, second);
    }
  }

  lemma {:induction false} ConsecutiveAppend(start: nat, m: nat, n: nat)
    ensures Consecutive(start, m + n) == Consecutive(start, m) + Consecutive(start + m, n)
    decreases m
  {
    if m > 0 {
      ConsecutiveAppend(start + 1, m - 1, n);
    }
  }

  lemma {:induction false} JoinAppend(lists: seq<seq<Token>>, last: seq<Token>, separator: Token)
    requires lists != []
    ensures Join(lists + [last], separator) == Join(lists, separator) + [separator] + last
  {
    var rest := lists[1..];
    assert (lists + [last])[1..] == rest + [last] && (lists + [last])[0] == lists[0];
    if rest != [] {
      JoinAppend(rest, last, separator);
      assert lists[0] + [separator] + (Join(rest, separator) + [separator] + last) ==
               lists[0] + [separator] + Join(rest, separator) + [separator] + last;
    }
  }

  lemma NumbersJoin(lists: seq<seq<Token>>, last: seq<Token>, separator: Token)
    requires !separator.Placeholder?
    ensures Numbers(Join(lists + [last], separator)) == Numbers(Join(lists, separator)) + Numbers(last)
  {
    if lists == [] {
      assert lists + [last] == [last];
    } else {
      var joined := Join(lists, separator);
      JoinAppend(lists, last, separator);
      NumbersAppend(joined + [separator], last);
      NumbersAppend(joined, [separator]);
      assert [separator][1..] == [];
    }
  }

  lemma NumbersWrapped(before: seq<Token>, inner: seq<Token>)
    requires Numbers(before) == []
    ensures Numbers(before + inner + [Close]) == Numbers(inner)
  {
    NumbersAppend(before + inner, [Close]);
    NumbersAppend(before, inner);
    assert [Close][1..] == [];
  }

  /** A rendered tree names its operands' places, each once and in order. */
  lemma {:induction false} TreeNumbers(tree: Tree, start: nat)
    ensures Numbers(Tokens(tree, start)) == Consecutive(start, |Operands(tree)|)
    decreases tree
  {
    assert [Open][1..] == [] && [NotWord, Open][1..] == [Open];
    match tree
    case AllOf(children) =>
      ListNumbers(children, start, AndWord);
      NumbersWrapped([Open], Join(TokenLists(children, start), AndWord));
    case AnyOf(children) =>
      ListNumbers(children, start, OrWord);
      NumbersWrapped([Open], Join(TokenLists(children, start), OrWord));
    case Negation(child) =>
      TreeNumbers(child, start);
      NumbersWrapped([NotWord, Open], Tokens(child, start));
    case _ =>
      assert Tokens(tree, start)[1..] == [];
  }

  lemma {:induction false} ListNumbers(trees: seq<Tree>, start: nat, separator: Token)
    requires !separator.Placeholder?
    ensures Numbers(Join(TokenLists(trees, start), separator)) == Consecutive(start, |OperandsOf(trees)|)
    decreases trees
  {
    if trees != [] {
      var n := |trees| - 1;
      var m := |OperandsOf(trees[..n])|;
      ListNumbers(trees[..n], start, separator);
      TreeNumbers(trees[n], start + m);
      NumbersJoin(TokenLists(trees[..n], start), Tokens(trees[n], start + m), separator);
      ConsecutiveAppend(start, m, |Operands(trees[n])|);
    }
  }

  /** Placed after `start` parameters, what is rendered names the next `size` ones, each once and in order. */
  predicate NamesPlaces(trees: seq<Tree>, start: nat, size: nat) {
    if trees == [] then size == 0 else |trees| == 1 && Numbers(Tokens(trees[0], start)) == Consecutive(start, size)
  }

  lemma RenderedNamesPlaces(e: Elaboration, start: nat, size: nat)
    requires e.Done? && |e.trees| <= 1 && |Emission(e)| == size
    ensures NamesPlaces(e.trees, start, size)
  {
    if e.trees != [] {
      assert e.trees == [e.trees[0]];
      SingletonOperands(e.trees[0]);
      TreeNumbers(e.trees[0], start);
    }
  }

  /* ---- one input's block ---- */

  ghost predicate Reflexive<T(!new)>(target: Target<T>) {
    forall operand :: target.agrees(target.bind(operand), target.bind(operand))
  }

  /** The site renders, and its operands are the `size` places of the vector from `start` on. */
  ghost predicate Fits<T>(target: Target<T>, e: Elaboration, start: nat, size: nat, operands: seq<T>) {
    e.Done? && |Emission(e)| == size && start + size <= |operands|
        && OverlapAgrees(target, operands, start, Emission(e))
  }

  lemma {:induction false} OverlapExtended<T>(target: Target<T>, items: seq<T>, cursor: nat, operands: seq<Bound>,
                                              more: seq<T>)
    requires cursor + |operands| <= |items| && OverlapAgrees(target, items, cursor, operands)
    ensures OverlapAgrees(target, items + more, cursor, operands)
    decreases |operands|
  {
    if operands != [] {
      OverlapExtended(target, items, cursor, operands[..|operands| - 1], more);
    }
  }

  lemma {:induction false} BlockAgrees<T(!new)>(target: Target<T>, before: seq<T>, operands: seq<Bound>)
    requires Reflexive(target)
    ensures OverlapAgrees(target, before + Bind(target, operands), |before|, operands)
    decreases |operands|
  {
    if operands != [] {
      var n := |operands| - 1;
      BlockAgrees(target, before, operands[..n]);
      var shorter, item := Bind(target, operands[..n]), target.bind(operands[n]);
      OverlapExtended(target, before + shorter, |before|, operands[..n], [item]);
      assert before + shorter + [item] == before + Bind(target, operands);
    }
  }

  /** The first site fills the block. */
  lemma FirstDraw<T(!new)>(target: Target<T>, site: Site, e: Elaboration, before: seq<T>)
    requires Reflexive(target) && DrawAt(target, site, e, |before|, before).Drawn?
    ensures var drawn := DrawAt(target, site, e, |before|, before);
            drawn.operands == before + Bind(target, Emission(e)) && drawn.end == |drawn.operands|
                && Fits(target, e, |before|, |Emission(e)|, drawn.operands)
  {
    AbsorbPast(target, before, Emission(e));
    BlockAgrees(target, before, Emission(e));
  }

  /** A later site adds nothing and agrees with the block. */
  lemma LaterDraw<T>(target: Target<T>, site: Site, e: Elaboration, start: nat, before: seq<T>)
    requires start <= |before| && DrawAt(target, site, e, start, before).Drawn?
             && DrawAt(target, site, e, start, before).end == |before|
    ensures DrawAt(target, site, e, start, before).operands == before
            && Fits(target, e, start, |before| - start, before)
  {
    AbsorbWithin(target, before, start, Emission(e));
  }

  ghost predicate AllFit<T>(target: Target<T>, es: seq<Elaboration>, start: nat, size: nat, operands: seq<T>)
    decreases |es|
  {
    es == []
        || (AllFit(target, es[..|es| - 1], start, size, operands) && Fits(target, es[|es| - 1], start, size, operands))
  }

  lemma {:induction false} EachFits<T>(target: Target<T>, es: seq<Elaboration>, start: nat, size: nat, operands: seq<T>,
                                       j: nat)
    requires AllFit(target, es, start, size, operands) && j < |es|
    ensures Fits(target, es[j], start, size, operands)
    decreases |es|
  {
    if j < |es| - 1 {
      EachFits(target, es[..|es| - 1], start, size, operands, j);
    }
  }

  function SiteElaborations(dialect: Dialect, input: Input, sites: seq<Site>, value: Value): (es: seq<Elaboration>)
    ensures |es| == |sites|
  {
    if sites == [] then []
    else SiteElaborations(dialect, input, sites[..|sites| - 1], value)
         + [ElaborateSite(input, sites[|sites| - 1], dialect, value)]
  }

  lemma {:induction false} SiteElaborationAt(dialect: Dialect, input: Input, sites: seq<Site>, value: Value, j: nat)
    requires j < |sites|
    ensures SiteElaborations(dialect, input, sites, value)[j] == ElaborateSite(input, sites[j], dialect, value)
    decreases |sites|
  {
    if j < |sites| - 1 {
      SiteElaborationAt(dialect, input, sites[..|sites| - 1], value, j);
    }
  }

  /** One block, the first site's operands, and every site fits it. */
  ghost predicate SharesBlock<T>(target: Target<T>, es: seq<Elaboration>, before: seq<T>, after: seq<T>) {
    es != [] && after == before + Bind(target, Emission(es[0]))
        && AllFit(target, es, |before|, |Emission(es[0])|, after)
  }

  lemma OneSharesBlock<T(!new)>(target: Target<T>, site: Site, e: Elaboration, before: seq<T>)
    requires Reflexive(target) && DrawAt(target, site, e, |before|, before).Drawn?
    ensures var drawn := DrawAt(target, site, e, |before|, before);
            drawn.end == |drawn.operands| && SharesBlock(target, [e], before, drawn.operands)
  {
    FirstDraw(target, site, e, before);
    assert [e][..0] == [];
  }

  lemma AnotherSharesBlock<T>(target: Target<T>, es: seq<Elaboration>, site: Site, e: Elaboration, before: seq<T>,
                              between: seq<T>)
    requires SharesBlock(target, es, before, between)
    requires DrawAt(target, site, e, |before|, between).Drawn?
             && DrawAt(target, site, e, |before|, between).end == |between|
    ensures DrawAt(target, site, e, |before|, between).operands == between
            && SharesBlock(target, es + [e], before, between)
  {
    LaterDraw(target, site, e, |before|, between);
    assert (es + [e])[..|es|] == es;
  }

  lemma StepDraws<T>(target: Target<T>, input: Input, site: Site, value: Value, start: nat, expected: Option<nat>,
                     before: Progress<T>, e: Elaboration)
    requires e == ElaborateSite(input, site, target.dialect, value)
    requires SiteStep(target, input, site, value, start, expected, before).Advanced?
    ensures var step, drawing := SiteStep(target, input, site, value, start, expected, before),
              DrawAt(target, site, e, start, before.operands);
            && drawing.Drawn? && step.progress.operands == drawing.operands && step.end == Some(drawing.end)
            && (expected.Some? ==> drawing.end == expected.value)
  {
  }

  lemma OnlySiteShares<T(!new)>(target: Target<T>, input: Input, sites: seq<Site>, value: Value, before: Progress<T>)
    requires Reflexive(target) && |sites| == 1
             && SiteSteps(target, input, sites, value, |before.operands|, before).Advanced?
    ensures var done := SiteSteps(target, input, sites, value, |before.operands|, before);
            && done.end == Some(|done.progress.operands|)
            && SharesBlock(target, SiteElaborations(target.dialect, input, sites, value), before.operands,
                           done.progress.operands)
  {
    var e := ElaborateSite(input, sites[0], target.dialect, value);
    assert SiteElaborations(target.dialect, input, sites, value) == [e];
    StepDraws(target, input, sites[0], value, |before.operands|, None, before, e);
    OneSharesBlock(target, sites[0], e, before.operands);
  }

  lemma {:induction false} SitesShareBlock<T(!new)>(target: Target<T>, input: Input, sites: seq<Site>, value: Value,
                                                    before: Progress<T>)
    requires Reflexive(target) && sites != []
             && SiteSteps(target, input, sites, value, |before.operands|, before).Advanced?
    ensures var done := SiteSteps(target, input, sites, value, |before.operands|, before);
            && done.end == Some(|done.progress.operands|)
            && SharesBlock(target, SiteElaborations(target.dialect, input, sites, value), before.operands,
                           done.progress.operands)
    decreases |sites|
  {
    var n, start := |sites| - 1, |before.operands|;
    if n == 0 {
      OnlySiteShares(target, input, sites, value, before);
    } else {
      var e := ElaborateSite(input, sites[n], target.dialect, value);
      SitesShareBlock(target, input, sites[..n], value, before);
      var between := SiteSteps(target, input, sites[..n], value, start, before);
      StepDraws(target, input, sites[n], value, start, between.end, between.progress, e);
      AnotherSharesBlock(target, SiteElaborations(target.dialect, input, sites[..n], value), sites[n], e,
                         before.operands, between.progress.operands);
    }
  }

  /* ---- all inputs ---- */

  /** The elaborations of an input's sites. */
  function Drafts(dialect: Dialect, input: Input, values: map<string, Value>): seq<Elaboration> {
    match InputValue(dialect, input, values)
    case Err(_) => []
    case Ok(value) => SiteElaborations(dialect, input, input.sites, value)
  }

  function AllDrafts(dialect: Dialect, inputs: seq<Input>, values: map<string, Value>): (drafts: seq<seq<Elaboration>>)
    ensures |drafts| == |inputs|
    decreases |inputs|
  {
    if inputs == [] then []
    else AllDrafts(dialect, inputs[..|inputs| - 1], values) + [Drafts(dialect, inputs[|inputs| - 1], values)]
  }

  /** The operands an input owns: those of its first site. */
  function Block(es: seq<Elaboration>): seq<Bound> {
    if es == [] then [] else Emission(es[0])
  }

  function Blocks(drafts: seq<seq<Elaboration>>): seq<Bound> {
    if drafts == [] then [] else Blocks(drafts[..|drafts| - 1]) + Block(drafts[|drafts| - 1])
  }

  /** The operand vector after the inputs with these drafts. */
  function Vector<T>(target: Target<T>, before: seq<T>, drafts: seq<seq<Elaboration>>): (operands: seq<T>)
    ensures |operands| == |before| + |Blocks(drafts)|
  {
    before + Bind(target, Blocks(drafts))
  }

  /** Each input's sites share the block that the input appended. */
  ghost predicate Settled<T>(target: Target<T>, before: seq<T>, drafts: seq<seq<Elaboration>>)
    decreases |drafts|
  {
    drafts == [] ||
    var earlier := drafts[..|drafts| - 1];
    Settled(target, before, earlier)
        && SharesBlock(target, drafts[|drafts| - 1], Vector(target, before, earlier), Vector(target, before, drafts))
  }

  lemma {:induction false} BindAppend<T>(target: Target<T>, first: seq<Bound>, second: seq<Bound>)
    ensures Bind(target, first + second) == Bind(target, first) + Bind(target, second)
    decreases |second|
  {
    if second == [] {
      assert first + second == first;
    } else {
      var n := |second| - 1;
      BindAppend(target, first, second[..n]);
      assert (first + second)[..|first + second| - 1] == first + second[..n];
    }
  }

  lemma InputShares<T(!new)>(target: Target<T>, input: Input, values: map<string, Value>, before: Progress<T>)
    requires Reflexive(target) && InputStep(target, input, values, before).Ok?
    ensures SharesBlock(target, Drafts(target.dialect, input, values), before.operands,
                        InputStep(target, input, values, before).value.operands)
  {
    SitesShareBlock(target, input, input.sites, InputValue(target.dialect, input, values).value, before);
  }

  lemma VectorExtends<T>(target: Target<T>, before: seq<T>, drafts: seq<seq<Elaboration>>, es: seq<Elaboration>)
    ensures Vector(target, before, drafts + [es]) == Vector(target, before, drafts) + Bind(target, Block(es))
  {
    assert (drafts + [es])[..|drafts|] == drafts;
    BindAppend(target, Blocks(drafts), Block(es));
  }

  lemma SettledExtends<T>(target: Target<T>, before: seq<T>, drafts: seq<seq<Elaboration>>, es: seq<Elaboration>,
                          after: seq<T>)
    requires Settled(target, before, drafts) && SharesBlock(target, es, Vector(target, before, drafts), after)
    ensures after == Vector(target, before, drafts + [es]) && Settled(target, before, drafts + [es])
  {
    VectorExtends(target, before, drafts, es);
    assert (drafts + [es])[..|drafts|] == drafts;
  }

  /** A successful materialisation settles every input and appends exactly the inputs' blocks. */
  lemma {:induction false} MaterializedVector<T(!new)>(target: Target<T>, inputs: seq<Input>,
                                                       values: map<string, Value>, before: Progress<T>)
    requires Reflexive(target) && Materialize(target, inputs, values, before).Ok?
    ensures var drafts := AllDrafts(target.dialect, inputs, values);
            && Materialize(target, inputs, values, before).value.operands == Vector(target, before.operands, drafts)
            && Settled(target, before.operands, drafts)
    decreases |inputs|
  {
    if inputs == [] {
      assert before.operands + [] == before.operands;
    } else {
      var n := |inputs| - 1;
      MaterializedVector(target, inputs[..n], values, before);
      InputShares(target, inputs[n], values, Materialize(target, inputs[..n], values, before).value);
      SettledExtends(target, before.operands, AllDrafts(target.dialect, inputs[..n], values),
                     Drafts(target.dialect, inputs[n], values),
                     Materialize(target, inputs, values, before).value.operands);
    }
  }

  /** How many operands the inputs before the i-th own. */
  function OwnedBefore(drafts: seq<seq<Elaboration>>, i: nat): nat
    requires i < |drafts|
    decreases |drafts|
  {
    var n := |drafts| - 1;
    if i == n then |Blocks(drafts[..n])| else OwnedBefore(drafts[..n], i)
  }

  /**
    In the final vector each input's block lies after the blocks of the inputs before it,
    and every site of the input fits it.
   */
  lemma {:induction false} InputFits<T>(target: Target<T>, before: seq<T>, drafts: seq<seq<Elaboration>>, i: nat,
                                        j: nat, start: nat, size: nat, e: Elaboration)
    requires Settled(target, before, drafts) && i < |drafts| && j < |drafts[i]| && e == drafts[i][j]
    requires start == |before| + OwnedBefore(drafts, i) && size == |Block(drafts[i])|
    ensures Fits(target, e, start, size, Vector(target, before, drafts))
    decreases |drafts|
  {
    var n := |drafts| - 1;
    if i == n {
      SharedFits(target, drafts[n], j, Vector(target, before, drafts[..n]), Vector(target, before, drafts), start);
    } else {
      InputFits(target, before, drafts[..n], i, j, start, size, e);
      FitsAfterOneMore(target, before, drafts, n, start, size, e);
    }
  }

  lemma FitsStill<T>(target: Target<T>, e: Elaboration, start: nat, size: nat, between: seq<T>, after: seq<T>)
    requires Fits(target, e, start, size, between) && between <= after
    ensures Fits(target, e, start, size, after)
  {
    assert after == between + after[|between|..];
    OverlapExtended(target, between, start, Emission(e), after[|between|..]);
  }

  lemma FitsAfterOneMore<T>(target: Target<T>, before: seq<T>, drafts: seq<seq<Elaboration>>, n: nat, start: nat,
                            size: nat, e: Elaboration)
    requires |drafts| == n + 1 && Fits(target, e, start, size, Vector(target, before, drafts[..n]))
    ensures Fits(target, e, start, size, Vector(target, before, drafts))
  {
    VectorGrows(target, before, drafts, n);
    FitsStill(target, e, start, size, Vector(target, before, drafts[..n]), Vector(target, before, drafts));
  }

  lemma VectorGrows<T>(target: Target<T>, before: seq<T>, drafts: seq<seq<Elaboration>>, n: nat)
    requires |drafts| == n + 1
    ensures Vector(target, before, drafts[..n]) <= Vector(target, before, drafts)
  {
    BindAppend(target, Blocks(drafts[..n]), Block(drafts[n]));
  }

  lemma SharedFits<T>(target: Target<T>, es: seq<Elaboration>, j: nat, before: seq<T>, after: seq<T>, start: nat)
    requires SharesBlock(target, es, before, after) && j < |es| && start == |before|
    ensures Fits(target, es[j], start, |Block(es)|, after)
  {
    EachFits(target, es, start, |Block(es)|, after, j);
  }

  lemma {:induction false} DraftAt(dialect: Dialect, inputs: seq<Input>, values: map<string, Value>, i: nat)
    requires i < |inputs|
    ensures AllDrafts(dialect, inputs, values)[i] == Drafts(dialect, inputs[i], values)
    decreases |inputs|
  {
    if i < |inputs| - 1 {
      DraftAt(dialect, inputs[..|inputs| - 1], values, i);
    }
  }

  /** The first place of the i-th input's block, after the fixed parameters. */
  function BlockStart(dialect: Dialect, inputs: seq<Input>, values: map<string, Value>, fixed: nat, i: nat): nat
    requires i < |inputs|
  {
    fixed + OwnedBefore(AllDrafts(dialect, inputs, values), i)
  }

  /**
    Contiguous blocks: a successful materialisation leaves the fixed prefix
    alone, and every site of every input has exactly the input's block as its
    operands, agreeing with the vector, and names each place once and in order.
   */
  lemma SiteNamesBlock<T(!new)>(target: Target<T>, inputs: seq<Input>, values: map<string, Value>, before: Progress<T>,
                                i: nat, j: nat,
                                start: nat, size: nat, at: nat, e: Elaboration)
    requires Reflexive(target) && i < |inputs| && j < |inputs[i].sites|
             && Materialize(target, inputs, values, before).Ok?
    requires start == BlockStart(target.dialect, inputs, values, |before.operands|, i) && at == target.offset + start
    requires size == |Block(Drafts(target.dialect, inputs[i], values))|
    requires InputValue(target.dialect, inputs[i], values).Ok? ==>
               e == ElaborateSite(inputs[i], inputs[i].sites[j], target.dialect,
                                  InputValue(target.dialect, inputs[i], values).value)
    ensures InputValue(target.dialect, inputs[i], values).Ok?
    ensures before.operands <= Materialize(target, inputs, values, before).value.operands
    ensures Fits(target, e, start, size, Materialize(target, inputs, values, before).value.operands)
    ensures NamesPlaces(e.trees, at, size)
  {
    var drafts := AllDrafts(target.dialect, inputs, values);
    MaterializedVector(target, inputs, values, before);
    DraftAt(target.dialect, inputs, values, i);
    ValueFound(target, inputs, values, before, i);
    SiteElaborationAt(target.dialect, inputs[i], inputs[i].sites, InputValue(target.dialect, inputs[i], values).value,
                      j);
    assert drafts[i][j] == e;
    InputFits(target, before.operands, drafts, i, j, start, size, e);
    RenderedNamesPlaces(e, at, size);
  }

  lemma {:induction false} ValueFound<T>(target: Target<T>, inputs: seq<Input>, values: map<string, Value>,
                                         before: Progress<T>, i: nat)
    requires i < |inputs| && Materialize(target, inputs, values, before).Ok?
    ensures InputValue(target.dialect, inputs[i], values).Ok?
    decreases |inputs|
  {
    if i < |inputs| - 1 {
      ValueFound(target, inputs[..|inputs| - 1], values, before, i);
    }
  }

  lemma NativeReflexive()
    ensures Reflexive(NATIVE)
  {
  }

  /**
    After the native materialisation, every site of a predicate input that is
    rendered parses as one primary in any context and evaluates, under the final
    parameter vector, to the meaning of the input; a site whose input means
    nothing keeps its identity.
   */
  lemma SiteMeansInput(inputs: seq<Input>, values: map<string, Value>, before: Progress<Bound>, i: nat, j: nat,
                       sense: Sense, rest: seq<Token>)
    requires i < |inputs| && j < |inputs[i].sites| && inputs[i].kind.Predicate?
             && Materialize(NATIVE, inputs, values, before).Ok?
    ensures InputValue(Native, inputs[i], values).Ok?
    ensures var operands := Materialize(NATIVE, inputs, values, before).value.operands;
            var value, site, start := InputValue(Native, inputs[i], values).value, inputs[i].sites[j],
                BlockStart(Native, inputs, values, |before.operands|, i);
            var e := ElaborateSite(inputs[i], site, Native, value);
            && e.Done?
            && if e.trees == [] then Meaning(site, sense, value) == Absent
               && SiteText(site, e.trees, start) == site.identitySql
               else
                 && SiteText(site, e.trees, start) == Print(Tokens(e.trees[0], start))
                 && var parsed := ParsePrimary(Tokens(e.trees[0], start) + rest);
                 && parsed.Some? && parsed.value.1 == rest
                 && Is(Eval(parsed.value.0, operands, sense)) == Meaning(site, sense, value)
  {
    NativeReflexive();
    ValueFound(NATIVE, inputs, values, before, i);
    var operands := Materialize(NATIVE, inputs, values, before).value.operands;
    var start, size := BlockStart(Native, inputs, values, |before.operands|, i),
        |Block(Drafts(Native, inputs[i], values))|;
    var value, site := InputValue(Native, inputs[i], values).value, inputs[i].sites[j];
    var e := ElaborateSite(inputs[i], site, Native, value);
    SiteNamesBlock(NATIVE, inputs, values, before, i, j, start, size, start, e);
    BlockPlaced(e, operands, start, size);
    RenderingPreservesMeaning(inputs[i], site, Native, value, [Key(inputs[i].path)], start, operands, sense, rest);
  }

  lemma BlockPlaced(e: Elaboration, operands: seq<Bound>, start: nat, size: nat)
    requires Fits(NATIVE, e, start, size, operands)
    ensures Placed(Emission(e), operands, start)
  {
    forall k | 0 <= k < |Emission(e)| ensures operands[start + k].value == Emission(e)[k].value {
      OverlapAt(NATIVE, operands, start, Emission(e), k);
    }
  }
}
