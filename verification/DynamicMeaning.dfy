/**
  The meaning of a dynamic predicate, given without reference to rendering, and
  a precedence parser (NOT over AND over OR) for rendered tokens.  Parsing what
  is rendered and evaluating it gives the meaning of the input.
 */
module DynamicMeaning {
  import opened DynamicInput
  import opened KeyOrder
  import opened ThreeValuedLogic
  import opened Wrappers

  /* ---- parser ---- */

  datatype Ast =
    | Atom(before: string, number: nat, after: string)
    | Verbatim(text: string)
    | Constant(flag: bool)
    | Conj(left: Ast, right: Ast)
    | Disj(left: Ast, right: Ast)
    | Neg(operand: Ast)

  type Parsed = Option<(Ast, seq<Token>)>

  function ParsePrimary(tokens: seq<Token>): (r: Parsed)
    ensures r.Some? ==> |r.value.1| < |tokens|
    decreases |tokens|, 0
  {
    if tokens == [] then None
    else
      match tokens[0]
      case Open =>
        (match ParseOr(tokens[1..])
         case None => None
         case Some((ast, rest)) => if rest != [] && rest[0] == Close then Some((ast, rest[1..])) else None)
      case Placeholder(before, number, after) => Some((Atom(before, number, after), tokens[1..]))
      case Fragment(text) => Some((Verbatim(text), tokens[1..]))
      case TrueWord => Some((Constant(true), tokens[1..]))
      case FalseWord => Some((Constant(false), tokens[1..]))
      case _ => None
  }

  function ParseUnary(tokens: seq<Token>): (r: Parsed)
    ensures r.Some? ==> |r.value.1| < |tokens|
    decreases |tokens|, 1
  {
    if tokens != [] && tokens[0] == NotWord then
      match ParseUnary(tokens[1..])
      case None => None
      case Some((ast, rest)) => Some((Neg(ast), rest))
    else ParsePrimary(tokens)
  }

  function ParseAnd(tokens: seq<Token>): (r: Parsed)
    ensures r.Some? ==> |r.value.1| < |tokens|
    decreases |tokens|, 2
  {
    match ParseUnary(tokens)
    case None => None
    case Some((left, rest)) =>
      if rest != [] && rest[0] == AndWord then
        match ParseAnd(rest[1..])
        case None => None
        case Some((right, rest')) => Some((Conj(left, right), rest'))
      else Some((left, rest))
  }

  function ParseOr(tokens: seq<Token>): (r: Parsed)
    ensures r.Some? ==> |r.value.1| < |tokens|
    decreases |tokens|, 3
  {
    match ParseAnd(tokens)
    case None => None
    case Some((left, rest)) =>
      if rest != [] && rest[0] == OrWord then
        match ParseOr(rest[1..])
        case None => None
        case Some((right, rest')) => Some((Disj(left, right), rest'))
      else Some((left, rest))
  }

  /* ---- evaluation ---- */

  /** What a fragment tests: a lowering applied to an operand, or a fixed text. */
  datatype Condition = Comparison(before: string, operand: Value, after: string) | Plain(text: string)

  type Sense = Condition -> Truth

  function Eval(ast: Ast, parameters: seq<Bound>, sense: Sense): Truth {
    match ast
    case Atom(before, number, after) =>
      if 1 <= number <= |parameters| then sense(Comparison(before, parameters[number - 1].value, after)) else Unknown
    case Verbatim(text) => sense(Plain(text))
    case Constant(flag) => if flag then True else False
    case Conj(left, right) => And3(Eval(left, parameters, sense), Eval(right, parameters, sense))
    case Disj(left, right) => Or3(Eval(left, parameters, sense), Eval(right, parameters, sense))
    case Neg(operand) => Not3(Eval(operand, parameters, sense))
  }

  /* ---- meaning of the input ---- */

  /** All present outcomes must be true; none present is absence. */
  ghost function Conjunction(outcomes: set<Outcome>): Outcome {
    if outcomes <= {Absent} then Absent
    else if Is(False) in outcomes then Is(False)
    else if Is(Unknown) in outcomes then Is(Unknown)
    else Is(True)
  }

  /** Some present outcome must be true; none present is FALSE. */
  ghost function Disjunction(outcomes: set<Outcome>): Outcome {
    if Is(True) in outcomes then Is(True)
    else if Is(Unknown) in outcomes then Is(Unknown)
    else Is(False)
  }

  ghost function OutcomeSet(outcomes: seq<Outcome>): set<Outcome> {
    set i | 0 <= i < |outcomes| :: outcomes[i]
  }

  ghost function OperatorMeaning(siteField: SiteField, sense: Sense, name: string, operand: Value): Outcome {
    match FindOperator(siteField.operators, name)
    case None => Absent
    case Some(operator) =>
      match operator.kind
      case Scalar => Is(sense(Comparison(operator.before, operand, operator.after)))
      case Collection =>
        if ScriptEmpty(operand) then Is(if name == "in" then False else True)
        else Is(sense(Comparison(operator.before, operand, operator.after)))
      case Flag =>
        (match FindCase(operator.cases, ScriptText(operand))
         case None => Absent
         case Some(c) => Is(sense(Plain(c.text))))
      case UnknownKind => Absent
  }

  ghost function EntryMeaning(site: Site, sense: Sense, key: string, value: Value): Outcome
    decreases value, 2
  {
    if key == "and" then
      if value.Array? then
          Conjunction(OutcomeSet(seq(|value.items|,
                                     i requires 0 <= i < |value.items| => Meaning(site, sense, value.items[i]))))
                                         else Absent
    else if key == "or" then
      if value.Array? then
          Disjunction(OutcomeSet(seq(|value.items|,
                                     i requires 0 <= i < |value.items| => Meaning(site, sense, value.items[i]))))
                                         else Absent
    else if key == "not" then SqlNot(Meaning(site, sense, value))
    else
      match FindSiteField(site.fields, key)
      case None => Absent
      case Some(siteField) =>
        if value.Object? then
          Conjunction(set name | name in value.entries :: OperatorMeaning(siteField, sense, name, value.entries[name]))
        else Absent
  }

  ghost function Meaning(site: Site, sense: Sense, value: Value): Outcome
    decreases value, 1
  {
    if value.Object? then
      Conjunction(set key | key in value.entries :: EntryMeaning(site, sense, key, value.entries[key]))
    else Absent
  }

  /* ---- trees: syntax and truth ---- */

  predicate Solid(tree: Tree) {
    match tree
    case AllOf(children) => children != [] && forall i :: 0 <= i < |children| ==> Solid(children[i])
    case AnyOf(children) => children != [] && forall i :: 0 <= i < |children| ==> Solid(children[i])
    case Negation(child) => Solid(child)
    case _ => true
  }

  predicate AllSolid(trees: seq<Tree>) {
    forall i :: 0 <= i < |trees| ==> Solid(trees[i])
  }

  function Folded(asts: seq<Ast>, conjunctive: bool): Ast
    requires asts != []
  {
    if |asts| == 1 then asts[0]
    else if conjunctive then Conj(asts[0], Folded(asts[1..], conjunctive))
    else Disj(asts[0], Folded(asts[1..], conjunctive))
  }

  function AstOf(tree: Tree, start: nat): Ast
    requires Solid(tree)
    decreases tree
  {
    match tree
    case Leaf(before, _, after) => Atom(before, start + 1, after)
    case Fixed(text) => Verbatim(text)
    case Falsum => Constant(false)
    case Verum => Constant(true)
    case AllOf(children) => Folded(AstList(children, start), true)
    case AnyOf(children) => Folded(AstList(children, start), false)
    case Negation(child) => Neg(AstOf(child, start))
  }

  function AstList(trees: seq<Tree>, start: nat): (asts: seq<Ast>)
    requires AllSolid(trees)
    ensures |asts| == |trees|
    decreases trees
  {
    if trees == [] then []
    else
      var rest := trees[..|trees| - 1];
      AstList(rest, start) + [AstOf(trees[|trees| - 1], start + |OperandsOf(rest)|)]
  }

  function TreeTruth(tree: Tree, sense: Sense): Truth
    decreases tree
  {
    match tree
    case Leaf(before, operand, after) => sense(Comparison(before, operand.value, after))
    case Fixed(text) => sense(Plain(text))
    case Falsum => False
    case Verum => True
    case AllOf(children) => AllTruth(children, sense)
    case AnyOf(children) => AnyTruth(children, sense)
    case Negation(child) => Not3(TreeTruth(child, sense))
  }

  function AllTruth(trees: seq<Tree>, sense: Sense): Truth
    decreases trees
  {
    if trees == [] then True else And3(AllTruth(trees[..|trees| - 1], sense), TreeTruth(trees[|trees| - 1], sense))
  }

  function AnyTruth(trees: seq<Tree>, sense: Sense): Truth
    decreases trees
  {
    if trees == [] then False else Or3(AnyTruth(trees[..|trees| - 1], sense), TreeTruth(trees[|trees| - 1], sense))
  }

  /* ---- parsing rendered tokens ---- */

  /** The tokens parse as one operand of NOT, AND and OR, whatever follows. */
  ghost predicate ParsesAs(tokens: seq<Token>, ast: Ast) {
    forall rest {:trigger tokens + rest} :: ParseUnary(tokens + rest) == Some((ast, rest))
  }

  lemma {:induction false} ParseJoinAnd(lists: seq<seq<Token>>, asts: seq<Ast>, rest: seq<Token>)
    requires |lists| == |asts| && lists != []
    requires forall i :: 0 <= i < |lists| ==> ParsesAs(lists[i], asts[i])
    requires rest == [] || rest[0] != AndWord
    ensures ParseAnd(Join(lists, AndWord) + rest) == Some((Folded(asts, true), rest))
  {
    if |lists| == 1 {
      assert ParsesAs(lists[0], asts[0]);
      assert ParseUnary(lists[0] + rest) == Some((asts[0], rest));
    } else {
      var tail := [AndWord] + (Join(lists[1..], AndWord) + rest);
      assert Join(lists, AndWord) + rest == lists[0] + tail;
      assert ParsesAs(lists[0], asts[0]);
      assert ParseUnary(lists[0] + tail) == Some((asts[0], tail));
      assert tail[1..] == Join(lists[1..], AndWord) + rest;
      ParseJoinAnd(lists[1..], asts[1..], rest);
    }
  }

  lemma {:induction false} ParseJoinOr(lists: seq<seq<Token>>, asts: seq<Ast>, rest: seq<Token>)
    requires |lists| == |asts| && lists != []
    requires forall i :: 0 <= i < |lists| ==> ParsesAs(lists[i], asts[i])
    requires rest == [] || (rest[0] != AndWord && rest[0] != OrWord)
    ensures ParseOr(Join(lists, OrWord) + rest) == Some((Folded(asts, false), rest))
  {
    assert ParsesAs(lists[0], asts[0]);
    if |lists| == 1 {
      assert ParseUnary(lists[0] + rest) == Some((asts[0], rest));
      assert ParseAnd(lists[0] + rest) == Some((asts[0], rest));
    } else {
      var tail := [OrWord] + (Join(lists[1..], OrWord) + rest);
      assert Join(lists, OrWord) + rest == lists[0] + tail;
      assert ParseUnary(lists[0] + tail) == Some((asts[0], tail));
      assert ParseAnd(lists[0] + tail) == Some((asts[0], tail));
      assert tail[1..] == Join(lists[1..], OrWord) + rest;
      ParseJoinOr(lists[1..], asts[1..], rest);
    }
  }

  lemma ParseGroup(lists: seq<seq<Token>>, asts: seq<Ast>, conjunctive: bool, rest: seq<Token>)
    requires |lists| == |asts| && lists != []
    requires forall i :: 0 <= i < |lists| ==> ParsesAs(lists[i], asts[i])
    ensures ParsePrimary(Parenthesized(lists, if conjunctive then AndWord else OrWord) + rest) ==
              Some((Folded(asts, conjunctive), rest))
  {
    var separator := if conjunctive then AndWord else OrWord;
    var tail := [Close] + rest;
    var tokens := Parenthesized(lists, separator) + rest;
    assert tokens[1..] == Join(lists, separator) + tail;
    if conjunctive {
      ParseJoinAnd(lists, asts, tail);
    } else {
      ParseJoinOr(lists, asts, tail);
    }
    assert ParseOr(tokens[1..]) == Some((Folded(asts, conjunctive), tail));
    assert tail[1..] == rest;
  }

  lemma {:induction false} TreeParses(tree: Tree, start: nat)
    requires Solid(tree)
    ensures ParsesAs(Tokens(tree, start), AstOf(tree, start))
    decreases tree
  {
    forall rest ensures ParseUnary(Tokens(tree, start) + rest) == Some((AstOf(tree, start), rest)) {
      match tree
      case AllOf(children) =>
        ListParses(children, start);
        ParseGroup(TokenLists(children, start), AstList(children, start), true, rest);
      case AnyOf(children) =>
        ListParses(children, start);
        ParseGroup(TokenLists(children, start), AstList(children, start), false, rest);
      case Negation(child) =>
        TreeParses(child, start);
        var inner := [Tokens(child, start)];
        ParseGroup(inner, [AstOf(child, start)], true, rest);
        assert (Tokens(tree, start) + rest)[1..] == Parenthesized(inner, AndWord) + rest;
      case _ =>
        assert (Tokens(tree, start) + rest)[1..] == rest;
    }
  }

  lemma {:induction false} ListParses(trees: seq<Tree>, start: nat)
    requires AllSolid(trees)
    ensures |TokenLists(trees, start)| == |trees|
    ensures forall i :: 0 <= i < |trees| ==> ParsesAs(TokenLists(trees, start)[i], AstList(trees, start)[i])
    decreases trees
  {
    if trees != [] {
      var n := |trees| - 1;
      ListParses(trees[..n], start);
      TreeParses(trees[n], start + |OperandsOf(trees[..n])|);
    }
  }

  /* ---- evaluating the parse ---- */

  /** The operands of a tree sit in the vector from `start` on. */
  ghost predicate Placed(operands: seq<Bound>, parameters: seq<Bound>, start: nat) {
    && start + |operands| <= |parameters|
    && forall k :: 0 <= k < |operands| ==> parameters[start + k].value == operands[k].value
  }

  lemma {:induction false} FoldedEval(asts: seq<Ast>, conjunctive: bool, parameters: seq<Bound>, sense: Sense,
                                      last: Ast)
    ensures Eval(Folded(asts + [last], conjunctive), parameters, sense) ==
            if asts == [] then Eval(last, parameters, sense)
            else if conjunctive then
                And3(Eval(Folded(asts, conjunctive), parameters, sense), Eval(last, parameters, sense))
            else Or3(Eval(Folded(asts, conjunctive), parameters, sense), Eval(last, parameters, sense))
  {
    if |asts| >= 1 {
      assert (asts + [last])[1..] == asts[1..] + [last];
      FoldedEval(asts[1..], conjunctive, parameters, sense, last);
    }
  }

  lemma {:induction false} TreeEvaluates(tree: Tree, start: nat, parameters: seq<Bound>, sense: Sense)
    requires Solid(tree) && Placed(Operands(tree), parameters, start)
    ensures Eval(AstOf(tree, start), parameters, sense) == TreeTruth(tree, sense)
    decreases tree
  {
    match tree
    case Leaf(_, operand, _) => assert parameters[start + 0].value == Operands(tree)[0].value;
    case AllOf(children) => ListEvaluates(children, start, parameters, sense);
    case AnyOf(children) => ListEvaluates(children, start, parameters, sense);
    case Negation(child) => TreeEvaluates(child, start, parameters, sense);
    case _ =>
  }

  lemma {:induction false} ListEvaluates(trees: seq<Tree>, start: nat, parameters: seq<Bound>, sense: Sense)
    requires trees != [] && AllSolid(trees) && Placed(OperandsOf(trees), parameters, start)
    ensures Eval(Folded(AstList(trees, start), true), parameters, sense) == AllTruth(trees, sense)
    ensures Eval(Folded(AstList(trees, start), false), parameters, sense) == AnyTruth(trees, sense)
    decreases trees
  {
    var n := |trees| - 1;
    var rest, last := trees[..n], trees[n];
    var at := start + |OperandsOf(rest)|;
    forall k | 0 <= k < |Operands(last)| ensures parameters[at + k].value == Operands(last)[k].value {
      assert OperandsOf(trees)[|OperandsOf(rest)| + k] == Operands(last)[k];
    }
    TreeEvaluates(last, at, parameters, sense);
    FoldedEval(AstList(rest, start), true, parameters, sense, AstOf(last, at));
    FoldedEval(AstList(rest, start), false, parameters, sense, AstOf(last, at));
    if rest != [] {
      assert forall k :: 0 <= k < |OperandsOf(rest)| ==> OperandsOf(trees)[k] == OperandsOf(rest)[k];
      ListEvaluates(rest, start, parameters, sense);
    }
  }

  /* ---- trees and meaning ---- */

  function OutcomeOf(trees: seq<Tree>, sense: Sense): Outcome {
    if trees == [] then Absent else Is(AllTruth(trees, sense))
  }

  lemma {:induction false} OutcomeOfAppend(first: seq<Tree>, second: seq<Tree>, sense: Sense)
    ensures OutcomeOf(first + second, sense) == SqlAnd(OutcomeOf(first, sense), OutcomeOf(second, sense))
  {
    if second == [] {
      assert first + second == first;
    } else {
      var n := |second| - 1;
      OutcomeOfAppend(first, second[..n], sense);
      assert (first + second)[..|first + second| - 1] == first + second[..n];
      assert AllTruth(first + second, sense) == And3(AllTruth(first + second[..n], sense), TreeTruth(second[n], sense));
      assert first == [] ==> AllTruth(first, sense) == True;
      assert second[..n] == [] ==> first + second[..n] == first && AllTruth(second[..n], sense) == True;
    }
  }

  lemma ConjunctionGrows(outcomes: set<Outcome>, one: Outcome)
    ensures Conjunction(outcomes + {one}) == SqlAnd(Conjunction(outcomes), one)
    ensures Disjunction(outcomes + {one}) ==
              if one.Absent? then Disjunction(outcomes) else SqlOr(Disjunction(outcomes), one)
  {
    assert forall o: Outcome :: o.Absent? || o.truth.True? || o.truth.False? || o.truth.Unknown?;
    assert one in outcomes + {one};
  }

  ghost function PartOutcomes(parts: seq<Elaboration>, sense: Sense): set<Outcome>
    requires forall i :: 0 <= i < |parts| ==> parts[i].Done?
  {
    set i | 0 <= i < |parts| :: OutcomeOf(parts[i].trees, sense)
  }

  lemma {:induction false} ChainDone(parts: seq<Elaboration>)
    requires Chain(parts).Done?
    ensures forall i :: 0 <= i < |parts| ==> parts[i].Done?
  {
    if parts != [] {
      ChainDone(parts[..|parts| - 1]);
      assert forall i :: 0 <= i < |parts| - 1 ==> parts[i] == parts[..|parts| - 1][i];
    }
  }

  lemma PartOutcomesStep(parts: seq<Elaboration>, sense: Sense)
    requires parts != [] && forall i :: 0 <= i < |parts| ==> parts[i].Done?
    ensures var n := |parts| - 1;
            PartOutcomes(parts, sense) == PartOutcomes(parts[..n], sense) + {OutcomeOf(parts[n].trees, sense)}
  {
    var n := |parts| - 1;
    forall o | o in PartOutcomes(parts, sense)
      ensures o in PartOutcomes(parts[..n], sense) + {OutcomeOf(parts[n].trees, sense)}
    {
      var i :| 0 <= i < |parts| && o == OutcomeOf(parts[i].trees, sense);
      assert i < n ==> parts[..n][i] == parts[i];
    }
    forall o | o in PartOutcomes(parts[..n], sense) ensures o in PartOutcomes(parts, sense) {
      var i :| 0 <= i < n && o == OutcomeOf(parts[..n][i].trees, sense);
      assert parts[..n][i] == parts[i];
    }
  }

  /** A chain of parts means the conjunction of what its parts mean. */
  lemma {:induction false} ChainMeans(parts: seq<Elaboration>, sense: Sense)
    requires Chain(parts).Done? && forall i :: 0 <= i < |parts| ==> parts[i].Done?
    ensures OutcomeOf(Chain(parts).trees, sense) == Conjunction(PartOutcomes(parts, sense))
  {
    if parts != [] {
      var n := |parts| - 1;
      ChainMeans(parts[..n], sense);
      OutcomeOfAppend(Chain(parts[..n]).trees, parts[n].trees, sense);
      PartOutcomesStep(parts, sense);
      ConjunctionGrows(PartOutcomes(parts[..n], sense), OutcomeOf(parts[n].trees, sense));
    }
  }

  /** Alternatives of optional children mean their disjunction. */
  lemma {:induction false} AlternativesMean(parts: seq<Elaboration>, sense: Sense)
    requires Chain(parts).Done?
    requires forall i :: 0 <= i < |parts| ==> parts[i].Done? && |parts[i].trees| <= 1
    ensures Is(AnyTruth(Chain(parts).trees, sense)) == Disjunction(PartOutcomes(parts, sense))
  {
    if parts != [] {
      var n := |parts| - 1;
      AlternativesMean(parts[..n], sense);
      PartOutcomesStep(parts, sense);
      ConjunctionGrows(PartOutcomes(parts[..n], sense), OutcomeOf(parts[n].trees, sense));
      var before := Chain(parts[..n]).trees;
      if parts[n].trees == [] {
        assert before + parts[n].trees == before;
      } else {
        var tree := parts[n].trees[0];
        assert (before + parts[n].trees)[..|before|] == before;
        OneTree(tree, sense);
        assert parts[n].trees == [tree];
      }
    }
  }

  lemma OneTree(tree: Tree, sense: Sense)
    ensures AllTruth([tree], sense) == TreeTruth(tree, sense) == AnyTruth([tree], sense)
  {
    assert [tree][..0] == [];
  }

  lemma WrappingMeans(e: Elaboration, sense: Sense)
    requires e.Done?
    ensures OutcomeOf(Grouped(e).trees, sense) == OutcomeOf(e.trees, sense)
    ensures OutcomeOf(Alternatives(e).trees, sense) == Is(AnyTruth(e.trees, sense))
    ensures |e.trees| <= 1 ==> OutcomeOf(Negated(e).trees, sense) == SqlNot(OutcomeOf(e.trees, sense))
  {
    OneTree(AllOf(e.trees), sense);
    OneTree(if e.trees == [] then Falsum else AnyOf(e.trees), sense);
    if |e.trees| == 1 {
      OneTree(e.trees[0], sense);
      OneTree(Negation(e.trees[0]), sense);
      assert e.trees == [e.trees[0]];
    }
  }

  lemma SolidChain(parts: seq<Elaboration>)
    requires Chain(parts).Done? && forall i :: 0 <= i < |parts| ==> parts[i].Done? && AllSolid(parts[i].trees)
    ensures AllSolid(Chain(parts).trees)
  {
    if parts != [] {
      SolidChain(parts[..|parts| - 1]);
    }
  }

  ghost predicate Faithful(e: Elaboration, outcome: Outcome, sense: Sense) {
    e.Done? ==> AllSolid(e.trees) && OutcomeOf(e.trees, sense) == outcome
  }

  lemma OperatorFaithful(input: Input, field: Field, siteField: SiteField, dialect: Dialect, sense: Sense, name: string,
                         operand: Value, path: InputPath)
    ensures Faithful(ElaborateOperator(input, field, siteField, dialect, name, operand, path),
                     OperatorMeaning(siteField, sense, name, operand), sense)
  {
    var e := ElaborateOperator(input, field, siteField, dialect, name, operand, path);
    if e.Done? {
      OneTree(e.trees[0], sense);
      assert e.trees == [e.trees[0]];
    }
  }

  /** Faithful parts chain to a faithful conjunction, and to a faithful disjunction when each is one child at most. */
  lemma PartsFaithful(parts: seq<Elaboration>, outcomes: seq<Outcome>, sense: Sense)
    requires |parts| == |outcomes| && forall i :: 0 <= i < |parts| ==> Faithful(parts[i], outcomes[i], sense)
    ensures Faithful(Chain(parts), Conjunction(OutcomeSet(outcomes)), sense)
    ensures Chain(parts).Done? && (forall i :: 0 <= i < |parts| && parts[i].Done? ==> |parts[i].trees| <= 1) ==>
              Is(AnyTruth(Chain(parts).trees, sense)) == Disjunction(OutcomeSet(outcomes))
  {
    if Chain(parts).Done? {
      ChainDone(parts);
      SolidChain(parts);
      ChainMeans(parts, sense);
      assert PartOutcomes(parts, sense) == OutcomeSet(outcomes);
      if forall i :: 0 <= i < |parts| && parts[i].Done? ==> |parts[i].trees| <= 1 {
        AlternativesMean(parts, sense);
      }
    }
  }

  /** Grouping faithful parts, and alternatives of faithful children. */
  lemma GroupsFaithful(parts: seq<Elaboration>, outcomes: seq<Outcome>, sense: Sense)
    requires |parts| == |outcomes| && forall i :: 0 <= i < |parts| ==> Faithful(parts[i], outcomes[i], sense)
    ensures Faithful(Grouped(Chain(parts)), Conjunction(OutcomeSet(outcomes)), sense)
    ensures (forall i :: 0 <= i < |parts| && parts[i].Done? ==> |parts[i].trees| <= 1) ==>
              Faithful(Alternatives(Chain(parts)), Disjunction(OutcomeSet(outcomes)), sense)
  {
    PartsFaithful(parts, outcomes, sense);
    if Chain(parts).Done? {
      WrappingMeans(Chain(parts), sense);
    }
  }

  /** Going through keys in sorted order loses and repeats nothing. */
  lemma KeyedFaithful(parts: seq<Elaboration>, keys: seq<string>, domain: set<string>, meaning: string --> Outcome,
                      sense: Sense)
    requires forall key :: key in domain <==> key in keys
    requires forall key :: key in domain ==> meaning.requires(key)
    requires |parts| == |keys| && forall i :: 0 <= i < |keys| ==> Faithful(parts[i], meaning(keys[i]), sense)
    ensures Faithful(Chain(parts), Conjunction(set key | key in domain :: meaning(key)), sense)
    ensures Faithful(Grouped(Chain(parts)), Conjunction(set key | key in domain :: meaning(key)), sense)
  {
    var outcomes := seq(|keys|, i requires 0 <= i < |keys| => meaning(keys[i]));
    forall key | key in domain ensures meaning(key) in OutcomeSet(outcomes) {
      var i :| 0 <= i < |keys| && keys[i] == key;
      assert outcomes[i] == meaning(key);
    }
    assert OutcomeSet(outcomes) == set key | key in domain :: meaning(key);
    PartsFaithful(parts, outcomes, sense);
    GroupsFaithful(parts, outcomes, sense);
  }

  lemma OperatorsMean(siteField: SiteField, sense: Sense, entries: map<string, Value>, names: seq<string>,
                      parts: seq<Elaboration>)
    requires (forall name :: name in entries.Keys <==> name in names) && |parts| == |names|
    requires forall i :: 0 <= i < |names| ==>
               Faithful(parts[i], OperatorMeaning(siteField, sense, names[i], entries[names[i]]), sense)
    ensures Faithful(Chain(parts),
                     Conjunction(set name | name in entries :: OperatorMeaning(siteField, sense, name, entries[name])),
                         sense)
  {
    var meaning := (name: string) requires name in entries => OperatorMeaning(siteField, sense, name, entries[name]);
    KeyedFaithful(parts, names, entries.Keys, meaning, sense);
    assert (set name | name in entries.Keys :: meaning(name)) == set name | name in entries ::
             OperatorMeaning(siteField, sense, name, entries[name]);
  }

  lemma OperatorsFaithful(input: Input, field: Field, siteField: SiteField, dialect: Dialect, sense: Sense,
                          operators: Value, path: InputPath)
    requires operators.Object?
    ensures Faithful(ElaborateOperators(input, field, siteField, dialect, operators, path),
                     Conjunction(set name | name in operators.entries ::
                                 OperatorMeaning(siteField, sense, name, operators.entries[name])), sense)
  {
    var entries := operators.entries;
    var names := Sorted(dialect, entries.Keys);
    var parts := OperatorParts(input, field, siteField, dialect, entries, names, path);
    forall i | 0 <= i < |names|
      ensures Faithful(parts[i], OperatorMeaning(siteField, sense, names[i], entries[names[i]]), sense)
    {
      OperatorFaithful(input, field, siteField, dialect, sense, names[i], entries[names[i]], path + [Key(names[i])]);
    }
    OperatorsMean(siteField, sense, entries, names, parts);
    ChainOfParts(input, field, siteField, dialect, entries, path);
  }

  lemma {:induction false} EntryFaithful(input: Input, site: Site, dialect: Dialect, sense: Sense, key: string,
                                         value: Value, path: InputPath)
    ensures Faithful(ElaborateEntry(input, site, dialect, key, value, path), EntryMeaning(site, sense, key, value),
                     sense)
    decreases value, 2
  {
    if key == "and" || key == "or" {
      if value.Array? {
        ItemsFaithful(input, site, dialect, sense, key, value, path);
      }
    } else if key == "not" {
      var e := Elaborate(input, site, dialect, value, path + [Key(key)]);
      ElaborationFaithful(input, site, dialect, sense, value, path + [Key(key)]);
      if e.Done? {
        WrappingMeans(e, sense);
      }
    } else if FindField(input.fields, key).Some? && FindSiteField(site.fields, key).Some? && value.Object? {
      OperatorsFaithful(input, FindField(input.fields, key).value, FindSiteField(site.fields, key).value, dialect,
                        sense, value, path + [Key(key)]);
    }
  }

  lemma {:induction false} ItemsFaithful(input: Input, site: Site, dialect: Dialect, sense: Sense, key: string,
                                         value: Value, path: InputPath)
    requires value.Array? && (key == "and" || key == "or")
    ensures Faithful(ElaborateEntry(input, site, dialect, key, value, path), EntryMeaning(site, sense, key, value),
                     sense)
    decreases value, 1
  {
    var parts := seq(|value.items|, i requires 0 <= i < |value.items| =>
      Elaborate(input, site, dialect, value.items[i], path + [Key(key), Index(i)]));
    var outcomes := seq(|value.items|, i requires 0 <= i < |value.items| => Meaning(site, sense, value.items[i]));
    forall i | 0 <= i < |parts| ensures Faithful(parts[i], outcomes[i], sense) {
      ElaborationFaithful(input, site, dialect, sense, value.items[i], path + [Key(key), Index(i)]);
    }
    GroupsFaithful(parts, outcomes, sense);
  }

  lemma EntriesMean(site: Site, sense: Sense, entries: map<string, Value>, keys: seq<string>, parts: seq<Elaboration>)
    requires (forall key :: key in entries.Keys <==> key in keys) && |parts| == |keys|
    requires forall i :: 0 <= i < |keys| ==>
               Faithful(parts[i], EntryMeaning(site, sense, keys[i], entries[keys[i]]), sense)
    ensures Faithful(Grouped(Chain(parts)), Meaning(site, sense, Object(entries)), sense)
  {
    var meaning := (key: string) requires key in entries => EntryMeaning(site, sense, key, entries[key]);
    KeyedFaithful(parts, keys, entries.Keys, meaning, sense);
    assert (set key | key in entries.Keys :: meaning(key)) == set key | key in entries ::
             EntryMeaning(site, sense, key, entries[key]);
  }

  lemma {:induction false} ElaborationFaithful(input: Input, site: Site, dialect: Dialect, sense: Sense, value: Value,
                                               path: InputPath)
    ensures Faithful(Elaborate(input, site, dialect, value, path), Meaning(site, sense, value), sense)
    decreases value, 1
  {
    if value.Object? {
      var entries := value.entries;
      var keys := Sorted(dialect, entries.Keys);
      var parts := EntryParts(input, site, dialect, entries, keys, path);
      forall i | 0 <= i < |keys|
        ensures Faithful(parts[i], EntryMeaning(site, sense, keys[i], entries[keys[i]]), sense)
      {
        EntryFaithful(input, site, dialect, sense, keys[i], entries[keys[i]], path);
      }
      EntriesMean(site, sense, entries, keys, parts);
      ChainOfEntries(input, site, dialect, value, path);
    }
  }

  /* ---- the theorem ---- */

  /**
    Rendering preserves meaning: a value that elaborates renders to nothing
    exactly when it means nothing, and otherwise to tokens that parse as one
    primary in any context and evaluate, with the operands in place, to its meaning.
   */
  lemma RenderingPreservesMeaning(input: Input, site: Site, dialect: Dialect, value: Value, path: InputPath,
                                  start: nat, parameters: seq<Bound>, sense: Sense, rest: seq<Token>)
    requires Elaborate(input, site, dialect, value, path).Done?
    requires Placed(Emission(Elaborate(input, site, dialect, value, path)), parameters, start)
    ensures var trees := Elaborate(input, site, dialect, value, path).trees;
            if trees == [] then Meaning(site, sense, value) == Absent
            else
              && |trees| == 1
              && var parsed := ParsePrimary(Tokens(trees[0], start) + rest);
              && parsed.Some? && parsed.value.1 == rest
              && Is(Eval(parsed.value.0, parameters, sense)) == Meaning(site, sense, value)
  {
    var trees := Elaborate(input, site, dialect, value, path).trees;
    ElaborationFaithful(input, site, dialect, sense, value, path);
    if trees != [] {
      SingletonOperands(trees[0]);
      assert trees == [trees[0]];
      OneTree(trees[0], sense);
      TreeParses(trees[0], start);
      assert ParseUnary(Tokens(trees[0], start) + rest) == Some((AstOf(trees[0], start), rest));
      assert (Tokens(trees[0], start) + rest)[0] == Open;
      TreeEvaluates(trees[0], start, parameters, sense);
    }
  }

  /** A note on the identities: what means nothing, and what an empty alternative or collection means. */
  lemma EmptyForms(site: Site, sense: Sense, siteField: SiteField, children: seq<Value>)
    requires forall i :: 0 <= i < |children| ==> Meaning(site, sense, children[i]) == Absent
    ensures Meaning(site, sense, Object(map[])) == Absent
    ensures EntryMeaning(site, sense, "and", Array(children)) == Absent
    ensures EntryMeaning(site, sense, "not", Object(map[])) == Absent
    ensures EntryMeaning(site, sense, "or", Array(children)) == Is(False)
    ensures forall name ::
              FindOperator(siteField.operators, name).Some?
                  && FindOperator(siteField.operators, name).value.kind.Collection? ==>
              OperatorMeaning(siteField, sense, name, Array([])) == Is(if name == "in" then False else True)
  {
    var outcomes := OutcomeSet(seq(|children|, i requires 0 <= i < |children| => Meaning(site, sense, children[i])));
    assert outcomes <= {Absent};
    assert Array(children).items == children;
  }

  lemma {:induction false} EmptyChain(parts: seq<Elaboration>)
    requires forall i :: 0 <= i < |parts| ==> parts[i] == Done([])
    ensures Chain(parts) == Done([])
  {
    if parts != [] {
      EmptyChain(parts[..|parts| - 1]);
    }
  }

  /** An empty object renders nothing, and so does its negation. */
  lemma EmptyObjectRenders(input: Input, site: Site, dialect: Dialect, path: InputPath)
    ensures Elaborate(input, site, dialect, Object(map[]), path) == Done([])
    ensures ElaborateEntry(input, site, dialect, "not", Object(map[]), path) == Done([])
  {
    assert Sorted(dialect, {}) == [];
    EmptyChain([]);
  }

  /** Without a present child `and` renders nothing and `or` renders FALSE. */
  lemma EmptyGroupRenders(input: Input, site: Site, dialect: Dialect, key: string, children: seq<Value>,
                          path: InputPath)
    requires key == "and" || key == "or"
    requires forall i :: 0 <= i < |children| ==>
               Elaborate(input, site, dialect, children[i], path + [Key(key), Index(i)]) == Done([])
    ensures ElaborateEntry(input, site, dialect, key, Array(children), path) ==
              Done(if key == "and" then [] else [Falsum])
  {
    EmptyChain(seq(|children|,
                   i requires 0 <= i < |children| =>
                       Elaborate(input, site, dialect, children[i], path + [Key(key), Index(i)])));
  }

  /** An empty collection renders the constant of its operator's name. */
  lemma EmptyCollectionRenders(input: Input, field: Field, siteField: SiteField, dialect: Dialect, name: string,
                               path: InputPath)
    requires FindOperator(siteField.operators, name).Some?
             && FindOperator(siteField.operators, name).value.kind.Collection?
    ensures ElaborateOperator(input, field, siteField, dialect, name, Array([]), path) ==
              Done([if name == "in" then Falsum else Verum])
  {
  }

  /* ---- when nothing is rendered ---- */

  /** Nothing but empty objects, grouped and negated; `or` always renders something. */
  predicate Blank(value: Value)
    decreases value, 1
  {
    value.Object? && forall key :: key in value.entries ==> BlankEntry(key, value.entries[key])
  }

  predicate BlankEntry(key: string, value: Value)
    decreases value, 2
  {
    if key == "and" then value.Array? && forall i :: 0 <= i < |value.items| ==> Blank(value.items[i])
    else if key == "or" then false
    else if key == "not" then Blank(value)
    else value.Object? && value.entries == map[]
  }

  predicate All(blanks: seq<bool>) {
    forall i :: 0 <= i < |blanks| ==> blanks[i]
  }

  /** If the elaboration completes, it is empty exactly when the value is blank. */
  predicate Shows(e: Elaboration, blank: bool) {
    e.Done? ==> (e.trees == [] <==> blank)
  }

  lemma {:induction false} ChainShows(parts: seq<Elaboration>, blanks: seq<bool>)
    requires |parts| == |blanks| && forall i :: 0 <= i < |parts| ==> Shows(parts[i], blanks[i])
    ensures Shows(Chain(parts), All(blanks))
  {
    if parts != [] {
      var n := |parts| - 1;
      ChainShows(parts[..n], blanks[..n]);
      assert All(blanks) <==> blanks[n] && All(blanks[..n]);
    }
  }

  lemma GroupingShows(e: Elaboration, blank: bool)
    requires Shows(e, blank)
    ensures Shows(Grouped(e), blank) && (Grouped(e).Done? ==> |Grouped(e).trees| <= 1)
    ensures Shows(Alternatives(e), false)
    ensures (e.Done? ==> |e.trees| <= 1) ==> Shows(Negated(e), blank)
  {
  }

  lemma OperatorShows(input: Input, field: Field, siteField: SiteField, dialect: Dialect, name: string, operand: Value,
                      path: InputPath)
    ensures Shows(ElaborateOperator(input, field, siteField, dialect, name, operand, path), false)
  {
  }

  lemma OperatorsShow(input: Input, field: Field, siteField: SiteField, dialect: Dialect, operators: Value,
                      path: InputPath)
    ensures Shows(ElaborateOperators(input, field, siteField, dialect, operators, path), operators.Object?
                  && operators.entries == map[])
  {
    if operators.Object? {
      var entries := operators.entries;
      var names := Sorted(dialect, entries.Keys);
      ChainOfParts(input, field, siteField, dialect, entries, path);
      PartsShow(input, field, siteField, dialect, entries, names, path);
      if entries != map[] {
        var name :| name in entries;
        assert name in names;
      }
    }
  }

  lemma PartsShow(input: Input, field: Field, siteField: SiteField, dialect: Dialect, entries: map<string, Value>,
                  names: seq<string>, path: InputPath)
    requires forall name :: name in names ==> name in entries
    ensures Shows(Chain(OperatorParts(input, field, siteField, dialect, entries, names, path)), names == [])
  {
    var parts := OperatorParts(input, field, siteField, dialect, entries, names, path);
    var blanks := seq(|names|, i requires 0 <= i < |names| => false);
    forall i | 0 <= i < |names| ensures Shows(parts[i], blanks[i]) {
      OperatorShows(input, field, siteField, dialect, names[i], entries[names[i]], path + [Key(names[i])]);
    }
    ChainShows(parts, blanks);
    assert All(blanks) <==> names == [] by {
      assert names != [] ==> !blanks[0];
    }
  }

  lemma {:induction false} ItemsShow(input: Input, site: Site, dialect: Dialect, items: seq<Value>, path: InputPath,
                                     parts: seq<Elaboration>)
    requires |parts| == |items| && forall i :: 0 <= i < |items| ==>
               parts[i] == Elaborate(input, site, dialect, items[i], path + [Key("and"), Index(i)])
    ensures Shows(Chain(parts), BlankEntry("and", Array(items)))
    decreases Array(items), 1
  {
    var blanks := seq(|items|, i requires 0 <= i < |items| => Blank(items[i]));
    forall i | 0 <= i < |items| ensures Shows(parts[i], blanks[i]) {
      AbsentExactly(input, site, dialect, items[i], path + [Key("and"), Index(i)]);
    }
    ChainShows(parts, blanks);
    assert All(blanks) <==> BlankEntry("and", Array(items)) by {
      assert Array(items).items == items;
      assert forall i :: 0 <= i < |items| ==> blanks[i] == Blank(items[i]);
    }
  }

  lemma {:induction false} EntryShows(input: Input, site: Site, dialect: Dialect, key: string, value: Value,
                                      path: InputPath)
    ensures Shows(ElaborateEntry(input, site, dialect, key, value, path), BlankEntry(key, value))
    decreases value, 2
  {
    if key == "and" {
      if value.Array? {
        var parts :=
            seq(|value.items|,
                i requires 0 <= i < |value.items| =>
                    Elaborate(input, site, dialect, value.items[i], path + [Key(key), Index(i)]));
        ItemsShow(input, site, dialect, value.items, path, parts);
        GroupingShows(Chain(parts), BlankEntry(key, value));
      }
    } else if key == "not" {
      AbsentExactly(input, site, dialect, value, path + [Key(key)]);
      GroupingShows(Elaborate(input, site, dialect, value, path + [Key(key)]), Blank(value));
    } else if key != "or" && FindField(input.fields, key).Some? && FindSiteField(site.fields, key).Some? {
      OperatorsShow(input, FindField(input.fields, key).value, FindSiteField(site.fields, key).value, dialect, value,
                    path + [Key(key)]);
    }
  }

  /** A predicate that renders leaves the site's identity text exactly when it is blank. */
  lemma {:induction false} AbsentExactly(input: Input, site: Site, dialect: Dialect, value: Value, path: InputPath)
    ensures Shows(Elaborate(input, site, dialect, value, path), Blank(value))
    ensures Elaborate(input, site, dialect, value, path).Done? ==>
              |Elaborate(input, site, dialect, value, path).trees| <= 1
    decreases value, 1
  {
    if value.Object? {
      var keys := Sorted(dialect, value.entries.Keys);
      var parts := EntryParts(input, site, dialect, value.entries, keys, path);
      EntriesShow(input, site, dialect, value, keys, path, parts);
      ChainOfEntries(input, site, dialect, value, path);
      GroupingShows(Chain(parts), Blank(value));
    }
  }

  lemma {:induction false} EntriesShow(input: Input, site: Site, dialect: Dialect, value: Value, keys: seq<string>,
                                       path: InputPath, parts: seq<Elaboration>)
    requires value.Object? && forall key :: key in keys <==> key in value.entries
    requires parts == EntryParts(input, site, dialect, value.entries, keys, path)
    ensures Shows(Chain(parts), Blank(value))
    decreases value, 0
  {
    var blanks := seq(|keys|, i requires 0 <= i < |keys| => BlankEntry(keys[i], value.entries[keys[i]]));
    forall i | 0 <= i < |keys| ensures Shows(parts[i], blanks[i]) {
      EntryShows(input, site, dialect, keys[i], value.entries[keys[i]], path);
    }
    ChainShows(parts, blanks);
    BlankByKeys(value, keys, blanks);
  }

  lemma BlankByKeys(value: Value, keys: seq<string>, blanks: seq<bool>)
    requires value.Object? && |keys| == |blanks| && forall key :: key in keys <==> key in value.entries
    requires forall i :: 0 <= i < |keys| ==> blanks[i] == BlankEntry(keys[i], value.entries[keys[i]])
    ensures Blank(value) <==> All(blanks)
  {
    if All(blanks) {
      forall key | key in value.entries ensures BlankEntry(key, value.entries[key]) {
        var i :| 0 <= i < |keys| && keys[i] == key;
        assert blanks[i];
      }
    }
  }
}
