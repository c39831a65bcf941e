/**
  The two renderers as they run: one mutable operand vector shared by every
  site, a cursor into it, and the SQL text, threaded through loops and mutual
  recursion.  Each method is proved to do exactly what its elaboration says.
 */
module DynamicRenderer {
  import opened DynamicInput
  import opened DynamicMaterialization
  import opened KeyOrder
  import opened Wrappers

  datatype Outcome<T> = Failed(error: Error) | Placed(operands: seq<T>, cursor: nat, lists: seq<seq<Token>>)

  /** The vector and cursor after the operands were absorbed and the tokens, or the first failure. */
  function Report<T>(absorbed: Option<seq<T>>, start: nat, offset: nat, e: Elaboration): Outcome<T> {
    match absorbed
    case None => Failed(Disagreement)
    case Some(operands) =>
      match e
      case Stuck(error, _) => Failed(error)
      case Done(trees) => Placed(operands, start + |OperandsOf(trees)|, TokenLists(trees, offset + start))
  }

  /** Rendering an elaboration at a cursor. */
  function Rendered<T>(target: Target<T>, before: seq<T>, start: nat, e: Elaboration): Outcome<T> {
    Report(Absorb(target, before, start, Emission(e)), start, target.offset, e)
  }

  function Reported<T>(operands: seq<T>, cursor: nat, r: Result<seq<seq<Token>>, Error>): Outcome<T> {
    match r case Err(error) => Failed(error) case Ok(lists) => Placed(operands, cursor, lists)
  }

  /** What a rendering method may report: never a gap in the operand vector, nor anything about sites. */
  predicate RenderingError<A>(r: Result<A, Error>) {
    r.Err? ==> r.error.Invalid? || r.error.InvalidMetadata? || r.error.Disagreement?
  }

  function Listed(r: Result<Option<seq<Token>>, Error>): Result<seq<seq<Token>>, Error> {
    match r
    case Err(error) => Err(error)
    case Ok(None) => Ok([])
    case Ok(Some(tokens)) => Ok([tokens])
  }

  function Single(r: Result<seq<Token>, Error>): Result<seq<seq<Token>>, Error> {
    match r case Err(error) => Err(error) case Ok(tokens) => Ok([tokens])
  }

  function Then<T>(first: Outcome<T>, second: Outcome<T>): Outcome<T> {
    if first.Failed? || second.Failed? then (if first.Failed? then first else second)
    else second.(lists := first.lists + second.lists)
  }

  lemma ReportAppend<T>(absorbed: seq<T>, absorbed': Option<seq<T>>, start: nat, offset: nat, first: Elaboration,
                        second: Elaboration)
    requires first.Done?
    ensures Report(absorbed', start, offset, Append(first, second)) ==
            Then(Report(Some(absorbed), start, offset, first),
                 Report(absorbed', start + |Emission(first)|, offset, second))
  {
    if second.Done? {
      TokenListsAppend(first.trees, second.trees, offset + start);
      OperandsOfAppend(first.trees, second.trees);
      assert offset + start + |OperandsOf(first.trees)| == offset + (start + |OperandsOf(first.trees)|);
    }
  }

  lemma AbsorbAppend<T>(target: Target<T>, before: seq<T>, start: nat, first: Elaboration, second: Elaboration,
                        mid: seq<T>)
    requires first.Done? && Absorb(target, before, start, Emission(first)) == Some(mid)
    ensures Absorb(target, before, start, Emission(Append(first, second))) ==
              Absorb(target, mid, start + |Emission(first)|, Emission(second))
  {
    AppendEmission(first, second);
    AbsorbSplit(target, before, start, Emission(first), Emission(second));
  }

  lemma RenderedFrom<T>(target: Target<T>, before: seq<T>, start: nat, e: Elaboration, absorbed: Option<seq<T>>)
    requires Absorb(target, before, start, Emission(e)) == absorbed
    ensures Rendered(target, before, start, e) == Report(absorbed, start, target.offset, e)
  {
  }

  lemma RenderedAppend<T>(target: Target<T>, before: seq<T>, start: nat, first: Elaboration, second: Elaboration,
                          mid: seq<T>, at: nat, lists: seq<seq<Token>>)
    requires Rendered(target, before, start, first) == Placed(mid, at, lists)
    ensures Rendered(target, before, start, Append(first, second)) ==
              Then(Placed(mid, at, lists), Rendered(target, mid, at, second))
  {
    assert first.Done? && at == start + |Emission(first)|
           && Absorb(target, before, start, Emission(first)) == Some(mid);
    var absorbed, whole := Absorb(target, mid, at, Emission(second)), Append(first, second);
    assert Absorb(target, before, start, Emission(whole)) == absorbed by {
      AbsorbAppend(target, before, start, first, second, mid);
    }
    RenderedFrom(target, before, start, first, Some(mid));
    RenderedFrom(target, mid, at, second, absorbed);
    RenderedFrom(target, before, start, whole, absorbed);
    assert Report(absorbed, start, target.offset, whole) ==
             Then(Report(Some(mid), start, target.offset, first), Report(absorbed, at, target.offset, second)) by {
      ReportAppend(mid, absorbed, start, target.offset, first, second);
    }
  }

  lemma PrefixSplits<A>(prefix: seq<A>, all: seq<A>)
    requires prefix <= all
    ensures all == prefix + all[|prefix|..]
  {
  }

  /** A failure while rendering the first `n` parts is the failure of all of them. */
  lemma EarlyFailure<T>(target: Target<T>, before: seq<T>, start: nat, parts: seq<Elaboration>, n: nat)
    requires n <= |parts| && Rendered(target, before, start, Chain(parts[..n])).Failed?
    ensures Rendered(target, before, start, Chain(parts)) == Rendered(target, before, start, Chain(parts[..n]))
  {
    ChainPrefix(parts, n);
    var sofar, whole := Chain(parts[..n]), Chain(parts);
    if sofar.Done? {
      var emitted, all := Emission(sofar), Emission(whole);
      PrefixSplits(emitted, all);
      AbsorbSplit(target, before, start, emitted, all[|emitted|..]);
      assert Absorb(target, before, start, emitted).None?;
    }
  }

  /** One more part after the first `n`. */
  lemma RenderedNext<T>(target: Target<T>, before: seq<T>, start: nat, parts: seq<Elaboration>, n: nat, mid: seq<T>,
                        at: nat, lists: seq<seq<Token>>)
    requires n < |parts| && Rendered(target, before, start, Chain(parts[..n])) == Placed(mid, at, lists)
    ensures match Rendered(target, mid, at, parts[n])
            case Failed(error) => Rendered(target, before, start, Chain(parts)) == Failed(error)
            case Placed(after, end, more) =>
                Rendered(target, before, start, Chain(parts[..n + 1])) == Placed(after, end, lists + more)
  {
    var sofar, part := Chain(parts[..n]), parts[n];
    RenderedAppend(target, before, start, sofar, part, mid, at, lists);
    ChainStep(parts, n);
    if Rendered(target, mid, at, part).Failed? {
      EarlyFailure(target, before, start, parts, n + 1);
    }
  }

  function Joined(lists: seq<seq<Token>>, separator: Token): Option<seq<Token>> {
    if lists == [] then None else Some(Parenthesized(lists, separator))
  }

  lemma OneList(tree: Tree, start: nat)
    ensures TokenLists([tree], start) == [Tokens(tree, start)]
  {
    assert [tree][..0] == [];
  }

  /** A tree without operands leaves the vector and the cursor alone. */
  lemma ConstantRenders<T>(target: Target<T>, before: seq<T>, start: nat, tree: Tree)
    requires Operands(tree) == []
    ensures Rendered(target, before, start, Done([tree])) ==
              Placed(before, start, [Tokens(tree, target.offset + start)])
  {
    SingletonOperands(tree);
    OneList(tree, target.offset + start);
  }

  function Wrapped<T>(o: Outcome<T>, wrap: seq<seq<Token>> -> seq<seq<Token>>): Outcome<T> {
    if o.Failed? then o else o.(lists := wrap(o.lists))
  }

  const CONJOINED := (lists: seq<seq<Token>>) => if lists == [] then [] else [Parenthesized(lists, AndWord)]
  const DISJOINED := (lists: seq<seq<Token>>) => [if lists == [] then [FalseWord] else Parenthesized(lists, OrWord)]
  const INVERTED := (lists: seq<seq<Token>>) => if lists == [] then [] else [[NotWord, Open] + lists[0] + [Close]]

  lemma GroupedRenders<T>(target: Target<T>, before: seq<T>, start: nat, e: Elaboration)
    ensures Rendered(target, before, start, Grouped(e)) == Wrapped(Rendered(target, before, start, e), CONJOINED)
    ensures Rendered(target, before, start, Alternatives(e)) == Wrapped(Rendered(target, before, start, e), DISJOINED)
  {
    WrappingEmission(e);
    if e.Done? {
      OneList(AllOf(e.trees), target.offset + start);
      OneList(if e.trees == [] then Falsum else AnyOf(e.trees), target.offset + start);
    }
  }

  lemma NegatedRenders<T>(target: Target<T>, before: seq<T>, start: nat, e: Elaboration)
    requires e.Done? ==> |e.trees| <= 1
    ensures Rendered(target, before, start, Negated(e)) == Wrapped(Rendered(target, before, start, e), INVERTED)
  {
    WrappingEmission(e);
    if e.Done? && |e.trees| == 1 {
      OneList(Negation(e.trees[0]), target.offset + start);
      assert e.trees == [e.trees[0]];
      OneList(e.trees[0], target.offset + start);
    }
  }

  lemma OneTreeList(trees: seq<Tree>, start: nat)
    requires |trees| <= 1
    ensures TokenLists(trees, start) == if trees == [] then [] else [Tokens(trees[0], start)]
  {
    if trees != [] {
      assert trees == [trees[0]];
      OneList(trees[0], start);
    }
  }

  lemma PrintFragment(text: string)
    ensures Print([Fragment(text)]) == text
  {
    assert Print([Fragment(text)][1..]) == "";
  }

  lemma {:induction false} OrderFailsEarly(input: Input, site: Site, items: seq<Value>, path: InputPath, n: nat)
    requires n <= |items| && OrderTexts(input, site, items[..n], path).Err?
    ensures OrderTexts(input, site, items, path) == OrderTexts(input, site, items[..n], path)
    decreases |items|
  {
    if n < |items| {
      assert items[..|items| - 1][..n] == items[..n];
      OrderFailsEarly(input, site, items[..|items| - 1], path, n);
    } else {
      assert items[..n] == items;
    }
  }

  lemma OrderTextsNext(input: Input, site: Site, items: seq<Value>, path: InputPath, n: nat)
    requires n < |items|
    ensures OrderTexts(input, site, items[..n + 1], path) ==
            match OrderTexts(input, site, items[..n], path)
            case Err(error) => Err(error)
            case Ok(before) =>
              match OrderEntry(input, site, items[n], path, n)
              case Err(error) => Err(error)
              case Ok(text) => Ok(before + [text])
  {
    assert items[..n + 1][..n] == items[..n];
  }

  function OrderElaboration(r: Result<Option<string>, Error>): Elaboration {
    match r
    case Err(error) => Stuck(error, [])
    case Ok(None) => Done([])
    case Ok(Some(text)) => Done([Fixed(text)])
  }

  function DrawnFrom<T>(o: Outcome<T>, site: Site): Drawing<T> {
    match o
    case Failed(error) => Refused(error)
    case Placed(operands, end, lists) => Drawn(operands, end, if lists == [] then site.identitySql else Print(lists[0]))
  }

  lemma DrawReported<T>(absorbed: Option<seq<T>>, site: Site, e: Elaboration, start: nat, offset: nat, end: nat,
                        at: nat)
    requires e.Done? ==> |e.trees| <= 1
    requires end == start + |Emission(e)| && at == offset + start
    ensures DrawFrom(absorbed, site, e, end, at) == DrawnFrom(Report(absorbed, start, offset, e), site)
  {
    if e.Done? {
      OneTreeList(e.trees, at);
    }
  }

  lemma DrawRendered<T>(target: Target<T>, site: Site, e: Elaboration, start: nat, before: seq<T>)
    requires e.Done? ==> |e.trees| <= 1
    ensures DrawAt(target, site, e, start, before) == DrawnFrom(Rendered(target, before, start, e), site)
  {
    var end, at := start + |Emission(e)|, target.offset + start;
    DrawReported(Absorb(target, before, start, Emission(e)), site, e, start, target.offset, end, at);
  }

  lemma DrawFixed<T>(target: Target<T>, site: Site, text: string, start: nat, before: seq<T>)
    ensures DrawAt(target, site, Done([Fixed(text)]), start, before) == Drawn(before, start, text)
  {
    ConstantRenders(target, before, start, Fixed(text));
    DrawRendered(target, site, Done([Fixed(text)]), start, before);
    PrintFragment(text);
  }

  lemma DrawOrder<T>(target: Target<T>, input: Input, site: Site, value: Value, start: nat, before: seq<T>)
    requires input.kind.Order?
    ensures Draw(target, input, site, value, start, before) ==
            match ElaborateOrder(input, site, value, [Key(input.path)])
            case Stuck(error, _) => Refused(error)
            case Done(trees) => Drawn(before, start, if trees == [] then site.identitySql else trees[0].text)
    ensures ElaborateOrder(input, site, value, [Key(input.path)]).Stuck? ==>
              var error := ElaborateOrder(input, site, value, [Key(input.path)]).error;
                  error.Invalid? || error.InvalidMetadata?
  {
    if value.Array? {
      match OrderTexts(input, site, value.items, [Key(input.path)])
      case Ok(texts) =>
        DrawFixed(target, site, JoinText(texts, ", "), start, before);
      case Err(_) => var i := OrderFailure(input, site, value.items, [Key(input.path)]);
    }
  }

  lemma SiteStepsNext<T>(target: Target<T>, input: Input, sites: seq<Site>, value: Value, start: nat,
                         before: Progress<T>, n: nat)
    requires n < |sites|
    ensures SiteSteps(target, input, sites[..n + 1], value, start, before) ==
            match SiteSteps(target, input, sites[..n], value, start, before)
            case Halted(error) => Halted(error)
            case Advanced(between, expected) => SiteStep(target, input, sites[n], value, start, expected, between)
  {
    assert sites[..n + 1][..n] == sites[..n];
  }

  lemma {:induction false} SitesHaltEarly<T>(target: Target<T>, input: Input, sites: seq<Site>, value: Value,
                                             start: nat, before: Progress<T>, n: nat)
    requires n <= |sites| && SiteSteps(target, input, sites[..n], value, start, before).Halted?
    ensures SiteSteps(target, input, sites, value, start, before) ==
              SiteSteps(target, input, sites[..n], value, start, before)
    decreases |sites|
  {
    if n < |sites| {
      assert sites[..|sites| - 1][..n] == sites[..n];
      SitesHaltEarly(target, input, sites[..|sites| - 1], value, start, before, n);
    } else {
      assert sites[..n] == sites;
    }
  }

  lemma {:induction false} InputsFailEarly<T>(target: Target<T>, inputs: seq<Input>, values: map<string, Value>,
                                              before: Progress<T>, n: nat)
    requires n <= |inputs| && Materialize(target, inputs[..n], values, before).Err?
    ensures Materialize(target, inputs, values, before) == Materialize(target, inputs[..n], values, before)
    decreases |inputs|
  {
    if n < |inputs| {
      assert inputs[..|inputs| - 1][..n] == inputs[..n];
      InputsFailEarly(target, inputs[..|inputs| - 1], values, before, n);
    } else {
      assert inputs[..n] == inputs;
    }
  }

  class Renderer<T> {
    const target: Target<T>
    var sql: string
    var operands: seq<T>
    var cursor: nat

    constructor (target: Target<T>, sql: string, operands: seq<T>)
      ensures this.target == target && this.sql == sql && this.operands == operands && cursor == |operands|
    {
      this.target, this.sql, this.operands, cursor := target, sql, operands, |operands|;
    }

    ghost predicate Valid()
      reads this
    {
      cursor <= |operands|
    }

    /** The next placeholder number for an operand: appended at the end, compared before it. */
    method PlaceOperand(operand: Bound) returns (r: Result<nat, Error>)
      modifies `operands, `cursor
      ensures old(cursor) > |old(operands)| ==> r == Err(if target.dialect.Native? then NotContiguous else Disagreement)
      ensures old(cursor) <= |old(operands)| ==>
                match Absorb(target, old(operands), old(cursor), [operand])
                case None => r == Err(Disagreement) && operands == old(operands) && cursor == old(cursor)
                case Some(after) =>
                    r == Ok(target.offset + cursor) && operands == after && cursor == old(cursor) + 1 <= |operands|
    {
      var item := target.bind(operand);
      assert [operand][..0] == [] && Absorb(target, operands, cursor, [operand][..0]) == Some(operands);
      if cursor == |operands| {
        operands := operands + [item];
      } else {
        if cursor > |operands| {
          return Err(if target.dialect.Native? then NotContiguous else Disagreement);
        }
        if !target.agrees(operands[cursor], item) {
          return Err(Disagreement);
        }
      }
      cursor := cursor + 1;
      return Ok(target.offset + cursor);
    }

    method AcceptsItems(input: Input, field: Field, items: seq<Value>) returns (ok: bool)
      ensures ok == AcceptsAll(input, field, items)
    {
      for i := 0 to |items|
        invariant AcceptsAll(input, field, items[..i])
      {
        if items[i].Null? || !input.accepts(field, items[i]) {
          return false;
        }
        assert items[..i + 1][..i] == items[..i] && forall k :: 0 <= k < i ==> items[..i][k] == items[k];
      }
      return true;
    }

    method RenderOperand(operator: Operator, operand: Bound) returns (r: Result<seq<Token>, Error>)
      requires Valid()
      modifies `operands, `cursor
      ensures RenderingError(r) && (r.Ok? ==> Valid())
      ensures Rendered(target, old(operands), old(cursor), Done([Leaf(operator.before, operand, operator.after)])) ==
                Reported(operands, cursor, Single(r))
    {
      var number := PlaceOperand(operand);
      ghost var leaf := Leaf(operator.before, operand, operator.after);
      SingletonOperands(leaf);
      OneList(leaf, target.offset + old(cursor));
      if number.Err? {
        return Err(number.error);
      }
      return Ok([Placeholder(operator.before, number.value, operator.after)]);
    }

    method RenderOperator(input: Input, field: Field, siteField: SiteField, name: string, operand: Value,
                          path: InputPath) returns (r: Result<seq<Token>, Error>)
      requires Valid()
      modifies `operands, `cursor
      ensures RenderingError(r) && (r.Ok? ==> Valid())
      ensures Rendered(target, old(operands), old(cursor),
                       ElaborateOperator(input, field, siteField, target.dialect, name, operand, path)) ==
                           Reported(operands, cursor, Single(r))
    {
      var found := FindOperator(siteField.operators, name);
      if found.None? {
        return Err(Invalid(path));
      }
      var operator := found.value;
      match operator.kind {
        case Scalar =>
          if target.dialect.Native? && (operand.Null? || !input.accepts(field, operand)) {
            return Err(Invalid(path));
          }
          r := RenderOperand(operator, BindOperand(field, path, false, operand));
        case Collection =>
          if target.dialect.Native? {
            if !operand.Array? {
              return Err(Invalid(path));
            }
            var accepted := AcceptsItems(input, field, operand.items);
            if !accepted {
              return Err(Invalid(path));
            }
          }
          if operand.Null? {
            return Err(Invalid(path));
          }
          if ScriptEmpty(operand) {
            ConstantRenders(target, operands, cursor, EmptyCollection(name));
            return Ok([if name == "in" then FalseWord else TrueWord]);
          }
          r := RenderOperand(operator, BindOperand(field, path, true, operand));
        case Flag =>
          if target.dialect.Native? && !operand.Boolean? {
            return Err(Invalid(path));
          }
          var selected := FindCase(operator.cases, ScriptText(operand));
          if selected.None? {
            return Err(InvalidMetadata(path));
          }
          ConstantRenders(target, operands, cursor, Fixed(selected.value.text));
          r := Ok([Fragment(selected.value.text)]);
        case UnknownKind =>
          r := Err(InvalidMetadata(path));
      }
    }

    method RenderOperators(input: Input, field: Field, siteField: SiteField, value: Value, path: InputPath)
      returns (r: Result<seq<seq<Token>>, Error>)
      requires Valid()
      modifies `operands, `cursor
      ensures RenderingError(r) && (r.Ok? ==> Valid())
      ensures Rendered(target, old(operands), old(cursor),
                       ElaborateOperators(input, field, siteField, target.dialect, value, path)) ==
                           Reported(operands, cursor, r)
    {
      if !value.Object? {
        return Err(Invalid(path));
      }
      var names := Sorted(target.dialect, value.entries.Keys);
      ghost var parts := seq(|names|, i requires 0 <= i < |names| =>
        ElaborateOperator(input, field, siteField, target.dialect, names[i], value.entries[names[i]],
                          path + [Key(names[i])]));
      var lists: seq<seq<Token>> := [];
      for i := 0 to |names|
        invariant Valid()
                  && Rendered(target, old(operands), old(cursor), Chain(parts[..i])) == Placed(operands, cursor, lists)
      {
        ghost var mid, at := operands, cursor;
        var one := RenderOperator(input, field, siteField, names[i], value.entries[names[i]], path + [Key(names[i])]);
        RenderedNext(target, old(operands), old(cursor), parts, i, mid, at, lists);
        if one.Err? {
          return Err(one.error);
        }
        lists := lists + [one.value];
      }
      assert parts[..|names|] == parts;
      return Ok(lists);
    }

    /** The present children of an `and` or `or`. */
    method RenderItems(input: Input, site: Site, value: Value, path: InputPath)
      returns (r: Result<seq<seq<Token>>, Error>)
      requires Valid() && value.Array?
      modifies `operands, `cursor
      ensures RenderingError(r) && (r.Ok? ==> Valid())
      ensures Rendered(target, old(operands), old(cursor),
                       Chain(seq(|value.items|, i requires 0 <= i < |value.items| =>
                         Elaborate(input, site, target.dialect, value.items[i], path + [Index(i)])))) ==
                             Reported(operands, cursor, r)
      decreases value, 1
    {
      ghost var parts := seq(|value.items|, i requires 0 <= i < |value.items| =>
        Elaborate(input, site, target.dialect, value.items[i], path + [Index(i)]));
      var children: seq<seq<Token>> := [];
      for i := 0 to |value.items|
        invariant Valid()
                  && Rendered(target, old(operands), old(cursor), Chain(parts[..i])) ==
                       Placed(operands, cursor, children)
      {
        ghost var mid, at := operands, cursor;
        var child := RenderPredicate(input, site, value.items[i], path + [Index(i)]);
        RenderedNext(target, old(operands), old(cursor), parts, i, mid, at, children);
        if child.Err? {
          return Err(child.error);
        }
        children := children + (if child.value.Some? then [child.value.value] else []);
      }
      assert parts[..|value.items|] == parts;
      return Ok(children);
    }

    method RenderEntry(input: Input, site: Site, key: string, value: Value, path: InputPath)
      returns (r: Result<seq<seq<Token>>, Error>)
      requires Valid()
      modifies `operands, `cursor
      ensures RenderingError(r) && (r.Ok? ==> Valid())
      ensures Rendered(target, old(operands), old(cursor),
                       ElaborateEntry(input, site, target.dialect, key, value, path)) == Reported(operands, cursor, r)
      decreases value, 2
    {
      if key == "and" || key == "or" {
        if !value.Array? {
          return Err(Invalid(path + [Key(key)]));
        }
        var children := RenderItems(input, site, value, path + [Key(key)]);
        ghost var parts := seq(|value.items|, i requires 0 <= i < |value.items| =>
          Elaborate(input, site, target.dialect, value.items[i], path + [Key(key)] + [Index(i)]));
        assert parts == seq(|value.items|, i requires 0 <= i < |value.items| =>
          Elaborate(input, site, target.dialect, value.items[i], path + [Key(key), Index(i)])) by {
          assert forall i :: path + [Key(key)] + [Index(i)] == path + [Key(key), Index(i)];
        }
        GroupedRenders(target, old(operands), old(cursor), Chain(parts));
        if children.Err? {
          return Err(children.error);
        }
        if key == "or" {
          return Ok([if children.value == [] then [FalseWord] else Parenthesized(children.value, OrWord)]);
        }
        return Ok(if children.value == [] then [] else [Parenthesized(children.value, AndWord)]);
      }
      if key == "not" {
        var child := RenderPredicate(input, site, value, path + [Key(key)]);
        NegatedRenders(target, old(operands), old(cursor),
                       Elaborate(input, site, target.dialect, value, path + [Key(key)]));
        if child.Err? {
          return Err(child.error);
        }
        return Ok(if child.value.None? then [] else [[NotWord, Open] + child.value.value + [Close]]);
      }
      var field, siteField := FindField(input.fields, key), FindSiteField(site.fields, key);
      if field.None? {
        return Err(Invalid(path + [Key(key)]));
      }
      if siteField.None? {
        return Err(InvalidMetadata(path + [Key(key)]));
      }
      r := RenderOperators(input, field.value, siteField.value, value, path + [Key(key)]);
    }

    method RenderPredicate(input: Input, site: Site, value: Value, path: InputPath)
      returns (r: Result<Option<seq<Token>>, Error>)
      requires Valid()
      modifies `operands, `cursor
      ensures RenderingError(r) && (r.Ok? ==> Valid())
      ensures Rendered(target, old(operands), old(cursor), Elaborate(input, site, target.dialect, value, path)) ==
                Reported(operands, cursor, Listed(r))
      decreases value, 1
    {
      if !value.Object? {
        return Err(Invalid(path));
      }
      var keys := Sorted(target.dialect, value.entries.Keys);
      ghost var parts := seq(|keys|, i requires 0 <= i < |keys| =>
        ElaborateEntry(input, site, target.dialect, keys[i], value.entries[keys[i]], path));
      assert Elaborate(input, site, target.dialect, value, path) == Grouped(Chain(parts));
      var predicates: seq<seq<Token>> := [];
      for i := 0 to |keys|
        invariant Valid()
                  && Rendered(target, old(operands), old(cursor), Chain(parts[..i])) ==
                       Placed(operands, cursor, predicates)
      {
        ghost var mid, at := operands, cursor;
        var entry := RenderEntry(input, site, keys[i], value.entries[keys[i]], path);
        RenderedNext(target, old(operands), old(cursor), parts, i, mid, at, predicates);
        if entry.Err? {
          GroupedRenders(target, old(operands), old(cursor), Chain(parts));
          return Err(entry.error);
        }
        predicates := predicates + entry.value;
      }
      assert parts[..|keys|] == parts;
      GroupedRenders(target, old(operands), old(cursor), Chain(parts));
      return Ok(Joined(predicates, AndWord));
    }

    method RenderOrderEntry(input: Input, site: Site, item: Value, path: InputPath, position: nat)
      returns (r: Result<string, Error>)
      ensures r == OrderEntry(input, site, item, path, position)
    {
      var itemPath := path + [Index(position)];
      if !item.Object? || |item.entries| != 1 {
        return Err(Invalid(itemPath));
      }
      var key := Least(Native, item.entries.Keys);
      var field := FindSiteField(site.fields, key);
      if FindField(input.fields, key).None? {
        return Err(Invalid(path + [Key(key)]));
      }
      if field.None? {
        return Err(InvalidMetadata(path + [Key(key)]));
      }
      if !item.entries[key].Text? {
        return Err(Invalid(itemPath));
      }
      var selected := FindCase(field.value.directions, item.entries[key].text);
      if selected.None? {
        return Err(Invalid(itemPath));
      }
      return Ok(selected.value.text);
    }

    method RenderOrder(input: Input, site: Site, value: Value, path: InputPath)
      returns (r: Result<Option<string>, Error>)
      ensures ElaborateOrder(input, site, value, path) == OrderElaboration(r)
    {
      if !value.Array? {
        return Err(Invalid(path));
      }
      var rendered: seq<string> := [];
      for i := 0 to |value.items|
        invariant OrderTexts(input, site, value.items[..i], path) == Ok(rendered)
      {
        OrderTextsNext(input, site, value.items, path, i);
        var text := RenderOrderEntry(input, site, value.items[i], path, i);
        if text.Err? {
          OrderFailsEarly(input, site, value.items, path, i + 1);
          return Err(text.error);
        }
        rendered := rendered + [text.value];
      }
      assert value.items[..|value.items|] == value.items;
      return Ok(if rendered == [] then None else Some(JoinText(rendered, ", ")));
    }

    /** One site's text, from the cursor on. */
    method RenderSiteText(input: Input, site: Site, value: Value) returns (r: Result<string, Error>)
      requires Valid()
      modifies `operands, `cursor
      ensures r.Err? ==>
                r.error.Invalid? || r.error.InvalidMetadata? || r.error.Disagreement? || r.error.UnknownInputKind?
      ensures match Draw(target, input, site, value, old(cursor), old(operands))
              case Refused(error) => r == Err(error)
              case Drawn(after, end, text) => operands == after && cursor == end <= |operands| && r == Ok(text)
    {
      match input.kind {
        case Predicate =>
          DrawRendered(target, site, Elaborate(input, site, target.dialect, value, [Key(input.path)]), cursor,
                       operands);
          var rendered := RenderPredicate(input, site, value, [Key(input.path)]);
          if rendered.Err? {
            return Err(rendered.error);
          }
          return Ok(if rendered.value.Some? then Print(rendered.value.value) else site.identitySql);
        case Order =>
          DrawOrder(target, input, site, value, cursor, operands);
          var ordered := RenderOrder(input, site, value, [Key(input.path)]);
          if ordered.Err? {
            return Err(ordered.error);
          }
          return Ok(if ordered.value.Some? then ordered.value.value else site.identitySql);
        case UnknownInput =>
          return Err(UnknownInputKind);
      }
    }

    method RenderSite(input: Input, site: Site, value: Value, start: nat, expected: Option<nat>)
      returns (r: Result<nat, Error>)
      requires start <= |operands|
      modifies `sql, `operands, `cursor
      ensures r.Err? ==> !r.error.NotContiguous?
      ensures r.Ok? ==> start <= |operands|
      ensures SiteStep(target, input, site, value, start, expected, Progress(old(sql), old(operands))) ==
              match r case Err(error) => Halted(error) case Ok(end) => Advanced(Progress(sql, operands), Some(end))
    {
      cursor := start;
      var text := RenderSiteText(input, site, value);
      if text.Err? {
        return Err(text.error);
      }
      if expected.Some? && cursor != expected.value {
        return Err(SiteCount);
      }
      var replaced := ReplaceMarker(target.dialect, sql, site.marker, text.value);
      if replaced.None? {
        return Err(BadMarker(site.marker));
      }
      sql := replaced.value;
      return Ok(cursor);
    }

    method RenderSites(input: Input, value: Value) returns (r: Result<(), Error>)
      modifies `sql, `operands, `cursor
      ensures r.Err? ==> !r.error.NotContiguous?
      ensures match SiteSteps(target, input, input.sites, value, |old(operands)|, Progress(old(sql), old(operands)))
              case Halted(error) => r == Err(error)
              case Advanced(after, _) => r == Ok(()) && Progress(sql, operands) == after
    {
      var start, expected: Option<nat> := |operands|, None;
      ghost var before := Progress(sql, operands);
      for i := 0 to |input.sites|
        invariant start <= |operands|
        invariant SiteSteps(target, input, input.sites[..i], value, start, before) ==
                    Advanced(Progress(sql, operands), expected)
      {
        SiteStepsNext(target, input, input.sites, value, start, before, i);
        var end := RenderSite(input, input.sites[i], value, start, expected);
        if end.Err? {
          SitesHaltEarly(target, input, input.sites, value, start, before, i + 1);
          return Err(end.error);
        }
        expected := Some(end.value);
      }
      assert input.sites[..|input.sites|] == input.sites;
      return Ok(());
    }

    method RenderInput(input: Input, values: map<string, Value>) returns (r: Result<(), Error>)
      modifies `sql, `operands, `cursor
      ensures r.Err? ==> !r.error.NotContiguous?
      ensures InputStep(target, input, values, Progress(old(sql), old(operands))) ==
              match r case Err(error) => Err(error) case Ok(_) => Ok(Progress(sql, operands))
    {
      if target.contracts.Some? && (input.path, input.kind) !in target.contracts.value {
        return Err(NoContract);
      }
      var value := InputValue(target.dialect, input, values);
      if value.Err? {
        return Err(value.error);
      }
      r := RenderSites(input, value.value);
      if r.Ok? && input.sites == [] {
        return Err(NoSites);
      }
    }

    /** Every input in turn; the gap in the operand vector is never reported. */
    method MaterializeInputs(inputs: seq<Input>, values: map<string, Value>) returns (r: Result<(), Error>)
      modifies `sql, `operands, `cursor
      ensures r.Err? ==> !r.error.NotContiguous?
      ensures Materialize(target, inputs, values, Progress(old(sql), old(operands))) ==
              match r case Err(error) => Err(error) case Ok(_) => Ok(Progress(sql, operands))
    {
      for i := 0 to |inputs|
        invariant Materialize(target, inputs[..i], values, Progress(old(sql), old(operands))) ==
                    Ok(Progress(sql, operands))
      {
        assert inputs[..i + 1][..i] == inputs[..i];
        var one := RenderInput(inputs[i], values);
        if one.Err? {
          InputsFailEarly(target, inputs, values, Progress(old(sql), old(operands)), i + 1);
          return Err(one.error);
        }
      }
      assert inputs[..|inputs|] == inputs;
      return Ok(());
    }
  }
}
