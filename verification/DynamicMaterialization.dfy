/**
  What materialising dynamic inputs amounts to, as a function of the state
  before: the SQL text with its markers replaced and the operand vector.  The
  native renderer keeps bound parameters in the vector shared with the fixed
  parameters; the JavaScript one keeps bare values and counts placeholders from
  the number of fixed parameters.  A target says which.
 */
module DynamicMaterialization {
  import opened Decimals
  import opened DynamicInput
  import opened KeyOrder
  import opened TextSearch
  import opened Wrappers

  datatype Target<!T> = Target(
    dialect: Dialect,
    offset: nat,
    bind: Bound -> T,
    agrees: (T, T) -> bool,
    contracts: Option<set<(string, InputKind)>>)

  const NATIVE: Target<Bound> := Target(Native, 0, (operand: Bound) => operand, SameOperand, None)

  /** A value in the JavaScript vector, and which object it is, if it is one. */
  datatype Slot = Slot(value: Value, reference: nat)

  /**
    A JavaScript caller: the contracts it holds, and which array or object stands
    at each place of its inputs.  One object may stand at several places.
   */
  datatype Client = Client(contracts: set<(string, InputKind)>, heap: InputPath -> nat)

  predicate Reference(value: Value) {
    value.Array? || value.Object?
  }

  /** JavaScript's `===`: arrays and objects are the same only if they are one object. */
  predicate Identical(a: Slot, b: Slot) {
    a.value == b.value && (Reference(a.value) ==> a.reference == b.reference)
  }

  function Script(fixedParameterCount: nat, client: Client): Target<Slot> {
    Target(JavaScript, fixedParameterCount, (operand: Bound) => SlotOf(client, operand), Identical,
           Some(client.contracts))
  }

  function SlotOf(client: Client, operand: Bound): Slot {
    Slot(operand.value, client.heap(operand.path))
  }

  /* ---- the shared operand vector ---- */

  /** Pushing operands at `cursor`: past the end they are appended, before it they must agree. */
  function Absorb<T>(target: Target<T>, items: seq<T>, cursor: nat, operands: seq<Bound>): Option<seq<T>>
    decreases |operands|
  {
    if operands == [] then Some(items)
    else
      match Absorb(target, items, cursor, operands[..|operands| - 1])
      case None => None
      case Some(before) =>
        var at := cursor + |operands| - 1;
        var item := target.bind(operands[|operands| - 1]);
        if at == |before| then Some(before + [item])
        else if at < |before| && target.agrees(before[at], item) then Some(before)
        else None
  }

  lemma {:induction false} AbsorbSplit<T>(target: Target<T>, items: seq<T>, cursor: nat, first: seq<Bound>,
                                          second: seq<Bound>)
    ensures Absorb(target, items, cursor, first + second) ==
            match Absorb(target, items, cursor, first)
            case None => None
            case Some(between) => Absorb(target, between, cursor + |first|, second)
    decreases |second|
  {
    if second == [] {
      assert first + second == first;
    } else {
      var n := |second| - 1;
      AbsorbSplit(target, items, cursor, first, second[..n]);
      assert (first + second)[..|first + second| - 1] == first + second[..n];
    }
  }

  function Bind<T>(target: Target<T>, operands: seq<Bound>): (items: seq<T>)
    ensures |items| == |operands|
  {
    if operands == [] then [] else Bind(target, operands[..|operands| - 1]) + [target.bind(operands[|operands| - 1])]
  }

  /** The operands agree with the items that already stand at their places. */
  ghost predicate OverlapAgrees<T>(target: Target<T>, items: seq<T>, cursor: nat, operands: seq<Bound>)
    decreases |operands|
  {
    operands == [] ||
    var n := |operands| - 1;
    OverlapAgrees(target, items, cursor, operands[..n])
        && (cursor + n < |items| ==> target.agrees(items[cursor + n], target.bind(operands[n])))
  }

  lemma {:induction false} OverlapAt<T>(target: Target<T>, items: seq<T>, cursor: nat, operands: seq<Bound>, k: nat)
    requires OverlapAgrees(target, items, cursor, operands) && k < |operands| && cursor + k < |items|
    ensures target.agrees(items[cursor + k], target.bind(operands[k]))
    decreases |operands|
  {
    if k < |operands| - 1 {
      OverlapAt(target, items, cursor, operands[..|operands| - 1], k);
    }
  }

  lemma {:induction false} AbsorbWithin<T>(target: Target<T>, items: seq<T>, cursor: nat, operands: seq<Bound>)
    requires cursor + |operands| <= |items|
    ensures Absorb(target, items, cursor, operands) ==
              if OverlapAgrees(target, items, cursor, operands) then Some(items) else None
    decreases |operands|
  {
    if operands != [] {
      var n := |operands| - 1;
      AbsorbWithin(target, items, cursor, operands[..n]);
    }
  }

  lemma {:induction false} AbsorbPast<T>(target: Target<T>, items: seq<T>, operands: seq<Bound>)
    ensures Absorb(target, items, |items|, operands) == Some(items + Bind(target, operands))
    decreases |operands|
  {
    if operands == [] {
      assert items + [] == items;
    } else {
      var n := |operands| - 1;
      AbsorbPast(target, items, operands[..n]);
      assert items + Bind(target, operands[..n]) + [target.bind(operands[n])] == items + Bind(target, operands);
    }
  }

  /* ---- text ---- */

  function Word(token: Token): string {
    match token
    case Open => "("
    case Close => ")"
    case AndWord => " AND "
    case OrWord => " OR "
    case NotWord => "NOT "
    case TrueWord => "TRUE"
    case FalseWord => "FALSE"
    case Placeholder(before, number, after) => before + "$" + Decimal(number) + after
    case Fragment(text) => text
  }

  function Print(tokens: seq<Token>): string {
    if tokens == [] then "" else Word(tokens[0]) + Print(tokens[1..])
  }

  /** The text with its only occurrence of the marker replaced. */
  function ReplaceMarker(dialect: Dialect, sql: string, marker: string, text: string): Option<string> {
    match Find(sql, marker, 0)
    case None => None
    case Some(at) =>
      var next := if dialect.Native? && marker == "" then at + 1 else at + |marker|;
      if Find(sql, marker, next).Some? then None else Some(sql[..at] + text + sql[at + |marker|..])
  }

  /** The marker starts at `k`, and neither earlier nor after the end of that occurrence. */
  ghost predicate OnlyAt(text: string, marker: string, k: nat) {
    At(text, marker, k) && forall j: nat :: j < k || k + |marker| <= j ==> !At(text, marker, j)
  }

  /**
    Replacement succeeds exactly when the marker occurs once, and touches nothing else;
    natively an empty marker occurs once in an empty text.
   */
  lemma MarkerReplaced(dialect: Dialect, sql: string, marker: string, text: string, result: string)
    ensures ReplaceMarker(dialect, sql, marker, text) == Some(result) <==>
            if marker == "" then dialect.Native? && sql == "" && result == text
            else exists k: nat :: OnlyAt(sql, marker, k) && result == sql[..k] + text + sql[k + |marker|..]
  {
    var first := Find(sql, marker, 0);
    if marker == "" {
      EmptyMarker(sql);
      assert "" + text + "" == text;
    } else {
      if ReplaceMarker(dialect, sql, marker, text).Some? {
        assert OnlyAt(sql, marker, first.value);
      }
      forall k: nat | OnlyAt(sql, marker, k) ensures first == Some(k) {
        assert first.Some? && !(first.value < k);
      }
    }
  }

  lemma EmptyMarker(sql: string)
    ensures Find(sql, "", 0) == Some(0) && (Find(sql, "", 1).Some? <==> sql != "")
  {
    assert forall k: nat :: k <= |sql| ==> At(sql, "", k);
  }

  /* ---- order inputs ---- */

  function OrderEntry(input: Input, site: Site, item: Value, path: InputPath, position: nat): (r: Result<string, Error>)
    ensures r.Err? ==> r.error.Invalid? || r.error.InvalidMetadata?
  {
    var itemPath := path + [Index(position)];
    if !item.Object? || |item.entries| != 1 then Err(Invalid(itemPath))
    else
      var key := Least(Native, item.entries.Keys);
      if FindField(input.fields, key).None? then Err(Invalid(path + [Key(key)]))
      else
        match FindSiteField(site.fields, key)
        case None => Err(InvalidMetadata(path + [Key(key)]))
        case Some(field) =>
          var direction := item.entries[key];
          if !direction.Text? then Err(Invalid(itemPath))
          else
            match FindCase(field.directions, direction.text)
            case None => Err(Invalid(itemPath))
            case Some(c) => Ok(c.text)
  }

  function OrderTexts(input: Input, site: Site, items: seq<Value>, path: InputPath): (r: Result<seq<string>, Error>)
    ensures r.Ok? ==> |r.value| == |items|
    ensures r.Err? ==> r.error.Invalid? || r.error.InvalidMetadata?
  {
    if items == [] then Ok([])
    else
      var n := |items| - 1;
      match OrderTexts(input, site, items[..n], path)
      case Err(error) => Err(error)
      case Ok(before) =>
        match OrderEntry(input, site, items[n], path, n)
        case Err(error) => Err(error)
        case Ok(text) => Ok(before + [text])
  }

  function JoinText(texts: seq<string>, separator: string): string {
    if texts == [] then "" else if |texts| == 1 then texts[0]
    else texts[0] + separator + JoinText(texts[1..], separator)
  }

  function ElaborateOrder(input: Input, site: Site, value: Value, path: InputPath): (e: Elaboration)
    ensures ValueError(e) && (e.Stuck? ==> e.emitted == [])
    ensures e.Done? ==> |e.trees| <= 1 && (e.trees != [] ==> e.trees[0].Fixed?)
  {
    if !value.Array? then Stuck(Invalid(path), [])
    else
      match OrderTexts(input, site, value.items, path)
      case Err(error) => Stuck(error, [])
      case Ok(texts) => if texts == [] then Done([]) else Done([Fixed(JoinText(texts, ", "))])
  }

  lemma OrderSplits(input: Input, site: Site, items: seq<Value>, path: InputPath, n: nat)
    requires |items| == n + 1 && OrderTexts(input, site, items, path).Ok?
    ensures var texts := OrderTexts(input, site, items, path).value;
            && OrderTexts(input, site, items[..n], path) == Ok(texts[..n])
            && OrderEntry(input, site, items[n], path, n) == Ok(texts[n])
  {
  }

  /** Every item renders one text, in order. */
  lemma {:induction false} OrderItem(input: Input, site: Site, items: seq<Value>, path: InputPath, i: nat)
    requires OrderTexts(input, site, items, path).Ok? && i < |items|
    ensures OrderEntry(input, site, items[i], path, i) == Ok(OrderTexts(input, site, items, path).value[i])
    decreases |items|
  {
    var n := |items| - 1;
    OrderSplits(input, site, items, path, n);
    if i < n {
      assert items[..n][i] == items[i];
      OrderItem(input, site, items[..n], path, i);
    }
  }

  /** The error is that of the first item that has no rendering. */
  lemma {:induction false} OrderFailure(input: Input, site: Site, items: seq<Value>, path: InputPath) returns (i: nat)
    requires OrderTexts(input, site, items, path).Err?
    ensures i < |items| && OrderTexts(input, site, items[..i], path).Ok?
    ensures OrderEntry(input, site, items[i], path, i) == Err(OrderTexts(input, site, items, path).error)
  {
    var n := |items| - 1;
    if OrderTexts(input, site, items[..n], path).Err? {
      i := OrderFailure(input, site, items[..n], path);
      assert items[..n][..i] == items[..i];
    } else {
      i := n;
    }
  }

  /* ---- sites and inputs ---- */

  datatype Progress<T> = Progress(sql: string, operands: seq<T>)

  datatype Advance<T> = Halted(error: Error) | Advanced(progress: Progress<T>, end: Option<nat>)

  function ElaborateSite(input: Input, site: Site, dialect: Dialect, value: Value): (e: Elaboration)
    ensures e.Done? ==> |e.trees| <= 1
    ensures e.Stuck? ==> e.error.Invalid? || e.error.InvalidMetadata? || e.error.UnknownInputKind?
  {
    match input.kind
    case Predicate => Elaborate(input, site, dialect, value, [Key(input.path)])
    case Order => ElaborateOrder(input, site, value, [Key(input.path)])
    case UnknownInput => Stuck(UnknownInputKind, [])
  }

  function SiteText(site: Site, trees: seq<Tree>, start: nat): string {
    if trees == [] then site.identitySql else Print(Tokens(trees[0], start))
  }

  datatype Drawing<T> = Refused(error: Error) | Drawn(operands: seq<T>, end: nat, text: string)

  /** A site's text once its operands are absorbed, its first placeholder following `at` parameters. */
  function DrawFrom<T>(absorbed: Option<seq<T>>, site: Site, e: Elaboration, end: nat, at: nat): Drawing<T> {
    match absorbed
    case None => Refused(Disagreement)
    case Some(operands) =>
      match e
      case Stuck(error, _) => Refused(error)
      case Done(trees) => Drawn(operands, end, SiteText(site, trees, at))
  }

  /** A site's text for an elaboration placed at a cursor, and the vector and cursor after it. */
  function DrawAt<T>(target: Target<T>, site: Site, e: Elaboration, start: nat, before: seq<T>): Drawing<T> {
    DrawFrom(Absorb(target, before, start, Emission(e)), site, e, start + |Emission(e)|, target.offset + start)
  }

  /** One site, drawn from the input's first operand on. */
  function Draw<T>(target: Target<T>, input: Input, site: Site, value: Value, start: nat, before: seq<T>): Drawing<T> {
    DrawAt(target, site, ElaborateSite(input, site, target.dialect, value), start, before)
  }

  /**
    A drawn site takes its place in the SQL text, if its operand count is the expected one
    and its marker is unique.
   */
  function Splice<T>(dialect: Dialect, marker: string, expected: Option<nat>, sql: string,
                     drawing: Drawing<T>): Advance<T>
  {
    match drawing
    case Refused(error) => Halted(error)
    case Drawn(operands, end, text) =>
      if expected.Some? && expected.value != end then Halted(SiteCount)
      else
        match ReplaceMarker(dialect, sql, marker, text)
        case None => Halted(BadMarker(marker))
        case Some(replaced) => Advanced(Progress(replaced, operands), Some(end))
  }

  /** One site: draw, compare the operand count, replace the marker. */
  function SiteStep<T>(target: Target<T>, input: Input, site: Site, value: Value, start: nat, expected: Option<nat>,
                       before: Progress<T>): Advance<T>
  {
    Splice(target.dialect, site.marker, expected, before.sql, Draw(target, input, site, value, start, before.operands))
  }

  function SiteSteps<T>(target: Target<T>, input: Input, sites: seq<Site>, value: Value, start: nat,
                        before: Progress<T>): Advance<T>
    decreases sites
  {
    if sites == [] then Advanced(before, None)
    else
      match SiteSteps(target, input, sites[..|sites| - 1], value, start, before)
      case Halted(error) => Halted(error)
      case Advanced(between, expected) => SiteStep(target, input, sites[|sites| - 1], value, start, expected, between)
  }

  /** The input's value, with SQL NULL read as the empty predicate or order. */
  function InputValue(dialect: Dialect, input: Input, values: map<string, Value>): Result<Value, Error> {
    if input.path !in values then Err(MissingInput)
    else if !values[input.path].Null? then Ok(values[input.path])
    else
      match input.kind
      case Predicate => Ok(Object(map[]))
      case Order => Ok(Array([]))
      case UnknownInput => if dialect.Native? then Err(UnknownInputKind) else Ok(Array([]))
  }

  function InputStep<T>(target: Target<T>, input: Input, values: map<string, Value>,
                        before: Progress<T>): Result<Progress<T>, Error>
  {
    if target.contracts.Some? && (input.path, input.kind) !in target.contracts.value then Err(NoContract)
    else
      match InputValue(target.dialect, input, values)
      case Err(error) => Err(error)
      case Ok(value) =>
        match SiteSteps(target, input, input.sites, value, |before.operands|, before)
        case Halted(error) => Err(error)
        case Advanced(after, _) => if input.sites == [] then Err(NoSites) else Ok(after)
  }

  function Materialize<T>(target: Target<T>, inputs: seq<Input>, values: map<string, Value>,
                          before: Progress<T>): Result<Progress<T>, Error>
    decreases inputs
  {
    if inputs == [] then Ok(before)
    else
      match Materialize(target, inputs[..|inputs| - 1], values, before)
      case Err(error) => Err(error)
      case Ok(between) => InputStep(target, inputs[|inputs| - 1], values, between)
  }
}
