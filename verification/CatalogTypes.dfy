/**
  Catalog type resolution: every provider type's capabilities, narrowed through
  its domain chain and by authored mappings.  The running code memoises; it is
  proved against the plain recursion over chains.
 */
module CatalogTypes {
  import opened Wrappers

  datatype Wire = Uuid | Text | Timestamptz | Integer | BigInteger | Numeric | Float | Boolean | Json | TextCast
      | Unsupported

  datatype Literal = StringLiteral | NumberLiteral | BooleanLiteral

  datatype Operator = Eq | Ne | Gt | Ge | Lt | Le | Like

  /** What a literal or default of the type may look like. */
  datatype Acceptance = Acceptance(kinds: seq<Literal>, validation: string, pattern: Option<string>)

  datatype Capabilities = Capabilities(
    name: string,
    aliases: seq<string>,
    description: string,
    wire: Wire,
    operators: seq<Operator>,
    orderable: bool,
    literals: Acceptance,
    defaults: Acceptance,
    aggregates: string)

  datatype Shape = Scalar | Array(element: nat) | Domain(base: nat)

  datatype CatalogType = CatalogType(shape: Shape, capabilities: Capabilities)

  /** One authored mapping of a provider type. */
  datatype Mapping = Mapping(
    name: string,
    wire: Wire,
    literal: Literal,
    pattern: Option<string>,
    operators: Option<seq<Operator>>,
    orderable: Option<bool>)

  type Mappings = map<nat, Mapping>

  datatype Error = CyclicStructure | InvalidIndex | WireMismatch | LiteralMismatch | PatternNotText | MayNotOrder
      | DuplicateOperator | UnsupportedOperator

  /* ---- one type ---- */

  predicate WireMatches(declared: Wire, provider: Wire) {
    match declared
    case Text => provider == Text || provider == TextCast
    case TextCast => false
    case Unsupported => false
    case _ => declared == provider
  }

  predicate LiteralMatches(literal: Literal, wire: Wire) {
    match literal
    case StringLiteral => wire in {Uuid, Text, Timestamptz, BigInteger, Json}
    case NumberLiteral => wire in {Integer, Numeric, Float}
    case BooleanLiteral => wire == Boolean
  }

  function Retain(operators: seq<Operator>, allowed: seq<Operator>): (kept: seq<Operator>)
    ensures forall op :: op in kept <==> op in operators && op in allowed
  {
    if operators == [] then []
    else if operators[0] in allowed then [operators[0]] + Retain(operators[1..], allowed)
    else Retain(operators[1..], allowed)
  }

  /** A domain takes its base's scalar semantics and keeps its own comparisons as far as the base has them. */
  function InheritMappedDomain(own: Capabilities, base: Capabilities): Capabilities {
    base.(description := own.description, operators := Retain(own.operators, base.operators), orderable := own.orderable
          && base.orderable)
  }

  function Narrowed(acceptance: Acceptance, mapping: Mapping): Acceptance {
    acceptance.(kinds := [mapping.literal], pattern := mapping.pattern)
  }

  /** The first operator that is repeated or not supported. */
  function OperatorError(requested: seq<Operator>, supported: seq<Operator>): Option<Error> {
    if requested == [] then None
    else
      var n := |requested| - 1;
      match OperatorError(requested[..n], supported)
      case Some(error) => Some(error)
      case None =>
        if requested[n] in requested[..n] then Some(DuplicateOperator)
        else if requested[n] !in supported then Some(UnsupportedOperator)
        else None
  }

  function Mapped(own: Capabilities, mapping: Mapping): Result<Capabilities, Error> {
    if !WireMatches(mapping.wire, own.wire) then Err(WireMismatch)
    else if !LiteralMatches(mapping.literal, mapping.wire) then Err(LiteralMismatch)
    else if mapping.pattern.Some? && (mapping.wire != Text || mapping.literal != StringLiteral) then Err(PatternNotText)
    else if mapping.orderable == Some(true) then Err(MayNotOrder)
    else if mapping.operators.Some? && OperatorError(mapping.operators.value, own.operators).Some? then
      Err(OperatorError(mapping.operators.value, own.operators).value)
    else
      Ok(own.(name := mapping.name, aliases := [mapping.name],
              literals := Narrowed(own.literals, mapping), defaults := Narrowed(own.defaults, mapping),
              operators := if mapping.operators.Some? then mapping.operators.value else own.operators,
              orderable := own.orderable && mapping.orderable != Some(false)))
  }

  function MaybeMapped(mappings: Mappings, index: nat, own: Capabilities): Result<Capabilities, Error> {
    if index in mappings then Mapped(own, mappings[index]) else Ok(own)
  }

  /** One capability set narrows another: fewer operators, and ordered only if the other is. */
  predicate Narrows(narrow: Capabilities, wide: Capabilities) {
    (forall op :: op in narrow.operators ==> op in wide.operators) && (narrow.orderable ==> wide.orderable)
  }

  lemma {:induction false} AcceptedOperatorsSupported(requested: seq<Operator>, supported: seq<Operator>)
    requires OperatorError(requested, supported).None?
    ensures forall op :: op in requested ==> op in supported
  {
    if requested != [] {
      var n := |requested| - 1;
      AcceptedOperatorsSupported(requested[..n], supported);
      assert forall op :: op in requested ==> op in requested[..n] || op == requested[n];
    }
  }

  /** A mapping only takes operators and ordering away, and keeps the wire encoding. */
  lemma MappingNarrows(own: Capabilities, mapping: Mapping)
    requires Mapped(own, mapping).Ok?
    ensures Narrows(Mapped(own, mapping).value, own) && Mapped(own, mapping).value.wire == own.wire
  {
    if mapping.operators.Some? {
      AcceptedOperatorsSupported(mapping.operators.value, own.operators);
    }
  }

  /* ---- accepted values ---- */

  /** Scalar validation and pattern matching, which this model does not look into. */
  datatype Judge = Judge(valid: (string, string) -> bool, matches: (string, string) -> bool)

  /** What a pattern lets through; no pattern lets everything through. */
  predicate Passes(judge: Judge, pattern: Option<string>, value: string) {
    pattern.None? || judge.matches(pattern.value, value)
  }

  predicate Accepts(judge: Judge, acceptance: Acceptance, kind: Literal, value: string) {
    && kind in acceptance.kinds && judge.valid(acceptance.validation, value)
    && Passes(judge, acceptance.pattern, value)
  }

  /** Whatever the narrow surface accepts the wide one accepts, however patterns match. */
  ghost predicate AcceptsLess(narrow: Acceptance, wide: Acceptance) {
    forall judge, kind, value :: Accepts(judge, narrow, kind, value) ==> Accepts(judge, wide, kind, value)
  }

  /** The mapping names an accepted literal kind, and repeats the pattern if there is one. */
  predicate KeepsAcceptance(acceptance: Acceptance, mapping: Mapping) {
    mapping.literal in acceptance.kinds && (acceptance.pattern.None? || mapping.pattern == acceptance.pattern)
  }

  /**
    However patterns match, a mapping narrows exactly when it repeats what it replaces:
    the accepted kind and the pattern.
   */
  lemma AcceptanceNarrows(acceptance: Acceptance, mapping: Mapping)
    ensures AcceptsLess(Narrowed(acceptance, mapping), acceptance) <==> KeepsAcceptance(acceptance, mapping)
  {
    var narrowed := Narrowed(acceptance, mapping);
    if !KeepsAcceptance(acceptance, mapping) {
      var same := mapping.pattern == acceptance.pattern;
      var judge :=
          Judge((validation: string, value: string) => true, (pattern: string, value: string) => same
                || Some(pattern) != acceptance.pattern);
      assert Accepts(judge, narrowed, mapping.literal, "") && !Accepts(judge, acceptance, mapping.literal, "");
    }
  }

  /**
    With one way of matching fixed, the mapping narrows exactly when every valid
    text that its own pattern lets through is of an accepted kind and passes the
    pattern it replaces.
   */
  lemma AcceptanceNarrowsUnder(judge: Judge, acceptance: Acceptance, mapping: Mapping)
    ensures (forall kind, value :: Accepts(judge, Narrowed(acceptance, mapping), kind, value) ==>
             Accepts(judge, acceptance, kind, value)) <==>
            forall value :: judge.valid(acceptance.validation, value) && Passes(judge, mapping.pattern, value) ==>
              mapping.literal in acceptance.kinds && Passes(judge, acceptance.pattern, value)
  {
    var narrowed := Narrowed(acceptance, mapping);
    forall value | judge.valid(acceptance.validation, value) && Passes(judge, mapping.pattern, value)
      ensures Accepts(judge, narrowed, mapping.literal, value)
      ensures Accepts(judge, acceptance, mapping.literal, value) <==>
                mapping.literal in acceptance.kinds && Passes(judge, acceptance.pattern, value)
    {
    }
  }

  method ApplyMapping(own: Capabilities, mapping: Mapping) returns (r: Result<Capabilities, Error>)
    ensures r == Mapped(own, mapping)
  {
    if !WireMatches(mapping.wire, own.wire) {
      return Err(WireMismatch);
    }
    if !LiteralMatches(mapping.literal, mapping.wire) {
      return Err(LiteralMismatch);
    }
    if mapping.pattern.Some? && (mapping.wire != Text || mapping.literal != StringLiteral) {
      return Err(PatternNotText);
    }
    if mapping.orderable == Some(true) {
      return Err(MayNotOrder);
    }
    var operators := own.operators;
    if mapping.operators.Some? {
      var configured := mapping.operators.value;
      var requested: seq<Operator> := [];
      for i := 0 to |configured|
        invariant requested == configured[..i] && OperatorError(configured[..i], own.operators).None?
      {
        assert configured[..i + 1][..i] == configured[..i];
        if configured[i] in requested {
          FirstOperatorError(configured, own.operators, i + 1);
          return Err(DuplicateOperator);
        }
        if configured[i] !in own.operators {
          FirstOperatorError(configured, own.operators, i + 1);
          return Err(UnsupportedOperator);
        }
        requested := requested + [configured[i]];
      }
      assert configured[..|configured|] == configured;
      operators := requested;
    }
    return Ok(own.(name := mapping.name, aliases := [mapping.name],
                   literals := Narrowed(own.literals, mapping), defaults := Narrowed(own.defaults, mapping),
                   operators := operators, orderable := own.orderable && mapping.orderable != Some(false)));
  }

  lemma {:induction false} FirstOperatorError(requested: seq<Operator>, supported: seq<Operator>, n: nat)
    requires n <= |requested| && OperatorError(requested[..n], supported).Some?
    ensures OperatorError(requested, supported) == OperatorError(requested[..n], supported)
    decreases |requested|
  {
    if n == |requested| {
      assert requested[..n] == requested;
    } else {
      assert requested[..|requested| - 1][..n] == requested[..n];
      FirstOperatorError(requested[..|requested| - 1], supported, n);
    }
  }

  /* ---- plain recursion ---- */

  /** The chain of bases from a type ends after `n` steps. */
  predicate Ends(types: seq<CatalogType>, index: nat, n: nat)
    decreases n
  {
    && index < |types|
    && (match types[index].shape
        case Domain(base) => n > 0 && Ends(types, base, n - 1)
        case _ => n == 0)
  }

  function ChainEnd(types: seq<CatalogType>, index: nat, n: nat): (end: nat)
    requires Ends(types, index, n)
    ensures end < |types| && !types[end].shape.Domain?
    decreases n
  {
    if n == 0 then index else ChainEnd(types, types[index].shape.base, n - 1)
  }

  /** A type resolved by following its chain, without memory. */
  function Plain(types: seq<CatalogType>, mappings: Mappings, index: nat, n: nat): Result<Capabilities, Error>
    requires Ends(types, index, n)
    decreases n
  {
    var own := types[index].capabilities;
    if n == 0 then MaybeMapped(mappings, index, own)
    else
      match Plain(types, mappings, types[index].shape.base, n - 1)
      case Err(error) => Err(error)
      case Ok(base) => MaybeMapped(mappings, index, InheritMappedDomain(own, base))
  }

  lemma {:induction false} EndsOnce(types: seq<CatalogType>, index: nat, m: nat, n: nat)
    requires Ends(types, index, m) && Ends(types, index, n)
    ensures m == n
    decreases n
  {
    if n > 0 {
      EndsOnce(types, types[index].shape.base, m - 1, n - 1);
    }
  }

  /** A resolved type narrows its provider baseline and its base's resolution, and has its chain end's wire encoding. */
  lemma {:induction false} PlainNarrows(types: seq<CatalogType>, mappings: Mappings, index: nat, n: nat)
    requires Ends(types, index, n) && Plain(types, mappings, index, n).Ok?
    ensures var resolved := Plain(types, mappings, index, n).value;
            && Narrows(resolved, types[index].capabilities)
            && resolved.wire == types[ChainEnd(types, index, n)].capabilities.wire
            && (n > 0 ==>
                  var base := Plain(types, mappings, types[index].shape.base, n - 1);
                  base.Ok? && Narrows(resolved, base.value) && resolved.wire == base.value.wire)
    decreases n
  {
    var own := types[index].capabilities;
    if n > 0 {
      PlainNarrows(types, mappings, types[index].shape.base, n - 1);
      own := InheritMappedDomain(own, Plain(types, mappings, types[index].shape.base, n - 1).value);
    }
    if index in mappings {
      MappingNarrows(own, mappings[index]);
    }
  }

  /**
    Along a chain a domain accepts no more than its base, however patterns match, exactly
    when it has no mapping, or one that repeats the base's kind and pattern.
   */
  lemma ChainAcceptance(types: seq<CatalogType>, mappings: Mappings, index: nat, n: nat)
    requires n > 0 && Ends(types, index, n) && Plain(types, mappings, index, n).Ok?
    ensures var resolved, base := Plain(types, mappings, index, n).value,
              Plain(types, mappings, types[index].shape.base, n - 1).value;
            && (AcceptsLess(resolved.literals, base.literals) <==>
                index !in mappings || KeepsAcceptance(base.literals, mappings[index]))
            && (AcceptsLess(resolved.defaults, base.defaults) <==>
                index !in mappings || KeepsAcceptance(base.defaults, mappings[index]))
  {
    var base := Plain(types, mappings, types[index].shape.base, n - 1).value;
    if index in mappings {
      AcceptanceNarrows(base.literals, mappings[index]);
      AcceptanceNarrows(base.defaults, mappings[index]);
    }
  }

  /** Two mappings along a chain: the second one drops the pattern that the first one imposed. */
  lemma PatternDropped()
    ensures var text := Acceptance([StringLiteral], "any", None);
            var own := Capabilities("text", ["text"], "", Text, [Eq], true, text, text, "");
            var types := [CatalogType(Scalar, own), CatalogType(Domain(0), own)];
            var mappings := map[0 := Mapping("slug", Text, StringLiteral, Some("^[a-z]+$"), None, None),
                                1 := Mapping("title", Text, StringLiteral, None, None, None)];
            && Ends(types, 1, 1) && Plain(types, mappings, 1, 1).Ok?
            && Plain(types, mappings, 1, 1).value.literals.pattern.None?
            && !AcceptsLess(Plain(types, mappings, 1, 1).value.literals, Plain(types, mappings, 0, 0).value.literals)
  {
    var text := Acceptance([StringLiteral], "any", None);
    var own := Capabilities("text", ["text"], "", Text, [Eq], true, text, text, "");
    var types := [CatalogType(Scalar, own), CatalogType(Domain(0), own)];
    var mappings := map[0 := Mapping("slug", Text, StringLiteral, Some("^[a-z]+$"), None, None),
                        1 := Mapping("title", Text, StringLiteral, None, None, None)];
    assert Ends(types, 0, 0);
    ChainAcceptance(types, mappings, 1, 1);
  }

  /* ---- recursion that detects cycles ---- */

  function Unvisited(types: seq<CatalogType>, path: set<nat>): set<nat> {
    set i: nat | i < |types| && i !in path
  }

  lemma VisitShrinks(types: seq<CatalogType>, path: set<nat>, index: nat)
    requires index < |types| && index !in path
    ensures Unvisited(types, path + {index}) < Unvisited(types, path)
  {
    assert index in Unvisited(types, path) && index !in Unvisited(types, path + {index});
  }

  /** Resolution along a path of types being resolved. */
  function Resolution(types: seq<CatalogType>, mappings: Mappings, index: nat,
                      path: set<nat>): Result<Capabilities, Error>
    decreases Unvisited(types, path)
  {
    if index >= |types| then Err(InvalidIndex)
    else if index in path then Err(CyclicStructure)
    else
      var own := types[index].capabilities;
      match types[index].shape
      case Domain(base) =>
        VisitShrinks(types, path, index);
        (match Resolution(types, mappings, base, path + {index})
         case Err(error) => Err(error)
         case Ok(inherited) => MaybeMapped(mappings, index, InheritMappedDomain(own, inherited)))
      case _ => MaybeMapped(mappings, index, own)
  }

  /** No type on the path is part of a chain as short as this one. */
  ghost predicate Deeper(types: seq<CatalogType>, path: set<nat>, n: nat) {
    forall p, m: nat :: p in path && Ends(types, p, m) ==> n < m
  }

  /** On a chain that ends, detecting cycles changes nothing. */
  lemma {:induction false} ResolutionIsPlain(types: seq<CatalogType>, mappings: Mappings, index: nat, path: set<nat>,
                                             n: nat)
    requires Ends(types, index, n) && Deeper(types, path, n)
    ensures Resolution(types, mappings, index, path) == Plain(types, mappings, index, n)
    decreases n
  {
    if n > 0 {
      VisitShrinks(types, path, index);
      forall p, m: nat | p in path + {index} && Ends(types, p, m) ensures n - 1 < m {
        if p == index {
          EndsOnce(types, index, m, n);
        }
      }
      ResolutionIsPlain(types, mappings, types[index].shape.base, path + {index}, n - 1);
    }
  }

  /** A chain that resolves ends. */
  lemma {:induction false} ResolvedEnds(types: seq<CatalogType>, mappings: Mappings, index: nat, path: set<nat>)
    returns (n: nat)
    requires Resolution(types, mappings, index, path).Ok?
    ensures Ends(types, index, n)
    decreases Unvisited(types, path)
  {
    match types[index].shape
    case Domain(base) =>
      VisitShrinks(types, path, index);
      var m := ResolvedEnds(types, mappings, base, path + {index});
      n := m + 1;
    case _ => n := 0;
  }

  /**
    Resolution succeeds exactly on a chain that ends and whose mappings all apply, with
    the plain recursion's result.
   */
  lemma ResolutionExact(types: seq<CatalogType>, mappings: Mappings, index: nat, capabilities: Capabilities)
    ensures Resolution(types, mappings, index, {}) == Ok(capabilities) <==>
            exists n :: Ends(types, index, n) && Plain(types, mappings, index, n) == Ok(capabilities)
  {
    if Resolution(types, mappings, index, {}) == Ok(capabilities) {
      var n := ResolvedEnds(types, mappings, index, {});
      ResolutionIsPlain(types, mappings, index, {}, n);
    }
    if n :| Ends(types, index, n) && Plain(types, mappings, index, n) == Ok(capabilities) {
      ResolutionIsPlain(types, mappings, index, {}, n);
    }
  }

  /* ---- memoised resolution ---- */

  datatype State = Pending | Resolving | Resolved

  ghost predicate Remembers(types: seq<CatalogType>, mappings: Mappings, done: set<nat>, index: nat,
                            capabilities: Capabilities)
  {
    forall path {:trigger Resolution(types, mappings, index, path)} :: path !! done ==>
        Resolution(types, mappings, index, path) == Ok(capabilities)
  }

  class Resolver {
    const types: seq<CatalogType>
    const mappings: Mappings
    const states: array<State>
    const resolved: array<Option<Capabilities>>

    constructor (types: seq<CatalogType>, mappings: Mappings)
      ensures this.types == types && this.mappings == mappings && fresh(states) && fresh(resolved) && Valid({})
    {
      this.types, this.mappings := types, mappings;
      states := new State[|types|](_ => Pending);
      resolved := new Option<Capabilities>[|types|](_ => None);
    }

    ghost function Done(): set<nat>
      reads states
    {
      set i: nat | i < states.Length && states[i] == Resolved
    }

    /**
      Types on the path are being resolved; a resolved type remembers what it resolves to
      along any path outside the resolved ones.
     */
    ghost predicate Valid(path: set<nat>)
      reads this, states, resolved
    {
      && states.Length == resolved.Length == |types|
      && (forall i: nat :: i < |types| ==> (states[i] == Resolving <==> i in path))
      && (forall i: nat :: i < |types| && states[i] == Resolved ==>
          resolved[i].Some? && Remembers(types, mappings, Done(), i, resolved[i].value))
    }

    method Mark(index: nat, ghost path: set<nat>)
      requires Valid(path) && index < |types| && states[index] == Pending
      modifies states
      ensures Valid(path + {index}) && Done() == old(Done())
      ensures forall i :: 0 <= i < |types| && i != index ==> states[i] == old(states[i])
      ensures states[index] == Resolving
    {
      states[index] := Resolving;
      assert Done() == old(Done());
    }

    method Keep(index: nat, capabilities: Capabilities, ghost path: set<nat>)
      requires Valid(path + {index}) && index < |types| && index !in path && states != resolved as object
      requires Remembers(types, mappings, Done() + {index}, index, capabilities)
      modifies states, resolved
      ensures Valid(path) && Done() == old(Done()) + {index} && states[index] == Resolved
              && resolved[index] == Some(capabilities)
      ensures forall i :: 0 <= i < |types| && i != index ==>
                states[i] == old(states[i]) && resolved[i] == old(resolved[i])
    {
      ghost var done := Done();
      resolved[index] := Some(capabilities);
      states[index] := Resolved;
      assert Done() == done + {index};
      forall i: nat | i < |types| && states[i] == Resolved && i != index
        ensures Remembers(types, mappings, Done(), i, resolved[i].value)
      {
        RemembersMore(types, mappings, done, done + {index}, i, resolved[i].value);
      }
    }

    /** Each type is resolved once; an error is that of the plain recursion along the same path. */
    method ResolveCapabilities(index: nat, ghost path: set<nat>) returns (r: Result<(), Error>)
      requires Valid(path)
      modifies states, resolved
      ensures r == match Resolution(types, mappings, index, path) case Err(error) => Err(error) case Ok(_) => Ok(())
      ensures r.Ok? ==> Valid(path) && index < |types| && states[index] == Resolved && old(Done()) <= Done()
      decreases Unvisited(types, path)
    {
      if index >= |types| {
        return Err(InvalidIndex);
      }
      match states[index] {
        case Resolved =>
          assert path !! Done();
          return Ok(());
        case Resolving => return Err(CyclicStructure);
        case Pending =>
      }
      Mark(index, path);
      var capabilities := types[index].capabilities;
      if types[index].shape.Domain? {
        VisitShrinks(types, path, index);
        var base := types[index].shape.base;
        var inner := ResolveCapabilities(base, path + {index});
        if inner.Err? {
          return inner;
        }
        assert path + {index} !! Done();
        capabilities := InheritMappedDomain(capabilities, resolved[base].value);
      }
      if index in mappings {
        var mapped := ApplyMapping(capabilities, mappings[index]);
        if mapped.Err? {
          return Err(mapped.error);
        }
        capabilities := mapped.value;
      }
      RemembersNew(types, mappings, Done(), index, capabilities,
                   if types[index].shape.Domain? then resolved[types[index].shape.base] else None);
      Keep(index, capabilities, path);
      return Ok(());
    }
  }

  lemma RemembersMore(types: seq<CatalogType>, mappings: Mappings, done: set<nat>, more: set<nat>, index: nat,
                      capabilities: Capabilities)
    requires done <= more && Remembers(types, mappings, done, index, capabilities)
    ensures Remembers(types, mappings, more, index, capabilities)
  {
  }

  lemma RemembersNew(types: seq<CatalogType>, mappings: Mappings, done: set<nat>, index: nat,
                     capabilities: Capabilities, inherited: Option<Capabilities>)
    requires index < |types| && index !in done
    requires types[index].shape.Domain? ==>
               inherited.Some? && Remembers(types, mappings, done, types[index].shape.base, inherited.value)
    requires var own := types[index].capabilities;
             MaybeMapped(mappings, index, if types[index].shape.Domain? then InheritMappedDomain(own, inherited.value)
                         else own) == Ok(capabilities)
    ensures Remembers(types, mappings, done + {index}, index, capabilities)
  {
    forall path | path !! done + {index} ensures Resolution(types, mappings, index, path) == Ok(capabilities) {
      if types[index].shape.Domain? {
        VisitShrinks(types, path, index);
        assert path + {index} !! done;
      }
    }
  }

  /** Every type carries its resolution. */
  predicate ResolvedCatalog(types: seq<CatalogType>, mappings: Mappings, catalog: seq<CatalogType>) {
    && |catalog| == |types|
    && forall i :: 0 <= i < |types| ==>
         catalog[i].shape == types[i].shape && Resolution(types, mappings, i, {}) == Ok(catalog[i].capabilities)
  }

  /** The first type that does not resolve, and why. */
  predicate FirstFailure(types: seq<CatalogType>, mappings: Mappings, i: nat, error: Error) {
    && i < |types| && Resolution(types, mappings, i, {}) == Err(error)
    && forall j :: 0 <= j < i ==> Resolution(types, mappings, j, {}).Ok?
  }

  /** All types in turn, remembering each; the result and the error are those of resolving every type on its own. */
  method ApplyCatalogTypes(types: seq<CatalogType>, mappings: Mappings) returns (r: Result<seq<CatalogType>, Error>)
    ensures match r
            case Ok(catalog) => ResolvedCatalog(types, mappings, catalog)
            case Err(error) => exists i :: FirstFailure(types, mappings, i, error)
  {
    var resolver := new Resolver(types, mappings);
    for i := 0 to |types|
      invariant fresh(resolver.states) && fresh(resolver.resolved)
      invariant resolver.types == types && resolver.mappings == mappings && resolver.Valid({})
      invariant forall j :: 0 <= j < i ==> j in resolver.Done() && Resolution(types, mappings, j, {}).Ok?
    {
      var one := resolver.ResolveCapabilities(i, {});
      if one.Err? {
        assert FirstFailure(types, mappings, i, one.error);
        return Err(one.error);
      }
    }
    assert forall i :: 0 <= i < |types| ==> i in resolver.Done();
    assert {} !! resolver.Done();
    var catalog: seq<CatalogType> := [];
    for i := 0 to |types|
      invariant |catalog| == i
      invariant forall j :: 0 <= j < i ==>
                  catalog[j].shape == types[j].shape
                      && Resolution(types, mappings, j, {}) == Ok(catalog[j].capabilities)
    {
      assert i in resolver.Done();
      assert Remembers(types, mappings, resolver.Done(), i, resolver.resolved[i].value);
      catalog := catalog + [types[i].(capabilities := resolver.resolved[i].value)];
    }
    return Ok(catalog);
  }

  /**
    In a resolved catalog every chain ends, and every type narrows its baseline and its
    base and has its chain end's wire encoding.
   */
  lemma CatalogNarrows(types: seq<CatalogType>, mappings: Mappings, catalog: seq<CatalogType>, i: nat) returns (n: nat)
    requires ResolvedCatalog(types, mappings, catalog) && i < |types|
    ensures Ends(types, i, n) && Plain(types, mappings, i, n) == Ok(catalog[i].capabilities)
    ensures Narrows(catalog[i].capabilities, types[i].capabilities)
    ensures catalog[i].capabilities.wire == types[ChainEnd(types, i, n)].capabilities.wire
    ensures types[i].shape.Domain? ==>
              types[i].shape.base < |types|
                  && Narrows(catalog[i].capabilities, catalog[types[i].shape.base].capabilities)
  {
    n := ResolvedEnds(types, mappings, i, {});
    ResolutionIsPlain(types, mappings, i, {}, n);
    PlainNarrows(types, mappings, i, n);
    if types[i].shape.Domain? {
      ResolutionIsPlain(types, mappings, types[i].shape.base, {}, n - 1);
    }
  }

  /** A chain that comes back to where it started never resolves. */
  lemma {:induction false} CycleNeverEnds(types: seq<CatalogType>, index: nat, steps: nat, n: nat)
    requires steps > 0 && StepsTo(types, index, steps, index)
    ensures !Ends(types, index, n)
    decreases n
  {
    if Ends(types, index, n) {
      EndsAfter(types, index, steps, index, n);
      CycleNeverEnds(types, index, steps, n - steps);
    }
  }

  /** Following bases `steps` times leads from one type to another. */
  predicate StepsTo(types: seq<CatalogType>, from: nat, steps: nat, to: nat)
    decreases steps
  {
    if steps == 0 then from == to
    else from < |types| && types[from].shape.Domain? && StepsTo(types, types[from].shape.base, steps - 1, to)
  }

  lemma {:induction false} EndsAfter(types: seq<CatalogType>, from: nat, steps: nat, to: nat, n: nat)
    requires StepsTo(types, from, steps, to) && Ends(types, from, n)
    ensures steps <= n && Ends(types, to, n - steps)
    decreases steps
  {
    if steps > 0 {
      EndsAfter(types, types[from].shape.base, steps - 1, to, n - 1);
    }
  }
}
