/**
  Static cardinality proofs.  `GuaranteedEqualities` is an abstract
  interpretation of a predicate; it is shown sound against SQL's three-valued
  logic with structural pruning of absent atoms, and the row shapes derived from
  it are shown to hold of every execution.
 */
module Cardinality {
  import opened ThreeValuedLogic
  import opened Wrappers

  /* ---- expressions ---- */

  datatype Sigil = Build | Query | Context

  datatype VariableSource = Structured | TopLevel | Trusted

  datatype ComparisonOp = Eq | Ne | Gt | Ge | Lt | Le | Like

  datatype VariableRef = VariableRef(sigil: Sigil, name: Option<string>, operators: Option<seq<ComparisonOp>>,
                                     span: nat)

  datatype BinaryOp = Comparison(op: ComparisonOp) | In | NotIn | And | Or | OperatorVariable(variable: VariableRef)

  datatype LiteralValue = String(text: string) | Number(text: string) | Bool(flag: bool) | NullLiteral

  datatype PathAnchor = Current | Parent | Root

  datatype PathSegment = PathSegment(name: string, relationPath: Option<string>)

  /**
    `Opaque` stands for the forms the analysis never looks into: null tests, lists,
    `exists`, aggregates, dynamic predicates, condition references and recovery holes.
   */
  datatype Expr =
    | Binary(op: BinaryOp, lhs: Expr, rhs: Expr)
    | Not(operand: Expr)
    | Literal(value: LiteralValue)
    | Path(anchor: PathAnchor, segments: seq<PathSegment>)
    | Variable(variable: VariableRef)
    | Opaque(id: nat)

  /* ---- catalog ---- */

  type ColumnId = nat
  type TableId = nat

  datatype TableInfo = TableInfo(primaryKey: seq<ColumnId>, uniqueConstraints: seq<seq<ColumnId>>)

  datatype RelationCardinality = Singular | Many

  datatype Relation = Relation(cardinality: RelationCardinality, nullable: bool)

  datatype Catalog = Catalog(
    tables: map<TableId, TableInfo>,
    relations: map<nat, Relation>,
    columnNames: map<ColumnId, string>,
    columnOf: (TableId, string) -> Option<ColumnId>)

  datatype InputRefinement = InputRefinement(source: VariableSource, name: string, nullable: bool)

  /* ---- the analysis ---- */

  datatype FixedValueIdentity =
    | FixedString(text: string)
    | FixedNumber(text: string)
    | FixedBool(flag: bool)
    | NamedVariable(sigil: Sigil, name: string)
    | AnonymousVariable(sigil: Sigil, span: nat)

  type Equalities = map<ColumnId, set<FixedValueIdentity>>

  function SourceOf(sigil: Sigil): VariableSource {
    match sigil
    case Build => Structured
    case Query => TopLevel
    case Context => Trusted
  }

  function FixedIdentity(expr: Expr): Option<FixedValueIdentity> {
    match expr
    case Variable(variable) =>
      (match variable.name
       case Some(name) => Some(NamedVariable(variable.sigil, name))
       case None => Some(AnonymousVariable(variable.sigil, variable.span)))
    case Literal(String(text)) => Some(FixedString(text))
    case Literal(Number(text)) => Some(FixedNumber(text))
    case Literal(Bool(flag)) => Some(FixedBool(flag))
    case _ => None
  }

  function DirectCurrentColumn(catalog: Catalog, table: TableId, expr: Expr): Option<ColumnId> {
    match expr
    case Path(Current, segments) =>
      if |segments| == 1 && segments[0].relationPath.None? then catalog.columnOf(table, segments[0].name) else None
    case _ => None
  }

  /** Column against fixed value, in either operand order. */
  function Equality(catalog: Catalog, table: TableId, left: Expr, right: Expr): Option<(ColumnId, FixedValueIdentity)> {
    var lc, rc := DirectCurrentColumn(catalog, table, left), DirectCurrentColumn(catalog, table, right);
    var li, ri := FixedIdentity(left), FixedIdentity(right);
    if lc.Some? && ri.Some? then Some((lc.value, ri.value))
    else if rc.Some? && li.Some? then Some((rc.value, li.value))
    else None
  }

  predicate Refined(refinements: seq<InputRefinement>, source: VariableSource, name: string) {
    exists i :: 0 <= i < |refinements| && refinements[i] == InputRefinement(source, name, true)
  }

  predicate NullableIdentity(catalog: Catalog, column: ColumnId, identity: FixedValueIdentity,
                             refinements: seq<InputRefinement>, anonymousKey: Option<string>) {
    match identity
    case NamedVariable(sigil, name) => Refined(refinements, SourceOf(sigil), name)
    case AnonymousVariable(sigil, _) =>
      if anonymousKey.Some? then Refined(refinements, SourceOf(sigil), anonymousKey.value)
      else column in catalog.columnNames && Refined(refinements, SourceOf(sigil), catalog.columnNames[column])
    case _ => false
  }

  function PredicateAnonymousKey(op: BinaryOp): Option<string> {
    if op.OperatorVariable? then Some("value") else None
  }

  predicate OnlyEquality(variable: VariableRef) {
    && variable.operators.Some? && variable.operators.value != []
    && forall i :: 0 <= i < |variable.operators.value| ==> variable.operators.value[i] == Eq
  }

  function AtomEqualities(catalog: Catalog, table: TableId, op: BinaryOp, lhs: Expr, rhs: Expr,
                          refinements: seq<InputRefinement>): Equalities {
    match Equality(catalog, table, lhs, rhs)
    case None => map[]
    case Some((column, identity)) =>
      if NullableIdentity(catalog, column, identity, refinements, PredicateAnonymousKey(op)) then map[]
      else map[column := {identity}]
  }

  function Union(left: Equalities, right: Equalities): Equalities {
    map column | column in left.Keys + right.Keys ::
      (if column in left then left[column] else {}) + (if column in right then right[column] else {})
  }

  function Intersection(left: Equalities, right: Equalities): Equalities {
    map column | column in left && column in right && left[column] * right[column] != {} :: left[column] * right[column]
  }

  function GuaranteedEqualities(catalog: Catalog, table: TableId, expr: Expr,
                                refinements: seq<InputRefinement>): Equalities
  {
    match expr
    case Binary(And, lhs, rhs) =>
      Union(GuaranteedEqualities(catalog, table, lhs, refinements),
            GuaranteedEqualities(catalog, table, rhs, refinements))
    case Binary(Or, lhs, rhs) =>
      Intersection(GuaranteedEqualities(catalog, table, lhs, refinements),
                   GuaranteedEqualities(catalog, table, rhs, refinements))
    case Binary(Comparison(Eq), lhs, rhs) => AtomEqualities(catalog, table, expr.op, lhs, rhs, refinements)
    case Binary(OperatorVariable(variable), lhs, rhs) =>
      if OnlyEquality(variable) then AtomEqualities(catalog, table, expr.op, lhs, rhs, refinements) else map[]
    case _ => map[]
  }

  /** `and`: extends the left map with every identity of the right one. */
  method Extend(left: Equalities, right: Equalities) returns (equalities: Equalities)
    ensures equalities == Union(left, right)
  {
    equalities := left;
    var pending := right.Keys;
    while pending != {}
      invariant pending <= right.Keys
      invariant forall c :: c in pending ==>
                  (c in equalities <==> c in left) && (c in left ==> equalities[c] == left[c])
      invariant forall c :: c !in pending ==> (c in equalities <==> c in left || c in right)
      invariant forall c :: c in equalities && c !in pending ==> equalities[c] == Union(left, right)[c]
      decreases pending
    {
      var column :| column in pending;
      pending := pending - {column};
      var merged := (if column in equalities then equalities[column] else {}) + right[column];
      assert merged == Union(left, right)[column];
      equalities := equalities[column := merged];
    }
  }

  /** `or`: keeps the identities both operands guarantee, and drops a column left with none. */
  method Restrict(left: Equalities, right: Equalities) returns (equalities: Equalities)
    ensures equalities == Intersection(left, right)
  {
    equalities := left;
    var pending := left.Keys;
    while pending != {}
      invariant pending <= left.Keys
      invariant equalities.Keys == pending + Intersection(left, right).Keys
      invariant forall c :: c in equalities ==> equalities[c] == if c in pending then left[c] else left[c] * right[c]
      decreases pending
    {
      var column :| column in pending;
      pending := pending - {column};
      var kept := if column in right then equalities[column] * right[column] else {};
      equalities := if kept == {} then equalities - {column} else equalities[column := kept];
    }
  }

  /** The analysis as it runs: it extends or prunes the left operand's map. */
  method CollectEqualities(catalog: Catalog, table: TableId, expr: Expr, refinements: seq<InputRefinement>)
    returns (equalities: Equalities)
    ensures equalities == GuaranteedEqualities(catalog, table, expr, refinements)
    decreases expr
  {
    if expr.Binary? && (expr.op.And? || expr.op.Or?) {
      equalities := CollectEqualities(catalog, table, expr.lhs, refinements);
      var right := CollectEqualities(catalog, table, expr.rhs, refinements);
      if expr.op.And? {
        equalities := Extend(equalities, right);
      } else {
        equalities := Restrict(equalities, right);
      }
    } else {
      equalities := GuaranteedEqualities(catalog, table, expr, refinements);
    }
  }

  predicate Covers(equalities: Equalities, key: seq<ColumnId>) {
    key != [] && forall i :: 0 <= i < |key| ==> key[i] in equalities
  }

  function FirstCovered(equalities: Equalities, keys: seq<seq<ColumnId>>): Option<seq<ColumnId>> {
    if keys == [] then None
    else if Covers(equalities, keys[0]) then Some(keys[0])
    else FirstCovered(equalities, keys[1..])
  }

  function UniqueKeyForPredicate(catalog: Catalog, table: TableId, predicate_: Expr,
                                 refinements: seq<InputRefinement>): Option<seq<ColumnId>>
  {
    var equalities := GuaranteedEqualities(catalog, table, predicate_, refinements);
    if table !in catalog.tables then None
    else if Covers(equalities, catalog.tables[table].primaryKey) then Some(catalog.tables[table].primaryKey)
    else FirstCovered(equalities, catalog.tables[table].uniqueConstraints)
  }

  /* ---- SQL meaning ---- */

  datatype SqlValue = Null | Datum(text: string)

  type Row = ColumnId -> SqlValue

  /**
    Everything a run supplies: bound values, the equality of the data types, the
    operator each operator variable selects, and the outcome of every form the
    analysis does not interpret.  `pruned` is the outcome of an atom whose
    nullable variable is null, and may be anything.
   */
  datatype Environment = Environment(
    named: (Sigil, string) -> SqlValue,
    anonymous: (Sigil, nat) -> SqlValue,
    number: string -> string,
    same: (string, string) -> bool,
    chosen: VariableRef -> ComparisonOp,
    uninterpreted: (Expr, Row) -> Outcome,
    pruned: (Expr, Row) -> Outcome)

  /** Equality is symmetric and transitive, and an operator variable selects one of its operators. */
  ghost predicate Lawful(env: Environment) {
    && (forall a, b :: env.same(a, b) ==> env.same(b, a))
    && (forall a, b, c :: env.same(a, b) && env.same(b, c) ==> env.same(a, c))
    && (forall variable: VariableRef {:trigger env.chosen(variable)} ::
          variable.operators.Some? && variable.operators.value != [] ==>
              env.chosen(variable) in variable.operators.value)
  }

  function ValueOf(env: Environment, identity: FixedValueIdentity): SqlValue {
    match identity
    case FixedString(text) => Datum(text)
    case FixedNumber(text) => Datum(env.number(text))
    case FixedBool(flag) => Datum(if flag then "true" else "false")
    case NamedVariable(sigil, name) => env.named(sigil, name)
    case AnonymousVariable(sigil, span) => env.anonymous(sigil, span)
  }

  function SqlEq(env: Environment, a: SqlValue, b: SqlValue): Truth {
    if a.Null? || b.Null? then Unknown else if env.same(a.text, b.text) then True else False
  }

  function EvalEquality(catalog: Catalog, table: TableId, refinements: seq<InputRefinement>, env: Environment,
                        atom: Expr, row: Row): Outcome
    requires atom.Binary?
  {
    match Equality(catalog, table, atom.lhs, atom.rhs)
    case None => env.uninterpreted(atom, row)
    case Some((column, identity)) =>
      if NullableIdentity(catalog, column, identity, refinements, PredicateAnonymousKey(atom.op))
          && ValueOf(env, identity).Null?
      then env.pruned(atom, row)
      else Is(SqlEq(env, row(column), ValueOf(env, identity)))
  }

  function Eval(catalog: Catalog, table: TableId, refinements: seq<InputRefinement>, env: Environment, expr: Expr,
                row: Row): Outcome
  {
    match expr
    case Binary(And, lhs, rhs) =>
      SqlAnd(Eval(catalog, table, refinements, env, lhs, row), Eval(catalog, table, refinements, env, rhs, row))
    case Binary(Or, lhs, rhs) =>
      SqlOr(Eval(catalog, table, refinements, env, lhs, row), Eval(catalog, table, refinements, env, rhs, row))
    case Not(operand) => SqlNot(Eval(catalog, table, refinements, env, operand, row))
    case Binary(Comparison(Eq), _, _) => EvalEquality(catalog, table, refinements, env, expr, row)
    case Binary(OperatorVariable(variable), _, _) =>
      if env.chosen(variable) == Eq then EvalEquality(catalog, table, refinements, env, expr, row)
      else env.uninterpreted(expr, row)
    case _ => env.uninterpreted(expr, row)
  }

  /** A row passes a `where` clause that is true or absent. */
  predicate Passes(catalog: Catalog, table: TableId, refinements: seq<InputRefinement>, env: Environment, expr: Expr,
                   row: Row)
  {
    var outcome := Eval(catalog, table, refinements, env, expr, row);
    outcome.Absent? || outcome.truth.True?
  }

  /* ---- soundness of the analysis ---- */

  lemma {:induction false} AbsentGuaranteesNothing(catalog: Catalog, table: TableId, refinements: seq<InputRefinement>,
                                                   env: Environment, expr: Expr, row: Row)
    requires Lawful(env)
    requires Eval(catalog, table, refinements, env, expr, row).Absent?
    ensures GuaranteedEqualities(catalog, table, expr, refinements) == map[]
  {
    if expr.Binary? && (expr.op.And? || expr.op.Or?) {
      AbsentGuaranteesNothing(catalog, table, refinements, env, expr.lhs, row);
      AbsentGuaranteesNothing(catalog, table, refinements, env, expr.rhs, row);
    } else if expr.Binary? && expr.op.OperatorVariable? && OnlyEquality(expr.op.variable) {
      assert env.chosen(expr.op.variable) in expr.op.variable.operators.value;
    }
  }

  /** What the analysis maps a column to equals that column on every row where the predicate is true. */
  lemma {:induction false} EqualitiesHold(catalog: Catalog, table: TableId, refinements: seq<InputRefinement>,
                                          env: Environment, expr: Expr, row: Row,
                                          column: ColumnId, identity: FixedValueIdentity)
    requires Lawful(env)
    requires Eval(catalog, table, refinements, env, expr, row) == Is(True)
    requires var equalities := GuaranteedEqualities(catalog, table, expr, refinements);
             column in equalities && identity in equalities[column]
    ensures SqlEq(env, row(column), ValueOf(env, identity)) == True
  {
    if expr.Binary? && expr.op.And? {
      var left, right := Eval(catalog, table, refinements, env, expr.lhs, row),
          Eval(catalog, table, refinements, env, expr.rhs, row);
      if left.Absent? { AbsentGuaranteesNothing(catalog, table, refinements, env, expr.lhs, row); }
      if right.Absent? { AbsentGuaranteesNothing(catalog, table, refinements, env, expr.rhs, row); }
      var le := GuaranteedEqualities(catalog, table, expr.lhs, refinements);
      if column in le && identity in le[column] {
        EqualitiesHold(catalog, table, refinements, env, expr.lhs, row, column, identity);
      } else {
        EqualitiesHold(catalog, table, refinements, env, expr.rhs, row, column, identity);
      }
    } else if expr.Binary? && expr.op.Or? {
      if Eval(catalog, table, refinements, env, expr.lhs, row) == Is(True) {
        EqualitiesHold(catalog, table, refinements, env, expr.lhs, row, column, identity);
      } else {
        EqualitiesHold(catalog, table, refinements, env, expr.rhs, row, column, identity);
      }
    } else if expr.op.OperatorVariable? {
      assert env.chosen(expr.op.variable) in expr.op.variable.operators.value;
    }
  }

  /** Every guaranteed column has at least one identity. */
  lemma {:induction false} EqualitiesInhabited(catalog: Catalog, table: TableId, expr: Expr,
                                               refinements: seq<InputRefinement>, column: ColumnId)
    requires column in GuaranteedEqualities(catalog, table, expr, refinements)
    ensures GuaranteedEqualities(catalog, table, expr, refinements)[column] != {}
  {
    if expr.Binary? && expr.op.And? {
      if column in GuaranteedEqualities(catalog, table, expr.lhs, refinements) {
        EqualitiesInhabited(catalog, table, expr.lhs, refinements, column);
      } else {
        EqualitiesInhabited(catalog, table, expr.rhs, refinements, column);
      }
    }
  }

  /* ---- unique keys ---- */

  ghost predicate AgreeOn(env: Environment, key: seq<ColumnId>, a: Row, b: Row) {
    forall i :: 0 <= i < |key| ==> SqlEq(env, a(key[i]), b(key[i])) == True
  }

  /** No two stored rows agree on the primary key or on a unique constraint; nulls never agree. */
  ghost predicate RespectsKeys(env: Environment, info: TableInfo, rows: seq<Row>) {
    forall i, j {:trigger rows[i], rows[j]} :: 0 <= i < j < |rows| ==>
      && (info.primaryKey != [] ==> !AgreeOn(env, info.primaryKey, rows[i], rows[j]))
      && (forall k :: 0 <= k < |info.uniqueConstraints| && info.uniqueConstraints[k] != [] ==>
            !AgreeOn(env, info.uniqueConstraints[k], rows[i], rows[j]))
  }

  lemma {:induction false} FirstCoveredIsKey(equalities: Equalities, keys: seq<seq<ColumnId>>)
    ensures var found := FirstCovered(equalities, keys);
            && (found.Some? ==>
                Covers(equalities, found.value) && exists k :: 0 <= k < |keys| && keys[k] == found.value)
            && (found.None? ==> forall k :: 0 <= k < |keys| ==> !Covers(equalities, keys[k]))
  {
    if keys != [] {
      FirstCoveredIsKey(equalities, keys[1..]);
      var found := FirstCovered(equalities, keys);
      if !Covers(equalities, keys[0]) {
        if found.Some? {
          var k :| 0 <= k < |keys[1..]| && keys[1..][k] == found.value;
          assert keys[k + 1] == found.value;
        }
        forall k | found.None? && 0 <= k < |keys| ensures !Covers(equalities, keys[k]) {
          assert k > 0 ==> keys[k] == keys[1..][k - 1];
        }
      }
    }
  }

  /** The analysis finds a key exactly when some declared key is covered by the guaranteed equalities. */
  lemma UniqueKeyExact(catalog: Catalog, table: TableId, expr: Expr, refinements: seq<InputRefinement>)
    ensures var found := UniqueKeyForPredicate(catalog, table, expr, refinements);
            var equalities := GuaranteedEqualities(catalog, table, expr, refinements);
            found.Some? <==>
              && table in catalog.tables
              && var info := catalog.tables[table];
              (Covers(equalities, info.primaryKey) ||
               exists k :: 0 <= k < |info.uniqueConstraints| && Covers(equalities, info.uniqueConstraints[k]))
  {
    if table in catalog.tables {
      FirstCoveredIsKey(GuaranteedEqualities(catalog, table, expr, refinements),
                        catalog.tables[table].uniqueConstraints);
    }
  }

  lemma FixedPointsAgree(env: Environment, a: SqlValue, b: SqlValue, value: SqlValue)
    requires Lawful(env) && SqlEq(env, a, value) == True && SqlEq(env, b, value) == True
    ensures SqlEq(env, a, b) == True
  {
    assert env.same(a.text, value.text) && env.same(value.text, b.text);
  }

  /** A column fixed by the predicate holds SQL-equal values on any two rows that pass it. */
  lemma FixedColumnsAgree(catalog: Catalog, table: TableId, refinements: seq<InputRefinement>, env: Environment,
                          expr: Expr, a: Row, b: Row, column: ColumnId)
    requires Lawful(env)
    requires Passes(catalog, table, refinements, env, expr, a) && Passes(catalog, table, refinements, env, expr, b)
    requires column in GuaranteedEqualities(catalog, table, expr, refinements)
    ensures SqlEq(env, a(column), b(column)) == True
  {
    if Eval(catalog, table, refinements, env, expr, a).Absent? {
      AbsentGuaranteesNothing(catalog, table, refinements, env, expr, a);
    }
    if Eval(catalog, table, refinements, env, expr, b).Absent? {
      AbsentGuaranteesNothing(catalog, table, refinements, env, expr, b);
    }
    EqualitiesInhabited(catalog, table, expr, refinements, column);
    var identity :| identity in GuaranteedEqualities(catalog, table, expr, refinements)[column];
    EqualitiesHold(catalog, table, refinements, env, expr, a, column, identity);
    EqualitiesHold(catalog, table, refinements, env, expr, b, column, identity);
    FixedPointsAgree(env, a(column), b(column), ValueOf(env, identity));
  }

  /** When the analysis returns a key, at most one row of any table that respects its keys passes the predicate. */
  lemma UniqueKeyPinsOneRow(catalog: Catalog, table: TableId, refinements: seq<InputRefinement>, env: Environment,
                            expr: Expr, rows: seq<Row>, i: nat, j: nat)
    requires Lawful(env)
    requires UniqueKeyForPredicate(catalog, table, expr, refinements).Some?
    requires RespectsKeys(env, catalog.tables[table], rows)
    requires i < |rows| && j < |rows|
    requires Passes(catalog, table, refinements, env, expr, rows[i])
             && Passes(catalog, table, refinements, env, expr, rows[j])
    ensures i == j
  {
    var key := UniqueKeyForPredicate(catalog, table, expr, refinements).value;
    var equalities := GuaranteedEqualities(catalog, table, expr, refinements);
    FirstCoveredIsKey(equalities, catalog.tables[table].uniqueConstraints);
    if i != j {
      var low, high := if i < j then i else j, if i < j then j else i;
      forall k | 0 <= k < |key| ensures SqlEq(env, rows[low](key[k]), rows[high](key[k])) == True {
        FixedColumnsAgree(catalog, table, refinements, env, expr, rows[low], rows[high], key[k]);
      }
      assert AgreeOn(env, key, rows[low], rows[high]);
    }
  }

  /* ---- selection shapes ---- */

  datatype SelectionTarget = Table(table: TableId) | RelationTo(table: TableId, relation: nat)
      | Column(column: ColumnId) | Unresolved

  datatype Limit = NoLimit | LiteralLimit(value: nat) | RuntimeLimit

  datatype SelectionSyntax = SelectionSyntax(predicate_: Option<Expr>, hasOffset: bool, limit: Limit)

  datatype Proof = ByRelation | ByUniqueKey(key: seq<ColumnId>) | ByLimitOne

  datatype SelectionCardinality = Collection | AtMostOne

  datatype Shape = Shape(cardinality: SelectionCardinality, proof: Option<Proof>, nullable: bool, limit: Limit)

  predicate MaySuppress(limit: Limit) {
    limit == LiteralLimit(0) || limit.RuntimeLimit?
  }

  predicate IsSingular(catalog: Catalog, context: Option<TableId>, target: SelectionTarget) {
    target.RelationTo? && context.Some? && target.relation in catalog.relations &&
    catalog.relations[target.relation].cardinality.Singular?
  }

  function ResolveShape(catalog: Catalog, syntax: SelectionSyntax, context: Option<TableId>, target: SelectionTarget,
                        refinements: seq<InputRefinement>): Option<Shape> {
    if !target.Table? && !target.RelationTo? then None
    else
      var singular := IsSingular(catalog, context, target);
      var key :=
          if syntax.predicate_.Some? then
              UniqueKeyForPredicate(catalog, target.table, syntax.predicate_.value, refinements) else None;
      var proof :=
        if singular then Some(ByRelation)
        else if key.Some? then Some(ByUniqueKey(key.value))
        else if syntax.limit == LiteralLimit(1) then Some(ByLimitOne)
        else None;
      var cardinality := if proof.Some? then AtMostOne else Collection;
      var nullable :=
        cardinality.AtMostOne? &&
        (target.Table? || !singular ||
         catalog.relations[target.relation].nullable || syntax.predicate_.Some? || syntax.hasOffset
             || MaySuppress(syntax.limit));
      Some(Shape(cardinality, proof, nullable, syntax.limit))
  }

  /** Whether the public result field may be null, for a row-valued collection. */
  predicate ResultNullable(shape: Shape, hasPolicyFilter: bool) {
    shape.cardinality.AtMostOne? && (shape.nullable || hasPolicyFilter)
  }

  /* ---- executions ---- */

  function Select(rows: seq<Row>, keep: Row -> bool): seq<Row> {
    if rows == [] then []
    else Select(rows[..|rows| - 1], keep) + if keep(rows[|rows| - 1]) then [rows[|rows| - 1]] else []
  }

  /** One evaluation of a selection for one parent: stored rows, join, policy, and the offset and limit in force. */
  datatype Execution = Execution(
    env: Environment,
    stored: seq<Row>,
    joins: Row -> bool,
    policy: Option<Row -> bool>,
    offset: nat,
    limit: Option<nat>)

  ghost predicate Follows(catalog: Catalog, syntax: SelectionSyntax, context: Option<TableId>, target: SelectionTarget,
                          run: Execution)
    requires target.Table? || target.RelationTo?
  {
    && Lawful(run.env)
    && (target.table in catalog.tables ==> RespectsKeys(run.env, catalog.tables[target.table], run.stored))
    && (!syntax.hasOffset ==> run.offset == 0)
    && (syntax.limit.NoLimit? ==> run.limit.None?)
    && (syntax.limit.LiteralLimit? ==> run.limit == Some(syntax.limit.value))
    && (target.RelationTo? && context.Some? && target.relation in catalog.relations ==>
          && (catalog.relations[target.relation].cardinality.Singular? ==> |Select(run.stored, run.joins)| <= 1)
          && (!catalog.relations[target.relation].nullable ==> |Select(run.stored, run.joins)| >= 1))
  }

  function Matching(catalog: Catalog, syntax: SelectionSyntax, target: SelectionTarget,
                    refinements: seq<InputRefinement>, run: Execution): Row -> bool
    requires target.Table? || target.RelationTo?
  {
    (row: Row) =>
      && run.joins(row)
      && (syntax.predicate_.Some? ==> Passes(catalog, target.table, refinements, run.env, syntax.predicate_.value, row))
      && (run.policy.Some? ==> run.policy.value(row))
  }

  function Window(rows: seq<Row>, offset: nat, limit: Option<nat>): seq<Row> {
    var rest := if offset <= |rows| then rows[offset..] else [];
    if limit.Some? && limit.value < |rest| then rest[..limit.value] else rest
  }

  function ResultRows(catalog: Catalog, syntax: SelectionSyntax, target: SelectionTarget,
                      refinements: seq<InputRefinement>, run: Execution): seq<Row>
    requires target.Table? || target.RelationTo?
  {
    Window(Select(run.stored, Matching(catalog, syntax, target, refinements, run)), run.offset, run.limit)
  }

  lemma {:induction false} SelectNarrows(rows: seq<Row>, keep: Row -> bool, wider: Row -> bool)
    requires forall row: Row :: keep(row) ==> wider(row)
    ensures |Select(rows, keep)| <= |Select(rows, wider)|
  {
    if rows != [] {
      SelectNarrows(rows[..|rows| - 1], keep, wider);
    }
  }

  lemma {:induction false} SelectSame(rows: seq<Row>, keep: Row -> bool, other: Row -> bool)
    requires forall row: Row :: keep(row) <==> other(row)
    ensures Select(rows, keep) == Select(rows, other)
  {
    if rows != [] {
      SelectSame(rows[..|rows| - 1], keep, other);
    }
  }

  /** Two selected rows come from two different positions. */
  lemma {:induction false} SelectedTwice(rows: seq<Row>, keep: Row -> bool)
    requires |Select(rows, keep)| >= 2
    ensures exists i, j :: 0 <= i < j < |rows| && keep(rows[i]) && keep(rows[j])
  {
    var n := |rows| - 1;
    if keep(rows[n]) {
      SelectedOnce(rows[..n], keep);
      var i :| 0 <= i < n && keep(rows[..n][i]);
      assert keep(rows[i]) && keep(rows[n]);
    } else {
      SelectedTwice(rows[..n], keep);
      var i, j :| 0 <= i < j < n && keep(rows[..n][i]) && keep(rows[..n][j]);
      assert keep(rows[i]) && keep(rows[j]);
    }
  }

  lemma {:induction false} SelectedOnce(rows: seq<Row>, keep: Row -> bool)
    requires |Select(rows, keep)| >= 1
    ensures exists i :: 0 <= i < |rows| && keep(rows[i])
  {
    var n := |rows| - 1;
    if keep(rows[n]) {
      assert keep(rows[n]);
    } else {
      SelectedOnce(rows[..n], keep);
      var i :| 0 <= i < n && keep(rows[..n][i]);
      assert keep(rows[i]);
    }
  }

  /** A selection shaped at-most-one yields at most one row per parent in every execution. */
  lemma AtMostOneRow(catalog: Catalog, syntax: SelectionSyntax, context: Option<TableId>, target: SelectionTarget,
                     refinements: seq<InputRefinement>, run: Execution)
    requires ResolveShape(catalog, syntax, context, target, refinements).Some?
    requires ResolveShape(catalog, syntax, context, target, refinements).value.cardinality.AtMostOne?
    requires Follows(catalog, syntax, context, target, run)
    ensures |ResultRows(catalog, syntax, target, refinements, run)| <= 1
  {
    var keep := Matching(catalog, syntax, target, refinements, run);
    match ResolveShape(catalog, syntax, context, target, refinements).value.proof.value
    case ByRelation =>
      SelectNarrows(run.stored, keep, run.joins);
    case ByUniqueKey(key) =>
      if |Select(run.stored, keep)| >= 2 {
        SelectedTwice(run.stored, keep);
        var i, j :| 0 <= i < j < |run.stored| && keep(run.stored[i]) && keep(run.stored[j]);
        UniqueKeyPinsOneRow(catalog, target.table, refinements, run.env, syntax.predicate_.value, run.stored, i, j);
      }
    case ByLimitOne =>
  }

  /** One whose result is also reported non-nullable yields exactly one row. */
  lemma ExactlyOneRow(catalog: Catalog, syntax: SelectionSyntax, context: Option<TableId>, target: SelectionTarget,
                      refinements: seq<InputRefinement>, run: Execution)
    requires ResolveShape(catalog, syntax, context, target, refinements).Some?
    requires ResolveShape(catalog, syntax, context, target, refinements).value.cardinality.AtMostOne?
    requires !ResultNullable(ResolveShape(catalog, syntax, context, target, refinements).value, run.policy.Some?)
    requires Follows(catalog, syntax, context, target, run)
    ensures |ResultRows(catalog, syntax, target, refinements, run)| == 1
  {
    AtMostOneRow(catalog, syntax, context, target, refinements, run);
    SelectSame(run.stored, Matching(catalog, syntax, target, refinements, run), run.joins);
  }
}
