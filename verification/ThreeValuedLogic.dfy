/** SQL's three-valued logic, with the absence of a pruned predicate as a fourth outcome. */
module ThreeValuedLogic {

  datatype Truth = True | False | Unknown

  /** A predicate's value, or the absence of the predicate. */
  datatype Outcome = Absent | Is(truth: Truth)

  function And3(a: Truth, b: Truth): Truth {
    if a.False? || b.False? then False else if a.True? && b.True? then True else Unknown
  }

  function Or3(a: Truth, b: Truth): Truth {
    if a.True? || b.True? then True else if a.False? && b.False? then False else Unknown
  }

  function Not3(a: Truth): Truth {
    match a case True => False case False => True case Unknown => Unknown
  }

  function SqlAnd(a: Outcome, b: Outcome): Outcome {
    if a.Absent? then b else if b.Absent? then a else Is(And3(a.truth, b.truth))
  }

  function SqlOr(a: Outcome, b: Outcome): Outcome {
    if a.Absent? then b else if b.Absent? then a else Is(Or3(a.truth, b.truth))
  }

  function SqlNot(a: Outcome): Outcome {
    if a.Absent? then Absent else Is(Not3(a.truth))
  }
}
