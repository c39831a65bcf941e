/**
  Callsite rewriting: byte ranges are replaced in place from the last to the
  first, and one block of imports with fresh local names is inserted.
 */
module Rewrite {
  import opened Decimals
  import opened KeyOrder
  import opened Sorting
  import opened TextSearch
  import opened Wrappers

  /* ---- splices ---- */

  type Byte = bv8

  datatype Splice = Splice(start: nat, end: nat, text: seq<Byte>)

  /** Ranges in source order, none empty of progress: each ends before the next one starts. */
  predicate InOrder(splices: seq<Splice>) {
    && (forall i :: 0 <= i < |splices| ==> splices[i].start <= splices[i].end)
    && forall i, j :: 0 <= i < j < |splices| ==>
         splices[i].end <= splices[j].start && splices[i].start < splices[j].start
  }

  /** All ranges replaced at once, reading only the original bytes from `from` on. */
  function Replaced(bytes: seq<Byte>, from: nat, splices: seq<Splice>): seq<Byte>
    requires InOrder(splices) && from <= |bytes|
    requires splices != [] ==> from <= splices[0].start && splices[|splices| - 1].end <= |bytes|
    decreases |splices|
  {
    if splices == [] then bytes[from..]
    else
      var first := splices[0];
      assert first.end <= splices[|splices| - 1].end;
      bytes[from..first.start] + first.text + Replaced(bytes, first.end, splices[1..])
  }

  function Spliced(bytes: seq<Byte>, splice: Splice): seq<Byte>
    requires splice.start <= splice.end <= |bytes|
  {
    bytes[..splice.start] + splice.text + bytes[splice.end..]
  }

  lemma SliceSplits<T>(s: seq<T>, i: nat, j: nat, k: nat)
    requires i <= j <= k <= |s|
    ensures s[i..k] == s[i..j] + s[j..k]
  {
  }

  lemma Reassociated<T>(a: seq<T>, b: seq<T>, c: seq<T>, d: seq<T>)
    ensures a + b + c + d == a + (b + c + d)
  {
  }

  lemma ReplacedFrom(bytes: seq<Byte>, from: nat, to: nat, splices: seq<Splice>)
    requires InOrder(splices) && from <= to <= |bytes|
    requires splices != [] ==> to <= splices[0].start && splices[|splices| - 1].end <= |bytes|
    ensures Replaced(bytes, from, splices) == bytes[from..to] + Replaced(bytes, to, splices)
  {
    if splices == [] {
      SliceSplits(bytes, from, to, |bytes|);
    } else {
      var first := splices[0];
      assert first.end <= splices[|splices| - 1].end;
      SliceSplits(bytes, from, to, first.start);
      Reassociated(bytes[from..to], bytes[to..first.start], first.text, Replaced(bytes, first.end, splices[1..]));
    }
  }

  /** Splicing one range in front of those already replaced is replacing it together with them. */
  lemma SpliceReplaces(bytes: seq<Byte>, splices: seq<Splice>)
    requires InOrder(splices) && splices != [] && splices[|splices| - 1].end <= |bytes|
    ensures InOrder(splices[1..])
    ensures var sofar := Replaced(bytes, 0, splices[1..]);
            splices[0].end <= |sofar| && Spliced(sofar, splices[0]) == Replaced(bytes, 0, splices)
  {
    var first, rest := splices[0], splices[1..];
    assert first.end <= splices[|splices| - 1].end;
    assert rest != [] ==> rest[|rest| - 1] == splices[|splices| - 1] && first.end <= rest[0].start;
    ReplacedFrom(bytes, 0, first.end, rest);
    var sofar := Replaced(bytes, 0, rest);
    assert sofar[first.end..] == Replaced(bytes, first.end, rest);
    assert sofar[..first.start] == bytes[0..first.start];
  }

  function Reversed<T>(s: seq<T>): (r: seq<T>)
    ensures |r| == |s|
  {
    if s == [] then [] else Reversed(s[1..]) + [s[0]]
  }

  lemma {:induction false} ReversedAt<T>(s: seq<T>, i: nat)
    requires i < |s|
    ensures Reversed(s)[|s| - 1 - i] == s[i]
  {
    if i > 0 {
      ReversedAt(s[1..], i - 1);
    }
  }

  /** The ranges by ascending start. */
  function InSourceOrder(splices: seq<Splice>): seq<Splice> {
    Reversed(Sort(splices, (a: Splice, b: Splice) => a.start > b.start))
  }

  predicate Descending(splices: seq<Splice>) {
    forall i, j :: 0 <= i < j < |splices| ==> splices[i].start >= splices[j].start
  }

  lemma {:induction false} InsertDescends(x: Splice, sorted: seq<Splice>)
    requires Descending(sorted)
    ensures Descending(Insert(x, sorted, (a: Splice, b: Splice) => a.start > b.start))
  {
    var before := (a: Splice, b: Splice) => a.start > b.start;
    if sorted != [] && before(sorted[0], x) {
      InsertDescends(x, sorted[1..]);
      InsertKeeps(x, sorted[1..], before);
      var rest := Insert(x, sorted[1..], before);
      forall s | s in rest ensures sorted[0].start >= s.start {
        assert s in multiset(rest);
        assert s in sorted[1..] || s == x;
      }
    }
  }

  lemma {:induction false} SortDescends(splices: seq<Splice>)
    ensures Descending(Sort(splices, (a: Splice, b: Splice) => a.start > b.start))
  {
    if splices != [] {
      SortDescends(splices[1..]);
      InsertDescends(splices[0], Sort(splices[1..], (a: Splice, b: Splice) => a.start > b.start));
    }
  }

  lemma {:induction false} ReversedKeeps<T>(s: seq<T>)
    ensures multiset(Reversed(s)) == multiset(s)
  {
    if s != [] {
      ReversedKeeps(s[1..]);
      assert s == [s[0]] + s[1..];
    }
  }

  lemma TailCounts<T>(s: seq<T>)
    requires s != []
    ensures multiset(s[1..]) == multiset(s) - multiset{s[0]}
  {
    assert s == [s[0]] + s[1..];
  }

  lemma SameFirst(a: seq<Splice>, b: seq<Splice>)
    requires multiset(a) == multiset(b) && InOrder(a) && a != [] && b != []
    requires forall i, j :: 0 <= i < j < |b| ==> b[i].start <= b[j].start
    ensures a[0] == b[0]
  {
    assert b[0] in multiset(a) && a[0] in multiset(b);
    var k :| 0 <= k < |a| && a[k] == b[0];
    var m :| 0 <= m < |b| && b[m] == a[0];
  }

  lemma SameLength<T>(a: seq<T>, b: seq<T>)
    requires multiset(a) == multiset(b)
    ensures |a| == |b|
  {
    assert |multiset(a)| == |a| && |multiset(b)| == |b|;
  }

  lemma {:induction false} OneAscendingOrder(a: seq<Splice>, b: seq<Splice>)
    requires multiset(a) == multiset(b) && InOrder(a)
    requires forall i, j :: 0 <= i < j < |b| ==> b[i].start <= b[j].start
    ensures a == b
  {
    SameLength(a, b);
    if a != [] {
      SameFirst(a, b);
      TailCounts(a);
      TailCounts(b);
      OneAscendingOrder(a[1..], b[1..]);
      assert a == [a[0]] + a[1..] && b == [b[0]] + b[1..];
    }
  }

  /** However the ranges are listed, ranges that do not overlap are brought into source order. */
  lemma SourceOrderFound(splices: seq<Splice>, ordered: seq<Splice>)
    requires InOrder(ordered) && multiset(ordered) == multiset(splices)
    ensures InSourceOrder(splices) == ordered
  {
    var before := (a: Splice, b: Splice) => a.start > b.start;
    var sorted := Sort(splices, before);
    SortKeeps(splices, before);
    SortDescends(splices);
    ReversedKeeps(sorted);
    var ascending := Reversed(sorted);
    forall i, j | 0 <= i < j < |ascending| ensures ascending[i].start <= ascending[j].start {
      ReversedAt(sorted, |sorted| - 1 - i);
      ReversedAt(sorted, |sorted| - 1 - j);
    }
    OneAscendingOrder(ordered, ascending);
  }

  /** The ranges from the `j`-th on have been replaced, and reach no further than the original bytes. */
  ghost predicate Replacing(original: seq<Byte>, ordered: seq<Splice>, j: nat, bytes: seq<Byte>) {
    && j <= |ordered| && InOrder(ordered[j..]) && (j < |ordered| ==> ordered[|ordered| - 1].end <= |original|)
    && bytes == Replaced(original, 0, ordered[j..])
  }

  lemma ReplacingStep(original: seq<Byte>, ordered: seq<Splice>, j: nat, bytes: seq<Byte>)
    requires InOrder(ordered) && 0 < j && Replacing(original, ordered, j, bytes)
    ensures var splice := ordered[j - 1];
            && splice.start <= splice.end
            && (splice.end > |bytes| <==> ordered[|ordered| - 1].end > |original|)
            && (splice.end <= |bytes| ==> Replacing(original, ordered, j - 1, Spliced(bytes, splice)))
  {
    var splice, longer := ordered[j - 1], ordered[j - 1..];
    assert longer[1..] == ordered[j..] && longer[|longer| - 1] == ordered[|ordered| - 1];
    assert InOrder(longer);
    if j == |ordered| {
      assert bytes == original;
    }
    if ordered[|ordered| - 1].end <= |original| {
      SpliceReplaces(original, longer);
    }
  }

  /** Ranges from the last to the first, each spliced into the bytes as they then are. */
  method SpliceAll(original: seq<Byte>, splices: seq<Splice>) returns (r: Option<seq<Byte>>)
    ensures var ordered := InSourceOrder(splices);
            InOrder(ordered) ==>
              if ordered != [] && ordered[|ordered| - 1].end > |original| then r.None?
              else r == Some(Replaced(original, 0, ordered))
  {
    var descending := Sort(splices, (a: Splice, b: Splice) => a.start > b.start);
    ghost var ordered := Reversed(descending);
    ghost var j := |ordered|;
    var bytes := original;
    assert ordered[j..] == [] && original[0..] == original;
    for i := 0 to |descending|
      invariant j == |ordered| - i && (InOrder(ordered) ==> Replacing(original, ordered, j, bytes))
    {
      var splice := descending[i];
      ReversedAt(descending, i);
      if InOrder(ordered) {
        ReplacingStep(original, ordered, j, bytes);
      }
      if splice.end > |bytes| || splice.start > splice.end {
        return None;
      }
      bytes := Spliced(bytes, splice);
      j := j - 1;
    }
    assert ordered[0..] == ordered;
    return Some(bytes);
  }

  /* ---- local names ---- */

  datatype RenderModule = RenderModule(path: string, symbol: string)

  type LocalNames = map<RenderModule, string>

  function Candidate(symbol: string, counter: nat): string {
    "__dsql_" + symbol + if counter == 0 then "" else "_" + Decimal(counter)
  }

  lemma CandidatesDiffer(symbol: string, m: nat, n: nat)
    requires m != n
    ensures Candidate(symbol, m) != Candidate(symbol, n)
  {
    var prefix := "__dsql_" + symbol;
    if Candidate(symbol, m) == Candidate(symbol, n) {
      assert Candidate(symbol, m)[|prefix|..] == (if m == 0 then "" else "_" + Decimal(m));
      assert Candidate(symbol, n)[|prefix|..] == (if n == 0 then "" else "_" + Decimal(n));
      if m > 0 && n > 0 {
        assert ("_" + Decimal(m))[1..] == Decimal(m) && ("_" + Decimal(n))[1..] == Decimal(n);
        DecimalInjective(m, n);
      }
    }
  }

  /** Chosen names do not occur in the source and are pairwise distinct. */
  ghost predicate NamesFresh(code: string, names: LocalNames) {
    && (forall m :: m in names ==> !Occurs(code, names[m]))
    && forall m, n :: m in names && n in names && m != n ==> names[m] != names[n]
  }

  /** The first candidate that is neither in the source nor taken; a source has only so many substrings. */
  method FreshName(code: string, names: LocalNames, symbol: string) returns (name: string, ghost counter: nat)
    ensures name == Candidate(symbol, counter) && !Occurs(code, name) && name !in names.Values
    ensures forall k :: 0 <= k < counter ==> Occurs(code, Candidate(symbol, k)) || Candidate(symbol, k) in names.Values
  {
    var n := 0;
    name := Candidate(symbol, 0);
    ghost var untried := Substrings(code) + names.Values;
    while Occurs(code, name) || name in names.Values
      invariant name == Candidate(symbol, n)
      invariant forall k :: 0 <= k < n ==> Occurs(code, Candidate(symbol, k)) || Candidate(symbol, k) in names.Values
      invariant forall k: nat ::
                  n <= k && (Occurs(code, Candidate(symbol, k)) || Candidate(symbol, k) in names.Values) ==>
                      Candidate(symbol, k) in untried
      decreases untried
    {
      forall k: nat | n + 1 <= k ensures Candidate(symbol, k) != name {
        CandidatesDiffer(symbol, k, n);
      }
      untried := untried - {name};
      n := n + 1;
      name := Candidate(symbol, n);
    }
    counter := n;
  }

  class Rewriter {
    const code: string
    var localNames: LocalNames

    constructor (code: string)
      ensures this.code == code && localNames == map[]
    {
      this.code, localNames := code, map[];
    }

    /** The local name of a module, chosen once. */
    method LocalFor(module_: RenderModule) returns (name: string)
      requires NamesFresh(code, localNames)
      modifies `localNames
      ensures NamesFresh(code, localNames) && localNames.Keys == old(localNames).Keys + {module_}
              && name == localNames[module_]
      ensures forall m :: m in old(localNames) ==> localNames[m] == old(localNames)[m]
    {
      if module_ in localNames {
        return localNames[module_];
      }
      ghost var counter;
      name, counter := FreshName(code, localNames, module_.symbol);
      localNames := localNames[module_ := name];
    }

    /** A splice for every expression, and the modules they use, each once. */
    method CollectSplices(host: Host, expressions: seq<Expression>)
      returns (r: Option<seq<Splice>>, used: seq<RenderModule>)
      requires NamesFresh(code, localNames) && localNames == map[]
      modifies `localNames
      ensures NamesFresh(code, localNames)
      ensures r.None? <==> exists i :: 0 <= i < |expressions| && expressions[i].target !in host.modules
      ensures r.Some? ==>
                AllNamed(host, expressions, localNames) && r.value == SplicesFor(host, expressions, localNames)
      ensures r.Some? ==> UsedOnce(host, expressions, used) && forall m :: m in used ==> m in localNames
    {
      var splices: seq<Splice> := [];
      used := [];
      for i := 0 to |expressions|
        invariant NamesFresh(code, localNames) && AllNamed(host, expressions[..i], localNames)
        invariant splices == SplicesFor(host, expressions[..i], localNames)
        invariant UsedOnce(host, expressions[..i], used) && forall m :: m in used <==> m in localNames
      {
        var expression := expressions[i];
        if expression.target !in host.modules {
          return None, [];
        }
        var module_ := host.modules[expression.target];
        ghost var before := localNames;
        UsedNext(host, expressions[..i], expression, used);
        if module_ !in localNames {
          used := used + [module_];
        }
        var name := LocalFor(module_);
        SplicesKept(host, expressions[..i], before, localNames);
        SplicesNext(host, expressions[..i], expression, localNames);
        OneMore(expressions, i);
        splices := splices + [Splice(expression.start, expression.end, host.utf8(name))];
      }
      assert expressions[..|expressions|] == expressions;
      return Some(splices), used;
    }

    /**
      Every expression replaced by its module's local name and one import of
      each used module at the insertion point.  Ranges in source order, the
      first at or after that point, come out as if all were replaced at once.
     */
    method Rewrite(host: Host, expressions: seq<Expression>)
      returns (r: Result<seq<Byte>, Error>, used: seq<RenderModule>)
      requires localNames == map[] && host.insertAt <= |host.utf8(code)|
      modifies `localNames
      ensures NamesFresh(code, localNames)
      ensures r == Err(UnsupportedResolver) <==> host.resolver != "typescript"
      ensures host.resolver == "typescript" ==>
                (r == Err(NoModule) <==> exists i :: 0 <= i < |expressions| && expressions[i].target !in host.modules)
      ensures r.Ok? ==>
                && UsedOnce(host, expressions, used) && AllNamed(host, expressions, localNames)
                && forall m :: m in used ==> m in localNames
      ensures r.Ok? && expressions == [] ==> r.value == host.utf8(code)
      ensures r.Ok? && expressions != [] ==>
                var ordered := InSourceOrder(SplicesFor(host, expressions, localNames));
                ordered != [] && (InOrder(ordered) && host.insertAt <= ordered[0].start ==>
                  && ordered[|ordered| - 1].end <= |host.utf8(code)|
                  && r.value ==
                       host.utf8(code)[..host.insertAt] + host.utf8(ImportBlock(host, used, localNames))
                           + Replaced(host.utf8(code), host.insertAt, ordered))
      ensures r == Err(RangeExceeds) ==>
                AllNamed(host, expressions, localNames) &&
                var ordered := InSourceOrder(SplicesFor(host, expressions, localNames));
                InOrder(ordered) ==> ordered != [] && ordered[|ordered| - 1].end > |host.utf8(code)|
    {
      used := [];
      if host.resolver != "typescript" {
        return Err(UnsupportedResolver), [];
      }
      var original := host.utf8(code);
      var splices;
      splices, used := CollectSplices(host, expressions);
      if splices.None? {
        return Err(NoModule), [];
      }
      if splices.value == [] {
        return Ok(original), used;
      }
      var bytes := SpliceAll(original, splices.value);
      ghost var ordered := InSourceOrder(splices.value);
      OrderKeepsCount(splices.value);
      if bytes.None? {
        return Err(RangeExceeds), used;
      }
      var imports := host.utf8(ImportBlock(host, used, localNames));
      if InOrder(ordered) && host.insertAt <= ordered[0].start {
        ReplacedFrom(original, 0, host.insertAt, ordered);
        assert bytes.value[..host.insertAt] == original[..host.insertAt];
        assert bytes.value[host.insertAt..] == Replaced(original, host.insertAt, ordered);
      }
      return Ok(Taken(bytes.value, host.insertAt) + imports + Dropped(bytes.value, host.insertAt)), used;
    }
  }

  datatype Expression = Expression(start: nat, end: nat, target: string)

  datatype Error = UnsupportedResolver | NoModule | RangeExceeds

  /**
    What this model does not look into: the resolver's name, render mappings, encoding,
    specifiers, and where imports belong.
   */
  datatype Host = Host(
    resolver: string,
    modules: map<string, RenderModule>,
    utf8: string -> seq<Byte>,
    specifier: RenderModule -> string,
    insertAt: nat)

  predicate AllNamed(host: Host, expressions: seq<Expression>, names: LocalNames) {
    forall i :: 0 <= i < |expressions| ==>
        expressions[i].target in host.modules && host.modules[expressions[i].target] in names
  }

  function SplicesFor(host: Host, expressions: seq<Expression>, names: LocalNames): (splices: seq<Splice>)
    requires AllNamed(host, expressions, names)
    ensures |splices| == |expressions|
  {
    if expressions == [] then []
    else
      var n := |expressions| - 1;
      var e := expressions[n];
      SplicesFor(host, expressions[..n], names) + [Splice(e.start, e.end, host.utf8(names[host.modules[e.target]]))]
  }

  lemma {:induction false} SplicesKept(host: Host, expressions: seq<Expression>, names: LocalNames, more: LocalNames)
    requires AllNamed(host, expressions, names) && forall m :: m in names ==> m in more && more[m] == names[m]
    ensures AllNamed(host, expressions, more)
            && SplicesFor(host, expressions, more) == SplicesFor(host, expressions, names)
  {
    if expressions != [] {
      SplicesKept(host, expressions[..|expressions| - 1], names, more);
    }
  }

  /** The modules that the expressions use, each listed once. */
  ghost predicate UsedOnce(host: Host, expressions: seq<Expression>, used: seq<RenderModule>) {
    && (forall i, j :: 0 <= i < j < |used| ==> used[i] != used[j])
    && (forall m :: m in used <==>
        exists i ::
            0 <= i < |expressions| && expressions[i].target in host.modules && host.modules[expressions[i].target] == m)
  }

  lemma OneMore<T>(s: seq<T>, i: nat)
    requires i < |s|
    ensures s[..i + 1] == s[..i] + [s[i]]
  {
  }

  lemma SplicesNext(host: Host, expressions: seq<Expression>, e: Expression, names: LocalNames)
    requires AllNamed(host, expressions, names) && e.target in host.modules && host.modules[e.target] in names
    ensures AllNamed(host, expressions + [e], names)
    ensures SplicesFor(host, expressions + [e], names) ==
            SplicesFor(host, expressions, names) + [Splice(e.start, e.end, host.utf8(names[host.modules[e.target]]))]
  {
    assert (expressions + [e])[..|expressions|] == expressions;
  }

  lemma UsedNext(host: Host, expressions: seq<Expression>, e: Expression, used: seq<RenderModule>)
    requires UsedOnce(host, expressions, used) && e.target in host.modules
    ensures var m := host.modules[e.target];
            UsedOnce(host, expressions + [e], if m in used then used else used + [m])
  {
    var m, longer := host.modules[e.target], expressions + [e];
    assert longer[|expressions|] == e;
    forall u
      ensures (u in used || u == m) <==>
              exists i :: 0 <= i < |longer| && longer[i].target in host.modules && host.modules[longer[i].target] == u
    {
      if u in used {
        var i :| 0 <= i < |expressions| && expressions[i].target in host.modules
            && host.modules[expressions[i].target] == u;
        assert longer[i] == expressions[i];
      }
    }
  }

  function ImportLine(host: Host, module_: RenderModule, name: string): string {
    "import { " + (if name == module_.symbol then name else module_.symbol + " as " + name) + " } from "
        + host.specifier(module_) + ";\n"
  }

  function ImportLines(host: Host, used: seq<RenderModule>, names: LocalNames): seq<string>
    requires forall m :: m in used ==> m in names
  {
    if used == [] then []
    else ImportLines(host, used[..|used| - 1], names) + [ImportLine(host, used[|used| - 1], names[used[|used| - 1]])]
  }

  function Concatenated(texts: seq<string>): string {
    if texts == [] then "" else texts[0] + Concatenated(texts[1..])
  }

  function ImportBlock(host: Host, used: seq<RenderModule>, names: LocalNames): string
    requires forall m :: m in used ==> m in names
  {
    Concatenated(Sort(ImportLines(host, used, names), (a: string, b: string) => Before(JavaScript, a, b)))
  }

  function Taken(bytes: seq<Byte>, n: nat): seq<Byte> {
    if n <= |bytes| then bytes[..n] else bytes
  }

  function Dropped(bytes: seq<Byte>, n: nat): seq<Byte> {
    if n <= |bytes| then bytes[n..] else []
  }

  lemma OrderKeepsCount(splices: seq<Splice>)
    ensures |InSourceOrder(splices)| == |splices|
  {
    var before := (a: Splice, b: Splice) => a.start > b.start;
    SortKeeps(splices, before);
    assert |Sort(splices, before)| == |multiset(Sort(splices, before))| == |multiset(splices)|;
  }
}
