/**
  The two key orders of the dynamic-input renderers: the native one compares
  UTF-8 bytes, which is code-point order, and the JavaScript one compares UTF-16
  code units.  Both are total, so sorting a key set is a function of the set.
 */
module KeyOrder {

  datatype Dialect = Native | JavaScript

  function CodePoints(s: string): seq<int> {
    seq(|s|, i requires 0 <= i < |s| => s[i] as int)
  }

  function Utf16Units(c: char): seq<int> {
    if c as int < 0x1_0000 then [c as int]
    else [0xD800 + (c as int - 0x1_0000) / 0x400, 0xDC00 + (c as int - 0x1_0000) % 0x400]
  }

  function Utf16(s: string): seq<int> {
    if s == "" then [] else Utf16Units(s[0]) + Utf16(s[1..])
  }

  function Rank(dialect: Dialect, s: string): seq<int> {
    match dialect case Native => CodePoints(s) case JavaScript => Utf16(s)
  }

  /** Lexicographic order, a prefix first. */
  predicate Leq(a: seq<int>, b: seq<int>) {
    a == [] || (b != [] && (a[0] < b[0] || (a[0] == b[0] && Leq(a[1..], b[1..]))))
  }

  predicate Before(dialect: Dialect, a: string, b: string) {
    Leq(Rank(dialect, a), Rank(dialect, b)) && a != b
  }

  lemma {:induction false} LeqTotal(a: seq<int>, b: seq<int>)
    ensures Leq(a, b) || Leq(b, a)
  {
    if a != [] && b != [] && a[0] == b[0] {
      LeqTotal(a[1..], b[1..]);
    }
  }

  lemma {:induction false} LeqAntisymmetric(a: seq<int>, b: seq<int>)
    requires Leq(a, b) && Leq(b, a)
    ensures a == b
  {
    if a != [] {
      LeqAntisymmetric(a[1..], b[1..]);
      assert a == [a[0]] + a[1..] && b == [b[0]] + b[1..];
    }
  }

  lemma {:induction false} LeqTransitive(a: seq<int>, b: seq<int>, c: seq<int>)
    requires Leq(a, b) && Leq(b, c)
    ensures Leq(a, c)
  {
    if a != [] && a[0] == b[0] && b[0] == c[0] {
      LeqTransitive(a[1..], b[1..], c[1..]);
    }
  }

  lemma Utf16UnitsInjective(c: char, d: char, rest: seq<int>, rest': seq<int>)
    requires Utf16Units(c) + rest == Utf16Units(d) + rest'
    ensures c == d && rest == rest'
  {
    var left, right := Utf16Units(c) + rest, Utf16Units(d) + rest';
    assert left[0] == right[0];
    if c as int >= 0x1_0000 && d as int >= 0x1_0000 {
      assert left[1] == right[1];
      assert rest == left[2..] && rest' == right[2..];
    } else {
      assert rest == left[1..] && rest' == right[1..];
    }
  }

  lemma {:induction false} Utf16Injective(a: string, b: string)
    requires Utf16(a) == Utf16(b)
    ensures a == b
  {
    if a != "" && b != "" {
      Utf16UnitsInjective(a[0], b[0], Utf16(a[1..]), Utf16(b[1..]));
      Utf16Injective(a[1..], b[1..]);
      assert a == [a[0]] + a[1..] && b == [b[0]] + b[1..];
    }
  }

  lemma RankInjective(dialect: Dialect, a: string, b: string)
    requires Rank(dialect, a) == Rank(dialect, b)
    ensures a == b
  {
    match dialect
    case Native =>
      forall i | 0 <= i < |a| ensures a[i] == b[i] {
        assert CodePoints(a)[i] == CodePoints(b)[i];
      }
    case JavaScript => Utf16Injective(a, b);
  }

  predicate IsLeast(dialect: Dialect, keys: set<string>, key: string) {
    key in keys && forall other :: other in keys ==> Leq(Rank(dialect, key), Rank(dialect, other))
  }

  lemma LeastExists(dialect: Dialect, keys: set<string>)
    requires keys != {}
    ensures exists key :: IsLeast(dialect, keys, key)
  {
    var key :| key in keys;
    LeqTotal(Rank(dialect, key), Rank(dialect, key));
    if keys == {key} {
      assert IsLeast(dialect, keys, key);
    } else {
      var rest := keys - {key};
      LeastExists(dialect, rest);
      var least :| IsLeast(dialect, rest, least);
      LeqTotal(Rank(dialect, key), Rank(dialect, least));
      if Leq(Rank(dialect, least), Rank(dialect, key)) {
        assert IsLeast(dialect, keys, least);
      } else {
        forall other | other in keys ensures Leq(Rank(dialect, key), Rank(dialect, other)) {
          if other != key {
            LeqTransitive(Rank(dialect, key), Rank(dialect, least), Rank(dialect, other));
          }
        }
        assert IsLeast(dialect, keys, key);
      }
    }
  }

  lemma LeastUnique(dialect: Dialect, keys: set<string>, a: string, b: string)
    requires IsLeast(dialect, keys, a) && IsLeast(dialect, keys, b)
    ensures a == b
  {
    LeqAntisymmetric(Rank(dialect, a), Rank(dialect, b));
    RankInjective(dialect, a, b);
  }

  function Least(dialect: Dialect, keys: set<string>): (key: string)
    requires keys != {}
    ensures IsLeast(dialect, keys, key)
  {
    LeastExists(dialect, keys);
    assert forall a, b :: IsLeast(dialect, keys, a) && IsLeast(dialect, keys, b) ==> a == b by {
      forall a, b | IsLeast(dialect, keys, a) && IsLeast(dialect, keys, b) ensures a == b {
        LeastUnique(dialect, keys, a, b);
      }
    }
    var key :| key in keys && IsLeast(dialect, keys, key);
    key
  }

  /** The keys in ascending order. */
  function Sorted(dialect: Dialect, keys: set<string>): (sorted: seq<string>)
    ensures forall key :: key in sorted <==> key in keys
    ensures forall i, j :: 0 <= i < j < |sorted| ==> Before(dialect, sorted[i], sorted[j])
    decreases keys
  {
    if keys == {} then []
    else
      var key := Least(dialect, keys);
      [key] + Sorted(dialect, keys - {key})
  }

  /** Keys inside the basic multilingual plane; ASCII keys are. */
  predicate Basic(key: string) {
    forall i :: 0 <= i < |key| ==> key[i] as int < 0x1_0000
  }

  predicate Astral(c: char) {
    c as int >= 0x1_0000
  }

  /** Above the surrogates, but within the basic plane. */
  predicate High(c: char) {
    0xE000 <= c as int < 0x1_0000
  }

  /** At their first difference one key goes beyond the basic plane and the other one is high in it. */
  predicate Crossing(a: string, b: string) {
    a != "" && b != "" &&
    if a[0] == b[0] then Crossing(a[1..], b[1..]) else (Astral(a[0]) && High(b[0])) || (High(a[0]) && Astral(b[0]))
  }

  lemma UnitsOrder(c: char, d: char, x: seq<int>, y: seq<int>)
    ensures c == d ==> (Leq(Utf16Units(c) + x, Utf16Units(d) + y) <==> Leq(x, y))
    ensures c != d ==>
      (Leq(Utf16Units(c) + x, Utf16Units(d) + y) <==>
       if Astral(c) && High(d) then true else if High(c) && Astral(d) then false else c < d)
  {
    var left, right := Utf16Units(c) + x, Utf16Units(d) + y;
    assert left[0] == Utf16Units(c)[0] && right[0] == Utf16Units(d)[0];
    if Astral(c) && Astral(d) {
      assert left[1..][0] == Utf16Units(c)[1] && right[1..][0] == Utf16Units(d)[1];
      assert left[1..][1..] == x && right[1..][1..] == y;
    } else if !Astral(c) && !Astral(d) {
      assert left[1..] == x && right[1..] == y;
    }
  }

  /** The native and the JavaScript order agree on two keys exactly when the keys are not crossing. */
  lemma {:induction false} OrdersAgree(a: string, b: string)
    ensures (Leq(CodePoints(a), CodePoints(b)) <==> Leq(Utf16(a), Utf16(b))) <==> !Crossing(a, b)
    ensures (Before(Native, a, b) <==> Before(JavaScript, a, b)) <==> !Crossing(a, b)
  {
    if a != "" && b != "" {
      OrdersAgree(a[1..], b[1..]);
      UnitsOrder(a[0], b[0], Utf16(a[1..]), Utf16(b[1..]));
      assert CodePoints(a)[1..] == CodePoints(a[1..]) && CodePoints(b)[1..] == CodePoints(b[1..]);
      assert a == [a[0]] + a[1..] && b == [b[0]] + b[1..];
    } else {
      assert Utf16(a) == [] <==> a == "";
      assert Utf16(b) == [] <==> b == "";
    }
    if Crossing(a, b) {
      CrossingDiffer(a, b);
    }
  }

  lemma {:induction false} CrossingDiffer(a: string, b: string)
    requires Crossing(a, b)
    ensures a != b
  {
    if a[0] == b[0] {
      CrossingDiffer(a[1..], b[1..]);
    }
  }

  predicate Uncrossed(keys: set<string>) {
    forall a, b :: a in keys && b in keys ==> !Crossing(a, b)
  }

  lemma {:induction false} UncrossedSortAlike(keys: set<string>)
    requires Uncrossed(keys)
    ensures Sorted(Native, keys) == Sorted(JavaScript, keys)
    decreases keys
  {
    if keys != {} {
      var native, script := Least(Native, keys), Least(JavaScript, keys);
      forall other | other in keys ensures Leq(Rank(JavaScript, native), Rank(JavaScript, other)) {
        OrdersAgree(native, other);
      }
      assert IsLeast(JavaScript, keys, native);
      LeastUnique(JavaScript, keys, native, script);
      UncrossedSortAlike(keys - {native});
    }
  }

  lemma SortedAlikeUncrossed(keys: set<string>, a: string, b: string)
    requires Sorted(Native, keys) == Sorted(JavaScript, keys) && a in keys && b in keys
    ensures !Crossing(a, b)
  {
    var native, script := Sorted(Native, keys), Sorted(JavaScript, keys);
    assert a in native && b in native;
    var i :| 0 <= i < |native| && native[i] == a;
    var j :| 0 <= j < |native| && native[j] == b;
    if i < j {
      assert Before(Native, native[i], native[j]) && Before(JavaScript, script[i], script[j]);
      OrdersAgree(a, b);
    } else if j < i {
      assert Before(Native, native[j], native[i]) && Before(JavaScript, script[j], script[i]);
      OrdersAgree(b, a);
      if Crossing(a, b) {
        CrossingBack(a, b);
      }
    } else if Crossing(a, b) {
      CrossingDiffer(a, b);
    }
  }

  /** The two renderers visit a key set in one order exactly when no two of its keys are crossing. */
  lemma KeysSortAlike(keys: set<string>)
    ensures Sorted(Native, keys) == Sorted(JavaScript, keys) <==> Uncrossed(keys)
  {
    if Uncrossed(keys) {
      UncrossedSortAlike(keys);
    }
    if Sorted(Native, keys) == Sorted(JavaScript, keys) {
      forall a, b | a in keys && b in keys ensures !Crossing(a, b) {
        SortedAlikeUncrossed(keys, a, b);
      }
    }
  }

  lemma {:induction false} CrossingBack(a: string, b: string)
    requires Crossing(a, b)
    ensures Crossing(b, a)
  {
    if a[0] == b[0] {
      CrossingBack(a[1..], b[1..]);
    }
  }

  /** Keys within the basic plane, ASCII keys among them, never cross. */
  lemma {:induction false} BasicUncrossed(a: string, b: string)
    requires Basic(a) && Basic(b)
    ensures !Crossing(a, b)
  {
    if a != "" && b != "" {
      BasicUncrossed(a[1..], b[1..]);
    }
  }

  /** Crossing keys: U+FFFD sorts before U+1F600 natively, and after it in JavaScript. */
  lemma OrdersDiffer()
    ensures Before(Native, "\U{FFFD}", "\U{1F600}") && Before(JavaScript, "\U{1F600}", "\U{FFFD}")
  {
    assert Utf16("\U{FFFD}") == [0xFFFD] + Utf16("");
    assert Utf16("\U{1F600}") == Utf16Units('\U{1F600}') + Utf16("");
  }
}
