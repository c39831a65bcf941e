/**
  Sorting by a comparison, and the canonical form of a list that stands for a
  set: sorted by an injective rank and without repetitions.
 */
module Sorting {
  import opened KeyOrder

  function Insert<T>(x: T, sorted: seq<T>, before: (T, T) -> bool): seq<T> {
    if sorted == [] then [x]
    else if before(sorted[0], x) then [sorted[0]] + Insert(x, sorted[1..], before)
    else [x] + sorted
  }

  /** Insertion from the back keeps equal elements in order, as the library sort does. */
  function Sort<T>(s: seq<T>, before: (T, T) -> bool): seq<T> {
    if s == [] then [] else Insert(s[0], Sort(s[1..], before), before)
  }

  lemma {:induction false} InsertKeeps<T>(x: T, sorted: seq<T>, before: (T, T) -> bool)
    ensures multiset(Insert(x, sorted, before)) == multiset(sorted) + multiset{x}
  {
    if sorted != [] && before(sorted[0], x) {
      InsertKeeps(x, sorted[1..], before);
      assert sorted == [sorted[0]] + sorted[1..];
    }
  }

  lemma {:induction false} SortKeeps<T>(s: seq<T>, before: (T, T) -> bool)
    ensures multiset(Sort(s, before)) == multiset(s)
  {
    if s != [] {
      SortKeeps(s[1..], before);
      InsertKeeps(s[0], Sort(s[1..], before), before);
      assert s == [s[0]] + s[1..];
    }
  }

  /* ---- canonical lists ---- */

  type Rank<!T> = T -> seq<int>

  predicate Below(a: seq<int>, b: seq<int>) {
    Leq(a, b) && a != b
  }

  ghost predicate Injective<T(!new)>(rank: Rank<T>) {
    forall x, y :: rank(x) == rank(y) ==> x == y
  }

  /** Removes an element equal to the next one. */
  function Dedup<T(==)>(s: seq<T>): seq<T> {
    if |s| <= 1 then s else if s[0] == s[1] then Dedup(s[1..]) else [s[0]] + Dedup(s[1..])
  }

  function Canonical<T(==)>(s: seq<T>, rank: Rank<T>): seq<T> {
    Dedup(Sort(s, (a: T, b: T) => Below(rank(a), rank(b))))
  }

  ghost predicate Rises<T>(s: seq<T>, rank: Rank<T>) {
    forall i, j :: 0 <= i < j < |s| ==> Leq(rank(s[i]), rank(s[j]))
  }

  ghost predicate Ascends<T>(s: seq<T>, rank: Rank<T>) {
    forall i, j :: 0 <= i < j < |s| ==> Below(rank(s[i]), rank(s[j]))
  }

  lemma {:induction false} InsertRises<T>(x: T, sorted: seq<T>, rank: Rank<T>)
    requires Rises(sorted, rank)
    ensures Rises(Insert(x, sorted, (a: T, b: T) => Below(rank(a), rank(b))), rank)
  {
    var before := (a: T, b: T) => Below(rank(a), rank(b));
    if sorted != [] {
      LeqTotal(rank(sorted[0]), rank(x));
      LeqTotal(rank(x), rank(x));
      if before(sorted[0], x) {
        InsertRises(x, sorted[1..], rank);
        InsertKeeps(x, sorted[1..], before);
        var rest := Insert(x, sorted[1..], before);
        forall y | y in rest ensures Leq(rank(sorted[0]), rank(y)) {
          assert y in multiset(rest);
          assert y in sorted[1..] || y == x;
        }
      } else {
        forall y | y in sorted ensures Leq(rank(x), rank(y)) {
          LeqTotal(rank(sorted[0]), rank(sorted[0]));
          LeqTransitive(rank(x), rank(sorted[0]), rank(y));
        }
      }
    }
  }

  lemma {:induction false} SortRises<T>(s: seq<T>, rank: Rank<T>)
    ensures Rises(Sort(s, (a: T, b: T) => Below(rank(a), rank(b))), rank)
  {
    if s != [] {
      SortRises(s[1..], rank);
      InsertRises(s[0], Sort(s[1..], (a: T, b: T) => Below(rank(a), rank(b))), rank);
    }
  }

  lemma {:induction false} DedupKeeps<T>(s: seq<T>, x: T)
    ensures x in Dedup(s) <==> x in s
  {
    if |s| > 1 {
      DedupKeeps(s[1..], x);
      assert s == [s[0]] + s[1..];
    }
  }

  lemma {:induction false} DedupAscends<T(!new)>(s: seq<T>, rank: Rank<T>)
    requires Rises(s, rank) && Injective(rank)
    ensures Ascends(Dedup(s), rank)
  {
    if |s| > 1 {
      DedupAscends(s[1..], rank);
      if s[0] != s[1] {
        forall y | y in Dedup(s[1..]) ensures Below(rank(s[0]), rank(y)) {
          DedupKeeps(s[1..], y);
          assert y in s[1..];
          if rank(s[0]) == rank(y) {
            LeqTotal(rank(s[1]), rank(s[1]));
            LeqAntisymmetric(rank(s[0]), rank(s[1]));
          }
        }
      }
    }
  }

  /** A canonical list strictly ascends and has the same elements. */
  lemma CanonicalAscends<T(!new)>(s: seq<T>, rank: Rank<T>)
    requires Injective(rank)
    ensures Ascends(Canonical(s, rank), rank) && forall x :: x in Canonical(s, rank) <==> x in s
  {
    var before := (a: T, b: T) => Below(rank(a), rank(b));
    SortRises(s, rank);
    SortKeeps(s, before);
    DedupAscends(Sort(s, before), rank);
    forall x ensures x in Canonical(s, rank) <==> x in s {
      DedupKeeps(Sort(s, before), x);
      assert x in multiset(Sort(s, before)) <==> x in multiset(s);
    }
  }

  /** Only one ascending list has given elements. */
  lemma {:induction false} AscendingUnique<T(!new)>(a: seq<T>, b: seq<T>, rank: Rank<T>)
    requires Ascends(a, rank) && Ascends(b, rank) && forall x :: x in a <==> x in b
    ensures a == b
  {
    assert b != [] ==> b[0] in b;
    if a != [] {
      assert a[0] in b && b[0] in a;
      FirstAgrees(a, b, rank);
      TailLacksFirst(a, rank);
      TailLacksFirst(b, rank);
      AscendingUnique(a[1..], b[1..], rank);
    }
  }

  lemma FirstAgrees<T>(a: seq<T>, b: seq<T>, rank: Rank<T>)
    requires Ascends(a, rank) && Ascends(b, rank) && a != [] && b != [] && a[0] in b && b[0] in a
    ensures a[0] == b[0]
  {
    var i :| 0 <= i < |a| && a[i] == b[0];
    var j :| 0 <= j < |b| && b[j] == a[0];
    if i > 0 && j > 0 {
      LeqAntisymmetric(rank(a[0]), rank(b[0]));
    }
  }

  lemma TailLacksFirst<T>(s: seq<T>, rank: Rank<T>)
    requires Ascends(s, rank) && s != []
    ensures forall x :: x in s[1..] <==> x in s && x != s[0]
  {
    forall i | 0 <= i < |s| - 1 ensures s[1..][i] != s[0] {
      assert Below(rank(s[0]), rank(s[i + 1]));
    }
    assert s == [s[0]] + s[1..];
  }

  /** Two lists have one canonical form exactly when they have the same elements. */
  lemma CanonicalExact<T(!new)>(a: seq<T>, b: seq<T>, rank: Rank<T>)
    requires Injective(rank)
    ensures Canonical(a, rank) == Canonical(b, rank) <==> forall x :: x in a <==> x in b
  {
    CanonicalAscends(a, rank);
    CanonicalAscends(b, rank);
    if forall x :: x in a <==> x in b {
      AscendingUnique(Canonical(a, rank), Canonical(b, rank), rank);
    } else {
      var x :| (x in a) != (x in b);
      assert (x in Canonical(a, rank)) != (x in Canonical(b, rank));
    }
  }

  function Items<T>(s: seq<T>): set<T> {
    set x | x in s
  }

  /** The canonical form tells apart exactly the sets that lists stand for. */
  lemma CanonicalOfSet<T(!new)>(a: seq<T>, b: seq<T>, rank: Rank<T>)
    requires Injective(rank)
    ensures Canonical(a, rank) == Canonical(b, rank) <==> Items(a) == Items(b)
    ensures Items(Canonical(a, rank)) == Items(a)
  {
    CanonicalExact(a, b, rank);
    CanonicalAscends(a, rank);
    if Items(a) == Items(b) {
      forall x ensures x in a <==> x in b {
        assert x in Items(a) <==> x in Items(b);
      }
    }
  }
}
