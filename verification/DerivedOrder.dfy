/**
  Field-by-field orders of records, strings, lists and string maps, as one
  lexicographic order of integer codes.  No code is the start of another one, so
  codes of fields can be joined: the joined order compares the first fields, then
  the next ones, and codes are equal only for equal values.
 */
module DerivedOrder {
  import opened KeyOrder
  import opened Sorting

  ghost predicate PrefixFree<T(!new)>(rank: T -> seq<int>) {
    forall x, y :: rank(x) <= rank(y) ==> x == y
  }

  lemma PrefixFreeIsInjective<T(!new)>(rank: T -> seq<int>)
    requires PrefixFree(rank)
    ensures Injective(rank)
  {
    forall x, y | rank(x) == rank(y) ensures x == y {
      assert rank(x) <= rank(y);
    }
  }

  /** Joined codes in prefix position compare part by part. */
  lemma JoinedPrefix(a: seq<int>, b: seq<int>, c: seq<int>, d: seq<int>)
    requires a + b <= c + d
    ensures (a <= c || c <= a) && (a == c ==> b <= d)
  {
    assert forall i :: 0 <= i < |a + b| ==> (a + b)[i] == (c + d)[i];
    if |a| <= |c| {
      assert forall i :: 0 <= i < |a| ==> a[i] == (a + b)[i] == (c + d)[i] == c[i];
    } else {
      assert forall i :: 0 <= i < |c| ==> c[i] == (c + d)[i] == (a + b)[i] == a[i];
    }
    if a == c {
      assert forall i :: 0 <= i < |b| ==> b[i] == (a + b)[|a| + i] == (c + d)[|a| + i] == d[i];
    }
  }

  /** Joined codes are ordered by the first parts, and by the second parts where the first ones agree. */
  lemma {:induction false} JoinedOrder(a: seq<int>, b: seq<int>, c: seq<int>, d: seq<int>)
    requires a <= c || c <= a ==> a == c
    ensures Leq(a + b, c + d) <==> if a == c then Leq(b, d) else Leq(a, c)
  {
    if a == [] || c == [] {
      assert [] <= a && [] <= c;
      assert [] + b == b && [] + d == d;
    } else {
      assert a == [a[0]] + a[1..] && c == [c[0]] + c[1..];
      assert (a + b)[1..] == a[1..] + b && (c + d)[1..] == c[1..] + d;
      if a[0] == c[0] {
        assert a[1..] <= c[1..] ==> a <= c;
        assert c[1..] <= a[1..] ==> c <= a;
        JoinedOrder(a[1..], b, c[1..], d);
      }
    }
  }

  /* ---- strings ---- */

  function StringRank(s: string): seq<int> {
    CodePoints(s) + [-1]
  }

  lemma StringsPrefixFree()
    ensures PrefixFree(StringRank)
  {
    forall x: string, y: string | StringRank(x) <= StringRank(y) ensures x == y {
      var a, b := StringRank(x), StringRank(y);
      assert a[|x|] == b[|x|] == -1;
      assert forall i :: 0 <= i < |y| ==> b[i] == y[i] as int;
      assert CodePoints(x) == a[..|x|] == b[..|x|] == CodePoints(y);
      RankInjective(Native, x, y);
    }
  }

  /** Strings order by their characters, a shorter one before its continuations. */
  lemma StringOrder(s: string, t: string)
    ensures Leq(StringRank(s), StringRank(t)) <==> Leq(CodePoints(s), CodePoints(t))
  {
    EndedOrder(CodePoints(s), CodePoints(t));
  }

  lemma {:induction false} EndedOrder(a: seq<int>, b: seq<int>)
    requires forall i :: 0 <= i < |a| ==> a[i] >= 0
    requires forall i :: 0 <= i < |b| ==> b[i] >= 0
    ensures Leq(a + [-1], b + [-1]) <==> Leq(a, b)
  {
    if a != [] && b != [] {
      assert (a + [-1])[1..] == a[1..] + [-1] && (b + [-1])[1..] == b[1..] + [-1];
      EndedOrder(a[1..], b[1..]);
    } else {
      assert [] + [-1] == [-1];
    }
  }

  /* ---- lists ---- */

  function ListRank<T>(s: seq<T>, rank: T -> seq<int>): seq<int> {
    if s == [] then [0] else [1] + (rank(s[0]) + ListRank(s[1..], rank))
  }

  lemma {:induction false} ListPrefixFree<T(!new)>(s: seq<T>, t: seq<T>, rank: T -> seq<int>)
    requires PrefixFree(rank) && ListRank(s, rank) <= ListRank(t, rank)
    ensures s == t
  {
    var a, b := ListRank(s, rank), ListRank(t, rank);
    assert a[0] == b[0];
    if s != [] && t != [] {
      JoinedPrefix([1], rank(s[0]) + ListRank(s[1..], rank), [1], rank(t[0]) + ListRank(t[1..], rank));
      JoinedPrefix(rank(s[0]), ListRank(s[1..], rank), rank(t[0]), ListRank(t[1..], rank));
      assert s[0] == t[0];
      ListPrefixFree(s[1..], t[1..], rank);
      assert s == [s[0]] + s[1..] && t == [t[0]] + t[1..];
    }
  }

  /* ---- string maps ---- */

  datatype Entry = Entry(key: string, value: string)

  function EntryRank(entry: Entry): seq<int> {
    StringRank(entry.key) + StringRank(entry.value)
  }

  function EntriesOf(m: map<string, string>, keys: seq<string>): (entries: seq<Entry>)
    requires forall key :: key in keys ==> key in m
    ensures |entries| == |keys| && forall i :: 0 <= i < |keys| ==> entries[i] == Entry(keys[i], m[keys[i]])
  {
    seq(|keys|, i requires 0 <= i < |keys| => Entry(keys[i], m[keys[i]]))
  }

  /** The entries in key order, as an ordered map iterates. */
  function Entries(m: map<string, string>): seq<Entry> {
    EntriesOf(m, Sorted(Native, m.Keys))
  }

  function MapRank(m: map<string, string>): seq<int> {
    ListRank(Entries(m), EntryRank)
  }

  lemma EntriesPrefixFree()
    ensures PrefixFree(EntryRank)
  {
    StringsPrefixFree();
    forall x, y | EntryRank(x) <= EntryRank(y) ensures x == y {
      JoinedPrefix(StringRank(x.key), StringRank(x.value), StringRank(y.key), StringRank(y.value));
    }
  }

  lemma EntryListed(m: map<string, string>, entry: Entry)
    ensures entry in Entries(m) <==> entry.key in m && m[entry.key] == entry.value
  {
    var keys := Sorted(Native, m.Keys);
    if entry.key in m && m[entry.key] == entry.value {
      var i :| 0 <= i < |keys| && keys[i] == entry.key;
      assert Entries(m)[i] == entry;
    }
  }

  lemma MapsPrefixFree()
    ensures PrefixFree(MapRank)
  {
    EntriesPrefixFree();
    forall m: map<string, string>, n: map<string, string> | MapRank(m) <= MapRank(n) ensures m == n {
      ListPrefixFree(Entries(m), Entries(n), EntryRank);
      forall key ensures key in m <==> key in n {
        if key in m { EntryListed(m, Entry(key, m[key])); EntryListed(n, Entry(key, m[key])); }
        if key in n { EntryListed(m, Entry(key, n[key])); EntryListed(n, Entry(key, n[key])); }
      }
      forall key | key in m ensures m[key] == n[key] {
        EntryListed(m, Entry(key, m[key]));
        EntryListed(n, Entry(key, m[key]));
      }
    }
  }
}
