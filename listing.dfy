/** What the store's query builder does with a table: enumerate its rows,
    keep those a `WHERE` clause selects, order them by a key
    (`ORDER BY ... DESC`), and cut out a `range(from, to)` window or the
    first `limit` rows. */
module Listing {

  /** The rows of a table whose ids lie below `n`, in id order. */
  function RowsBelow<T(!new)>(table: map<nat, T>, n: nat): (rows: seq<T>)
    ensures |rows| <= n
    ensures forall x :: x in rows <==> exists k :: k < n && k in table && table[k] == x
  {
    if n == 0 then []
    else
      var earlier := RowsBelow(table, n - 1);
      if n - 1 in table then earlier + [table[n - 1]] else earlier
  }

  /** The enumeration of a table whose rows carry their own key as id holds
      each row with an id below `n` exactly once. */
  lemma {:induction false} RowsBelowOnce<T(!new)>(table: map<nat, T>, n: nat, id: T -> nat)
    requires forall k :: k in table ==> id(table[k]) == k
    ensures multiset(RowsBelow(table, n)) == multiset(set k | k in table && k < n :: table[k])
  {
    if n > 0 {
      RowsBelowOnce(table, n - 1, id);
      var before := set k | k in table && k < n - 1 :: table[k];
      var now := set k | k in table && k < n :: table[k];
      if n - 1 in table {
        assert table[n - 1] !in before by {
          forall k | k in table && k < n - 1 ensures table[k] != table[n - 1] {
            assert id(table[k]) == k;
          }
        }
        assert now == before + {table[n - 1]};
      } else {
        assert now == before;
      }
    }
  }

  /** `r` is `s` with some rows left out and the others kept in their order. */
  ghost predicate Subsequence<T>(r: seq<T>, s: seq<T>)
    decreases |s|
  {
    if r == [] then true
    else if s == [] then false
    else (r[0] == s[0] && Subsequence(r[1..], s[1..])) || Subsequence(r, s[1..])
  }

  /** The rows of `s` that `keep` selects, each as often as in `s`, in their order. */
  function Filter<T(!new)>(s: seq<T>, keep: T -> bool): (r: seq<T>)
    ensures |r| <= |s|
    ensures forall x :: multiset(r)[x] == if keep(x) then multiset(s)[x] else 0
    ensures forall x :: x in r <==> x in s && keep(x)
    ensures Subsequence(r, s)
  {
    if s == [] then []
    else
      var rest := Filter(s[1..], keep);
      assert s == [s[0]] + s[1..];
      assert forall x :: x in s <==> x == s[0] || x in s[1..];
      if keep(s[0]) then
        assert ([s[0]] + rest)[1..] == rest;
        [s[0]] + rest
      else
        assert rest == [] || !(rest[0] == s[0]);
        rest
  }

  ghost predicate Descending<T>(s: seq<T>, key: T -> int) {
    forall i, j :: 0 <= i < j < |s| ==> key(s[i]) >= key(s[j])
  }

  /** A row put in front of rows in key order, with a key no smaller than
      theirs, keeps them in key order. */
  lemma DescendingCons<T>(x: T, s: seq<T>, key: T -> int)
    requires Descending(s, key) && (s == [] || key(x) >= key(s[0]))
    ensures Descending([x] + s, key)
  {
    var r := [x] + s;
    forall i, j | 0 <= i < j < |r| ensures key(r[i]) >= key(r[j]) {
      if i == 0 {
        assert r[j] == s[j - 1];
        assert key(s[0]) >= key(s[j - 1]);
      } else {
        assert r[i] == s[i - 1] && r[j] == s[j - 1];
      }
    }
  }

  /** Puts `x` in front of the first row whose key does not exceed its own. */
  function Insert<T(!new)>(x: T, s: seq<T>, key: T -> int): (r: seq<T>)
    requires Descending(s, key)
    ensures |r| == |s| + 1
    ensures r[0] == x || (s != [] && r[0] == s[0])
    ensures Descending(r, key)
    ensures multiset(r) == multiset(s) + multiset{x}
  {
    if s == [] || key(x) >= key(s[0]) then
      DescendingCons(x, s, key);
      [x] + s
    else
      var rest := Insert(x, s[1..], key);
      assert s == [s[0]] + s[1..];
      assert key(s[0]) >= key(rest[0]);
      DescendingCons(s[0], rest, key);
      [s[0]] + rest
  }

  /** The rows of `s`, newest (largest key) first. */
  function SortDesc<T(!new)>(s: seq<T>, key: T -> int): (r: seq<T>)
    ensures Descending(r, key)
    ensures multiset(r) == multiset(s)
  {
    if s == [] then []
    else
      assert s == [s[0]] + s[1..];
      Insert(s[0], SortDesc(s[1..], key), key)
  }

  /** Two positions of a sequence in which every row occurs at most once
      hold different rows. */
  lemma OnceEach<T>(r: seq<T>, i: nat, j: nat)
    requires i < j < |r| && multiset(r)[r[i]] <= 1
    ensures r[i] != r[j]
  {
    assert r == r[..j] + r[j..];
    assert r[i] in r[..j] && r[j] in r[j..];
  }

  /** Selecting from the enumeration of a table whose rows carry their own
      key as id yields every selected row exactly once. */
  lemma SelectedOnce<T(!new)>(table: map<nat, T>, n: nat, id: T -> nat, keep: T -> bool)
    requires forall k :: k in table ==> k < n && id(table[k]) == k
    ensures multiset(Filter(RowsBelow(table, n), keep)) == multiset(set x | x in table.Values && keep(x))
  {
    RowsBelowOnce(table, n, id);
    assert (set k | k in table && k < n :: table[k]) == table.Values;
  }

  /** Rows of a table that each occur once carry different ids. */
  lemma OnceDistinctIds<T(!new)>(r: seq<T>, table: map<nat, T>, id: T -> nat, selected: set<T>)
    requires forall k :: k in table ==> id(table[k]) == k
    requires selected <= table.Values && multiset(r) == multiset(selected)
    ensures forall i, j :: 0 <= i < j < |r| ==> id(r[i]) != id(r[j])
  {
    forall i, j | 0 <= i < j < |r| ensures id(r[i]) != id(r[j]) {
      assert r[i] in multiset(r) && r[j] in multiset(r);
      OnceEach(r, i, j);
      var ki :| ki in table && table[ki] == r[i];
      var kj :| kj in table && table[kj] == r[j];
    }
  }

  /** A sequence holding each row of `selected` once and nothing else is as
      long as `selected` is large. */
  lemma CountOnce<T>(r: seq<T>, selected: set<T>)
    requires forall x :: multiset(r)[x] == if x in selected then 1 else 0
    ensures |r| == |selected|
  {
    forall x ensures multiset(r)[x] == multiset(selected)[x] {
    }
    assert multiset(r) == multiset(selected);
    assert |multiset(r)| == |r| && |multiset(selected)| == |selected|;
  }

  /** `select * from table where keep order by key desc`, over a table whose
      rows carry their own key as id: every selected row exactly once (so no
      two share an id), largest key first. */
  function Query<T(==,!new)>(table: map<nat, T>, n: nat, id: T -> nat, keep: T -> bool, key: T -> int): (r: seq<T>)
    requires forall k :: k in table ==> k < n && id(table[k]) == k
    ensures forall x :: multiset(r)[x] == if x in table.Values && keep(x) then 1 else 0
    ensures forall x :: x in r <==> x in table.Values && keep(x)
    ensures forall i, j :: 0 <= i < j < |r| ==> id(r[i]) != id(r[j])
    ensures Descending(r, key)
  {
    SelectedOnce(table, n, id, keep);
    var r := SortDesc(Filter(RowsBelow(table, n), keep), key);
    var selected := set x | x in table.Values && keep(x);
    OnceDistinctIds(r, table, id, selected);
    assert forall x :: multiset(r)[x] == multiset(selected)[x];
    assert forall x :: x in r <==> x in multiset(r);
    r
  }

  /** The first position a window starting at `from` can hold. */
  function Floor0(from: int): nat { if from < 0 then 0 else from }

  /** `range(from, to)`: the rows at positions `from` through `to`, both
      included, of those that exist. */
  function Range<T>(s: seq<T>, from: int, to: int): (r: seq<T>)
    ensures |r| <= if to < from then 0 else to - from + 1
    ensures forall j :: 0 <= j < |r| ==>
      from <= Floor0(from) + j <= to && Floor0(from) + j < |s| && r[j] == s[Floor0(from) + j]
    ensures forall i :: 0 <= i < |s| && from <= i <= to ==>
      i - Floor0(from) < |r| && r[i - Floor0(from)] == s[i]
  {
    var lo := if Floor0(from) < |s| then Floor0(from) else |s|;
    var hi := if to + 1 < lo then lo else if to + 1 < |s| then to + 1 else |s|;
    s[lo..hi]
  }

  /** A window of rows in key order is in key order, and holds only rows of `s`. */
  lemma RangeKeepsOrder<T>(s: seq<T>, from: int, to: int, key: T -> int)
    requires Descending(s, key)
    ensures Descending(Range(s, from, to), key)
    ensures forall x :: x in Range(s, from, to) ==> x in s
  {
    var lo := if Floor0(from) < |s| then Floor0(from) else |s|;
    var hi := if to + 1 < lo then lo else if to + 1 < |s| then to + 1 else |s|;
    assert Range(s, from, to) == s[lo..hi];
  }

  /** `limit(n)`: the first `n` rows. */
  function Take<T>(s: seq<T>, n: nat): (r: seq<T>)
    ensures |r| == if |s| < n then |s| else n
    ensures forall j :: 0 <= j < |r| ==> r[j] == s[j]
  {
    if |s| <= n then s else s[..n]
  }
}
