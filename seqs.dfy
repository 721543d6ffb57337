/**
 * Whole-column operations the pipeline borrows from pandas, stated once for
 * any element type: boolean-mask filtering, drop_duplicates, groupby().size(),
 * a left lookup with fillna(0), and sort_values.
 */
module Seqs {

  /** No value occurs twice. */
  predicate Distinct<T(==)>(s: seq<T>) {
    forall i, j :: 0 <= i < j < |s| ==> s[i] != s[j]
  }

  /** `a` is `b` with some elements removed and the rest kept in order. */
  predicate IsSubsequence<T(==)>(a: seq<T>, b: seq<T>)
    decreases |b|
  {
    if b == [] then a == []
    else (a != [] && a[0] == b[0] && IsSubsequence(a[1..], b[1..])) || IsSubsequence(a, b[1..])
  }

  lemma {:induction false} SubsequenceOfItself<T>(s: seq<T>)
    ensures IsSubsequence(s, s)
  {
    if s != [] {
      SubsequenceOfItself(s[1..]);
    }
  }

  /** Keeping some elements of a subsequence gives a subsequence of the original. */
  lemma {:induction false} SubsequenceTransitive<T>(a: seq<T>, b: seq<T>, c: seq<T>)
    requires IsSubsequence(a, b) && IsSubsequence(b, c)
    ensures IsSubsequence(a, c)
    decreases |c|
  {
    if c != [] {
      if b != [] && b[0] == c[0] && IsSubsequence(b[1..], c[1..]) {
        if a != [] && a[0] == b[0] && IsSubsequence(a[1..], b[1..]) {
          SubsequenceTransitive(a[1..], b[1..], c[1..]);
        } else {
          SubsequenceTransitive(a, b[1..], c[1..]);
        }
      } else {
        SubsequenceTransitive(a, b, c[1..]);
      }
    }
  }

  /** `df[mask]`: the rows for which `keep` holds, in their original order. */
  function Filter<T(==,!new)>(s: seq<T>, keep: T -> bool): (r: seq<T>)
    ensures forall x :: x in r <==> x in s && keep(x)
    ensures forall x :: multiset(r)[x] == if keep(x) then multiset(s)[x] else 0
    ensures IsSubsequence(r, s)
  {
    if s == [] then []
    else
      assert s == [s[0]] + s[1..];
      if keep(s[0]) then [s[0]] + Filter(s[1..], keep) else Filter(s[1..], keep)
  }
  lemma FilterCons<T(!new)>(s: seq<T>, keep: T -> bool)
    requires s != []
    ensures Filter(s, keep) == (if keep(s[0]) then [s[0]] else []) + Filter(s[1..], keep)
  {
  }


  /** `drop_duplicates()`: every value once; the contract leaves the order of the kept values open. */
  function Dedup<T(==,!new)>(s: seq<T>): (r: seq<T>)
    ensures Distinct(r)
    ensures forall x :: x in r <==> x in s
    ensures |r| <= |s|
  {
    if s == [] then []
    else
      var d := Dedup(s[..|s| - 1]);
      assert s == s[..|s| - 1] + [s[|s| - 1]];
      if s[|s| - 1] in d then d else d + [s[|s| - 1]]
  }

  /** A distinct sequence has as many elements as the set of its values. */
  lemma {:induction false} DistinctCardinality<T>(s: seq<T>)
    requires Distinct(s)
    ensures |set x | x in s| == |s|
  {
    if s != [] {
      var init := s[..|s| - 1];
      DistinctCardinality(init);
      assert s == init + [s[|s| - 1]];
      assert s[|s| - 1] !in init;
      assert (set x | x in s) == (set x | x in init) + {s[|s| - 1]};
    }
  }

  lemma {:induction false} DistinctOccursOnce<T>(s: seq<T>, x: T)
    requires Distinct(s)
    ensures multiset(s)[x] <= 1
  {
    if s != [] {
      var init := s[..|s| - 1];
      assert s == init + [s[|s| - 1]];
      DistinctOccursOnce(init, x);
      if s[|s| - 1] == x {
        assert x !in init;
      }
    }
  }

  lemma RepeatOccursTwice<T>(s: seq<T>, i: nat, j: nat)
    requires i < j < |s| && s[i] == s[j]
    ensures multiset(s)[s[i]] >= 2
  {
    assert s == s[..j] + [s[j]] + s[j + 1..];
    assert s[i] in s[..j];
  }

  /** Reordering a sequence without repetitions cannot create one. */
  lemma PermutationDistinct<T>(a: seq<T>, b: seq<T>)
    requires Distinct(a) && multiset(a) == multiset(b)
    ensures Distinct(b)
  {
    forall i, j | 0 <= i < j < |b| ensures b[i] != b[j] {
      if b[i] == b[j] {
        RepeatOccursTwice(b, i, j);
        DistinctOccursOnce(a, b[i]);
      }
    }
  }

  /** One row of `groupby(key).size()`. */
  datatype Group<T> = Group(key: T, size: nat)

  function Keys<T>(g: seq<Group<T>>): (r: seq<T>)
    ensures |r| == |g| && forall i :: 0 <= i < |g| ==> r[i] == g[i].key
  {
    seq(|g|, i requires 0 <= i < |g| => g[i].key)
  }

  function SumSizes<T>(g: seq<Group<T>>): nat {
    if g == [] then 0 else g[0].size + SumSizes(g[1..])
  }

  /** Sum over `keys` of how often each key occurs in `s`. */
  function SumCounts<T(==)>(s: seq<T>, keys: seq<T>): nat {
    if keys == [] then 0 else multiset(s)[keys[0]] + SumCounts(s, keys[1..])
  }

  lemma {:induction false} SumCountsAppend<T>(a: seq<T>, b: seq<T>, keys: seq<T>)
    ensures SumCounts(a + b, keys) == SumCounts(a, keys) + SumCounts(b, keys)
  {
    if keys != [] {
      SumCountsAppend(a, b, keys[1..]);
      assert multiset(a + b) == multiset(a) + multiset(b);
    }
  }

  lemma {:induction false} SumCountsSingle<T>(x: T, keys: seq<T>)
    requires Distinct(keys)
    ensures SumCounts([x], keys) == if x in keys then 1 else 0
  {
    if keys != [] {
      SumCountsSingle(x, keys[1..]);
      if keys[0] == x {
        assert x !in keys[1..] by {
          forall j | 0 <= j < |keys[1..]| ensures keys[1..][j] != x {
            assert keys[1..][j] == keys[j + 1];
          }
        }
      }
      assert x in keys <==> keys[0] == x || x in keys[1..];
    }
  }

  /**
   * Counting every value of `s` once per key of a distinct key list that
   * covers `s` counts every element of `s` exactly once.
   */
  lemma {:induction false} SumCountsCover<T>(s: seq<T>, keys: seq<T>)
    requires Distinct(keys)
    requires forall x :: x in s ==> x in keys
    ensures SumCounts(s, keys) == |s|
  {
    if s == [] {
      SumCountsEmpty(keys);
    } else {
      var init := s[..|s| - 1];
      assert s == init + [s[|s| - 1]];
      SumCountsCover(init, keys);
      SumCountsAppend(init, [s[|s| - 1]], keys);
      SumCountsSingle(s[|s| - 1], keys);
    }
  }

  lemma {:induction false} SumCountsEmpty<T>(keys: seq<T>)
    ensures SumCounts([], keys) == 0
  {
    if keys != [] {
      SumCountsEmpty(keys[1..]);
    }
  }

  /**
   * `groupby(key).size().reset_index()`: one group per distinct value, its
   * size the number of occurrences; sizes add up to the number of rows.
   */
  function GroupSizes<T(==,!new)>(s: seq<T>): (g: seq<Group<T>>)
    ensures Distinct(Keys(g))
    ensures forall x :: x in Keys(g) <==> x in s
    ensures forall i :: 0 <= i < |g| ==> g[i].size == multiset(s)[g[i].key] && g[i].size >= 1
    ensures SumSizes(g) == |s|
    ensures s == [] <==> g == []
  {
    var keys := Dedup(s);
    var g := seq(|keys|, i requires 0 <= i < |keys| => Group(keys[i], multiset(s)[keys[i]]));
    assert Keys(g) == keys;
    assert forall i :: 0 <= i < |keys| ==> keys[i] in keys && keys[i] in multiset(s) by {
      forall i | 0 <= i < |keys| ensures keys[i] in keys && keys[i] in multiset(s) {
        assert keys[i] in keys;
        assert keys[i] in s;
      }
    }
    SumCountsCover(s, keys);
    SumSizesIsSumCounts(s, g);
    g
  }

  lemma {:induction false} SumSizesIsSumCounts<T>(s: seq<T>, g: seq<Group<T>>)
    requires forall i :: 0 <= i < |g| ==> g[i].size == multiset(s)[g[i].key]
    ensures SumSizes(g) == SumCounts(s, Keys(g))
  {
    if g != [] {
      SumSizesIsSumCounts(s, g[1..]);
      assert Keys(g)[1..] == Keys(g[1..]);
    }
  }

  /** Left merge of one key into a group table, then `fillna(0)`. */
  function SizeOf<T(==)>(g: seq<Group<T>>, key: T): (r: nat)
    ensures r == 0 || exists i :: 0 <= i < |g| && g[i].key == key && g[i].size == r
  {
    if g == [] then 0 else if g[0].key == key then g[0].size else SizeOf(g[1..], key)
  }

  /** Looking a value up in its group table gives its number of occurrences, 0 when absent. */
  lemma {:induction false} SizeOfGroupSizes<T(!new)>(s: seq<T>, key: T)
    ensures SizeOf(GroupSizes(s), key) == multiset(s)[key]
  {
    var g := GroupSizes(s);
    if key in s {
      var i :| 0 <= i < |g| && Keys(g)[i] == key;
      SizeOfAt(g, i);
    } else {
      SizeOfAbsent(g, key);
    }
  }

  lemma {:induction false} SizeOfAt<T>(g: seq<Group<T>>, i: nat)
    requires i < |g| && Distinct(Keys(g))
    ensures SizeOf(g, g[i].key) == g[i].size
  {
    if i > 0 {
      assert Keys(g)[0] != Keys(g)[i];
      assert Distinct(Keys(g[1..])) by {
        forall a, b | 0 <= a < b < |g| - 1 ensures Keys(g[1..])[a] != Keys(g[1..])[b] {
          assert Keys(g)[a + 1] != Keys(g)[b + 1];
        }
      }
      SizeOfAt(g[1..], i - 1);
    }
  }

  lemma {:induction false} SizeOfAbsent<T>(g: seq<Group<T>>, key: T)
    requires key !in Keys(g)
    ensures SizeOf(g, key) == 0
  {
    if g != [] {
      assert Keys(g)[0] == g[0].key;
      assert key !in Keys(g[1..]) by {
        forall j | 0 <= j < |g| - 1 ensures Keys(g[1..])[j] != key {
          assert Keys(g[1..])[j] == Keys(g)[j + 1];
        }
      }
      SizeOfAbsent(g[1..], key);
    }
  }

  // ---- sort_values ----

  ghost predicate Total<T(!new)>(le: (T, T) -> bool) {
    forall a, b :: le(a, b) || le(b, a)
  }

  ghost predicate Transitive<T(!new)>(le: (T, T) -> bool) {
    forall a, b, c :: le(a, b) && le(b, c) ==> le(a, c)
  }

  predicate SortedBy<T>(s: seq<T>, le: (T, T) -> bool) {
    forall i, j :: 0 <= i < j < |s| ==> le(s[i], s[j])
  }

  function Insert<T(==)>(x: T, s: seq<T>, le: (T, T) -> bool): (r: seq<T>)
    ensures multiset(r) == multiset(s) + multiset{x}
  {
    if s == [] then [x]
    else if le(x, s[0]) then [x] + s
    else
      assert s == [s[0]] + s[1..];
      [s[0]] + Insert(x, s[1..], le)
  }

  /** A sort by `le`; it keeps exactly the rows it was given. */
  function SortBy<T(==)>(s: seq<T>, le: (T, T) -> bool): (r: seq<T>)
    ensures multiset(r) == multiset(s)
  {
    if s == [] then []
    else
      assert s == [s[0]] + s[1..];
      Insert(s[0], SortBy(s[1..], le), le)
  }

  lemma {:induction false} InsertSorted<T(!new)>(x: T, s: seq<T>, le: (T, T) -> bool)
    requires Total(le) && Transitive(le) && SortedBy(s, le)
    ensures SortedBy(Insert(x, s, le), le)
  {
    if s != [] && !le(x, s[0]) {
      var t := Insert(x, s[1..], le);
      InsertSorted(x, s[1..], le);
      assert le(s[0], x);
      forall k | 0 <= k < |t| ensures le(s[0], t[k]) {
        assert t[k] in multiset(t);
        if t[k] != x {
          assert t[k] in multiset(s[1..]);
          var m :| 0 <= m < |s[1..]| && s[1..][m] == t[k];
          assert s[1..][m] == s[m + 1];
        }
      }
      var r := [s[0]] + t;
      forall i, j | 0 <= i < j < |r| ensures le(r[i], r[j]) {
        if i > 0 {
          assert r[i] == t[i - 1] && r[j] == t[j - 1];
        } else {
          assert r[j] == t[j - 1];
        }
      }
    }
  }

  /** Under a total preorder, SortBy's result is ordered. */
  lemma {:induction false} SortBySorted<T(!new)>(s: seq<T>, le: (T, T) -> bool)
    requires Total(le) && Transitive(le)
    ensures SortedBy(SortBy(s, le), le)
  {
    if s != [] {
      SortBySorted(s[1..], le);
      InsertSorted(s[0], SortBy(s[1..], le), le);
    }
  }
}
