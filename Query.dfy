/** The sequence operations the document store's queries are built from:
    selecting the documents that satisfy a filter (`find`, `$match`, `$lookup`),
    sorting by a numeric key in descending order (`$sort: { field: -1 }`) and
    keeping a prefix (`$limit`). The store documents no tie-break for `$sort`,
    so its contracts promise only a permutation ordered by non-increasing key;
    the insertion sort that realises them happens to keep equal keys in input order. */
module Query {

  /** The elements of `s` that satisfy `p`, in their original order. */
  function Filter<T(!new)>(s: seq<T>, p: T -> bool): (r: seq<T>)
    ensures forall x :: multiset(r)[x] == if p(x) then multiset(s)[x] else 0
    ensures forall i :: 0 <= i < |r| ==> p(r[i])
    ensures |r| <= |s|
  {
    if s == [] then []
    else
      var init := s[..|s| - 1];
      assert s == init + [s[|s| - 1]];
      if p(s[|s| - 1]) then Filter(init, p) + [s[|s| - 1]] else Filter(init, p)
  }

  /** Positions of the elements of `s` that satisfy `p`. */
  ghost function Positions<T>(s: seq<T>, p: T -> bool): set<int>
  {
    set i | 0 <= i < |s| && p(s[i])
  }

  /** The filter keeps one element per satisfying position. */
  lemma {:induction false} FilterCount<T(!new)>(s: seq<T>, p: T -> bool)
    ensures |Filter(s, p)| == |Positions(s, p)|
    decreases |s|
  {
    if s == [] {
      assert Positions(s, p) == {};
    } else {
      var init, x := s[..|s| - 1], s[|s| - 1];
      assert s == init + [x];
      FilterCount(init, p);
      PositionsAppend(init, x, p);
      var added: set<int> := if p(x) then {|init|} else {};
      assert |init| !in Positions(init, p);
      assert |Positions(init, p) + added| == |Positions(init, p)| + |added|;
    }
  }

  /** Appending one element adds its position exactly when it satisfies `p`. */
  lemma PositionsAppend<T>(init: seq<T>, x: T, p: T -> bool)
    ensures Positions(init + [x], p) == Positions(init, p) + if p(x) then {|init|} else {}
  {
    var s := init + [x];
    forall i ensures i in Positions(s, p) <==> i in Positions(init, p) + if p(x) then {|init|} else {} {
      if 0 <= i < |init| { assert s[i] == init[i]; }
    }
  }

  /** The first `n` elements of `s`, or all of them when there are fewer. */
  function Take<T>(s: seq<T>, n: nat): (r: seq<T>)
    ensures |r| == if |s| < n then |s| else n
    ensures r == s[..|r|]
  {
    if |s| <= n then s else s[..n]
  }

  /** Keys never increase from left to right. */
  ghost predicate NonIncreasing<T>(s: seq<T>, key: T -> real)
  {
    forall i, j :: 0 <= i < j < |s| ==> key(s[i]) >= key(s[j])
  }

  /** Places `x` before the first element whose key does not exceed its own. */
  function InsertDesc<T>(x: T, s: seq<T>, key: T -> real): (r: seq<T>)
    ensures multiset(r) == multiset(s) + multiset{x}
    ensures |r| == |s| + 1
    ensures r[0] == x || (|s| > 0 && r[0] == s[0])
  {
    if s == [] then [x]
    else if key(x) >= key(s[0]) then [x] + s
    else
      assert s == [s[0]] + s[1..];
      [s[0]] + InsertDesc(x, s[1..], key)
  }

  /** Inserting into a sorted sequence keeps it sorted. */
  lemma {:induction false} InsertDescSorted<T>(x: T, s: seq<T>, key: T -> real)
    requires NonIncreasing(s, key)
    ensures NonIncreasing(InsertDesc(x, s, key), key)
  {
    if s != [] && key(x) < key(s[0]) {
      var rest := InsertDesc(x, s[1..], key);
      var r := InsertDesc(x, s, key);
      assert r == [s[0]] + rest;
      InsertDescSorted(x, s[1..], key);
      // rest starts with x or with s[1], neither above s[0]
      assert key(s[0]) >= key(rest[0]) by {
        if rest[0] != x { assert rest[0] == s[1..][0] == s[1]; }
      }
      forall i, j | 0 <= i < j < |r| ensures key(r[i]) >= key(r[j]) {
        assert r[j] == rest[j - 1];
        if i > 0 {
          assert r[i] == rest[i - 1];
        } else if j > 1 {
          assert key(rest[0]) >= key(rest[j - 1]);
        }
      }
    }
  }

  /** Sorts `s` by non-increasing key. */
  function SortDesc<T>(s: seq<T>, key: T -> real): (r: seq<T>)
    ensures multiset(r) == multiset(s)
    ensures NonIncreasing(r, key)
    ensures |r| == |s|
  {
    if s == [] then []
    else
      assert s == [s[0]] + s[1..];
      var sorted := SortDesc(s[1..], key);
      InsertDescSorted(s[0], sorted, key);
      InsertDesc(s[0], sorted, key)
  }

  /** Every element of a permutation of `s` is an element of `s`. */
  lemma PermutationMembers<T>(s: seq<T>, r: seq<T>)
    requires multiset(r) == multiset(s)
    ensures forall i :: 0 <= i < |r| ==> r[i] in s
    ensures forall i :: 0 <= i < |s| ==> s[i] in r
  {
    forall i | 0 <= i < |r| ensures r[i] in s {
      assert r[i] in multiset(r);
    }
    forall i | 0 <= i < |s| ensures s[i] in r {
      assert s[i] in multiset(s);
    }
  }

  /** Cutting a sorted sequence keeps it sorted and keeps the best elements:
      nothing cut off has a key above an element kept. */
  lemma TakeSorted<T>(s: seq<T>, key: T -> real, n: nat)
    requires NonIncreasing(s, key)
    ensures var r := Take(s, n);
      NonIncreasing(r, key) && multiset(r) <= multiset(s) &&
      forall x, i :: x in multiset(s) - multiset(r) && 0 <= i < |r| ==> key(x) <= key(r[i])
  {
    var r := Take(s, n);
    var k := |r|;
    assert s == r + s[k..];
    assert multiset(s) == multiset(r) + multiset(s[k..]);
    forall x, i | x in multiset(s) - multiset(r) && 0 <= i < |r| ensures key(x) <= key(r[i]) {
      assert x in multiset(s[k..]);
      var p :| 0 <= p < |s[k..]| && s[k..][p] == x;
      assert s[k + p] == x;
    }
  }
}
