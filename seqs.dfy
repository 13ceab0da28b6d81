/** Sequence helpers standing for the JavaScript array methods the plugin calls:
    `filter`, `findIndex` and `some`. */
module Seqs {

  /** No element occurs twice. */
  predicate Distinct<T(==)>(s: seq<T>)
  {
    forall j, k :: 0 <= j < k < |s| ==> s[j] != s[k]
  }

  /** `Array.prototype.filter`: the elements of `s` that satisfy `p`, in their original order. */
  function Filter<T(!new)>(p: T -> bool, s: seq<T>): (r: seq<T>)
    ensures |r| <= |s|
    ensures forall x :: x in r <==> x in s && p(x)
    ensures forall x :: multiset(r)[x] == if p(x) then multiset(s)[x] else 0
  {
    if s == [] then []
    else
      assert s == [s[0]] + s[1..];
      if p(s[0]) then [s[0]] + Filter(p, s[1..]) else Filter(p, s[1..])
  }

  /** Filtering distributes over concatenation; with the one-element case this pins down
      that `Filter` keeps the surviving elements in their order. */
  lemma {:induction false} FilterConcat<T(!new)>(p: T -> bool, a: seq<T>, b: seq<T>)
    ensures Filter(p, a + b) == Filter(p, a) + Filter(p, b)
  {
    if a == [] {
      assert a + b == b;
    } else {
      assert (a + b)[0] == a[0];
      assert (a + b)[1..] == a[1..] + b;
      FilterConcat(p, a[1..], b);
    }
  }

  /** The head of a non-empty `Filter` result is the first element of `s` that satisfies `p`. */
  lemma {:induction false} FilterHead<T(!new)>(p: T -> bool, s: seq<T>)
    requires Filter(p, s) != []
    ensures exists k :: 0 <= k < |s| && p(s[k]) && Filter(p, s)[0] == s[k] && forall j :: 0 <= j < k ==> !p(s[j])
  {
    var t := s[1..];
    assert Filter(p, s) == if p(s[0]) then [s[0]] + Filter(p, t) else Filter(p, t);
    if p(s[0]) {
      assert Filter(p, s)[0] == s[0];
    } else {
      FilterHead(p, t);
      var k' :| 0 <= k' < |t| && p(t[k']) && Filter(p, t)[0] == t[k'] && forall j :: 0 <= j < k' ==> !p(t[j]);
      forall j | 0 <= j < k' + 1 ensures !p(s[j]) {
        if j > 0 {
          assert s[j] == t[j - 1];
        }
      }
      assert s[k' + 1] == t[k'];
    }
  }

  /** `Array.prototype.findIndex`: the index of the first element satisfying `p`, or -1. */
  function FindIndex<T>(p: T -> bool, s: seq<T>): (r: int)
    ensures -1 <= r < |s|
    ensures r == -1 <==> forall k :: 0 <= k < |s| ==> !p(s[k])
    ensures 0 <= r ==> p(s[r]) && forall k :: 0 <= k < r ==> !p(s[k])
  {
    if s == [] then -1
    else if p(s[0]) then 0
    else
      var i := FindIndex(p, s[1..]);
      if i == -1 then -1 else i + 1
  }

  /** `Array.prototype.some`: whether some element satisfies `p`. */
  function Any<T>(p: T -> bool, s: seq<T>): (r: bool)
    ensures r <==> exists k :: 0 <= k < |s| && p(s[k])
  {
    if s == [] then false
    else p(s[0]) || (assert forall k :: 0 < k < |s| ==> s[k] == s[1..][k - 1]; Any(p, s[1..]))
  }

  /** The set of elements of a sequence without repetitions has as many members as the
      sequence has elements. */
  lemma {:induction false} DistinctCardinality<T(!new)>(s: seq<T>)
    requires Distinct(s)
    ensures |set x | x in s| == |s|
  {
    if s != [] {
      assert Distinct(s[1..]) by {
        forall j, k | 0 <= j < k < |s[1..]| ensures s[1..][j] != s[1..][k] {
          assert s[1..][j] == s[j + 1] && s[1..][k] == s[k + 1];
        }
      }
      DistinctCardinality(s[1..]);
      assert (set x | x in s) == {s[0]} + (set x | x in s[1..]);
      assert s[0] !in (set x | x in s[1..]);
    }
  }

  /** Filtering keeps a sequence whose every element passes as it is. */
  lemma {:induction false} FilterKeepsAll<T(!new)>(p: T -> bool, s: seq<T>)
    requires forall k :: 0 <= k < |s| ==> p(s[k])
    ensures Filter(p, s) == s
  {
    if s != [] {
      assert p(s[0]);
      FilterKeepsAll(p, s[1..]);
    }
  }
}
