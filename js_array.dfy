/** The parts of JavaScript's `Array.prototype` that the stores and the shelf
    rely on: `filter` (order-preserving selection) and counting with `some`. */
module JsArray {

  /** `r` can be obtained from `s` by deleting elements, keeping order. */
  predicate SubsequenceOf<T(==)>(r: seq<T>, s: seq<T>)
    decreases |s|
  {
    if r == [] then true
    else if s == [] then false
    else (r[0] == s[0] && SubsequenceOf(r[1..], s[1..])) || SubsequenceOf(r, s[1..])
  }

  /** Number of elements of `s` that satisfy `p`. */
  function Count<T>(s: seq<T>, p: T -> bool): (n: nat)
    ensures n <= |s|
  {
    if s == [] then 0 else (if p(s[0]) then 1 else 0) + Count(s[1..], p)
  }

  /** `s.filter(keep)`: exactly the elements satisfying `keep`, in their
      original order (a subsequence holding Count(s, keep) elements, each of
      which satisfies keep). */
  function Filter<T(==)>(s: seq<T>, keep: T -> bool): (r: seq<T>)
    ensures |r| == Count(s, keep)
    ensures forall i :: 0 <= i < |r| ==> keep(r[i]) && r[i] in s
    ensures forall i :: 0 <= i < |s| && keep(s[i]) ==> s[i] in r
    ensures SubsequenceOf(r, s)
  {
    if s == [] then []
    else if keep(s[0]) then
      var rest := Filter(s[1..], keep);
      assert ([s[0]] + rest)[1..] == rest;
      [s[0]] + rest
    else
      Filter(s[1..], keep)
  }

  /** Filtering a list that holds only kept elements returns it unchanged. */
  lemma {:induction false} FilterKeepsAll<T>(s: seq<T>, keep: T -> bool)
    requires forall i :: 0 <= i < |s| ==> keep(s[i])
    ensures Filter(s, keep) == s
  {
    if s != [] {
      FilterKeepsAll(s[1..], keep);
      assert [s[0]] + s[1..] == s;
    }
  }

  /** filter distributes over concatenation. */
  lemma {:induction false} FilterConcat<T>(a: seq<T>, b: seq<T>, keep: T -> bool)
    ensures Filter(a + b, keep) == Filter(a, keep) + Filter(b, keep)
  {
    if a == [] {
      assert a + b == b;
    } else {
      assert (a + b)[0] == a[0];
      assert (a + b)[1..] == a[1..] + b;
      FilterConcat(a[1..], b, keep);
    }
  }

  /** When exactly the element at index k is rejected, filter deletes that
      element and nothing else. */
  lemma {:induction false} FilterDropsOne<T>(s: seq<T>, keep: T -> bool, k: nat)
    requires k < |s|
    requires !keep(s[k])
    requires forall i :: 0 <= i < |s| && i != k ==> keep(s[i])
    ensures Filter(s, keep) == s[..k] + s[k+1..]
  {
    var pre, post := s[..k], s[k+1..];
    assert s == pre + ([s[k]] + post);
    FilterConcat(pre, [s[k]] + post, keep);
    assert ([s[k]] + post)[1..] == post;
    assert Filter([s[k]] + post, keep) == Filter(post, keep);
    FilterKeepsAll(pre, keep);
    FilterKeepsAll(post, keep);
  }

  /** Counting distributes over concatenation. */
  lemma {:induction false} CountConcat<T>(a: seq<T>, b: seq<T>, p: T -> bool)
    ensures Count(a + b, p) == Count(a, p) + Count(b, p)
  {
    if a == [] {
      assert a + b == b;
    } else {
      assert (a + b)[0] == a[0];
      assert (a + b)[1..] == a[1..] + b;
      CountConcat(a[1..], b, p);
    }
  }

  /** Every element satisfies exactly one of two complementary tests. */
  lemma {:induction false} CountComplement<T>(s: seq<T>, p: T -> bool, q: T -> bool)
    requires forall i :: 0 <= i < |s| ==> q(s[i]) == !p(s[i])
    ensures Count(s, p) + Count(s, q) == |s|
  {
    if s != [] {
      CountComplement(s[1..], p, q);
    }
  }

  /** Every element of a subsequence occurs in the original list. */
  lemma {:induction false} SubsequenceMembers<T>(r: seq<T>, s: seq<T>)
    requires SubsequenceOf(r, s)
    ensures forall j :: 0 <= j < |r| ==> exists k :: 0 <= k < |s| && s[k] == r[j]
    decreases |s|
  {
    if r != [] {
      if r[0] == s[0] && SubsequenceOf(r[1..], s[1..]) {
        SubsequenceMembers(r[1..], s[1..]);
        forall j | 0 < j < |r| ensures exists k :: 0 <= k < |s| && s[k] == r[j] {
          assert r[1..][j - 1] == r[j];
          var k :| 0 <= k < |s[1..]| && s[1..][k] == r[j];
          assert s[k + 1] == r[j];
        }
        assert s[0] == r[0];
      } else {
        SubsequenceMembers(r, s[1..]);
        forall j | 0 <= j < |r| ensures exists k :: 0 <= k < |s| && s[k] == r[j] {
          var k :| 0 <= k < |s[1..]| && s[1..][k] == r[j];
          assert s[k + 1] == r[j];
        }
      }
    }
  }
}
