/** Order-preserving sequence combinators: the list comprehensions of the source. */
module Seqs {
  import opened Wrappers

  /** `[x for x in s if p(x)]`. */
  function Filter<T>(s: seq<T>, p: T -> bool): (r: seq<T>)
    ensures |r| <= |s|
    ensures forall i :: 0 <= i < |r| ==> r[i] in s && p(r[i])
    ensures forall i :: 0 <= i < |s| && p(s[i]) ==> s[i] in r
    decreases |s|
  {
    if |s| == 0 then []
    else (if p(s[0]) then [s[0]] else []) + Filter(s[1..], p)
  }

  /** Filtering distributes over concatenation, so it keeps the input's order. */
  lemma {:induction false} FilterAppend<T>(a: seq<T>, b: seq<T>, p: T -> bool)
    ensures Filter(a + b, p) == Filter(a, p) + Filter(b, p)
    decreases |a|
  {
    if |a| == 0 {
      assert a + b == b;
    } else {
      assert (a + b)[0] == a[0];
      assert (a + b)[1..] == a[1..] + b;
      FilterAppend(a[1..], b, p);
    }
  }

  /** Nothing survives the filter exactly when no element satisfies `p`. */
  lemma {:induction false} FilterEmpty<T>(s: seq<T>, p: T -> bool)
    ensures |Filter(s, p)| == 0 <==> forall i :: 0 <= i < |s| ==> !p(s[i])
    decreases |s|
  {
    if |s| > 0 {
      FilterEmpty(s[1..], p);
      assert forall i :: 1 <= i < |s| ==> s[i] == s[1..][i - 1];
    }
  }

  /** `[f(x) for x in s]`. */
  function Map<T, U>(s: seq<T>, f: T -> U): (r: seq<U>)
    ensures |r| == |s|
    ensures forall i :: 0 <= i < |s| ==> r[i] == f(s[i])
  {
    seq(|s|, i requires 0 <= i < |s| => f(s[i]))
  }

  /** Mapping a concatenation is the concatenation of the two mapped parts. */
  lemma MapAppend<T, U>(a: seq<T>, b: seq<T>, f: T -> U)
    ensures Map(a + b, f) == Map(a, f) + Map(b, f)
  {
    assert forall i :: 0 <= i < |a| + |b| ==> Map(a + b, f)[i] == (Map(a, f) + Map(b, f))[i];
  }

  /** `[f(x) for x in s if p(x)]` has an entry for every element that passes `p`, and
      every entry comes from such an element. */
  lemma MapFilter<T, U>(s: seq<T>, p: T -> bool, f: T -> U)
    ensures forall x :: x in s && p(x) ==> f(x) in Map(Filter(s, p), f)
    ensures forall i :: 0 <= i < |Map(Filter(s, p), f)| ==>
      exists x :: x in s && p(x) && Map(Filter(s, p), f)[i] == f(x)
  {
    var kept := Filter(s, p);
    var r := Map(kept, f);
    forall x | x in s && p(x) ensures f(x) in r {
      var j :| 0 <= j < |kept| && kept[j] == x;
      assert r[j] == f(x);
    }
    forall i | 0 <= i < |Map(Filter(s, p), f)| ensures exists x :: x in s && p(x) && Map(Filter(s, p), f)[i] == f(x) {
      assert kept[i] in s && p(kept[i]) && r[i] == f(kept[i]);
    }
  }

  /** A filtered comprehension over a list that may start with `x`: the image of `x` when
      it is there and passes, then the comprehension over the rest. */
  lemma MapFilterPrepend<T, U>(x: T, keep: bool, rest: seq<T>, p: T -> bool, f: T -> U)
    ensures Map(Filter((if keep then [x] else []) + rest, p), f) ==
      (if keep && p(x) then [f(x)] else []) + Map(Filter(rest, p), f)
  {
    if keep {
      FilterAppend([x], rest, p);
      assert [x][1..] == [];
      assert Filter([x], p) == if p(x) then [x] else [];
      MapAppend(Filter([x], p), Filter(rest, p), f);
    } else {
      assert [] + rest == rest;
    }
  }

  /** Position `i` holds the first element of `s` that satisfies `p`. */
  ghost predicate FirstAt<T>(s: seq<T>, p: T -> bool, i: int) {
    0 <= i < |s| && p(s[i]) && forall j :: 0 <= j < i ==> !p(s[j])
  }

  /** The index of the first element satisfying `p`, as a `for ... return` loop finds it. */
  function FirstIndex<T>(s: seq<T>, p: T -> bool): (r: Option<nat>)
    ensures r.None? <==> forall i :: 0 <= i < |s| ==> !p(s[i])
    ensures r.Some? ==> FirstAt(s, p, r.value)
    decreases |s|
  {
    if |s| == 0 then None
    else if p(s[0]) then Some(0)
    else match FirstIndex(s[1..], p)
      case None => None
      case Some(i) => Some(i + 1)
  }

  /** The first `Some` among `f(keys[0])`, `f(keys[1])`, ...: a chain of fallbacks. */
  function FirstSome<K, V>(keys: seq<K>, f: K -> Option<V>): (r: Option<V>)
    ensures r.None? <==> forall k :: 0 <= k < |keys| ==> f(keys[k]).None?
    ensures r.Some? ==> exists k :: 0 <= k < |keys| && r == f(keys[k]) && forall j :: 0 <= j < k ==> f(keys[j]).None?
    decreases |keys|
  {
    if |keys| == 0 then None
    else if f(keys[0]).Some? then
      f(keys[0])
    else
      var r := FirstSome(keys[1..], f);
      assert forall k :: 1 <= k < |keys| ==> keys[k] == keys[1..][k - 1];
      assert r.Some? ==> exists k :: 1 <= k < |keys| && r == f(keys[k]) && forall j :: 0 <= j < k ==> f(keys[j]).None? by {
        if r.Some? {
          var k :| 0 <= k < |keys[1..]| && r == f(keys[1..][k]) && forall j :: 0 <= j < k ==> f(keys[1..][j]).None?;
          assert forall j :: 0 <= j < k + 1 ==> f(keys[j]).None? by {
            forall j | 0 <= j < k + 1 ensures f(keys[j]).None? {
              if j > 0 { assert keys[j] == keys[1..][j - 1]; }
            }
          }
        }
      }
      r
  }

  /** Two fallbacks: the first when it is a `Some`, else the second. */
  lemma FirstSomeOfTwo<K, V>(a: K, b: K, f: K -> Option<V>)
    ensures FirstSome([a, b], f) == if f(a).Some? then f(a) else f(b)
  {
    assert [a, b][1..] == [b];
    assert [b][1..] == [];
  }

  /** Three fallbacks, tried in order. */
  lemma FirstSomeOfThree<K, V>(a: K, b: K, c: K, f: K -> Option<V>)
    ensures FirstSome([a, b, c], f) == if f(a).Some? then f(a) else if f(b).Some? then f(b) else f(c)
  {
    assert [a, b, c][1..] == [b, c];
    FirstSomeOfTwo(b, c, f);
  }
}
