/** Small shared vocabulary: JavaScript's `null`-or-value as Option, and the
    facts about duplicate-free sequences that several boards rely on. */
module Common {

  /** A value that may be absent (`null` / `undefined` in the components). */
  datatype Option<+T> = None | Some(value: T)

  /** No element occurs twice. */
  predicate NoDup<T(==)>(s: seq<T>)
  {
    forall i, j :: 0 <= i < j < |s| ==> s[i] != s[j]
  }

  /** The set of elements of a sequence (what `new Set(s)` holds). */
  function Elems<T>(s: seq<T>): set<T>
  {
    set x | x in s
  }

  /** A sequence has at least as many positions as distinct elements, and
      exactly as many when it has no duplicates. */
  lemma {:induction false} ElemsCard<T>(s: seq<T>)
    ensures |Elems(s)| <= |s|
    ensures NoDup(s) <==> |Elems(s)| == |s|
  {
    if s != [] {
      var t := s[..|s| - 1];
      var x := s[|s| - 1];
      ElemsCard(t);
      assert s == t + [x];
      assert Elems(s) == Elems(t) + {x};
      if NoDup(s) {
        assert NoDup(t) by {
          forall i, j | 0 <= i < j < |t| ensures t[i] != t[j] {
            assert s[i] == t[i] && s[j] == t[j];
          }
        }
        assert x !in Elems(t) by {
          forall k | 0 <= k < |t| ensures t[k] != x {
            assert s[k] == t[k];
          }
        }
      } else if x in Elems(t) {
        assert Elems(t) + {x} == Elems(t);
      } else {
        assert |Elems(s)| == |Elems(t)| + 1;
        if |Elems(s)| == |s| {
          assert NoDup(t);
          forall i, j | 0 <= i < j < |s| ensures s[i] != s[j] {
            if j < |t| {
              assert s[i] == t[i] && s[j] == t[j];
            } else {
              assert s[i] == t[i] && t[i] in Elems(t);
            }
          }
        }
      }
    }
  }

  /** A subset is no larger than its superset. */
  lemma SubsetCard<T>(a: set<T>, b: set<T>)
    requires a <= b
    ensures |a| <= |b|
  {
    assert b == a + (b - a);
    assert a !! (b - a);
  }

  /** A subset at least as large as its superset is the superset. */
  lemma SubsetCardEq<T>(a: set<T>, b: set<T>)
    requires a <= b && |b| <= |a|
    ensures a == b
  {
    assert b == a + (b - a);
    assert a !! (b - a);
    assert |b - a| == 0;
    assert b - a == {};
  }

  /** The integers 0 .. n-1. */
  function Range(n: nat): (r: set<int>)
    ensures |r| == n
    ensures forall k :: k in r <==> 0 <= k < n
  {
    if n == 0 then {} else Range(n - 1) + {n - 1}
  }
}
