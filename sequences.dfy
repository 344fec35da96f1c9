/** Facts about sequences used as Python lists: duplicates, order, and the set a list converts to. */
module Sequences {

  /** No element occurs twice. */
  ghost predicate NoDuplicates<T>(s: seq<T>) {
    forall i, j :: 0 <= i < j < |s| ==> s[i] != s[j]
  }

  /** r can be obtained from s by deleting elements, keeping the order of the rest. */
  ghost predicate IsSubsequence<T>(r: seq<T>, s: seq<T>)
    decreases |s|
  {
    if r == [] then true
    else if s == [] then false
    else
      (r[|r| - 1] == s[|s| - 1] && IsSubsequence(r[..|r| - 1], s[..|s| - 1]))
      || IsSubsequence(r, s[..|s| - 1])
  }

  /** Python's set(s). */
  function Elems<T>(s: seq<T>): set<T> {
    set x | x in s
  }

  /** set(s) never has more elements than the list s, and exactly as many when s has no duplicates. */
  lemma {:induction false} CardElems<T>(s: seq<T>)
    ensures |Elems(s)| <= |s|
    ensures |Elems(s)| == |s| <==> NoDuplicates(s)
  {
    if s == [] {
    } else {
      var t := s[..|s| - 1];
      var x := s[|s| - 1];
      CardElems(t);
      assert s == t + [x];
      assert Elems(s) == Elems(t) + {x};
      if x in t {
        assert Elems(s) == Elems(t);
        var k :| 0 <= k < |t| && t[k] == x;
        assert s[k] == s[|s| - 1];
        assert !NoDuplicates(s);
      } else {
        assert |Elems(s)| == |Elems(t)| + 1;
        if NoDuplicates(t) {
          forall i, j | 0 <= i < j < |s| ensures s[i] != s[j] {
            if j == |s| - 1 {
              assert s[i] == t[i];
            } else {
              assert s[i] == t[i] && s[j] == t[j];
            }
          }
        } else {
          var i, j :| 0 <= i < j < |t| && t[i] == t[j];
          assert s[i] == s[j];
        }
      }
    }
  }
}
