/** Generic facts about sequences: first occurrences and duplicate-free
    first-seen order. */
module Sequences {

  /** `$keys[$k] = true`: a key not yet present goes to the end, a present one
      stays where it is. */
  function AddNew<T(==)>(seen: seq<T>, x: T): seq<T>
  {
    if x in seen then seen else seen + [x]
  }

  /** The elements of s without repetition, in the order of first occurrence. */
  function FirstSeen<T(==)>(s: seq<T>): seq<T>
  {
    if s == [] then [] else AddNew(FirstSeen(s[..|s| - 1]), s[|s| - 1])
  }

  lemma FirstSeenSnoc<T>(s: seq<T>, x: T)
    ensures FirstSeen(s + [x]) == AddNew(FirstSeen(s), x)
  {
    assert (s + [x])[..|s|] == s;
  }

  /** Position of the first occurrence of x in s. */
  function IndexOf<T(==)>(s: seq<T>, x: T): (i: nat)
    requires x in s
    ensures i < |s| && s[i] == x
    ensures forall j :: 0 <= j < i ==> s[j] != x
  {
    if s[0] == x then 0 else 1 + IndexOf(s[1..], x)
  }

  lemma IndexOfPrefix<T>(s: seq<T>, t: seq<T>, x: T)
    requires x in s
    ensures x in s + t && IndexOf(s + t, x) == IndexOf(s, x)
  {
    var i := IndexOf(s, x);
    assert (s + t)[i] == x;
  }

  /** First-seen order is duplicate-free, keeps exactly the elements of s,
      orders them by first occurrence in s, and only grows at the end when s
      does. */
  lemma {:induction false} FirstSeenSpec<T>(s: seq<T>)
    ensures forall x :: x in FirstSeen(s) <==> x in s
    ensures forall p, q :: 0 <= p < q < |FirstSeen(s)| ==> FirstSeen(s)[p] != FirstSeen(s)[q]
    ensures forall p, q :: 0 <= p < q < |FirstSeen(s)| ==>
      FirstSeen(s)[p] in s && FirstSeen(s)[q] in s && IndexOf(s, FirstSeen(s)[p]) < IndexOf(s, FirstSeen(s)[q])
  {
    if s != [] {
      var init, x := s[..|s| - 1], s[|s| - 1];
      assert s == init + [x];
      FirstSeenSpec(init);
      var d := FirstSeen(init);
      assert FirstSeen(s) == AddNew(d, x);
      forall y | y in init ensures y in s && IndexOf(s, y) == IndexOf(init, y) {
        IndexOfPrefix(init, [x], y);
      }
      if x !in d {
        assert x !in init;
        assert IndexOf(s, x) == |init| by {
          assert s[|init|] == x;
          assert forall j :: 0 <= j < |init| ==> s[j] == init[j];
        }
        forall p | 0 <= p < |d| ensures IndexOf(s, d[p]) < IndexOf(s, x) {
          assert d[p] in init;
        }
      }
    }
  }

  /** Keys collected from earlier rows keep their columns when more rows follow. */
  lemma {:induction false} FirstSeenPrefix<T>(s: seq<T>, t: seq<T>)
    ensures |FirstSeen(s)| <= |FirstSeen(s + t)|
    ensures FirstSeen(s + t)[..|FirstSeen(s)|] == FirstSeen(s)
    decreases |t|
  {
    if t == [] {
      assert s + t == s;
    } else {
      var u, y := t[..|t| - 1], t[|t| - 1];
      assert s + t == (s + u) + [y];
      FirstSeenSnoc(s + u, y);
      FirstSeenPrefix(s, u);
    }
  }

  predicate Distinct<T(==)>(s: seq<T>)
  {
    forall p, q :: 0 <= p < q < |s| ==> s[p] != s[q]
  }
}
