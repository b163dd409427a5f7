/** Sums over the elements of a sequence. */
module Counting {
  function Sum<T>(s: seq<T>, f: T -> int): int {
    if s == [] then 0 else Sum(s[..|s| - 1], f) + f(s[|s| - 1])
  }

  lemma {:induction false} SumUpdate<T>(s: seq<T>, i: nat, x: T, f: T -> int)
    requires i < |s|
    ensures Sum(s[i := x], f) == Sum(s, f) - f(s[i]) + f(x)
  {
    var last := |s| - 1;
    if i == last {
      assert s[i := x][..last] == s[..last];
    } else {
      SumUpdate(s[..last], i, x, f);
      assert s[i := x][..last] == s[..last][i := x];
    }
  }

  lemma SumAppend<T>(s: seq<T>, x: T, f: T -> int)
    ensures Sum(s + [x], f) == Sum(s, f) + f(x)
  {
    assert (s + [x])[..|s|] == s;
  }

  lemma {:induction false} SumRemove<T>(s: seq<T>, i: nat, f: T -> int)
    requires i < |s|
    ensures Sum(s[..i] + s[i + 1..], f) == Sum(s, f) - f(s[i])
  {
    var last := |s| - 1;
    var r := s[..i] + s[i + 1..];
    if i == last {
      assert r == s[..last];
    } else {
      SumRemove(s[..last], i, f);
      assert r[..last - 1] == s[..last][..i] + s[..last][i + 1..];
    }
  }

  /** An element that counts makes the sum positive, and the other way round. */
  lemma {:induction false} SumIsPositive<T>(s: seq<T>, f: T -> int)
    requires forall i :: 0 <= i < |s| ==> f(s[i]) >= 0
    ensures Sum(s, f) > 0 <==> exists i :: 0 <= i < |s| && f(s[i]) > 0
    ensures Sum(s, f) >= 0
  {
    if s != [] {
      var last := |s| - 1;
      assert forall i :: 0 <= i < last ==> s[..last][i] == s[i];
      SumIsPositive(s[..last], f);
      if Sum(s, f) > 0 {
        if f(s[last]) == 0 {
          var i :| 0 <= i < last && f(s[..last][i]) > 0;
          assert f(s[i]) > 0;
        }
      } else {
        forall i | 0 <= i < |s| ensures f(s[i]) <= 0 {
          assert i < last ==> f(s[..last][i]) <= 0;
        }
      }
    }
  }

  /** Functions that agree on the elements have the same sum. */
  lemma {:induction false} SumAgrees<T>(s: seq<T>, f: T -> int, g: T -> int)
    requires forall i :: 0 <= i < |s| ==> f(s[i]) == g(s[i])
    ensures Sum(s, f) == Sum(s, g)
  {
    if s != [] {
      SumAgrees(s[..|s| - 1], f, g);
    }
  }
}
