/** Sums of lists. */
module Sums {

  function Sum(s: seq<real>): real {
    if |s| == 0 then 0.0 else Sum(s[..|s| - 1]) + s[|s| - 1]
  }

  lemma SumOne(x: real)
    ensures Sum([x]) == x
  {
    assert [x][..0] == [];
  }

  lemma {:induction false} SumAppend(s: seq<real>, t: seq<real>)
    ensures Sum(s + t) == Sum(s) + Sum(t)
    decreases |t|
  {
    if |t| == 0 {
      assert s + t == s;
    } else {
      var last := |t| - 1;
      assert (s + t)[..|s| + last] == s + t[..last];
      SumAppend(s, t[..last]);
    }
  }

  lemma {:induction false} SumPositive(s: seq<real>)
    requires forall k :: 0 <= k < |s| ==> s[k] > 0.0
    ensures Sum(s) >= 0.0
    ensures Sum(s) == 0.0 <==> s == []
  {
    if |s| > 0 {
      SumPositive(s[..|s| - 1]);
    }
  }
}
