/** Python list comprehensions over the exchange's record list, as functions on sequences. */
module Lists {

  datatype Option<+T> = None | Some(value: T)

  /** `[x for x in s if p(x)]`: the elements of s that satisfy p, in the order of s. */
  function Filter<T(!new)>(s: seq<T>, p: T -> bool): (r: seq<T>)
    ensures |r| <= |s|
    ensures forall x :: x in r <==> x in s && p(x)
    ensures r != [] ==> exists i :: 0 <= i < |s| && r[0] == s[i] && p(s[i]) && forall j :: 0 <= j < i ==> !p(s[j])
  {
    if s == [] then []
    else if p(s[0]) then [s[0]] + Filter(s[1..], p)
    else
      var r := Filter(s[1..], p);
      assert r != [] ==> exists i :: 0 <= i < |s| && r[0] == s[i] && p(s[i]) && forall j :: 0 <= j < i ==> !p(s[j]) by {
        if r != [] {
          var i :| 0 <= i < |s[1..]| && r[0] == s[1..][i] && p(s[1..][i]) && forall j :: 0 <= j < i ==> !p(s[1..][j]);
          assert forall j :: 0 <= j < i + 1 ==> !p(s[j]) by {
            forall j | 0 < j < i + 1 ensures !p(s[j]) { assert s[j] == s[1..][j - 1]; }
          }
        }
      }
      r
  }

  /** Filtering a list that grew by one element keeps the earlier result as a prefix:
      together with `Filter([], p) == []` this fixes the order of the result. */
  lemma {:induction false} FilterAppend<T(!new)>(s: seq<T>, x: T, p: T -> bool)
    ensures Filter(s + [x], p) == Filter(s, p) + (if p(x) then [x] else [])
  {
    if s == [] {
      assert s + [x] == [x];
    } else {
      assert (s + [x])[1..] == s[1..] + [x];
      FilterAppend(s[1..], x, p);
    }
  }

  /** `[i for i in range(len(s)) if p(s[i])]`: the positions of s whose element satisfies p,
      in increasing order. */
  function IndicesWhere<T>(s: seq<T>, p: T -> bool): (r: seq<nat>)
    ensures forall k :: 0 <= k < |r| ==> r[k] < |s|
    ensures forall a, b :: 0 <= a < b < |r| ==> r[a] < r[b]
    ensures forall i :: 0 <= i < |s| ==> (i in r <==> p(s[i]))
    ensures r == [] <==> forall i :: 0 <= i < |s| ==> !p(s[i])
  {
    if s == [] then []
    else
      var init := IndicesWhere(s[..|s| - 1], p);
      assert forall i :: 0 <= i < |s| - 1 ==> s[..|s| - 1][i] == s[i];
      if p(s[|s| - 1]) then init + [|s| - 1] else init
  }
}
