/** Reading a result set whose row order the database does not promise. */
module Enumeration {
  /** Each element of `s` exactly once, in some order. */
  method Enumerate<T>(s: set<T>) returns (xs: seq<T>)
    ensures (set x | x in xs) == s
    ensures |xs| == |s|
    ensures forall i, j :: 0 <= i < j < |xs| ==> xs[i] != xs[j]
  {
    var remaining := s;
    xs := [];
    while remaining != {}
      invariant (set x | x in xs) + remaining == s
      invariant forall x :: x in xs ==> x !in remaining
      invariant |xs| + |remaining| == |s|
      invariant forall i, j :: 0 <= i < j < |xs| ==> xs[i] != xs[j]
      decreases |remaining|
    {
      var x :| x in remaining;
      xs := xs + [x];
      remaining := remaining - {x};
    }
  }
}
