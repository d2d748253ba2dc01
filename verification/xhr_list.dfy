/** The Immutable.js `List` operations the XHR breakpoint actions use. */
module XhrList {
  import opened BreakpointTypes

  /** `findIndex(bp => bp.path === path && bp.method === method)`: the first
      entry addressing the same request as `x`, or -1. */
  function FindIndex(xs: seq<XhrBreakpoint>, x: XhrBreakpoint): (r: int)
    ensures -1 <= r < |xs|
    ensures r == -1 <==> forall i :: 0 <= i < |xs| ==> !SameRequest(xs[i], x)
    ensures r >= 0 ==> SameRequest(xs[r], x) && forall j :: 0 <= j < r ==> !SameRequest(xs[j], x)
  {
    if |xs| == 0 then -1
    else if SameRequest(xs[0], x) then 0
    else
      var r := FindIndex(xs[1..], x);
      assert forall i :: 1 <= i < |xs| ==> xs[i] == xs[1..][i - 1];
      if r == -1 then -1 else r + 1
  }

  /** `List.delete(index)`: a negative index counts from the end, and an index
      outside the list leaves it unchanged. */
  function Delete(xs: seq<XhrBreakpoint>, index: int): (r: seq<XhrBreakpoint>)
    ensures -|xs| <= index < |xs| ==> |r| == |xs| - 1
    ensures !(-|xs| <= index < |xs|) ==> r == xs
    // the survivors keep their relative order
    ensures -|xs| <= index < |xs| ==>
      var w := if index < 0 then index + |xs| else index;
      forall j :: 0 <= j < |r| ==> r[j] == (if j < w then xs[j] else xs[j + 1])
  {
    if -|xs| <= index < |xs| then
      var w := if index < 0 then index + |xs| else index;
      xs[..w] + xs[w + 1..]
    else xs
  }
}
