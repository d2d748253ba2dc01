/** Transitions exactly as the reducer's code performs them where that differs
    from the evident intent, with inputs that show the difference. In the plain
    object state `{breakpoints, xhrBreakpoints}`, a write or `delete` aimed at a
    location key on the state object itself never reaches the breakpoints map,
    and no query reads such a stray top-level key, so it is dropped here. */
module AsWritten {
  import opened Wrappers
  import opened Locations
  import opened BreakpointTypes
  import AssocList
  import XhrList
  import Reducer
  import Selectors
  import Properties

  /** `syncBreakpoint` as written: the `delete` of the previous key hits a copy of
      the outer state, so only the store of the final breakpoint takes effect. */
  function SyncBreakpointAsWritten(s: BreakpointsState, c: Commit): (r: BreakpointsState)
    ensures c.breakpoint.None? ==> r == s
    ensures c.breakpoint.Some? ==>
      forall k :: AssocList.Get(r.breakpoints, k) == Reducer.Overwritten(s, c.breakpoint.value, k)
  {
    if c.breakpoint.None? then s
    else Reducer.SetBreakpoint(s, KeyOf(c.breakpoint.value), c.breakpoint.value)
  }

  /** `addBreakpoint` as written: the rollback deletes from a copy of the outer
      state, so the provisional entry stays. */
  function AddBreakpointAsWritten(s: BreakpointsState, status: AsyncStatus, pending: Option<Breakpoint>, value: Commit): (r: BreakpointsState)
    ensures status == Error ==> r == s
    ensures status == Done ==> r == SyncBreakpointAsWritten(s, value)
    ensures status == Start && pending.Some? ==>
      forall k :: AssocList.Get(r.breakpoints, k) == Reducer.Overwritten(s, pending.value, k)
  {
    match status
    case Start => if pending.Some? then Reducer.SetBreakpoint(s, KeyOf(pending.value), pending.value) else s
    case Done => SyncBreakpointAsWritten(s, value)
    case Error => s
    case OtherStatus => s
  }

  /** `updateAllBreakpoints` as written: every write lands on the outer state. */
  function UpdateAllBreakpointsAsWritten(s: BreakpointsState, bps: seq<Breakpoint>): (r: BreakpointsState)
    ensures r.breakpoints == s.breakpoints
  {
    s
  }

  /** `removeXHRBreakpoint` as written: `delete(findIndex(...))` with no guard, so
      a miss deletes at index -1, the last entry. */
  function RemoveXhrBreakpointAsWritten(s: BreakpointsState, x: XhrBreakpoint): (r: BreakpointsState)
    ensures r.breakpoints == s.breakpoints
    ensures |s.xhrBreakpoints| > 0 && (forall j :: 0 <= j < |s.xhrBreakpoints| ==> !SameRequest(s.xhrBreakpoints[j], x))
      ==> r.xhrBreakpoints == s.xhrBreakpoints[..|s.xhrBreakpoints| - 1]
    ensures |s.xhrBreakpoints| == 0 ==> r == s
  {
    var xs := s.xhrBreakpoints;
    var r := s.(xhrBreakpoints := XhrList.Delete(xs, XhrList.FindIndex(xs, x)));
    assert |xs| > 0 && XhrList.FindIndex(xs, x) == -1 ==> r.xhrBreakpoints == xs[..|xs| - 1];
    r
  }

  /** Rollback as written leaves the provisional entry in place, where the
      intended rollback restores the state. */
  lemma RollbackAsWrittenKeepsEntry(s: BreakpointsState, bp: Breakpoint, v1: Commit, v2: Commit)
    requires AssocList.Get(s.breakpoints, KeyOf(bp)).None?
    ensures
      var s1 := AddBreakpointAsWritten(s, Start, Some(bp), v1);
      AssocList.Get(AddBreakpointAsWritten(s1, Error, Some(bp), v2).breakpoints, KeyOf(bp)) == Some(bp)
    ensures
      var s1 := Reducer.AddBreakpoint(s, Start, Some(bp), v1);
      Reducer.AddBreakpoint(s1, Error, Some(bp), v2) == s
  {
    AssocList.RemoveUndoesPut(s.breakpoints, KeyOf(bp), bp);
  }

  /** A relocating commit as written keeps the stale provisional entry beside the
      final one, so one breakpoint appears twice. */
  lemma RelocationAsWrittenKeepsStaleEntry(s: BreakpointsState, bp: Breakpoint, moved: Breakpoint, v: Commit)
    requires KeyOf(moved) != KeyOf(bp)
    ensures
      var s1 := AddBreakpointAsWritten(s, Start, Some(bp), v);
      var s2 := AddBreakpointAsWritten(s1, Done, None, Commit(Some(moved), Some(bp.location)));
      && AssocList.Get(s2.breakpoints, KeyOf(bp)) == Some(bp)
      && AssocList.Get(s2.breakpoints, KeyOf(moved)) == Some(moved)
  {
  }

  /** "Disable all" as written leaves an enabled breakpoint enabled, so the
      disabled aggregate stays false. */
  lemma DisableAllAsWrittenHasNoEffect(s: BreakpointsState, i: int)
    requires 0 <= i < |s.breakpoints| && !s.breakpoints[i].1.disabled
    ensures !Selectors.GetBreakpointsDisabled(UpdateAllBreakpointsAsWritten(s, Properties.DisabledCopies(s.breakpoints)))
  {
  }

  /** Removing an unknown request as written drops the last XHR breakpoint. */
  lemma RemoveXhrMissAsWrittenDropsLast(path: string, other: string)
    requires path != other
    ensures
      var s := BreakpointsState([], [XhrBreakpoint(path, "GET", false)]);
      var x := XhrBreakpoint(other, "GET", false);
      && RemoveXhrBreakpointAsWritten(s, x).xhrBreakpoints == []
      && Reducer.RemoveXhrBreakpoint(s, x) == s
  {
  }
}
