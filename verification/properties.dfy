/** Properties of the reducer that relate several transitions, or a transition
    and a query. */
module Properties {
  import opened Wrappers
  import opened Locations
  import opened BreakpointTypes
  import AssocList
  import XhrList
  import Reducer
  import Selectors

  /** The actions that overwrite one breakpoint by key: a provisional add or
      enable, a disable, a condition change. */
  predicate OverwriteOf(a: Action, bp: Breakpoint)
  {
    || (a.AddBreakpoint? && a.status == Start && a.pending == Some(bp))
    || (a.EnableBreakpoint? && a.status == Start && a.pending == Some(bp))
    || (a.DisableBreakpoint? && a.breakpoint == bp)
    || (a.SetBreakpointCondition? && a.breakpoint == bp)
  }

  /** An overwrite places the breakpoint at its key, leaves every other key and
      the XHR list alone, and the location lookup then returns it. */
  lemma OverwriteByKey(s: BreakpointsState, a: Action, bp: Breakpoint)
    requires OverwriteOf(a, bp)
    ensures AssocList.Get(Reducer.Update(s, a).breakpoints, KeyOf(bp)) == Some(bp)
    ensures forall k :: k != KeyOf(bp) ==>
      AssocList.Get(Reducer.Update(s, a).breakpoints, k) == AssocList.Get(s.breakpoints, k)
    ensures Reducer.Update(s, a).xhrBreakpoints == s.xhrBreakpoints
    ensures Selectors.GetBreakpoint(Reducer.Update(s, a), bp.location) == Some(bp)
  {
  }

  /** Applicability of every step of an action sequence. */
  ghost predicate RunApplicable(s: BreakpointsState, acts: seq<Action>)
    decreases |acts|
  {
    |acts| == 0 || (Applicable(s, acts[0]) && RunApplicable(Reducer.Update(s, acts[0]), acts[1..]))
  }

  /** Dispatching a sequence of actions in order. */
  function Run(s: BreakpointsState, acts: seq<Action>): BreakpointsState
    requires RunApplicable(s, acts)
    decreases |acts|
  {
    if |acts| == 0 then s else Run(Reducer.Update(s, acts[0]), acts[1..])
  }

  /** The store invariant (one entry per key, each breakpoint under its own
      location's key) holds after any sequence of actions from the initial state. */
  lemma {:induction false} RunPreservesValid(s: BreakpointsState, acts: seq<Action>)
    requires Valid(s) && RunApplicable(s, acts)
    ensures Valid(Run(s, acts))
    decreases |acts|
  {
    if |acts| > 0 {
      Reducer.UpdateKeepsValid(s, acts[0]);
      RunPreservesValid(Reducer.Update(s, acts[0]), acts[1..]);
    }
  }

  /** Repeated overwrites of one location leave exactly one entry at its key,
      holding the most recently applied breakpoint. */
  lemma {:induction false} RepeatedOverwritesKeepOneEntry(s: BreakpointsState, acts: seq<Action>, bps: seq<Breakpoint>, k: LocationId)
    requires Valid(s)
    requires |acts| == |bps| > 0
    requires forall i :: 0 <= i < |acts| ==> OverwriteOf(acts[i], bps[i]) && KeyOf(bps[i]) == k
    ensures RunApplicable(s, acts)
    ensures Valid(Run(s, acts))
    ensures AssocList.Get(Run(s, acts).breakpoints, k) == Some(bps[|bps| - 1])
    ensures forall j :: 0 <= j < |Run(s, acts).breakpoints| && Run(s, acts).breakpoints[j].0 == k ==>
      Run(s, acts).breakpoints[j].1 == bps[|bps| - 1]
    decreases |acts|
  {
    var s1 := Reducer.Update(s, acts[0]);
    OverwriteByKey(s, acts[0], bps[0]);
    Reducer.UpdateKeepsValid(s, acts[0]);
    if |acts| > 1 {
      RepeatedOverwritesKeepOneEntry(s1, acts[1..], bps[1..], k);
    }
    var r := Run(s, acts);
    forall j | 0 <= j < |r.breakpoints| && r.breakpoints[j].0 == k
      ensures r.breakpoints[j].1 == bps[|bps| - 1]
    {
      AssocList.GetExactlyStored(r.breakpoints, k, r.breakpoints[j].1);
    }
  }

  /** Rollback undoes a provisional add exactly, when the key was free. */
  lemma StartThenErrorRestores(s: BreakpointsState, bp: Breakpoint, v1: Commit, v2: Commit)
    requires AssocList.Get(s.breakpoints, KeyOf(bp)).None?
    ensures Reducer.Update(Reducer.Update(s, AddBreakpoint(Start, Some(bp), v1)), AddBreakpoint(Error, Some(bp), v2)) == s
  {
    AssocList.RemoveUndoesPut(s.breakpoints, KeyOf(bp), bp);
  }

  /** A commit whose breakpoint moved: nothing is left at the provisional key,
      the final breakpoint is at its own key, and every other key is as before
      the provisional add. */
  lemma CommitRelocates(s: BreakpointsState, bp: Breakpoint, moved: Breakpoint, v: Commit, pending: Option<Breakpoint>)
    requires KeyOf(moved) != KeyOf(bp)
    ensures
      var s1 := Reducer.Update(s, AddBreakpoint(Start, Some(bp), v));
      var s2 := Reducer.Update(s1, AddBreakpoint(Done, pending, Commit(Some(moved), Some(bp.location))));
      && AssocList.Get(s2.breakpoints, KeyOf(bp)).None?
      && AssocList.Get(s2.breakpoints, KeyOf(moved)) == Some(moved)
      && (forall k :: k != KeyOf(bp) && k != KeyOf(moved) ==>
            AssocList.Get(s2.breakpoints, k) == AssocList.Get(s.breakpoints, k))
      && s2.xhrBreakpoints == s.xhrBreakpoints
  {
  }

  /** A commit without a breakpoint only removes the provisional entry. */
  lemma CommitWithoutBreakpointRemoves(s: BreakpointsState, previous: Location)
    ensures
      var r := Reducer.Update(s, SyncBreakpoint(Commit(None, Some(previous))));
      && AssocList.Get(r.breakpoints, MakeLocationId(previous)).None?
      && (forall k :: k != MakeLocationId(previous) ==>
            AssocList.Get(r.breakpoints, k) == AssocList.Get(s.breakpoints, k))
      && |r.breakpoints| <= |s.breakpoints|
  {
  }

  /** Remap replaces the whole map: for two breakpoints at distinct keys, the map
      is exactly those two entries, in list order; at one key, the later wins. */
  lemma RemapReplacesWholesale(s: BreakpointsState, b1: Breakpoint, b2: Breakpoint)
    ensures KeyOf(b1) != KeyOf(b2) ==>
      Reducer.Update(s, RemapBreakpoints([b1, b2])).breakpoints == [(KeyOf(b1), b1), (KeyOf(b2), b2)]
    ensures KeyOf(b1) == KeyOf(b2) ==>
      Reducer.Update(s, RemapBreakpoints([b1, b2])).breakpoints == [(KeyOf(b2), b2)]
  {
    AssocList.PutAllPair(b1, b2, KeyOf);
  }

  /** The given breakpoints with `disabled` set: the payload of "disable all". */
  function DisabledCopies(m: BreakpointsMap): (bps: seq<Breakpoint>)
    ensures |bps| == |m|
    ensures forall i :: 0 <= i < |m| ==> bps[i].disabled && KeyOf(bps[i]) == KeyOf(m[i].1)
  {
    seq(|m|, i requires 0 <= i < |m| => m[i].1.(disabled := true))
  }

  /** Disabling a disabled copy of every stored breakpoint makes the disabled
      aggregate true. */
  lemma DisableAllDisablesEverything(s: BreakpointsState)
    requires Valid(s)
    ensures Selectors.GetBreakpointsDisabled(Reducer.Update(s, DisableAllBreakpoints(DisabledCopies(s.breakpoints))))
  {
    var bps := DisabledCopies(s.breakpoints);
    var r := Reducer.Update(s, DisableAllBreakpoints(bps));
    forall i | 0 <= i < |r.breakpoints| ensures r.breakpoints[i].1.disabled {
      var (k, v) := r.breakpoints[i];
      AssocList.GetExactlyStored(r.breakpoints, k, v);
      assert AssocList.LastWithKey(bps, KeyOf, k).Some?;
    }
  }

  /** The disabled aggregate on a map with an enabled and a disabled breakpoint,
      and the loading aggregate on the empty map. */
  lemma AggregatesOnSmallMaps(s: BreakpointsState, k1: LocationId, b1: Breakpoint, k2: LocationId, b2: Breakpoint)
    requires s.breakpoints == [(k1, b1), (k2, b2)] && !b1.disabled && b2.disabled
    ensures !Selectors.GetBreakpointsDisabled(s)
    ensures !Selectors.GetBreakpointsLoading(Reducer.InitialBreakpointsState([]))
    ensures Selectors.GetBreakpointsDisabled(Reducer.InitialBreakpointsState([]))
  {
  }

  /** The loading aggregate across a provisional add and its commit, starting from
      the empty store. */
  lemma LoadingAcrossAddAndCommit(bp: Breakpoint, final: Breakpoint, v: Commit)
    requires bp.loading && !final.loading && KeyOf(final) == KeyOf(bp)
    ensures
      var s1 := Reducer.Update(Reducer.InitialBreakpointsState([]), AddBreakpoint(Start, Some(bp), v));
      var s2 := Reducer.Update(s1, AddBreakpoint(Done, None, Commit(Some(final), Some(bp.location))));
      && Selectors.GetBreakpointsLoading(s1)
      && Selectors.GetBreakpoint(s1, bp.location) == Some(bp)
      && !Selectors.GetBreakpointsLoading(s2)
      && Selectors.GetBreakpoint(s2, bp.location) == Some(final)
  {
    var s1 := Reducer.Update(Reducer.InitialBreakpointsState([]), AddBreakpoint(Start, Some(bp), v));
    var s2 := Reducer.Update(s1, AddBreakpoint(Done, None, Commit(Some(final), Some(bp.location))));
    assert s1.breakpoints == [(KeyOf(bp), bp)];
    assert s2.breakpoints == [(KeyOf(final), final)];
  }

  /** Source queries partition by effective location. With two stored
      breakpoints, the original id `o1` of the first selects only the first when
      it is not a generated id and the second lies elsewhere; the generated id
      `g1` of the first selects only the first when it is a generated id and the
      second's generated source differs. The first holds whether or not `g1`
      equals `o1`. */
  lemma ForSourcePartitions(s: BreakpointsState, isGenerated: string -> bool, b1: Breakpoint, b2: Breakpoint)
    requires s.breakpoints == [(KeyOf(b1), b1), (KeyOf(b2), b2)]
    ensures var o1 := b1.location.sourceId;
      o1 != "" && !isGenerated(o1) && o1 != b2.location.sourceId ==>
        Selectors.GetBreakpointsForSource(s, isGenerated, o1) == [b1]
    ensures b1.generatedLocation.Some? && b2.generatedLocation.Some? ==>
      var g1, g2 := b1.generatedLocation.value.sourceId, b2.generatedLocation.value.sourceId;
      g1 != "" && isGenerated(g1) && g1 != g2 ==>
        Selectors.GetBreakpointsForSource(s, isGenerated, g1) == [b1]
  {
    var m := s.breakpoints;
    assert m[1..] == [(KeyOf(b2), b2)];
    assert m[1..][1..] == [];
    var o1 := b1.location.sourceId;
    if o1 != "" && !isGenerated(o1) && o1 != b2.location.sourceId {
      assert Selectors.FilterSource(m[1..], false, o1) == [];
      assert Selectors.FilterSource(m, false, o1) == [b1];
    }
    if b1.generatedLocation.Some? && b2.generatedLocation.Some? {
      var g1 := b1.generatedLocation.value.sourceId;
      if g1 != "" && isGenerated(g1) && g1 != b2.generatedLocation.value.sourceId {
        assert Selectors.FilterSource(m[1..], true, g1) == [];
        assert Selectors.FilterSource(m, true, g1) == [b1];
      }
    }
  }

  /** Setting the same XHR breakpoint twice is the same as setting it once. */
  lemma SetXhrIdempotent(s: BreakpointsState, x: XhrBreakpoint)
    ensures Reducer.Update(Reducer.Update(s, SetXhrBreakpoint(x)), SetXhrBreakpoint(x)) == Reducer.Update(s, SetXhrBreakpoint(x))
  {
    var xs := s.xhrBreakpoints;
    var r := Reducer.Update(s, SetXhrBreakpoint(x));
    var i := XhrList.FindIndex(xs, x);
    var n := if i == -1 then |xs| else i;
    assert r.xhrBreakpoints[n] == x;
    assert forall j :: 0 <= j < n ==> r.xhrBreakpoints[j] == xs[j];
    assert XhrList.FindIndex(r.xhrBreakpoints, x) == n;
  }

  /** Removing a request that was just appended restores the state. */
  lemma RemoveXhrUndoesSet(s: BreakpointsState, x: XhrBreakpoint)
    requires forall j :: 0 <= j < |s.xhrBreakpoints| ==> !SameRequest(s.xhrBreakpoints[j], x)
    ensures Reducer.Update(Reducer.Update(s, SetXhrBreakpoint(x)), RemoveXhrBreakpoint(x)) == s
  {
    var r := Reducer.AddXhrBreakpoint(s, x);
    SetXhrDispatches(s, x);
    RemoveXhrDispatches(r, x);
    RemoveUndoesAppend(s, x);
  }

  /** The reducer hands `SET_XHR_BREAKPOINT` to `addXHRBreakpoint`. */
  lemma SetXhrDispatches(s: BreakpointsState, x: XhrBreakpoint)
    ensures Reducer.Update(s, SetXhrBreakpoint(x)) == Reducer.AddXhrBreakpoint(s, x)
  {
  }

  /** The reducer hands `REMOVE_XHR_BREAKPOINT` to `removeXHRBreakpoint`. */
  lemma RemoveXhrDispatches(s: BreakpointsState, x: XhrBreakpoint)
    ensures Reducer.Update(s, RemoveXhrBreakpoint(x)) == Reducer.RemoveXhrBreakpoint(s, x)
  {
  }

  /** The step of `RemoveXhrUndoesSet` stated on the transition helpers. */
  lemma RemoveUndoesAppend(s: BreakpointsState, x: XhrBreakpoint)
    requires forall j :: 0 <= j < |s.xhrBreakpoints| ==> !SameRequest(s.xhrBreakpoints[j], x)
    ensures Reducer.RemoveXhrBreakpoint(Reducer.AddXhrBreakpoint(s, x), x) == s
  {
    var xs := s.xhrBreakpoints;
    var r := Reducer.AddXhrBreakpoint(s, x);
    assert r.xhrBreakpoints == xs + [x];
    assert forall j :: 0 <= j < |xs| ==> r.xhrBreakpoints[j] == xs[j];
    assert Reducer.FirstMatchAt(r.xhrBreakpoints, x, |xs|);
    assert Reducer.RemoveXhrBreakpoint(r, x).xhrBreakpoints == xs;
  }
}
