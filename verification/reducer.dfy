/** The breakpoints reducer: `update(state, action)` and the transition helpers
    it dispatches to. Every transition builds a new state value. */
module Reducer {
  import opened Wrappers
  import opened Locations
  import opened BreakpointTypes
  import AssocList
  import XhrList

  /* Pointwise reference semantics: what a lookup at key `k` must return after a
     transition, stated without the association-list representation. */

  /** After storing `bp`: `bp` at its own key, the old value elsewhere. */
  ghost function Overwritten(s: BreakpointsState, bp: Breakpoint, k: LocationId): Option<Breakpoint>
  {
    if k == KeyOf(bp) then Some(bp) else AssocList.Get(s.breakpoints, k)
  }

  /** After deleting `id`: nothing at `id`, the old value elsewhere. */
  ghost function Erased(s: BreakpointsState, id: LocationId, k: LocationId): Option<Breakpoint>
  {
    if k == id then None else AssocList.Get(s.breakpoints, k)
  }

  /** After a commit: the final breakpoint at its own key; nothing at the
      provisional key unless the final breakpoint landed there; the old value
      elsewhere. */
  ghost function Committed(s: BreakpointsState, c: Commit, k: LocationId): Option<Breakpoint>
  {
    if c.breakpoint.Some? && k == KeyOf(c.breakpoint.value) then c.breakpoint
    else if c.previousLocation.Some? && k == MakeLocationId(c.previousLocation.value) then None
    else AssocList.Get(s.breakpoints, k)
  }

  /** `initialBreakpointsState(xhrBreakpoints)`: no line breakpoints. */
  function InitialBreakpointsState(xhrBreakpoints: seq<XhrBreakpoint>): (s: BreakpointsState)
    ensures Valid(s)
    ensures forall k :: AssocList.Get(s.breakpoints, k).None?
    ensures s.xhrBreakpoints == xhrBreakpoints
  {
    BreakpointsState([], xhrBreakpoints)
  }

  /** `setBreakpoint(state, locationId, breakpoint)`. */
  function SetBreakpoint(s: BreakpointsState, id: LocationId, bp: Breakpoint): (r: BreakpointsState)
    ensures AssocList.Get(r.breakpoints, id) == Some(bp)
    ensures forall k :: k != id ==> AssocList.Get(r.breakpoints, k) == AssocList.Get(s.breakpoints, k)
    ensures r.xhrBreakpoints == s.xhrBreakpoints
    ensures Valid(s) && id == KeyOf(bp) ==> Valid(r)
  {
    var r := s.(breakpoints := AssocList.Put(s.breakpoints, id, bp));
    assert Valid(s) && id == KeyOf(bp) ==> Valid(r) by {
      if Valid(s) && id == KeyOf(bp) { PutKeepsValid(s, bp); }
    }
    r
  }

  /** Storing a breakpoint under its own key keeps the store invariant. */
  lemma PutKeepsValid(s: BreakpointsState, bp: Breakpoint)
    requires Valid(s)
    ensures Valid(s.(breakpoints := AssocList.Put(s.breakpoints, KeyOf(bp), bp)))
  {
    var m := AssocList.Put(s.breakpoints, KeyOf(bp), bp);
    AssocList.PutKeepsUniqueKeys(s.breakpoints, KeyOf(bp), bp);
    forall i | 0 <= i < |m| ensures m[i].0 == KeyOf(m[i].1) {
      assert m[i] in m;
    }
  }

  /** Deletes `id` from a copy of the breakpoints map. */
  function DeleteBreakpoint(s: BreakpointsState, id: LocationId): (r: BreakpointsState)
    ensures forall k :: AssocList.Get(r.breakpoints, k) == Erased(s, id, k)
    ensures AssocList.Get(s.breakpoints, id).None? ==> r == s
    ensures r.xhrBreakpoints == s.xhrBreakpoints
    ensures Valid(s) ==> Valid(r)
  {
    var r := s.(breakpoints := AssocList.Remove(s.breakpoints, id));
    assert Valid(s) ==> Valid(r) by {
      if Valid(s) {
        AssocList.RemoveKeepsUniqueKeys(s.breakpoints, id);
        assert forall i :: 0 <= i < |r.breakpoints| ==> r.breakpoints[i] in s.breakpoints;
      }
    }
    r
  }

  /** `syncBreakpoint(state, {breakpoint, previousLocation})`: the commit. The
      provisional entry goes first, then the final breakpoint (if any) is stored. */
  function SyncBreakpoint(s: BreakpointsState, c: Commit): (r: BreakpointsState)
    ensures forall k :: AssocList.Get(r.breakpoints, k) == Committed(s, c, k)
    ensures r.xhrBreakpoints == s.xhrBreakpoints
    ensures Valid(s) ==> Valid(r)
  {
    var cleared := if c.previousLocation.Some? then DeleteBreakpoint(s, MakeLocationId(c.previousLocation.value)) else s;
    if c.breakpoint.None? then cleared
    else SetBreakpoint(cleared, KeyOf(c.breakpoint.value), c.breakpoint.value)
  }

  /** `addBreakpoint`: the optimistic add protocol, also used to enable. */
  function AddBreakpoint(s: BreakpointsState, status: AsyncStatus, pending: Option<Breakpoint>, value: Commit): (r: BreakpointsState)
    // start: provisional insert
    ensures status == Start && pending.Some? ==>
      forall k :: AssocList.Get(r.breakpoints, k) == Overwritten(s, pending.value, k)
    // done: commit
    ensures status == Done ==> forall k :: AssocList.Get(r.breakpoints, k) == Committed(s, value, k)
    // error: rollback of the provisional insert
    ensures status == Error && pending.Some? ==>
      forall k :: AssocList.Get(r.breakpoints, k) == Erased(s, KeyOf(pending.value), k)
    // any other status, or start/error without a breakpoint: nothing happens
    ensures status == OtherStatus || (status != Done && pending.None?) ==> r == s
    ensures r.xhrBreakpoints == s.xhrBreakpoints
    ensures Valid(s) ==> Valid(r)
  {
    match status
    case Start => if pending.Some? then SetBreakpoint(s, KeyOf(pending.value), pending.value) else s
    case Done => SyncBreakpoint(s, value)
    case Error => if pending.Some? then DeleteBreakpoint(s, KeyOf(pending.value)) else s
    case OtherStatus => s
  }

  /** `updateBreakpoint`: overwrite by key (disable, set condition). */
  function UpdateBreakpoint(s: BreakpointsState, bp: Breakpoint): (r: BreakpointsState)
    ensures forall k :: AssocList.Get(r.breakpoints, k) == Overwritten(s, bp, k)
    ensures r.xhrBreakpoints == s.xhrBreakpoints
    ensures Valid(s) ==> Valid(r)
  {
    SetBreakpoint(s, KeyOf(bp), bp)
  }

  /** `updateAllBreakpoints`: overwrite each listed breakpoint at its key, in list
      order; keys the list does not mention keep their breakpoint. */
  function UpdateAllBreakpoints(s: BreakpointsState, bps: seq<Breakpoint>): (r: BreakpointsState)
    ensures forall k :: AssocList.LastWithKey(bps, KeyOf, k).Some? ==>
      AssocList.Get(r.breakpoints, k) == AssocList.LastWithKey(bps, KeyOf, k)
    ensures forall k :: AssocList.LastWithKey(bps, KeyOf, k).None? ==>
      AssocList.Get(r.breakpoints, k) == AssocList.Get(s.breakpoints, k)
    ensures r.xhrBreakpoints == s.xhrBreakpoints
    ensures Valid(s) ==> Valid(r)
  {
    var r := s.(breakpoints := AssocList.PutAll(s.breakpoints, bps, KeyOf));
    assert Valid(s) ==> Valid(r) by {
      if Valid(s) {
        forall i | 0 <= i < |r.breakpoints| ensures r.breakpoints[i].0 == KeyOf(r.breakpoints[i].1) {
          assert r.breakpoints[i] in r.breakpoints;
        }
      }
    }
    r
  }

  /** `remapBreakpoints`: the map is rebuilt from the list alone; for a repeated
      key the later breakpoint wins. */
  function RemapBreakpoints(s: BreakpointsState, bps: seq<Breakpoint>): (r: BreakpointsState)
    ensures forall k :: AssocList.Get(r.breakpoints, k) == AssocList.LastWithKey(bps, KeyOf, k)
    ensures r.xhrBreakpoints == s.xhrBreakpoints
    ensures Valid(r)
  {
    var r := s.(breakpoints := AssocList.PutAll([], bps, KeyOf));
    assert Valid(r) by {
      forall i | 0 <= i < |r.breakpoints| ensures r.breakpoints[i].0 == KeyOf(r.breakpoints[i].1) {
        assert r.breakpoints[i] in r.breakpoints;
      }
    }
    r
  }

  /** Bulk overwrite keeps every stored key where it was; the keys the list adds
      follow, in the order the list first mentions them. */
  lemma UpdateAllKeepsKeyOrder(s: BreakpointsState, bps: seq<Breakpoint>)
    ensures AssocList.KeysInMentionOrder(s.breakpoints, UpdateAllBreakpoints(s, bps).breakpoints, bps, KeyOf)
  {
    AssocList.PutAllKeepsKeyOrder(s.breakpoints, bps, KeyOf);
  }

  /** The rebuilt map lists its keys in the order the list first mentions them;
      a later duplicate replaces the value at the earlier position. */
  lemma RemapKeyOrder(s: BreakpointsState, bps: seq<Breakpoint>)
    ensures AssocList.KeysInMentionOrder([], RemapBreakpoints(s, bps).breakpoints, bps, KeyOf)
  {
    AssocList.PutAllKeepsKeyOrder([], bps, KeyOf);
  }

  /** `removeBreakpoint`: delete the key of the breakpoint's location. */
  function RemoveBreakpoint(s: BreakpointsState, bp: Breakpoint): (r: BreakpointsState)
    ensures forall k :: AssocList.Get(r.breakpoints, k) == Erased(s, KeyOf(bp), k)
    ensures AssocList.Get(s.breakpoints, KeyOf(bp)).None? ==> r == s
    ensures r.xhrBreakpoints == s.xhrBreakpoints
    ensures Valid(s) ==> Valid(r)
  {
    DeleteBreakpoint(s, KeyOf(bp))
  }

  /** True when the first entry addressing the request of `x` is at index `i`. */
  ghost predicate FirstMatchAt(xs: seq<XhrBreakpoint>, x: XhrBreakpoint, i: int)
  {
    && 0 <= i < |xs|
    && SameRequest(xs[i], x)
    && forall j :: 0 <= j < i ==> !SameRequest(xs[j], x)
  }

  /** `addXHRBreakpoint`: append a new request, or replace the matching entry in
      place. */
  function AddXhrBreakpoint(s: BreakpointsState, x: XhrBreakpoint): (r: BreakpointsState)
    ensures r.breakpoints == s.breakpoints
    ensures (forall j :: 0 <= j < |s.xhrBreakpoints| ==> !SameRequest(s.xhrBreakpoints[j], x))
      ==> r.xhrBreakpoints == s.xhrBreakpoints + [x]
    ensures forall i :: FirstMatchAt(s.xhrBreakpoints, x, i) ==>
      && |r.xhrBreakpoints| == |s.xhrBreakpoints|
      && r.xhrBreakpoints[i] == x
      && forall j :: 0 <= j < |s.xhrBreakpoints| && j != i ==> r.xhrBreakpoints[j] == s.xhrBreakpoints[j]
    ensures x in r.xhrBreakpoints
    ensures XhrUnique(s.xhrBreakpoints) ==> XhrUnique(r.xhrBreakpoints)
    ensures XhrUnique(s.xhrBreakpoints) && x in s.xhrBreakpoints ==> r == s
  {
    var xs := s.xhrBreakpoints;
    var i := XhrList.FindIndex(xs, x);
    if i == -1 then s.(xhrBreakpoints := xs + [x])
    else if xs[i] != x then
      assert xs[i := x][i] == x;
      s.(xhrBreakpoints := xs[i := x])
    else s
  }

  /** `removeXHRBreakpoint`, with a miss treated as a no-op. */
  function RemoveXhrBreakpoint(s: BreakpointsState, x: XhrBreakpoint): (r: BreakpointsState)
    ensures r.breakpoints == s.breakpoints
    ensures (forall j :: 0 <= j < |s.xhrBreakpoints| ==> !SameRequest(s.xhrBreakpoints[j], x)) ==> r == s
    ensures forall i :: FirstMatchAt(s.xhrBreakpoints, x, i) ==>
      && |r.xhrBreakpoints| == |s.xhrBreakpoints| - 1
      && forall j :: 0 <= j < |r.xhrBreakpoints| ==>
           r.xhrBreakpoints[j] == (if j < i then s.xhrBreakpoints[j] else s.xhrBreakpoints[j + 1])
    ensures XhrUnique(s.xhrBreakpoints) ==>
      && XhrUnique(r.xhrBreakpoints)
      && forall j :: 0 <= j < |r.xhrBreakpoints| ==> !SameRequest(r.xhrBreakpoints[j], x)
  {
    var xs := s.xhrBreakpoints;
    var i := XhrList.FindIndex(xs, x);
    if i == -1 then s else s.(xhrBreakpoints := XhrList.Delete(xs, i))
  }

  /** `updateXHRBreakpoint`: replace the entry at the caller's index. */
  function UpdateXhrBreakpoint(s: BreakpointsState, x: XhrBreakpoint, index: int): (r: BreakpointsState)
    requires 0 <= index < |s.xhrBreakpoints|
    ensures r.breakpoints == s.breakpoints
    ensures |r.xhrBreakpoints| == |s.xhrBreakpoints| && r.xhrBreakpoints[index] == x
    ensures forall j :: 0 <= j < |s.xhrBreakpoints| && j != index ==> r.xhrBreakpoints[j] == s.xhrBreakpoints[j]
    ensures XhrUnique(s.xhrBreakpoints) && SameRequest(s.xhrBreakpoints[index], x) ==> XhrUnique(r.xhrBreakpoints)
  {
    s.(xhrBreakpoints := s.xhrBreakpoints[index := x])
  }

  /** True for the actions that act on line breakpoints only. */
  predicate LineAction(a: Action)
  {
    !(a.SetXhrBreakpoint? || a.RemoveXhrBreakpoint? || a.UpdateXhrBreakpoint?
      || a.EnableXhrBreakpoint? || a.DisableXhrBreakpoint? || a.Navigate? || a.Unrecognised?)
  }

  /** `update(state, action)`: the reducer. */
  function Update(s: BreakpointsState, a: Action): (r: BreakpointsState)
    requires Applicable(s, a)
    ensures a.Navigate? ==> r == InitialBreakpointsState([])
    ensures a.Unrecognised? ==> r == s
  {
    match a
    case AddBreakpoint(status, pending, value) => AddBreakpoint(s, status, pending, value)
    case SyncBreakpoint(c) => SyncBreakpoint(s, c)
    case EnableBreakpoint(status, pending, value) => AddBreakpoint(s, status, pending, value)
    case DisableBreakpoint(bp) => UpdateBreakpoint(s, bp)
    case DisableAllBreakpoints(bps) => UpdateAllBreakpoints(s, bps)
    case EnableAllBreakpoints(bps) => UpdateAllBreakpoints(s, bps)
    case SetBreakpointCondition(bp) => UpdateBreakpoint(s, bp)
    case RemoveBreakpoint(bp) => RemoveBreakpoint(s, bp)
    case RemapBreakpoints(bps) => RemapBreakpoints(s, bps)
    case Navigate => InitialBreakpointsState([])
    case SetXhrBreakpoint(x) => AddXhrBreakpoint(s, x)
    case RemoveXhrBreakpoint(x) => RemoveXhrBreakpoint(s, x)
    case UpdateXhrBreakpoint(x, i) => UpdateXhrBreakpoint(s, x, i)
    case EnableXhrBreakpoint(x, i) => UpdateXhrBreakpoint(s, x, i)
    case DisableXhrBreakpoint(x, i) => UpdateXhrBreakpoint(s, x, i)
    case Unrecognised(_) => s
  }

  /** Every transition of the reducer keeps the store invariant. */
  lemma UpdateKeepsValid(s: BreakpointsState, a: Action)
    requires Applicable(s, a)
    requires Valid(s)
    ensures Valid(Update(s, a))
  {
    match a
    case AddBreakpoint(status, pending, value) =>
    case SyncBreakpoint(c) =>
    case EnableBreakpoint(status, pending, value) =>
    case DisableBreakpoint(bp) =>
    case DisableAllBreakpoints(bps) =>
    case EnableAllBreakpoints(bps) =>
    case SetBreakpointCondition(bp) =>
    case RemoveBreakpoint(bp) =>
    case RemapBreakpoints(bps) =>
    case Navigate =>
    case SetXhrBreakpoint(x) =>
    case RemoveXhrBreakpoint(x) =>
    case UpdateXhrBreakpoint(x, i) =>
    case EnableXhrBreakpoint(x, i) =>
    case DisableXhrBreakpoint(x, i) =>
    case Unrecognised(_) =>
  }

  /** Line actions leave the XHR list alone; XHR actions leave the breakpoints
      map alone. */
  lemma UpdateFrame(s: BreakpointsState, a: Action)
    requires Applicable(s, a)
    ensures LineAction(a) ==> Update(s, a).xhrBreakpoints == s.xhrBreakpoints
    ensures !LineAction(a) && !a.Navigate? ==> Update(s, a).breakpoints == s.breakpoints
  {
    match a
    case AddBreakpoint(status, pending, value) =>
    case SyncBreakpoint(c) =>
    case EnableBreakpoint(status, pending, value) =>
    case DisableBreakpoint(bp) =>
    case DisableAllBreakpoints(bps) =>
    case EnableAllBreakpoints(bps) =>
    case SetBreakpointCondition(bp) =>
    case RemoveBreakpoint(bp) =>
    case RemapBreakpoints(bps) =>
    case Navigate =>
    case SetXhrBreakpoint(x) =>
    case RemoveXhrBreakpoint(x) =>
    case UpdateXhrBreakpoint(x, i) =>
    case EnableXhrBreakpoint(x, i) =>
    case DisableXhrBreakpoint(x, i) =>
    case Unrecognised(_) =>
  }
}
