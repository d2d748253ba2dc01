/** The read-only queries over a breakpoints state. Enumeration follows key
    order, which is the order of the association list. */
module Selectors {
  import opened Wrappers
  import opened Locations
  import opened BreakpointTypes
  import AssocList

  /** `getBreakpoints`: the map (its shallow copy is the same value here). */
  function GetBreakpoints(s: BreakpointsState): BreakpointsMap
  {
    s.breakpoints
  }

  /** `getBreakpoint(state, location)`: exact lookup by location key. */
  function GetBreakpoint(s: BreakpointsState, loc: Location): (r: Option<Breakpoint>)
    ensures r.None? <==> forall i :: 0 <= i < |s.breakpoints| ==> s.breakpoints[i].0 != MakeLocationId(loc)
    ensures r.Some? ==> (MakeLocationId(loc), r.value) in s.breakpoints
    ensures Valid(s) ==> forall bp :: r == Some(bp) <==> (MakeLocationId(loc), bp) in s.breakpoints
    ensures Valid(s) && r.Some? ==> KeyOf(r.value) == MakeLocationId(loc)
  {
    var r := AssocList.Get(s.breakpoints, MakeLocationId(loc));
    assert Valid(s) ==> forall bp :: r == Some(bp) <==> (MakeLocationId(loc), bp) in s.breakpoints by {
      if Valid(s) {
        forall bp ensures r == Some(bp) <==> (MakeLocationId(loc), bp) in s.breakpoints {
          AssocList.GetExactlyStored(s.breakpoints, MakeLocationId(loc), bp);
        }
      }
    }
    r
  }

  /** `every(bp => bp.disabled)` over the values in key order. */
  function AllDisabled(m: BreakpointsMap): (r: bool)
    ensures r <==> forall i :: 0 <= i < |m| ==> m[i].1.disabled
  {
    if |m| == 0 then true
    else
      assert forall i :: 1 <= i < |m| ==> m[i] == m[1..][i - 1];
      m[0].1.disabled && AllDisabled(m[1..])
  }

  /** `some(bp => bp.loading)` over the values in key order. */
  function AnyLoading(m: BreakpointsMap): (r: bool)
    ensures r <==> exists i :: 0 <= i < |m| && m[i].1.loading
  {
    if |m| == 0 then false
    else
      assert forall i :: 1 <= i < |m| ==> m[i] == m[1..][i - 1];
      m[0].1.loading || AnyLoading(m[1..])
  }

  /** `getBreakpointsDisabled`: every breakpoint is disabled (so an empty map
      counts as all disabled). */
  function GetBreakpointsDisabled(s: BreakpointsState): (r: bool)
    ensures r <==> forall i :: 0 <= i < |s.breakpoints| ==> s.breakpoints[i].1.disabled
    ensures |s.breakpoints| == 0 ==> r
  {
    AllDisabled(s.breakpoints)
  }

  /** `getBreakpointsLoading`: some breakpoint is loading (so never on an empty map). */
  function GetBreakpointsLoading(s: BreakpointsState): (r: bool)
    ensures r <==> exists i :: 0 <= i < |s.breakpoints| && s.breakpoints[i].1.loading
    ensures r ==> |s.breakpoints| > 0
  {
    AnyLoading(s.breakpoints)
  }

  /** The location a query for a source of the given kind looks at: the
      generated location for a generated source when there is one, the original
      location otherwise. */
  function EffectiveLocation(bp: Breakpoint, generatedSource: bool): Location
  {
    if generatedSource && bp.generatedLocation.Some? then bp.generatedLocation.value else bp.location
  }

  /** Whether `bp` belongs to `sourceId`, given whether that id is a generated one. */
  predicate InSource(bp: Breakpoint, generatedSource: bool, sourceId: string)
  {
    EffectiveLocation(bp, generatedSource).sourceId == sourceId
  }

  /** `filter` by effective source over the values in key order. */
  function FilterSource(m: BreakpointsMap, generatedSource: bool, sourceId: string): (r: seq<Breakpoint>)
    ensures forall b :: b in r <==> b in AssocList.Values(m) && InSource(b, generatedSource, sourceId)
    ensures |r| <= |m|
  {
    if |m| == 0 then []
    else
      var rest := FilterSource(m[1..], generatedSource, sourceId);
      assert AssocList.Values(m) == [m[0].1] + AssocList.Values(m[1..]);
      if InSource(m[0].1, generatedSource, sourceId) then [m[0].1] + rest else rest
  }

  /** The filter keeps key order: filtering a concatenation concatenates the
      filtered parts. */
  lemma {:induction false} FilterSourceAppend(a: BreakpointsMap, b: BreakpointsMap, generatedSource: bool, sourceId: string)
    ensures FilterSource(a + b, generatedSource, sourceId)
         == FilterSource(a, generatedSource, sourceId) + FilterSource(b, generatedSource, sourceId)
  {
    if |a| > 0 {
      assert (a + b)[1..] == a[1..] + b;
      FilterSourceAppend(a[1..], b, generatedSource, sourceId);
    } else {
      assert a + b == b;
    }
  }

  /** `getBreakpointsForSource(state, sourceId)`; an empty id stands for every
      falsy one. `isGenerated` is the source classification service. */
  function GetBreakpointsForSource(s: BreakpointsState, isGenerated: string -> bool, sourceId: string): (r: seq<Breakpoint>)
    ensures sourceId == "" ==> r == []
    ensures forall b :: b in r <==>
      sourceId != "" && b in AssocList.Values(s.breakpoints) && InSource(b, isGenerated(sourceId), sourceId)
    ensures |r| <= |s.breakpoints|
  {
    if sourceId == "" then [] else FilterSource(s.breakpoints, isGenerated(sourceId), sourceId)
  }

  /** `find(bp => bp.location.line === line)`; a null line never matches. */
  function FindLine(bs: seq<Breakpoint>, line: Option<int>): (r: Option<Breakpoint>)
    ensures r.None? <==> forall i :: 0 <= i < |bs| ==> line != Some(bs[i].location.line)
    ensures r.Some? ==> r.value in bs && line == Some(r.value.location.line)
    // `find` answers the first breakpoint on the line
    ensures r.Some? ==> exists i :: 0 <= i < |bs| && bs[i] == r.value
                                    && forall j :: 0 <= j < i ==> line != Some(bs[j].location.line)
  {
    if |bs| == 0 then None
    else if line == Some(bs[0].location.line) then Some(bs[0])
    else
      assert forall i :: 1 <= i < |bs| ==> bs[i] == bs[1..][i - 1];
      var r := FindLine(bs[1..], line);
      assert r.Some? ==> exists i :: 0 <= i < |bs| && bs[i] == r.value
                                    && forall j :: 0 <= j < i ==> line != Some(bs[j].location.line) by {
        if r.Some? {
          var i :| 0 <= i < |bs[1..]| && bs[1..][i] == r.value
                   && forall j :: 0 <= j < i ==> line != Some(bs[1..][j].location.line);
          assert bs[i + 1] == r.value;
          assert forall j :: 0 <= j < i + 1 ==> line != Some(bs[j].location.line) by {
            forall j | 0 <= j < i + 1 ensures line != Some(bs[j].location.line) {
              if j > 0 { assert bs[j] == bs[1..][j - 1]; }
            }
          }
        }
      }
      r
  }

  /** A breakpoint the line query accepts: in the source (by effective location)
      and on the line (by original location). */
  predicate OnSourceLine(bp: Breakpoint, generatedSource: bool, sourceId: string, line: Option<int>)
  {
    InSource(bp, generatedSource, sourceId) && line == Some(bp.location.line)
  }

  /** The key-order position of the first breakpoint the line query accepts. */
  function FirstOnSourceLine(m: BreakpointsMap, generatedSource: bool, sourceId: string, line: Option<int>): (r: Option<nat>)
    ensures r.None? <==> forall i :: 0 <= i < |m| ==> !OnSourceLine(m[i].1, generatedSource, sourceId, line)
    ensures r.Some? ==>
      && r.value < |m|
      && OnSourceLine(m[r.value].1, generatedSource, sourceId, line)
      && forall j :: 0 <= j < r.value ==> !OnSourceLine(m[j].1, generatedSource, sourceId, line)
  {
    if |m| == 0 then None
    else if OnSourceLine(m[0].1, generatedSource, sourceId, line) then Some(0)
    else
      assert forall i :: 1 <= i < |m| ==> m[i] == m[1..][i - 1];
      match FirstOnSourceLine(m[1..], generatedSource, sourceId, line)
      case None => None
      case Some(i) => Some(i + 1)
  }

  /** Finding the line in the filtered list finds the first accepted entry of
      the whole map. */
  lemma {:induction false} FindLineOfFilter(m: BreakpointsMap, generatedSource: bool, sourceId: string, line: Option<int>)
    ensures FindLine(FilterSource(m, generatedSource, sourceId), line)
         == (match FirstOnSourceLine(m, generatedSource, sourceId, line)
             case None => None
             case Some(i) => Some(m[i].1))
  {
    if |m| > 0 {
      FindLineOfFilter(m[1..], generatedSource, sourceId, line);
      var rest := FilterSource(m[1..], generatedSource, sourceId);
      if InSource(m[0].1, generatedSource, sourceId) {
        assert FilterSource(m, generatedSource, sourceId) == [m[0].1] + rest;
        assert ([m[0].1] + rest)[1..] == rest;
        if line == Some(m[0].1.location.line) {
          assert FirstOnSourceLine(m, generatedSource, sourceId, line) == Some(0);
        } else {
          assert FindLine([m[0].1] + rest, line) == FindLine(rest, line);
        }
      } else {
        assert FilterSource(m, generatedSource, sourceId) == rest;
      }
    }
  }

  /** `getBreakpointForLine(state, sourceId, line)`. */
  function GetBreakpointForLine(s: BreakpointsState, isGenerated: string -> bool, sourceId: string, line: Option<int>): (r: Option<Breakpoint>)
    ensures r.None? <==>
      || sourceId == ""
      || forall i :: 0 <= i < |s.breakpoints| ==> !OnSourceLine(s.breakpoints[i].1, isGenerated(sourceId), sourceId, line)
    ensures r.Some? ==> exists i ::
      && 0 <= i < |s.breakpoints|
      && s.breakpoints[i].1 == r.value
      && OnSourceLine(r.value, isGenerated(sourceId), sourceId, line)
      && forall j :: 0 <= j < i ==> !OnSourceLine(s.breakpoints[j].1, isGenerated(sourceId), sourceId, line)
  {
    if sourceId == "" then None
    else
      FindLineOfFilter(s.breakpoints, isGenerated(sourceId), sourceId, line);
      FindLine(GetBreakpointsForSource(s, isGenerated, sourceId), line)
  }

  /** The key-order position of the first hidden breakpoint. */
  function FirstHidden(m: BreakpointsMap): (r: Option<nat>)
    ensures r.None? <==> forall i :: 0 <= i < |m| ==> !m[i].1.hidden
    ensures r.Some? ==> r.value < |m| && m[r.value].1.hidden && forall j :: 0 <= j < r.value ==> !m[j].1.hidden
  {
    if |m| == 0 then None
    else if m[0].1.hidden then Some(0)
    else
      assert forall i :: 1 <= i < |m| ==> m[i] == m[1..][i - 1];
      match FirstHidden(m[1..])
      case None => None
      case Some(i) => Some(i + 1)
  }

  /** `getHiddenBreakpoint`: the first hidden breakpoint in key order. */
  function GetHiddenBreakpoint(s: BreakpointsState): (r: Option<Breakpoint>)
    ensures r.None? <==> forall i :: 0 <= i < |s.breakpoints| ==> !s.breakpoints[i].1.hidden
    ensures r.Some? ==> exists i ::
      && 0 <= i < |s.breakpoints|
      && s.breakpoints[i].1 == r.value
      && r.value.hidden
      && forall j :: 0 <= j < i ==> !s.breakpoints[j].1.hidden
  {
    match FirstHidden(s.breakpoints)
    case None => None
    case Some(i) => Some(s.breakpoints[i].1)
  }

  /** `getHiddenBreakpointLocation`: null exactly when nothing is hidden. */
  function GetHiddenBreakpointLocation(s: BreakpointsState): (r: Option<Location>)
    ensures r.None? <==> forall i :: 0 <= i < |s.breakpoints| ==> !s.breakpoints[i].1.hidden
    ensures r.Some? ==> exists i ::
      && 0 <= i < |s.breakpoints|
      && s.breakpoints[i].1.location == r.value
      && s.breakpoints[i].1.hidden
      && forall j :: 0 <= j < i ==> !s.breakpoints[j].1.hidden
  {
    match GetHiddenBreakpoint(s)
    case None => None
    case Some(bp) => Some(bp.location)
  }
}
