/** The entities of the breakpoint store: line breakpoints, XHR breakpoints,
    the state record and the actions the reducer consumes. */
module BreakpointTypes {
  import opened Wrappers
  import opened Locations
  import AssocList

  /** A semantic anchor (enclosing symbol and offset) used to re-find a
      breakpoint after its source changes. */
  datatype AstLocation = AstLocation(name: string, offset: Location)

  datatype Breakpoint = Breakpoint(
    location: Location,
    generatedLocation: Option<Location>,
    astLocation: Option<AstLocation>,
    disabled: bool,
    hidden: bool,
    loading: bool,
    condition: Option<string>,
    text: string,
    originalText: string)

  /** A request breakpoint, identified by its (path, method) pair. */
  datatype XhrBreakpoint = XhrBreakpoint(path: string, httpMethod: string, disabled: bool)

  /** `BreakpointsMap`: location key to breakpoint, in key-insertion order. */
  type BreakpointsMap = seq<(LocationId, Breakpoint)>

  datatype BreakpointsState = BreakpointsState(
    breakpoints: BreakpointsMap,
    xhrBreakpoints: seq<XhrBreakpoint>)

  /** The key under which the reducer stores a breakpoint. */
  function KeyOf(bp: Breakpoint): LocationId
  {
    MakeLocationId(bp.location)
  }

  /** What every state the reducer builds satisfies: one entry per key, and each
      breakpoint stored under the key of its own location. */
  ghost predicate Valid(s: BreakpointsState)
  {
    && AssocList.UniqueKeys(s.breakpoints)
    && forall i :: 0 <= i < |s.breakpoints| ==> s.breakpoints[i].0 == KeyOf(s.breakpoints[i].1)
  }

  /** Two XHR breakpoints address the same request when path and method are equal. */
  predicate SameRequest(a: XhrBreakpoint, b: XhrBreakpoint)
  {
    a.path == b.path && a.httpMethod == b.httpMethod
  }

  /** At most one XHR breakpoint per (path, method) pair. */
  ghost predicate XhrUnique(xs: seq<XhrBreakpoint>)
  {
    forall i, j :: 0 <= i < j < |xs| ==> !SameRequest(xs[i], xs[j])
  }

  /** The `status` of an asynchronous (promise) action. */
  datatype AsyncStatus = Start | Done | Error | OtherStatus

  /** The payload of a commit: the final breakpoint (absent when it could not be
      set anywhere) and the location it was provisionally stored at, if it moved. */
  datatype Commit = Commit(breakpoint: Option<Breakpoint>, previousLocation: Option<Location>)

  datatype Action =
    | AddBreakpoint(status: AsyncStatus, pending: Option<Breakpoint>, value: Commit)
    | EnableBreakpoint(status: AsyncStatus, pending: Option<Breakpoint>, value: Commit)
    | SyncBreakpoint(commit: Commit)
    | DisableBreakpoint(breakpoint: Breakpoint)
    | SetBreakpointCondition(breakpoint: Breakpoint)
    | DisableAllBreakpoints(breakpoints: seq<Breakpoint>)
    | EnableAllBreakpoints(breakpoints: seq<Breakpoint>)
    | RemoveBreakpoint(breakpoint: Breakpoint)
    | RemapBreakpoints(breakpoints: seq<Breakpoint>)
    | Navigate
    | SetXhrBreakpoint(xhr: XhrBreakpoint)
    | RemoveXhrBreakpoint(xhr: XhrBreakpoint)
    | UpdateXhrBreakpoint(xhr: XhrBreakpoint, index: int)
    | EnableXhrBreakpoint(xhr: XhrBreakpoint, index: int)
    | DisableXhrBreakpoint(xhr: XhrBreakpoint, index: int)
    | Unrecognised(actionType: string)

  /** The index-addressed XHR actions trust their caller to name an existing entry. */
  predicate Applicable(s: BreakpointsState, a: Action)
  {
    (a.UpdateXhrBreakpoint? || a.EnableXhrBreakpoint? || a.DisableXhrBreakpoint?)
      ==> 0 <= a.index < |s.xhrBreakpoints|
  }
}
