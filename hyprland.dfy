/**
 * The pure part of the Hyprland workspace client: how the compositor's
 * answer becomes the cached workspace list, the two lookups over that list,
 * and, for each of the five workspace events, the updates its handler sends.
 *
 * An emission function takes the store as it was when the event arrived
 * (`prior`) and/or the list the handler's refresh installed (`after`);
 * which of the two a handler consults is what fixes the order of its
 * lookups relative to its refresh.
 */
module Hyprland {
  import opened Wrappers
  import opened Decimal
  import opened Compositor

  /** The workspace identifier carried by a Hyprland workspace event. */
  datatype WorkspaceType = Regular(name: string) | Special(specialName: Option<string>)

  /** A workspace as the compositor reports it (`hyprland::data::Workspace`, the fields used). */
  datatype RawWorkspace = RawWorkspace(id: int, name: string, monitor: string)

  /** The compositor's answer to a refresh: the active workspace's id and the full list. */
  datatype Snapshot = Snapshot(activeId: int, workspaces: seq<RawWorkspace>)

  /** Event payload of the moved and active-monitor-changed events: (monitor, workspace). */
  type MonitorEventData = (string, WorkspaceType)

  /** The string a workspace event's identifier is compared with. */
  function IdToString(t: WorkspaceType): (s: string)
    ensures s == "" <==> (t.Regular? && t.name == "") || (t.Special? && (t.specialName.None? || t.specialName.value == ""))
  {
    match t
    case Regular(name) => name
    case Special(specialName) => if specialName.Some? then specialName.value else ""
  }

  /** Conversion of a compositor workspace, with its focus flag, into a cached one. */
  function FromRaw(focused: bool, raw: RawWorkspace): (w: Workspace)
    ensures w.id != "" && (w.id[0] == '-' <==> raw.id < 0)
  {
    Workspace(IntToString(raw.id), raw.name, raw.monitor, focused)
  }

  /** The compositor lists a workspace whose rendered id is `id`. */
  predicate Lists(snap: Snapshot, id: string) {
    exists k | 0 <= k < |snap.workspaces| :: IntToString(snap.workspaces[k].id) == id
  }

  /** The compositor's workspace ids are pairwise distinct. */
  predicate DistinctIds(snap: Snapshot) {
    forall i, j | 0 <= i < |snap.workspaces| && 0 <= j < |snap.workspaces| && i != j ::
      snap.workspaces[i].id != snap.workspaces[j].id
  }

  /** No two cached entries are focused. */
  predicate AtMostOneFocused(store: seq<Workspace>) {
    forall i, j | 0 <= i < |store| && 0 <= j < |store| && store[i].focused && store[j].focused :: i == j
  }

  /**
   * The store contents a refresh installs: the compositor's list in its own
   * order, each entry focused exactly when its id is the active id.
   */
  function Refreshed(snap: Snapshot): (r: seq<Workspace>)
    ensures |r| == |snap.workspaces|
    decreases |snap.workspaces|
  {
    if snap.workspaces == [] then []
    else
      var raw := snap.workspaces[0];
      [FromRaw(raw.id == snap.activeId, raw)] + Refreshed(snap.(workspaces := snap.workspaces[1..]))
  }

  /**
   * Entry by entry, the refreshed list is the compositor's: same id
   * (rendered), name and monitor at the same position, focused exactly when
   * the compositor's id is the active id.
   */
  lemma {:induction false} RefreshedEntries(snap: Snapshot)
    ensures forall i | 0 <= i < |Refreshed(snap)| ::
              && Refreshed(snap)[i].id == IntToString(snap.workspaces[i].id)
              && Refreshed(snap)[i].name == snap.workspaces[i].name
              && Refreshed(snap)[i].monitor == snap.workspaces[i].monitor
              && Refreshed(snap)[i].focused == (snap.workspaces[i].id == snap.activeId)
    decreases |snap.workspaces|
  {
    if snap.workspaces != [] {
      var rest := snap.(workspaces := snap.workspaces[1..]);
      RefreshedEntries(rest);
      assert forall i | 1 <= i < |Refreshed(snap)| :: Refreshed(snap)[i] == Refreshed(rest)[i - 1];
    }
  }

  /** Entry `i` is the first one of `store` whose id is `id`. */
  predicate FirstWithId(store: seq<Workspace>, i: int, id: string) {
    && 0 <= i < |store|
    && store[i].id == id
    && forall j | 0 <= j < i :: store[j].id != id
  }

  /** Entry `i` is the first focused one of `store`. */
  predicate FirstFocused(store: seq<Workspace>, i: int) {
    && 0 <= i < |store|
    && store[i].focused
    && forall j | 0 <= j < i :: !store[j].focused
  }

  /** The first entry whose id is the event identifier's string; `None` when there is none. */
  function GetWorkspace(store: seq<Workspace>, t: WorkspaceType): (r: Option<Workspace>)
    ensures r.None? <==> forall i | 0 <= i < |store| :: store[i].id != IdToString(t)
    ensures r.Some? ==> exists i :: FirstWithId(store, i, IdToString(t)) && store[i] == r.value
  {
    if store == [] then None
    else if store[0].id == IdToString(t) then
      assert FirstWithId(store, 0, IdToString(t));
      Some(store[0])
    else
      var r := GetWorkspace(store[1..], t);
      assert r.Some? ==> exists i :: FirstWithId(store, i, IdToString(t)) && store[i] == r.value by {
        if r.Some? {
          var i :| FirstWithId(store[1..], i, IdToString(t)) && store[1..][i] == r.value;
          assert FirstWithId(store, i + 1, IdToString(t));
        }
      }
      r
  }

  /** The first focused entry; `None` when no entry is focused. */
  function GetFocusedWorkspace(store: seq<Workspace>): (r: Option<Workspace>)
    ensures r.None? <==> forall i | 0 <= i < |store| :: !store[i].focused
    ensures r.Some? ==> exists i :: FirstFocused(store, i) && store[i] == r.value
  {
    if store == [] then None
    else if store[0].focused then
      assert FirstFocused(store, 0);
      Some(store[0])
    else
      var r := GetFocusedWorkspace(store[1..]);
      assert r.Some? ==> exists i :: FirstFocused(store, i) && store[i] == r.value by {
        if r.Some? {
          var i :| FirstFocused(store[1..], i) && store[1..][i] == r.value;
          assert FirstFocused(store, i + 1);
        }
      }
      r
  }

  /** The focus transition between the previously focused entry and the event's entry. */
  function FocusDiff(previous: Workspace, current: Workspace): (r: seq<WorkspaceUpdate>)
    ensures r == [] <==> previous.id == current.id
    ensures r != [] ==> r == [Focus(previous, current)]
  {
    if previous.id != current.id then [Focus(previous, current)] else []
  }

  /**
   * Workspace added: refresh, then look the workspace up in the refreshed
   * list `after`; one `Add` carrying the entry found, nothing when there is
   * none.
   */
  function AddedUpdates(after: seq<Workspace>, t: WorkspaceType): (r: seq<WorkspaceUpdate>)
    ensures |r| <= 1
    ensures r == [] <==> forall i | 0 <= i < |after| :: after[i].id != IdToString(t)
    ensures r != [] ==> r[0].Add? && GetWorkspace(after, t) == Some(r[0].workspace)
  {
    var workspace := GetWorkspace(after, t);
    if workspace.Some? then [Add(workspace.value)] else []
  }

  /**
   * Workspace changed: read the focused entry of the store as it was
   * (`prior`), refresh, then look the event's workspace up in the refreshed
   * list `after`. When both are found: a `Focus` if their ids differ, and in
   * every case an `Update` of the new entry, last. Nothing when either is
   * missing.
   */
  function ChangedUpdates(prior: seq<Workspace>, after: seq<Workspace>, t: WorkspaceType): (r: seq<WorkspaceUpdate>)
    ensures r != [] <==> GetFocusedWorkspace(prior).Some? && GetWorkspace(after, t).Some?
    ensures r != [] ==> r[|r| - 1] == Update(GetWorkspace(after, t).value)
    ensures |r| <= 2
    ensures |r| == 2 <==>
              r != [] && GetFocusedWorkspace(prior).value.id != GetWorkspace(after, t).value.id
    ensures |r| == 2 ==> r[0] == Focus(GetFocusedWorkspace(prior).value, GetWorkspace(after, t).value)
  {
    var previous := GetFocusedWorkspace(prior);
    var workspace := GetWorkspace(after, t);
    if previous.Some? && workspace.Some? then
      FocusDiff(previous.value, workspace.value) + [Update(workspace.value)]
    else
      []
  }

  /**
   * Workspace destroyed: look the workspace up in the store as it was
   * (`prior`), before refreshing; one `Remove` carrying that prior entry,
   * nothing when the store did not hold it.
   */
  function DestroyedUpdates(prior: seq<Workspace>, t: WorkspaceType): (r: seq<WorkspaceUpdate>)
    ensures |r| <= 1
    ensures r == [] <==> forall i | 0 <= i < |prior| :: prior[i].id != IdToString(t)
    ensures r != [] ==> r[0].Remove? && GetWorkspace(prior, t) == Some(r[0].workspace)
  {
    var workspace := GetWorkspace(prior, t);
    if workspace.Some? then [Remove(workspace.value)] else []
  }

  /**
   * Workspace moved: refresh, then look the workspace up in the refreshed
   * list `after`; one `Move` carrying the entry found, nothing when there is
   * none.
   */
  function MovedUpdates(after: seq<Workspace>, data: MonitorEventData): (r: seq<WorkspaceUpdate>)
    ensures |r| <= 1
    ensures r == [] <==> forall i | 0 <= i < |after| :: after[i].id != IdToString(data.1)
    ensures r != [] ==> r[0].Move? && GetWorkspace(after, data.1) == Some(r[0].workspace)
  {
    var workspace := GetWorkspace(after, data.1);
    if workspace.Some? then [Move(workspace.value)] else []
  }

  /**
   * Active monitor changed: like the changed handler, but only the `Focus`,
   * when both entries are found and their ids differ; never an `Update`.
   */
  function ActiveMonitorUpdates(prior: seq<Workspace>, after: seq<Workspace>, data: MonitorEventData): (r: seq<WorkspaceUpdate>)
    ensures |r| <= 1
    ensures forall k | 0 <= k < |r| :: r[k].Focus?
    ensures r != [] <==>
              && GetFocusedWorkspace(prior).Some?
              && GetWorkspace(after, data.1).Some?
              && GetFocusedWorkspace(prior).value.id != GetWorkspace(after, data.1).value.id
    ensures r != [] ==> r[0] == Focus(GetFocusedWorkspace(prior).value, GetWorkspace(after, data.1).value)
  {
    var previous := GetFocusedWorkspace(prior);
    var workspace := GetWorkspace(after, data.1);
    if previous.Some? && workspace.Some? then FocusDiff(previous.value, workspace.value) else []
  }
}
