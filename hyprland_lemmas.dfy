/**
 * Properties of the Hyprland workspace client: what a refresh makes of the
 * focus flags, how the two lookups relate, and why each handler's order of
 * lookups and refresh matters.
 */
module HyprlandLemmas {
  import opened Wrappers
  import opened Decimal
  import opened Compositor
  import opened Hyprland

  /** After a refresh an entry is focused exactly when its (rendered) id is the active id. */
  lemma RefreshedFocusMatchesActiveId(snap: Snapshot)
    ensures forall i | 0 <= i < |Refreshed(snap)| ::
              Refreshed(snap)[i].focused <==> Refreshed(snap)[i].id == IntToString(snap.activeId)
  {
    var r := Refreshed(snap);
    RefreshedEntries(snap);
    forall i | 0 <= i < |r|
      ensures r[i].focused <==> r[i].id == IntToString(snap.activeId)
    {
      if r[i].id == IntToString(snap.activeId) {
        IntToStringInjective(snap.workspaces[i].id, snap.activeId);
      }
    }
  }

  /** With distinct compositor ids a refresh leaves at most one entry focused. */
  lemma RefreshedAtMostOneFocused(snap: Snapshot)
    requires DistinctIds(snap)
    ensures AtMostOneFocused(Refreshed(snap))
  {
    var r := Refreshed(snap);
    RefreshedEntries(snap);
    forall i, j | 0 <= i < |r| && 0 <= j < |r| && r[i].focused && r[j].focused
      ensures i == j
    {
      assert snap.workspaces[i].id == snap.activeId == snap.workspaces[j].id;
    }
  }

  /** A refresh leaves some entry focused exactly when the compositor lists the active workspace. */
  lemma RefreshedHasFocusIffActiveListed(snap: Snapshot)
    ensures Lists(snap, IntToString(snap.activeId)) <==>
              exists i | 0 <= i < |Refreshed(snap)| :: Refreshed(snap)[i].focused
  {
    var r := Refreshed(snap);
    RefreshedEntries(snap);
    RefreshedFocusMatchesActiveId(snap);
    if Lists(snap, IntToString(snap.activeId)) {
      var k :| 0 <= k < |snap.workspaces| && IntToString(snap.workspaces[k].id) == IntToString(snap.activeId);
      assert 0 <= k < |r| && r[k].id == IntToString(snap.activeId);
      assert r[k].focused;
      assert exists i | 0 <= i < |Refreshed(snap)| :: Refreshed(snap)[i].focused;
      assert Lists(snap, IntToString(snap.activeId));
    } else {
      forall i | 0 <= i < |r| ensures !r[i].focused {
        assert IntToString(snap.workspaces[i].id) != IntToString(snap.activeId);
      }
    }
  }

  /** Converted workspaces share an id exactly when the compositor's ids are equal. */
  lemma FromRawKeepsIdentity(f: bool, a: RawWorkspace, g: bool, b: RawWorkspace)
    ensures FromRaw(f, a).id == FromRaw(g, b).id <==> a.id == b.id
  {
    if FromRaw(f, a).id == FromRaw(g, b).id {
      IntToStringInjective(a.id, b.id);
    }
  }

  /** An event identifier resolves after a refresh exactly when the compositor lists a workspace under it. */
  lemma LookupAfterRefreshResolves(t: WorkspaceType, snap: Snapshot)
    ensures GetWorkspace(Refreshed(snap), t).Some? <==> Lists(snap, IdToString(t))
  {
    var r := Refreshed(snap);
    RefreshedEntries(snap);
    if GetWorkspace(r, t).Some? {
      var i :| FirstWithId(r, i, IdToString(t)) && r[i] == GetWorkspace(r, t).value;
      assert IntToString(snap.workspaces[i].id) == IdToString(t);
    }
  }

  /**
   * When focus coincides with having id `id`, looking up `id` and looking up
   * the focused entry return the same entry.
   */
  lemma LookupsAgree(store: seq<Workspace>, id: string)
    requires forall i | 0 <= i < |store| :: store[i].focused <==> store[i].id == id
    ensures GetWorkspace(store, Regular(id)) == GetFocusedWorkspace(store)
  {
  }

  /** In a refreshed store, the entry found under the active id is the focused entry. */
  lemma ActiveIdLookupIsFocusedLookup(snap: Snapshot)
    ensures GetWorkspace(Refreshed(snap), Regular(IntToString(snap.activeId))) == GetFocusedWorkspace(Refreshed(snap))
  {
    RefreshedFocusMatchesActiveId(snap);
    LookupsAgree(Refreshed(snap), IntToString(snap.activeId));
  }

  /**
   * A special workspace without a name maps to the empty string, which no
   * rendered id equals: such an event never resolves in a refreshed store.
   */
  lemma UnnamedSpecialNeverResolves(snap: Snapshot)
    ensures GetWorkspace(Refreshed(snap), Special(None)) == None
  {
    RefreshedEntries(snap);
  }

  /** When at most one entry is focused, the focused lookup returns that entry. */
  lemma FocusedLookupIsTheFocusedEntry(store: seq<Workspace>, j: int)
    requires AtMostOneFocused(store)
    requires 0 <= j < |store| && store[j].focused
    ensures GetFocusedWorkspace(store) == Some(store[j])
  {
  }

  /**
   * The changed handler emits exactly `[Focus, Update]` or `[Update]` (or
   * nothing when an entry is missing), the `Update` carrying the refreshed
   * entry and the `Focus` coming first.
   */
  lemma ChangedShape(prior: seq<Workspace>, after: seq<Workspace>, t: WorkspaceType)
    ensures var r := ChangedUpdates(prior, after, t);
            var previous := GetFocusedWorkspace(prior);
            var workspace := GetWorkspace(after, t);
            || r == []
            || (workspace.Some? && r == [Update(workspace.value)])
            || (previous.Some? && workspace.Some? && r == [Focus(previous.value, workspace.value), Update(workspace.value)])
    ensures var r := ChangedUpdates(prior, after, t);
            forall i, j | 0 <= i < |r| && 0 <= j < |r| && r[i].Focus? && r[j].Update? :: i < j
  {
    var r := ChangedUpdates(prior, after, t);
    if |r| == 2 {
      assert r == [r[0], r[1]];
    } else if |r| == 1 {
      assert r == [r[0]];
    }
  }

  /**
   * The changed handler emits what the active-monitor handler emits for the
   * same workspace, followed by one `Update`, whenever both entries resolve.
   */
  lemma ChangedExtendsActiveMonitor(prior: seq<Workspace>, after: seq<Workspace>, monitor: string, t: WorkspaceType)
    ensures var workspace := GetWorkspace(after, t);
            ChangedUpdates(prior, after, t) ==
              if GetFocusedWorkspace(prior).Some? && workspace.Some?
              then ActiveMonitorUpdates(prior, after, (monitor, t)) + [Update(workspace.value)]
              else []
  {
  }

  /**
   * Reading the focused entry before the refresh is what detects a switch.
   * When the event's workspace is the one focused afterwards, the handler as
   * written reports the switch from the prior focused entry; a read of the
   * focused entry after the refresh would find the new entry itself and
   * report only the `Update`.
   */
  lemma FocusReadAfterRefreshMissesSwitch(prior: seq<Workspace>, after: seq<Workspace>, t: WorkspaceType)
    requires AtMostOneFocused(after)
    requires GetFocusedWorkspace(prior).Some?
    requires GetWorkspace(after, t).Some? && GetWorkspace(after, t).value.focused
    requires GetFocusedWorkspace(prior).value.id != IdToString(t)
    ensures var previous := GetFocusedWorkspace(prior).value;
            var workspace := GetWorkspace(after, t).value;
            ChangedUpdates(prior, after, t) == [Focus(previous, workspace), Update(workspace)]
    ensures ChangedUpdates(after, after, t) == [Update(GetWorkspace(after, t).value)]
  {
    var workspace := GetWorkspace(after, t).value;
    var j :| FirstWithId(after, j, IdToString(t)) && after[j] == workspace;
    FocusedLookupIsTheFocusedEntry(after, j);
    ChangedShape(prior, after, t);
    ChangedShape(after, after, t);
  }

  /**
   * Looking up before the refresh is what lets the destroy handler report the
   * removal: once the compositor no longer lists the workspace, a lookup in
   * the refreshed store would find nothing.
   */
  lemma DestroyLookupAfterRefreshMissesRemove(prior: seq<Workspace>, t: WorkspaceType, snap: Snapshot)
    requires GetWorkspace(prior, t).Some?
    requires !Lists(snap, IdToString(t))
    ensures DestroyedUpdates(prior, t) == [Remove(GetWorkspace(prior, t).value)]
    ensures DestroyedUpdates(Refreshed(snap), t) == []
  {
    var r := DestroyedUpdates(prior, t);
    assert r == [r[0]];
    LookupAfterRefreshResolves(t, snap);
  }

  /** An entry found after a refresh is the conversion of the compositor's workspace with that id. */
  lemma LookupAfterRefreshReflectsCompositor(t: WorkspaceType, snap: Snapshot)
    requires GetWorkspace(Refreshed(snap), t).Some?
    ensures exists k | 0 <= k < |snap.workspaces| ::
              var raw := snap.workspaces[k];
              GetWorkspace(Refreshed(snap), t).value == FromRaw(raw.id == snap.activeId, raw)
  {
    var r := Refreshed(snap);
    var k :| FirstWithId(r, k, IdToString(t)) && r[k] == GetWorkspace(r, t).value;
    var raw := snap.workspaces[k];
    RefreshedEntries(snap);
    assert r[k] == FromRaw(raw.id == snap.activeId, raw);
  }

  /** A `Move` carries the monitor the compositor reports after the move. */
  lemma MovedCarriesPostMoveMonitor(data: MonitorEventData, snap: Snapshot)
    requires MovedUpdates(Refreshed(snap), data) != []
    ensures exists k | 0 <= k < |snap.workspaces| ::
              && IntToString(snap.workspaces[k].id) == IdToString(data.1)
              && MovedUpdates(Refreshed(snap), data)[0].workspace.monitor == snap.workspaces[k].monitor
  {
    var r := Refreshed(snap);
    var k :| FirstWithId(r, k, IdToString(data.1)) && r[k] == GetWorkspace(r, data.1).value;
    RefreshedEntries(snap);
    assert IntToString(snap.workspaces[k].id) == IdToString(data.1);
  }

  /**
   * Workspace "2" becomes active while "1" was focused: the changed handler
   * sends `Focus{1 -> 2}` then `Update(2)` and leaves 1 unfocused, 2 focused.
   */
  lemma ChangedScenario()
    ensures var prior := [Workspace("1", "1", "DP-1", true), Workspace("2", "2", "DP-1", false)];
            var snap := Snapshot(2, [RawWorkspace(1, "1", "DP-1"), RawWorkspace(2, "2", "DP-1")]);
            && Refreshed(snap) == [Workspace("1", "1", "DP-1", false), Workspace("2", "2", "DP-1", true)]
            && ChangedUpdates(prior, Refreshed(snap), Regular("2")) ==
                 [Focus(prior[0], Workspace("2", "2", "DP-1", true)), Update(Workspace("2", "2", "DP-1", true))]
  {
    var prior := [Workspace("1", "1", "DP-1", true), Workspace("2", "2", "DP-1", false)];
    var snap := Snapshot(2, [RawWorkspace(1, "1", "DP-1"), RawWorkspace(2, "2", "DP-1")]);
    assert IntToString(1) == "1" && IntToString(2) == "2";
    var r := Refreshed(snap);
    assert r == [r[0], r[1]];
    ChangedShape(prior, r, Regular("2"));
  }

  /**
   * Workspace "2" is destroyed while the store holds 1 and 2: the handler
   * sends `Remove(2)` with the prior entry and the store becomes [1].
   */
  lemma DestroyedScenario()
    ensures var prior := [Workspace("1", "1", "DP-1", true), Workspace("2", "2", "DP-1", false)];
            var snap := Snapshot(1, [RawWorkspace(1, "1", "DP-1")]);
            && DestroyedUpdates(prior, Regular("2")) == [Remove(prior[1])]
            && Refreshed(snap) == [Workspace("1", "1", "DP-1", true)]
  {
  }
}
