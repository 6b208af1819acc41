/**
 * The Hyprland workspace client as an object: the cached workspace list that
 * every handler shares, and the broadcast channel, represented by the
 * sequence of every update sent so far. Each handler runs as one step; the
 * compositor's answer to its refresh is a parameter.
 */
module HyprlandClient {
  import opened Wrappers
  import opened Compositor
  import opened Hyprland

  class EventClient {
    /** The cached workspace list. */
    var workspaces: seq<Workspace>
    /**
     * Every update sent on the broadcast channel, oldest first. A receiver
     * is represented by the index of the first update it will observe.
     */
    var sent: seq<WorkspaceUpdate>

    /** A new client with an empty channel and the initial list loaded. */
    constructor (snap: Snapshot)
      ensures workspaces == Refreshed(snap)
      ensures sent == []
    {
      workspaces := [];
      sent := [];
      new;
      RefreshWorkspaces(snap);
    }

    /** Send one update on the channel (the client keeps a receiver of its own, so sending succeeds). */
    method Send(update: WorkspaceUpdate)
      modifies this`sent
      ensures sent == old(sent) + [update]
    {
      sent := sent + [update];
    }

    /**
     * Replace the cached list wholesale by the compositor's list, each entry
     * focused exactly when its id is the active one (`RefreshedEntries`); the
     * prior contents are discarded and nothing is sent.
     */
    method RefreshWorkspaces(snap: Snapshot)
      modifies this`workspaces
      ensures workspaces == Refreshed(snap)
    {
      var newWorkspaces := Refreshed(snap);
      workspaces := [];
      workspaces := workspaces + newWorkspaces;
    }

    /** Handler of the workspace-added event: refresh, then look up. */
    method OnWorkspaceAdded(t: WorkspaceType, snap: Snapshot)
      modifies this
      ensures workspaces == Refreshed(snap)
      ensures sent == old(sent) + AddedUpdates(workspaces, t)
    {
      RefreshWorkspaces(snap);
      var workspace := GetWorkspace(workspaces, t);
      if workspace.Some? {
        Send(Add(workspace.value));
      }
    }

    /** Handler of the workspace-changed event: read the focused entry, refresh, then look up. */
    method OnWorkspaceChanged(t: WorkspaceType, snap: Snapshot)
      modifies this
      ensures workspaces == Refreshed(snap)
      ensures sent == old(sent) + ChangedUpdates(old(workspaces), workspaces, t)
    {
      ghost var prior := workspaces;
      var previous := GetFocusedWorkspace(workspaces);
      RefreshWorkspaces(snap);
      var workspace := GetWorkspace(workspaces, t);
      if previous.Some? && workspace.Some? {
        if previous.value.id != workspace.value.id {
          Send(Focus(previous.value, workspace.value));
        }
        Send(Update(workspace.value));
        assert sent == old(sent) + FocusDiff(previous.value, workspace.value) + [Update(workspace.value)];
      }
      assert ChangedUpdates(prior, workspaces, t) ==
        if previous.Some? && workspace.Some? then FocusDiff(previous.value, workspace.value) + [Update(workspace.value)] else [];
    }

    /** Handler of the workspace-destroyed event: look up in the store as it was, then refresh. */
    method OnWorkspaceDestroyed(t: WorkspaceType, snap: Snapshot)
      modifies this
      ensures workspaces == Refreshed(snap)
      ensures sent == old(sent) + DestroyedUpdates(old(workspaces), t)
    {
      var workspace := GetWorkspace(workspaces, t);
      if workspace.Some? {
        Send(Remove(workspace.value));
      }
      RefreshWorkspaces(snap);
    }

    /** Handler of the workspace-moved event: refresh, then look up. */
    method OnWorkspaceMoved(data: MonitorEventData, snap: Snapshot)
      modifies this
      ensures workspaces == Refreshed(snap)
      ensures sent == old(sent) + MovedUpdates(workspaces, data)
    {
      var t := data.1;
      RefreshWorkspaces(snap);
      var workspace := GetWorkspace(workspaces, t);
      if workspace.Some? {
        Send(Move(workspace.value));
      }
    }

    /** Handler of the active-monitor-changed event: read the focused entry, refresh, then look up. */
    method OnActiveMonitorChanged(data: MonitorEventData, snap: Snapshot)
      modifies this
      ensures workspaces == Refreshed(snap)
      ensures sent == old(sent) + ActiveMonitorUpdates(old(workspaces), workspaces, data)
    {
      var t := data.1;
      var previous := GetFocusedWorkspace(workspaces);
      RefreshWorkspaces(snap);
      var workspace := GetWorkspace(workspaces, t);
      if previous.Some? && workspace.Some? {
        if previous.value.id != workspace.value.id {
          Send(Focus(previous.value, workspace.value));
        }
      }
    }

    /**
     * Subscribe: create a receiver, refresh, then send `Init` with the
     * refreshed list; the new receiver's first update is that `Init`.
     */
    method SubscribeWorkspaceChange(snap: Snapshot) returns (rx: nat)
      modifies this
      ensures rx == |old(sent)|
      ensures workspaces == Refreshed(snap)
      ensures sent == old(sent) + [Init(workspaces)]
      ensures sent[rx..] == [Init(Refreshed(snap))]
    {
      rx := |sent|;
      RefreshWorkspaces(snap);
      Send(Init(workspaces));
    }
  }
}
