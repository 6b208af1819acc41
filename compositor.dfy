/**
 * The compositor-independent workspace values that client code consumes:
 * a cached workspace and the updates broadcast to subscribers.
 */
module Compositor {

  /** A workspace as the cache holds it; `id` is the decimal rendering of the compositor's id. */
  datatype Workspace = Workspace(id: string, name: string, monitor: string, focused: bool)

  /**
   * One message on the update stream. `Focus` carries the previously focused
   * workspace and the newly focused one (the fields `old` and `new` of the
   * source, renamed because both words are Dafny keywords).
   */
  datatype WorkspaceUpdate =
    | Init(workspaces: seq<Workspace>)
    | Add(workspace: Workspace)
    | Update(workspace: Workspace)
    | Remove(workspace: Workspace)
    | Move(workspace: Workspace)
    | Focus(previous: Workspace, current: Workspace)
}
