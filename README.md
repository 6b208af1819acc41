# Hyprland workspace reconciliation, modelled in Dafny

This project models the workspace client for the Hyprland compositor in the
ironbar status bar (`src/clients/compositor/hyprland.rs`). The client keeps a
cached list of workspaces. It replaces that list wholesale from the
compositor's answer on every refresh, with each entry's `focused` flag set by
comparing its id with the active workspace's id. It turns five kinds of
compositor event into refreshes, lookups and a broadcast stream of
`WorkspaceUpdate` messages. Focus changes are not reported by the
compositor: the client infers them by comparing the entry that was focused
before a refresh with the event's workspace after it.

Files and modules:

- `wrappers.dfy` (`Wrappers`): `Option`.
- `decimal.dfy` (`Decimal`): the decimal rendering that `to_string` gives a
  compositor id, and proofs that it is injective.
- `compositor.dfy` (`Compositor`): the `Workspace` record and the
  `WorkspaceUpdate` messages. They are defined in `compositor/mod.rs`, which
  is not part of this model, so their shape is taken from how
  `hyprland.rs` uses them. `Focus { old, new }` becomes
  `Focus(previous, current)` because `old` and `new` are Dafny keywords.
- `hyprland.dfy` (`Hyprland`): the pure part. It holds the event identifier
  (`WorkspaceType`), the compositor's workspace record (`RawWorkspace`),
  and the compositor's answer to a refresh (`Snapshot`: the active id and
  the full list). It also holds `id_to_string` (`IdToString`), the `From`
  conversion (`FromRaw`), the list a refresh installs (`Refreshed`), the two
  lookups, and one function per handler giving the updates that handler
  sends. A handler function receives the store as it was when the event
  arrived (`prior`) and/or the list its refresh installed (`after`). Which
  of the two it reads shows where its lookups sit relative to its refresh.
- `hyprland_lemmas.dfy` (`HyprlandLemmas`): properties of focus, of the
  lookups, and of why each handler's order matters, plus two concrete
  scenarios (a focus switch and a destroy).
- `hyprland_client.dfy` (`HyprlandClient`): the `EventClient` class. The
  field `workspaces` is the shared cached list. The field `sent` holds every
  update sent on the broadcast channel, oldest first. There is one method
  per handler closure, plus `RefreshWorkspaces` and
  `SubscribeWorkspaceChange`. Each method is one atomic step (see "## Left out" for the interleavings this excludes). Its `ensures`
  gives the new store and ties the updates appended to `sent` to the
  matching function in `Hyprland`.

What the code guarantees, as the model states it:

- "At most one focused entry" is not a store invariant the code enforces.
  It holds after a refresh when the compositor's ids are distinct
  (`RefreshedAtMostOneFocused`).
- "No focused entry" is not limited to the moment a destroy removes the
  focused workspace. It holds after any refresh in which the compositor does
  not list the active workspace (`RefreshedHasFocusIffActiveListed`).
- The changed handler's "new" entry is the workspace named by the event,
  looked up after the refresh. It is not necessarily the entry the refresh
  marked focused.

A consequence the model makes visible: lookups compare the event's
identifier string with the decimal rendering of the compositor's integer id.
So an event resolves only when its identifier equals that rendering
(`LookupAfterRefreshResolves`). An unnamed special workspace maps to `""`,
which never resolves (`UnnamedSpecialNeverResolves`).

A receiver of the broadcast channel is represented by an index into `sent`:
the first update it will observe. `SubscribeWorkspaceChange` returns that
index, and the update at that index is the `Init` snapshot of the refreshed
list.

## Model

| member | source | states |
|---|---|---|
| `Decimal.NatToString` | src/clients/compositor/hyprland.rs:248 | the rendering of a natural number is a non-empty string of decimal digits, one character long exactly for numbers below ten |
| `Decimal.IntToString` | src/clients/compositor/hyprland.rs:248 | the rendering of an id is never empty and starts with '-' exactly for negative ids |
| `Decimal.NatToStringInjective` | src/clients/compositor/hyprland.rs:248 | two natural numbers with the same digit string are equal |
| `Decimal.IntToStringInjective` | src/clients/compositor/hyprland.rs:248 | two ids with the same rendering are equal, so comparing rendered ids agrees with comparing integer ids |
| `Hyprland.IdToString` | src/clients/compositor/hyprland.rs:238-243 | a regular workspace's name, a named special workspace's name, and `""` for an unnamed one; the result is empty exactly when that name is empty or missing (what follows for lookups is in `UnnamedSpecialNeverResolves`) |
| `Hyprland.FromRaw` | src/clients/compositor/hyprland.rs:245-253 | the converted id is the decimal rendering, never empty and starting with '-' exactly for negative ids; identity is kept (`FromRawKeepsIdentity`) and the rest of each entry is given by `RefreshedEntries` |
| `Hyprland.FocusDiff` | src/clients/compositor/hyprland.rs:77-85 | the focus transition: a `Focus(previous, current)` exactly when the two ids differ, nothing otherwise. It is a definition; its properties are proved through `ChangedUpdates`, `ActiveMonitorUpdates` and `ChangedExtendsActiveMonitor` |
| `Hyprland.Refreshed` | src/clients/compositor/hyprland.rs:169-179 | a refresh installs exactly as many entries as the compositor reports |
| `Hyprland.RefreshedEntries` | src/clients/compositor/hyprland.rs:169-179 | entry i of the refreshed list is the compositor's entry i converted: rendered id, same name and monitor, focused exactly when its id equals the active id |
| `Hyprland.GetWorkspace` | src/clients/compositor/hyprland.rs:181-189 | returns the first entry whose id equals the identifier's string, and `None` exactly when no entry has that id |
| `Hyprland.GetFocusedWorkspace` | src/clients/compositor/hyprland.rs:191-197 | returns the first focused entry, and `None` exactly when no entry is focused |
| `Hyprland.AddedUpdates` | src/clients/compositor/hyprland.rs:48-60 | at most one update; nothing exactly when the refreshed list has no entry with the event's id; otherwise an `Add` of the entry found there |
| `Hyprland.ChangedUpdates` | src/clients/compositor/hyprland.rs:67-92 | nothing unless both the focused entry of the prior store and the event's entry in the refreshed list are found; otherwise it ends with `Update` of the refreshed entry, preceded by `Focus(prior, entry)` exactly when their ids differ |
| `Hyprland.DestroyedUpdates` | src/clients/compositor/hyprland.rs:99-111 | at most one update; nothing exactly when the prior store has no entry with that id; otherwise a `Remove` of the prior store's entry |
| `Hyprland.MovedUpdates` | src/clients/compositor/hyprland.rs:118-131 | at most one update; nothing exactly when the refreshed list has no entry with the event's id; otherwise a `Move` of the entry found there |
| `Hyprland.ActiveMonitorUpdates` | src/clients/compositor/hyprland.rs:137-160 | at most one update, always a `Focus`, never an `Update`; emitted exactly when both entries are found and their ids differ, and it carries the prior focused entry and the refreshed one |
| `HyprlandLemmas.RefreshedFocusMatchesActiveId` | src/clients/compositor/hyprland.rs:172-175 | after a refresh an entry is focused exactly when its rendered id is the rendering of the active id |
| `HyprlandLemmas.RefreshedAtMostOneFocused` | src/clients/compositor/hyprland.rs:169-179 | when the compositor's ids are distinct, no two refreshed entries are focused |
| `HyprlandLemmas.RefreshedHasFocusIffActiveListed` | src/clients/compositor/hyprland.rs:172-178 | some refreshed entry is focused exactly when the compositor lists the active workspace |
| `HyprlandLemmas.FromRawKeepsIdentity` | src/clients/compositor/hyprland.rs:245-253 | two converted workspaces have the same id exactly when the compositor's ids are equal |
| `HyprlandLemmas.LookupAfterRefreshResolves` | src/clients/compositor/hyprland.rs:181-189 | an event identifier resolves in the refreshed list exactly when the compositor lists a workspace whose rendered id is that identifier's string |
| `HyprlandLemmas.LookupsAgree` | src/clients/compositor/hyprland.rs:181-197 | when "focused" and "has id s" coincide on every entry, looking up s and looking up the focused entry give the same result |
| `HyprlandLemmas.ActiveIdLookupIsFocusedLookup` | src/clients/compositor/hyprland.rs:169-197 | in a refreshed list, looking up the active id finds the focused entry |
| `HyprlandLemmas.UnnamedSpecialNeverResolves` | src/clients/compositor/hyprland.rs:238-243 | `Special(None)` maps to the empty string, so it never resolves in a refreshed list |
| `HyprlandLemmas.FocusedLookupIsTheFocusedEntry` | src/clients/compositor/hyprland.rs:191-197 | when at most one entry is focused, the focused lookup returns that entry |
| `HyprlandLemmas.ChangedShape` | src/clients/compositor/hyprland.rs:76-91 | the changed handler sends exactly nothing, `[Update(ws)]` or `[Focus(prev, ws), Update(ws)]`, and every `Focus` comes before every `Update` |
| `HyprlandLemmas.ChangedExtendsActiveMonitor` | src/clients/compositor/hyprland.rs:137-160 | when both entries resolve, the changed handler sends what the active-monitor handler sends for the same workspace, followed by one `Update`; otherwise both send nothing |
| `HyprlandLemmas.FocusReadAfterRefreshMissesSwitch` | src/clients/compositor/hyprland.rs:70-88 | when the event's workspace is the only focused entry after the refresh and was not focused before, reading the focused entry before the refresh yields `[Focus(prior, entry), Update(entry)]`; reading it after the refresh would yield only `[Update(entry)]` |
| `HyprlandLemmas.DestroyLookupAfterRefreshMissesRemove` | src/clients/compositor/hyprland.rs:102-110 | when the compositor no longer lists the workspace, the lookup before the refresh still sends `Remove` of the prior entry; a lookup after the refresh would send nothing |
| `HyprlandLemmas.LookupAfterRefreshReflectsCompositor` | src/clients/compositor/hyprland.rs:51-53 | an entry found after a refresh is the conversion of one of the compositor's workspaces, with the focus flag the refresh gave it |
| `HyprlandLemmas.MovedCarriesPostMoveMonitor` | src/clients/compositor/hyprland.rs:122-128 | a `Move` carries the monitor the compositor reports for that workspace after the move |
| `HyprlandLemmas.ChangedScenario` | src/clients/compositor/hyprland.rs:67-92 | store [1 focused, 2] and active 2: the handler sends `Focus(1, 2)` then `Update(2)`, and the store becomes [1, 2 focused] |
| `HyprlandLemmas.DestroyedScenario` | src/clients/compositor/hyprland.rs:99-111 | store [1, 2], destroy 2, compositor lists [1]: the handler sends `Remove` of the prior entry 2, and the store becomes [1] |
| `HyprlandClient.EventClient.constructor` | src/clients/compositor/hyprland.rs:21-33 | a new client has sent nothing and holds the refreshed initial list |
| `HyprlandClient.EventClient.Send` | src/clients/compositor/hyprland.rs:57 | `send!` on the broadcast channel: the update is appended to the sent stream and the store is untouched |
| `HyprlandClient.EventClient.RefreshWorkspaces` | src/clients/compositor/hyprland.rs:169-179 | the prior list is discarded and the refreshed list installed (its entries are those of `RefreshedEntries`); nothing is sent |
| `HyprlandClient.EventClient.OnWorkspaceAdded` | src/clients/compositor/hyprland.rs:48-60 | the store becomes the refreshed list; the updates appended to the sent stream are `AddedUpdates` of that refreshed list |
| `HyprlandClient.EventClient.OnWorkspaceChanged` | src/clients/compositor/hyprland.rs:67-92 | the store becomes the refreshed list; the updates appended are `ChangedUpdates` of the store as it was before the refresh and of the refreshed list |
| `HyprlandClient.EventClient.OnWorkspaceDestroyed` | src/clients/compositor/hyprland.rs:99-111 | the updates appended are `DestroyedUpdates` of the store before the refresh; the store afterward becomes the refreshed list, even when nothing was sent |
| `HyprlandClient.EventClient.OnWorkspaceMoved` | src/clients/compositor/hyprland.rs:118-131 | the store becomes the refreshed list; the updates appended are `MovedUpdates` of that refreshed list |
| `HyprlandClient.EventClient.OnActiveMonitorChanged` | src/clients/compositor/hyprland.rs:137-160 | the store becomes the refreshed list; the updates appended are `ActiveMonitorUpdates` of the store before the refresh and of the refreshed list |
| `HyprlandClient.EventClient.SubscribeWorkspaceChange` | src/clients/compositor/hyprland.rs:208-223 | the new receiver starts at the end of the stream so far; the store becomes the refreshed list; exactly one `Init` of that list is appended, so in this atomic model it is the first update the receiver observes (the source does not guarantee this against the listener thread; see "## Left out") |

## Left out

- Hyprland IPC (`HWorkspace::get_active`, `Workspaces::get`, the event listener registration, `start_listener`): these are foreign calls. Their results are the `Snapshot` and event parameters of each method.
- The `.expect(...)` panics when a compositor query or the listener fails (lines 165, 172, 174): these are fatal I/O paths. The model always has the compositor's answer.
- `Arc<Mutex<..>>`, `lock!` and `spawn_blocking`: the listener thread runs its handlers one after another, and each handler is modelled as a single atomic method call. The lock is held only inside each refresh and each lookup, so this treats a handler as uninterruptible by other threads that touch the store.
- SubscribeWorkspaceChange: modelled as one atomic step with respect to the listener thread, which the source does not ensure. Nothing holds the lock from `subscribe()` (line 209) to the `Init` send (lines 217-219), and handlers send without the lock (lines 57, 88, 106, 128, 149). So an update a handler sends in that window reaches the new receiver before `Init`, and the model's "`Init` is the first update observed" holds only without such interleaving. A second race goes the other way: if the subscribe refresh (line 215) lands after the compositor switched workspace but before the changed handler reads the focused entry (line 70), that read already sees the new workspace focused, the prior and new entries are the same, and no `Focus` is sent. Neither interleaving is modelled.
- The tokio broadcast channel: its capacity of 16, lagging receivers and fan-out to several receivers are not modelled. Sending appends to `sent`, and it cannot fail because the client keeps a receiver of its own (`_workspace_rx`).
- `focus` / `Dispatch::call` (lines 201-206): a single foreign command with no logic of its own.
- The `lazy_static` singleton, `get_client` (lines 226-236) and the `tracing` log calls: process plumbing with no effect on the store or the stream.
- Compositor ids are unbounded integers rather than `i32`. Rendering an `i32` with `to_string` has no wrap-around, so this loses nothing.
- `hyprland::data::Workspace` has more fields than the id, name and monitor used here. The conversion ignores the others.
