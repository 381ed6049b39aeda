# Lomiri: verified models of the shell's stateful components

Lomiri is the shell of a phone and desktop environment. This project models the parts of it whose state is
hardest to keep right, in Dafny, and proves what they promise over every input and every run:

- **The touch gate and the touch dispatcher.** The gate holds touch events back until a registry has granted or denied
  each touch in them; the dispatcher behind it offers touch streams to an item and falls back to emulating a mouse.
  `touches.dfy` has events and streams, `touch_dispatcher.dfy` the dispatcher, `touch_deliveries.dfy` what the item
  gets of a stream, `touch_gate_spec.dfy`, `touch_gate_runs.dfy` and `touch_gate.dfy` the gate. Main results:
  conservation of the input stream, no stuck events, and the composition theorem that the gate never trips an
  assertion of the dispatcher.
- **Workspaces.** Workspaces, the models that list them, the manager, the window management policy and the screens
  that follow along. `workspace_spec.dfy` has the operations and the invariant, `workspace_effects.dfy` what they do
  to windows, rows and screens, `workspace_sync.dfy` the reconciliation of a list with an edited list of proxies,
  `screens_sync.dfy` that of all screens, `desktop.dfy` the objects, `proxy_workspaces.dfy` the proxy lists that
  mirror the originals in between. Main results: the synchronisation makes the list the proxies' list and deletes
  exactly what is left over, the synchronisation of all screens goes through exactly when no workspace moves to a
  screen that comes later, the three layers of "active workspace" always agree, exactly when the active workspace
  stays active, no window is ever lost, and a mirror is the original's list unless it was edited and can follow every
  change but an insertion behind its end, which takes a removed proxy.
- **The multi-finger gesture area.** `touch_gesture_spec.dfy`, `touch_gesture_recognition.dfy`,
  `touch_gesture_returns.dfy`, `touch_gesture_points.dfy`, `touch_gesture_area.dfy`. Main results: the six-state
  invariant, when a gesture is recognised and rejected, counted in fingers, exactly when the area comes to rest once
  all fingers are lifted and when a gesture has no more touches than the maximum, the relation of the live and the
  visible touch points, and that a client which only listens to the signals knows exactly what is visible.
- **Views that are kept up to date by notifications.** `limit_proxy.dfy` (a prefix of a model), `window_rows.dfy` (the
  window stack), `menu_model_stack.dfy` (nested menus). Main result in each: replaying notifications equals
  recomputing.
- **Arithmetic and search.** `axis_velocity.dfy` (a ring buffer and a telescoping sum), `menu_content_activator.dfy`
  (a zig-zag search).

Each component comes as a module with its functions, invariants and lemmas and a module with the class itself, whose
methods update their fields in place and are proved against those functions. Where a class talks to the world, the
world is a parameter: the target item is an arbitrary function of what it received, the registry answers in any order,
also while it is being asked (`now`, `answers`), the successor of a destroyed workspace is any other one, times are
arguments. Observers are ghost fields that hold what somebody who only hears the notifications would hold.

## What the environment promises

The theorems about the gate assume what `TouchGateSpec.Legal` says: an event lists every touch that is down, each
once; a touch is pressed exactly when it was not down; nobody presses a touch whose previous life the gate still
tracks (the assertion that is commented out at plugins/Lomiri/Gestures/TouchGate.cpp:64-67); only open requests are
answered, once for each touch id even if the gate was reset and the id pressed again in between. What a surplus answer
does, from any state of the gate, is `TouchGateRuns.SurplusAnswerIff`: no harm, unless it denies a touch whose press
was sent on. The gesture area assumes that ownership is answered only for candidates whose ownership was requested,
and that its timer fires only while it runs; for its return to rest also that only touches that are down are released.
Synchronisation assumes proxies with distinct workspaces, live ones for a single model, and that ids are not used
twice. Which other screens stop being active when a screen becomes active is up to the list of screens; it can happen
between any two steps (`Desktops.Desktop.ScreenDeactivated`) and nobody reacts to it.

## Where code and intention differ

The models follow the code. These differences are stated and proved:

- A reset of the dispatcher tells the target nothing. `TouchDispatchSpec.ResetAgreesIff` says exactly when that is
  harmless; `TouchDispatchSpec.ResetCanLoseRelease` gives a press that is never released.
- A surplus answer, one for an earlier touch with the same id, can take a touch from the gate's table whose press was
  sent on (`TouchGateRuns.SurplusAnswerIff`, with the input `TouchGateRuns.SurplusAnswerBreaksInv`).
- A first press with timestamp 0 can never be the first half of a double click
  (`TouchDispatchSpec.DoubleClickMeaning`).
- Deleting a workspace without a surface manager loses its windows unless it was the last workspace or had none
  (`WorkspaceSpec.DeleteKeepsWindowsIff`, with the input `WorkspaceSpec.DeleteLosesWindow`).
- A workspace dragged to a screen that is synchronised later is deleted by the clean-up of its old screen, and the
  later screen then follows a proxy to nothing: `ScreensSyncSpec.SyncAllIff` says exactly when this happens,
  `ScreensSyncSpec.SurvivesIff` when a workspace survives, and `ScreensSyncSpec.LaterScreenLoses` gives an input.
- A mirror that lost a proxy can be told to insert a row behind its end. `WorkspaceMirrorSpec.MirrorFollowsIff` and
  `WorkspaceMirrorSpec.FollowsInsertionsIff` say exactly when not, `WorkspaceMirrorSpec.RemovedProxyFallsBehind` gives
  an input.
- `createWorkspace` tests for an empty set just after inserting into it; that branch cannot be taken.
- The active workspace, moved to a screen that is not active and has a current workspace, does not stay active: the
  screen first becomes active and activates its old current workspace, and only then makes the new one current
  (plugins/WindowManager/Screen.cpp:218-220, 232-236). `WorkspaceSpec.AssignActive` says exactly when this happens,
  `WorkspaceSpec.MovedAwayFromActive` gives an input, and `Desktops.Desktop.Sync` says who is active instead.
- Changing the limit of the proxy model between two different negative numbers announces a range that is not one
  (`LimitProxySpec.LimitReplayIff`, with the input `LimitProxySpec.NegativeLimitsAnnounceNonsense`); an observer that
  ignores it still holds the right rows.
- `MenuContentActivator::stop` never clears the running flag. With a base below -1 the search first activates the
  indices between the base and the menu; it finds what it should exactly when none of them is left
  (`MenuContentSearch.NextIsNearestIff`, with the input `MenuContentSearch.NegativeBaseEscapes`).
- Removing a block of adjacent windows forgets only the first surface of the block (`WindowRowSpec.ForgottenIff` says
  surface by surface which are forgotten, `WindowRowSpec.ForgetsAllIff` when all are,
  `WindowRowSpec.AdjacentNotForgotten` gives an input).
- Time differences between samples are narrowed to 32 bits. Only the step to the first recent sample can be that long:
  `AxisVelocitySpec.TimeExactIff`, `AxisVelocitySpec.VelocityMeaning` and `AxisVelocitySpec.UndefinedIff` say exactly
  when the time, the velocity and its existence are right, `AxisVelocitySpec.LongGapUndefined` gives an input.
- A gesture area whose minimum is below one and whose maximum is not negative claims a gesture while nothing is
  touched (`TouchGestureSpec.ZeroMinimumBreaksInv`); for all other limits status and touches agree in every run
  (`TouchGestureSpec.RunsKeepInvIff`).
- A gesture area takes no note of candidates that are lifted while it is recognised or about to be rejected. Once all
  fingers are lifted it comes to rest exactly when that never happened, but for touches pressed again since
  (`TouchGestureReturns.ReturnsIff`); otherwise it stays rejected until they are (`TouchGestureReturns.StaysRejected`,
  with the input `TouchGestureReturns.StuckAfterLift`).
- A recognised gesture can have more touches than the maximum: the maximum is not looked at when ownership is granted.
  `TouchGestureReturns.WithinMaximumIff` says exactly when, `TouchGestureReturns.PatientPressesStayWithin` that it
  takes a press while candidates wait, and `TouchGestureReturns.ThreeOfTwo` gives an input.

## Model

| member | source | states |
|---|---|---|
| `TouchGateRuns.Conservation` | plugins/Lomiri/Gestures/TouchGate.cpp:52-181 | for every legal run since start or reset, whatever the answers and their order: what was sent followed by what is stored is the input in arrival order without exactly the points of denied and untracked touches; with every request answered nothing is held back |
| `TouchGateRuns.ConservationFrom` | plugins/Lomiri/Gestures/TouchGate.cpp:52-181 | the same from any reachable state, counting what is already stored |
| `TouchGateRuns.StepPreservesOwed` | plugins/Lomiri/Gestures/TouchGate.cpp:52-142 | one step moves events from what is owed to what was sent, with neither content nor order changed |
| `TouchGateRuns.StepKeepsInv` | plugins/Lomiri/Gestures/TouchGate.cpp:52-181 | every legal step keeps the gate's invariant, and what it sends continues one well-formed stream |
| `TouchGateRuns.RunKeepsInv` | plugins/Lomiri/Gestures/TouchGate.cpp:52-181 | the invariant holds after every legal run, resets included |
| `TouchGateRuns.RunSendsGoodStream` | plugins/Lomiri/Gestures/TouchGate.cpp:85-108 | all that is sent between resets is one well-formed stream: each event lists all delivered touches that are down, each once, pressed first and released once |
| `TouchGateRuns.NoStuckEvents` | plugins/Lomiri/Gestures/TouchGate.cpp:175-181 | after every run the first stored event has a touch with an open request; without open requests nothing is stored and exactly the delivered touches are tracked; every stored point is tracked |
| `TouchGateRuns.SentIsOwned` | plugins/Lomiri/Gestures/TouchGate.cpp:85-93 | every point of every event sent on belongs to a touch owned at that moment |
| `TouchGateRuns.SurplusAnswerIff` | plugins/Lomiri/Gestures/TouchGate.cpp:120-142 | from every state that satisfies the invariant, an answer without an open request keeps it exactly when it grants, or denies a touch whose press was not sent on |
| `TouchGateRuns.SurplusAnswerBreaksInv` | plugins/Lomiri/Gestures/TouchGate.cpp:131-137 | an input: the only touch, granted and sent on, is denied |
| `TouchGateRuns.PassedReleases` | plugins/Lomiri/Gestures/TouchGate.cpp:237-249 | the three assertions about released points hold for an event that passes straight through |
| `TouchGateRuns.GateProtectsDispatcher` | plugins/Lomiri/Gestures/TouchGate.cpp:90-95 | for every legal run and every target item: no assertion in the dispatcher fails, and at every step it is idle exactly when no delivered touch is down and agrees with what the target has seen |
| `TouchGateRuns.AdmittedTouch` | plugins/Lomiri/Gestures/TouchGate.cpp:60-83 | per touch: taking in an event makes it ended exactly when it is no longer down, and pending exactly when its request is open |
| `TouchGateRuns.KeptEvent` | plugins/Lomiri/Gestures/TouchGate.cpp:60-83 | the admitted part of an event is well formed for the tracked touches that are down |
| `TouchGateRuns.DeniedSound` | plugins/Lomiri/Gestures/TouchGate.cpp:131-135 | erasing a denied touch leaves the stored events a well-formed stream in which only that touch is missing |
| `TouchGateSpec.AdmitMeaning` | plugins/Lomiri/Gestures/TouchGate.cpp:60-83 | who is tracked after an event, in what state; exactly the points of tracked touches are let in; the flag says whether all of them are owned |
| `TouchGateSpec.SendHead` | plugins/Lomiri/Gestures/TouchGate.cpp:227-249 | sending the first stored event satisfies the release assertions and leaves the rest sound |
| `TouchGateSpec.DispatchSplits` | plugins/Lomiri/Gestures/TouchGate.cpp:175-181 | the stored events split, in order, into those sent and those kept; the first kept one is blocked |
| `TouchGateSpec.DispatchForgets` | plugins/Lomiri/Gestures/TouchGate.cpp:237-249 | exactly the touches whose release was sent are forgotten, and only owned touches are sent |
| `TouchGating.TouchGate.TouchEvent` | plugins/Lomiri/Gestures/TouchGate.cpp:52-109 | the gate, its surroundings and the dispatcher end up as the specification of the step says, also when the registry answers at once |
| `TouchGating.TouchGate.AdmitPoints` | plugins/Lomiri/Gestures/TouchGate.cpp:60-83 | the loop over the points computes the admission and touches nothing else |
| `TouchGating.TouchGate.RequestOwnership` | plugins/Lomiri/Gestures/TouchGate.cpp:68-70 | a request answered on the spot enters or drops the touch and releases no stored event |
| `TouchGating.TouchGate.TouchOwnershipEvent` | plugins/Lomiri/Gestures/TouchGate.cpp:120-142 | an answer, in any coherent state: the new state and exactly the released events reach the dispatcher in order |
| `TouchGating.TouchGate.RemoveTouchFromStoredEvents` | plugins/Lomiri/Gestures/TouchGate.cpp:160-173 | the loop that edits and removes while indexing erases the touch from all events and drops emptied ones |
| `TouchGating.TouchGate.RemoveTouch` | plugins/Lomiri/Gestures/TouchGate.cpp:279-290 | the event without the touch, and whether it was there |
| `TouchGating.TouchGate.DispatchFullyOwnedEvents` | plugins/Lomiri/Gestures/TouchGate.cpp:175-181 | sends the longest owned prefix in order and leaves the buffer empty or blocked |
| `TouchGating.TouchGate.DispatchTouchEventToTarget` | plugins/Lomiri/Gestures/TouchGate.cpp:227-235 | forgets released touches, satisfies the dispatcher's assertions and dispatches |
| `TouchGating.TouchGate.EventIsFullyOwned` | plugins/Lomiri/Gestures/TouchGate.cpp:204-213 | true exactly when every touch of the event is owned |
| `TouchGating.TouchGate.RemoveTouchInfoForEndedTouches` | plugins/Lomiri/Gestures/TouchGate.cpp:237-249 | removes exactly the released touches, and its three assertions hold |
| `TouchGating.TouchGate.Reset` | plugins/Lomiri/Gestures/TouchGate.cpp:259-264 | empties buffer and table, resets the dispatcher and keeps the invariant of both |
| `TouchDispatchSpec.DispatchKeepsInv` | plugins/Lomiri/Gestures/TouchDispatcher.cpp:51-91 | for one event of a well-formed stream: no assertion fails, and status, emulation id and the target's protocol move on together |
| `TouchDispatchSpec.StreamKeepsInv` | plugins/Lomiri/Gestures/TouchDispatcher.cpp:51-91 | the same over every well-formed stream |
| `TouchDispatchSpec.TargetSeesProtocol` | plugins/Lomiri/Gestures/TouchDispatcher.cpp:51-238 | every target sees touch begin, updates and end, or strictly alternating press and release by one touch with moves only in between; idle exactly when nothing is down; an emulation id is a touch that is down |
| `TouchDeliveries.StreamDelivered` | plugins/Lomiri/Gestures/TouchDispatcher.cpp:51-238 | a whole touch stream, for every target: accepted as touch, it gets every event with all of its points; accepted as mouse, the first point of the first event and then the own point of the emulating finger for every event; otherwise only the offers it refused; said with the events and the answers of the target alone |
| `TouchDeliveries.PassedOnWhole` | plugins/Lomiri/Gestures/TouchDispatcher.cpp:160-179 | delivery k of a stream passed on as touch has exactly the points of event k, and is the end exactly when that lifts the last touch |
| `TouchDeliveries.MouseContinues` | plugins/Lomiri/Gestures/TouchDispatcher.cpp:181-238 | from any reachable state of the emulation: while a finger is followed each event gives one delivery with its own point, a release exactly when it is lifted; afterwards the first touch that is pressed takes over |
| `TouchDeliveries.LostFinger` | plugins/Lomiri/Gestures/TouchDispatcher.cpp:201-208 | when the event does not list the finger the first listed touch takes over |
| `TouchDeliveries.LiftedAll` | plugins/Lomiri/Gestures/TouchDispatcher.cpp:80-83 | an event that lifts everything leaves the dispatcher idle, from every state |
| `TouchDeliveries.ResetForgets` | plugins/Lomiri/Gestures/TouchDispatcher.cpp:371-376 | a reset sends nothing, leaves the dispatcher idle, and the next emulated press is no double click |
| `TouchDispatchSpec.BeginKeepsInv` | plugins/Lomiri/Gestures/TouchDispatcher.cpp:93-157 | whatever the target accepts, the four outcomes of a touch begin agree with what it was sent |
| `TouchDispatchSpec.MouseKeepsInv` | plugins/Lomiri/Gestures/TouchDispatcher.cpp:181-238 | mouse emulation follows one touch, releases the button when it lifts and holds nothing when the stream ends |
| `TouchDispatchSpec.EventTypeMeaning` | plugins/Lomiri/Gestures/TouchDispatcher.cpp:378-399 | in a well-formed stream a begin is exactly an event before which nothing was down, an end exactly one after which nothing is |
| `TouchDispatchSpec.ResetAgreesIff` | plugins/Lomiri/Gestures/TouchDispatcher.cpp:371-376 | for every reset, not only the first: afterwards the dispatcher's idea of the target is right exactly when no touch stream was being delivered and no button held |
| `TouchDispatchSpec.ResetCanLoseRelease` | plugins/Lomiri/Gestures/TouchDispatcher.cpp:371-376 | press, reset, press: two presses without a release |
| `TouchDispatchSpec.TargetDoubleClicks` | plugins/Lomiri/Gestures/TouchDispatcher.cpp:140-147 | over every sequence of events since the start or a reset and every target: the target gets a double click with an emulated press exactly when it got none with the press before, and that one had a non-zero timestamp and came within the interval, in wrapping arithmetic |
| `TouchDispatchSpec.DoubleClickMeaning` | plugins/Lomiri/Gestures/TouchDispatcher.cpp:322-343 | the same over the timestamps of a run of presses |
| `TouchDispatchSpec.OneDoubleClick` | plugins/Lomiri/Gestures/TouchDispatcher.cpp:140-147 | only a press emulated at the beginning of a stream gives a double click or touches the remembered timestamp |
| `TouchDispatching.TouchDispatcher.Dispatch` | plugins/Lomiri/Gestures/TouchDispatcher.cpp:51-91 | the new state and everything the target received |
| `TouchDispatching.TouchDispatcher.ResolveEventType` | plugins/Lomiri/Gestures/TouchDispatcher.cpp:378-399 | the loop that unites the states finds the event type |
| `TouchDispatching.TouchDispatcher.DispatchTouchBegin` | plugins/Lomiri/Gestures/TouchDispatcher.cpp:93-157 | the new state and what was offered, in order |
| `TouchDispatching.TouchDispatcher.DispatchAsMouse` | plugins/Lomiri/Gestures/TouchDispatcher.cpp:181-238 | the searches find the emulating touch, and the mouse event and new id are those of the specification |
| `TouchDispatching.TouchDispatcher.CheckIfDoubleClicked` | plugins/Lomiri/Gestures/TouchDispatcher.cpp:322-343 | the verdict and the remembered timestamp |
| `TouchDispatching.TouchDispatcher.Reset` | plugins/Lomiri/Gestures/TouchDispatcher.cpp:371-376 | the state after a reset, with nothing sent |
| `Touches.EraseKeepsStreamFrom` | plugins/Lomiri/Gestures/TouchGate.cpp:160-173 | erasing touches from a well-formed stream leaves one that is well formed for the remaining touches |
| `Touches.EraseTwice` | plugins/Lomiri/Gestures/TouchGate.cpp:160-173 | erasing one set of touches and then another is erasing both, dropped events included |
| `WorkspaceSpec.AssignKeepsValid` | plugins/WindowManager/Workspace.cpp:52-78 | assigning, reassigning and unassigning keep the whole invariant: membership and lists agree both ways, unassigned sets hold only floating workspaces, a screen's current workspace is in its list and null exactly when that is empty |
| `WorkspaceSpec.AssignInTwoSteps` | plugins/WindowManager/Workspace.cpp:52-78 | a move between models is an unassignment followed by an assignment |
| `WorkspaceSpec.RemovedFits` | plugins/WindowManager/Screen.cpp:226-246 | after a removal the current workspace is still in the list, or null when that is empty |
| `WorkspaceSpec.InsertedFits` | plugins/WindowManager/Screen.cpp:211-225 | after an insertion the current workspace is in the list |
| `WorkspaceSpec.ScreenHearsCurrents` | plugins/WindowManager/Screen.cpp:211-237 | an inserted row, both handlers together: the screen's new current workspace, whether it is active, and who is active then: its old current one if the row is the active workspace and the screen was inactive |
| `WorkspaceSpec.ScreenHearsAgrees` | plugins/WindowManager/Screen.cpp:211-237 | whatever the screen activates, manager, flags and policy agree afterwards |
| `WorkspaceSpec.AssignActive` | plugins/WindowManager/Screen.cpp:218-236 | an assigned workspace stays active exactly unless it comes to an inactive screen with a current workspace, which then is active; nothing else about manager and policy changes |
| `WorkspaceSpec.MovedAwayFromActive` | plugins/WindowManager/Screen.cpp:218-236 | an input: two screens with a workspace each; the active workspace, moved to the other screen, is its current one but no longer active |
| `WorkspaceSpec.ActivateScreenKeepsValid` | plugins/WindowManager/Screen.cpp:232-236 | a screen that becomes active makes its current workspace active everywhere, invariant kept |
| `WorkspaceSpec.SetActiveKeepsValid` | plugins/WindowManager/WorkspaceManager.cpp:123-129 | activation keeps the invariant: manager, workspace flags, policy and screens agree |
| `WorkspaceSpec.SetActiveAgrees` | plugins/WindowManager/Workspace.cpp:103-113 | after the signal the policy's active handle is that of the manager's active workspace and exactly one flag is set |
| `WorkspaceSpec.CreateKeepsValid` | plugins/WindowManager/WorkspaceManager.cpp:70-83 | creation keeps the invariant, also for the first workspace |
| `WorkspaceSpec.DeleteKeepsValid` | plugins/WindowManager/Workspace.cpp:116-120 | deletion keeps the invariant whoever succeeds: nothing names the deleted workspace and no active reference dangles |
| `WorkspaceSpec.SucceededActive` | plugins/WindowManager/WorkspaceManager.cpp:85-96 | who is active after a destruction, with flags and policy in agreement |
| `WorkspaceSpec.DeleteKeepsWindowsIff` | plugins/WindowManager/WorkspaceManager.cpp:85-102 | deletion loses no window exactly when there is a surface manager, or it was the last workspace, or it held no window |
| `WorkspaceSpec.DeleteLosesWindow` | plugins/WindowManager/WorkspaceManager.cpp:85-102 | an input: the first of two workspaces is deleted without a surface manager, and its window with it |
| `WorkspaceEffects.WindowsAfterDelete` | plugins/WindowManager/Workspace.cpp:116-120 | after a deletion: with a surface manager the workspace that is active then has its own windows and those of the deleted one, the policy has them if it was the last, and every other workspace has exactly its own |
| `WorkspaceEffects.WindowsAfterDestroy` | plugins/WindowManager/WorkspaceManager.cpp:85-116 | the same before the destructor is done: the deleted one is empty |
| `WorkspaceEffects.WindowArrives` | src/WindowManagementPolicy.cpp:29-39 | a new window without a parent comes to the active workspace, to the policy when there is none, and to nobody else |
| `WorkspaceEffects.WindowsAfterCreate` | src/WindowManagementPolicy.cpp:41-51 | a new workspace has no windows, no list and is not active, but the first one is active and has the windows of the policy; nobody else changes |
| `WorkspaceEffects.AssignedHere` | plugins/WindowManager/Screen.cpp:211-225 | after an assignment: the row asked for, the rows around it, who shows it: the screen, if it is active or nothing was shown; and when the screen is active |
| `WorkspaceEffects.UnassignedThere` | plugins/WindowManager/Screen.cpp:226-231 | the list it left keeps all other rows, the screen that showed it shows the first of them, and it is unassigned there |
| `WorkspaceEffects.AssignedElsewhere` | plugins/WindowManager/Workspace.cpp:52-78 | other models change nothing but what they have unassigned |
| `WorkspaceEffects.Activated` | plugins/WindowManager/Workspace.cpp:103-113 | an activated workspace is shown by its screen, which is active; no other screen and no list changes, and nothing at all if it was active |
| `WorkspaceEffects.ScreenActivates` | plugins/WindowManager/Screen.cpp:232-236 | a screen that becomes active makes what it shows active; no other screen changes, and nothing if it was active |
| `WorkspaceEffects.InsertedRow` | plugins/WindowManager/WorkspaceModel.cpp:45-55 | row by row: what an insertion does |
| `WorkspaceEffects.RemovedRow` | plugins/WindowManager/WorkspaceModel.cpp:57-71 | a removal is undone by putting the row back |
| `WorkspaceEffects.MovedRows` | plugins/WindowManager/WorkspaceModel.cpp:73-92 | a move takes a row out and puts it in at its new place |
| `WorkspaceEffects.KeptRow` | plugins/WindowManager/WorkspaceModel.cpp:131-147 | a row that is kept comes after as many as were kept before it |
| `WorkspaceEffects.KeptCount` | plugins/WindowManager/WorkspaceModel.cpp:131-147 | how many rows are kept |
| `WorkspaceEffects.SuccessorRowIs` | plugins/WindowManager/WorkspaceModel.cpp:172-180 | the row of the successor: the number of rows above the dropped one that stay, capped by the last row |
| `WorkspaceSpec.ArrivalKeepsWindows` | src/WindowManagementPolicy.cpp:29-39 | a new parentless window lands in exactly one live workspace |
| `WorkspaceSpec.CreateKeepsWindows` | src/WindowManagementPolicy.cpp:41-51 | creation loses no window and empties the dummy workspace |
| `WorkspaceSpec.MoveKeepsWindows` | plugins/WindowManager/WorkspaceManager.cpp:111-116 | moving contents loses and duplicates no window |
| `WorkspaceSpec.ReleaseKeepsWindowsIff` | src/WindowManagementPolicy.cpp:53-62 | releasing a workspace loses no window exactly when it was the last one or was empty |
| `WorkspaceSync.PruneStep` | plugins/WindowManager/WorkspaceModel.cpp:131-147 | checking one more row removes it exactly when no proxy points at it, at the row number the survivors before it give |
| `WorkspaceSync.PlaceStep` | plugins/WindowManager/WorkspaceModel.cpp:151-163 | step i inserts, moves or keeps so that the first i+1 rows are the first i+1 targets |
| `WorkspaceSync.PlacedAll` | plugins/WindowManager/WorkspaceModel.cpp:151-163 | after the last step the list is the list of targets |
| `WorkspaceSync.RemovalStep` | plugins/WindowManager/WorkspaceModel.cpp:131-147 | one removal step on the whole world, other models untouched |
| `WorkspaceSync.PlacingStep` | plugins/WindowManager/WorkspaceModel.cpp:151-163 | one placing step on the whole world: the target leaves every other list and unassigned set, and who is active afterwards, screens included |
| `WorkspaceSync.MovedKeepsValid` | plugins/WindowManager/WorkspaceModel.cpp:73-92 | moving a row keeps the invariant |
| `WorkspaceSync.DeleteStep` | plugins/WindowManager/WorkspaceModel.cpp:183-190 | deleting a floating workspace changes no list and only its own place in unassigned sets |
| `WorkspaceSync.PlacingDoneActive` | plugins/WindowManager/WorkspaceModel.cpp:128-163 | who is active once the lists are right: as before, unless the active workspace came to an inactive screen; then the screen's current workspace if it stayed, else the first row that stayed, else the first target |
| `WorkspaceSync.SyncDoneActive` | plugins/WindowManager/WorkspaceModel.cpp:172-180 | who is active at the end, and that a dropped active workspace is followed by the row that took its place |
| `WorkspaceSync.SyncDone` | plugins/WindowManager/WorkspaceModel.cpp:123-181 | the phases together give what a synchronisation promises |
| `Desktops.Desktop.Sync` | plugins/WindowManager/WorkspaceModel.cpp:123-181 | the list becomes the targets, or one new workspace when there are none, on both sides; exactly the left-over workspaces are deleted; other models lose only what moved here; the active workspace stays exactly unless it comes to an inactive screen that has somebody to activate, who is named; the successor of a dropped one is the row that took its place; invariant and windows are kept |
| `Desktops.Desktop.RemoveStale` | plugins/WindowManager/WorkspaceModel.cpp:128-147 | the removal loop, and the remembered row of the active workspace |
| `Desktops.Desktop.PlaceTargets` | plugins/WindowManager/WorkspaceModel.cpp:149-163 | the placing loop makes the list the targets, for distinct live targets |
| `Desktops.Desktop.AddFirstRow` | plugins/WindowManager/WorkspaceModel.cpp:165-170 | an empty model ends with exactly one new workspace |
| `Desktops.Desktop.FinishSync` | plugins/WindowManager/WorkspaceModel.cpp:183-190 | every unassigned workspace is deleted and nothing else, in any order |
| `Desktops.Desktop.AddWorkspace` | plugins/WindowManager/WorkspaceModel.cpp:248-254 | a new live workspace waits in the unassigned set of the model, nothing else of any model changes, and it gets a proxy at the end of the proxy list, which can be synchronised if it could before |
| `ScreensSyncSpec.SyncAllIff` | plugins/WindowManager/Screens.cpp:140-151 | for any number of screens with distinct proxies: every screen finds the workspaces of its proxies alive exactly when none of them is held, listed or unassigned, by a screen whose turn came before; then every screen ends with its proxies' list, or one new workspace |
| `ScreensSyncSpec.SurvivesIff` | plugins/WindowManager/Screens.cpp:146-148 | a workspace moved between screens is alive after n turns exactly when its old screen is still to come or its new one came first |
| `ScreensSyncSpec.TurnKeepsMidway` | plugins/WindowManager/Screens.cpp:146-148 | one turn: the lists done before stay right, and exactly the targets held by this screen are lost to the later ones |
| `ScreensSyncSpec.LaterScreenLoses` | plugins/WindowManager/Screens.cpp:146-148 | an input: a workspace dragged from the first of two screens to the second |
| `Desktops.Desktop.SyncScreens` | plugins/WindowManager/Screens.cpp:140-151 | the loop over the screens meets a proxy without a workspace exactly when one moves to a later screen; otherwise all lists end up right; invariant and windows kept |
| `WorkspaceMirrorSpec.MirrorFollowsIff` | plugins/WindowManager/WorkspaceModel.cpp:205-254 | in every run of changes of the original, proxies moved, added, dragged in or removed, and synchronisations: unedited since the start or the last synchronisation the mirror is the original's list, and it has every row of it unless a proxy was removed, for as long and only as long as no row is inserted behind its end |
| `WorkspaceMirrorSpec.MirrorFollows` | plugins/WindowManager/WorkspaceModel.cpp:205-254 | in every such run without a removed proxy the mirror can make every change, with the row numbers it is told |
| `WorkspaceMirrorSpec.FollowsInsertionsIff` | plugins/WindowManager/WorkspaceModel.cpp:214-218 | a mirror can make every change that may come exactly when it is not shorter than the list |
| `WorkspaceMirrorSpec.RemovedProxyFallsBehind` | plugins/WindowManager/WorkspaceModel.cpp:214-218 | an input: the second of two proxies is removed, then a third row inserted |
| `WorkspaceMirrorSpec.StepKeepsMirror` | plugins/WindowManager/WorkspaceModel.cpp:214-254 | one step of such a run |
| `WorkspaceMirrorSpec.MirroredRows` | plugins/WindowManager/WorkspaceModel.cpp:214-235 | row by row, for any proxy list: what a mirrored insertion, removal or move does, and that a removal without a proxy and a move out of range do nothing |
| `WorkspaceMirrors.ProxyWorkspaceModel.constructor` | plugins/WindowManager/WorkspaceModel.cpp:205-213 | a proxy list starts as the original's list |
| `WorkspaceMirrors.ProxyWorkspaceModel.WorkspaceInserted` | plugins/WindowManager/WorkspaceModel.cpp:214-218 | an inserted row is mirrored unless the screens are being synchronised, and whether the list has that row |
| `WorkspaceMirrors.ProxyWorkspaceModel.WorkspaceRemoved` | plugins/WindowManager/WorkspaceModel.cpp:219-230 | the search removes the first proxy of the workspace, if there is one |
| `WorkspaceMirrors.ProxyWorkspaceModel.WorkspaceMoved` | plugins/WindowManager/WorkspaceModel.cpp:231-235 | a move that is in range for the mirror is made, any other ignored |
| `Desktops.Desktop.Insert` | plugins/WindowManager/WorkspaceModel.cpp:45-55 | the row and both reactions of the screen to it |
| `Desktops.Desktop.Remove` | plugins/WindowManager/WorkspaceModel.cpp:57-71 | the row leaves for the unassigned set, with the screen's reaction |
| `Desktops.Desktop.Move` | plugins/WindowManager/WorkspaceModel.cpp:73-92 | one row moves; out of range or equal places change nothing |
| `Desktops.Desktop.AssignWorkspace` | plugins/WindowManager/Workspace.cpp:52-78 | the whole new world of an assignment, screen activation included; invariant and windows kept |
| `Desktops.Desktop.SetActiveWorkspace` | plugins/WindowManager/Workspace.cpp:103-113 | the handlers of all workspaces, run in any order, give one result |
| `Desktops.Desktop.HearActiveWorkspace` | plugins/WindowManager/Workspace.cpp:103-113 | one handler: flag, screen and policy |
| `Desktops.Desktop.ActivateScreen` | plugins/WindowManager/Screen.cpp:232-236 | a newly active screen activates its current workspace |
| `Desktops.Desktop.ScreenActivated` | plugins/WindowManager/Screen.cpp:232-236 | the same for a screen activated from outside; invariant and windows kept |
| `Desktops.Desktop.ScreenDeactivated` | plugins/WindowManager/Screen.cpp:232-236 | nobody reacts to a screen that stops being active |
| `Desktops.Desktop.Activate` | plugins/WindowManager/Workspace.cpp:127-130 | the workspace is active everywhere, invariant and windows kept |
| `Desktops.Desktop.CreateWorkspace` | plugins/WindowManager/WorkspaceManager.cpp:70-83 | a new workspace with a new handle; the first one becomes active; nothing is lost |
| `Desktops.Desktop.DestroyWorkspace` | plugins/WindowManager/WorkspaceManager.cpp:85-102 | the manager lets go, any other workspace may succeed, contents migrate |
| `Desktops.Desktop.DeleteWorkspace` | plugins/WindowManager/Workspace.cpp:116-120 | the destructor keeps the invariant and, with a surface manager, every window |
| `Desktops.Desktop.NewWindow` | src/WindowManagementPolicy.cpp:29-39 | an announced parentless window is never lost |
| `Desktops.WindowManagementPolicy.CreateWorkspace` | src/WindowManagementPolicy.cpp:41-51 | the new handle is fresh; the first workspace takes over from the dummy |
| `Desktops.WindowManagementPolicy.ReleaseWorkspace` | src/WindowManagementPolicy.cpp:53-62 | the handle goes; with the last one the dummy takes over |
| `Desktops.WindowManagementPolicy.SetActiveWorkspace` | src/WindowManagementPolicy.cpp:64-69 | null means the dummy |
| `TouchGestureSpec.NextKeepsInv` | plugins/Lomiri/Gestures/TouchGestureArea.cpp:168-453 | for sound limits every legal step keeps status and id sets in agreement, state by state |
| `TouchGestureSpec.RunKeepsInv` | plugins/Lomiri/Gestures/TouchGestureArea.cpp:168-453 | the same over every run |
| `TouchGestureSpec.RunsKeepInvIff` | plugins/Lomiri/Gestures/TouchGestureArea.cpp:168-453 | status and id sets agree after every run from the start exactly when the minimum is at least one or the maximum negative |
| `TouchGestureSpec.ZeroMinimumBreaksInv` | plugins/Lomiri/Gestures/TouchGestureArea.cpp:221-250 | the failing input: a touch event without a press |
| `TouchGestureRecognition.NumberDecides` | plugins/Lomiri/Gestures/TouchGestureArea.cpp:221-279 | over every run of presses and releases from the start that left the area undecided before its last event: with n touches down it waits for a touch if n is 0, for more if n is below the minimum, for ownership from the minimum to the maximum and rejects above, however the touches came |
| `TouchGestureRecognition.Recognises` | plugins/Lomiri/Gestures/TouchGestureArea.cpp:168-185 | from the start: once the minimum of touches is there, the gesture is recognised exactly when at least the minimum of them is granted |
| `TouchGestureRecognition.GrantsDecide` | plugins/Lomiri/Gestures/TouchGestureArea.cpp:168-185 | grants one by one: which candidates remain, which touches are watched, and recognised with the grant that makes the minimum |
| `TouchGestureRecognition.WaitingFollows` | plugins/Lomiri/Gestures/TouchGestureArea.cpp:281-294 | while ownership is waited for, over every run of presses and releases: lifted candidates are forgotten, presses watched, and with none left the area waits for a touch |
| `TouchGestureRecognition.RecognizedFollows` | plugins/Lomiri/Gestures/TouchGestureArea.cpp:296-429 | a recognised gesture over every run of presses and releases without too many touches: recognised exactly while at least the minimum is watched, else about to be rejected; candidates wait on |
| `TouchGestureRecognition.OneTooMany` | plugins/Lomiri/Gestures/TouchGestureArea.cpp:296-316 | one press too many rejects it with all touches watched |
| `TouchGestureRecognition.EndsRejected` | plugins/Lomiri/Gestures/TouchGestureArea.cpp:714-735 | a lost candidate or a timeout, in any state: all touches are watched and the gesture rejected, or nothing is left |
| `TouchGestureRecognition.RejectedFollows` | plugins/Lomiri/Gestures/TouchGestureArea.cpp:318-453 | a rejected gesture over every run of presses and releases watches exactly the touches that come, without those lifted, until none is left |
| `TouchGesturePoints.StatusMeaning` | plugins/Lomiri/Gestures/TouchGestureArea.cpp:50-60 | which internal statuses a client sees as which, in which the timer runs and in which ownership is requested |
| `TouchGestureReturns.ReturnsIff` | plugins/Lomiri/Gestures/TouchGestureArea.cpp:413-735 | after every run from the start that ends with all fingers lifted: the area waits for the next gesture, or does so once its timer fires, exactly when no candidate's release was missed |
| `TouchGestureReturns.AfterKeepsInv` | plugins/Lomiri/Gestures/TouchGestureArea.cpp:187-453 | at every step the tracked touches that are not down are exactly those whose release was missed |
| `TouchGestureReturns.StaysRejected` | plugins/Lomiri/Gestures/TouchGestureArea.cpp:431-453 | a rejected gesture that missed a release stays rejected over every run in which that touch is not pressed again |
| `TouchGestureReturns.StuckAfterLift` | plugins/Lomiri/Gestures/TouchGestureArea.cpp:413-429 | an input: two fingers, one granted, both lifted, the timer fires |
| `TouchGestureReturns.WithinMaximumIff` | plugins/Lomiri/Gestures/TouchGestureArea.cpp:168-185 | over every run a recognised gesture has at most the maximum of touches exactly when no touch is granted that is one too many |
| `TouchGestureReturns.PatientPressesStayWithin` | plugins/Lomiri/Gestures/TouchGestureArea.cpp:281-294 | that never happens in runs without a press while candidates wait for their answer |
| `TouchGestureReturns.ThreeOfTwo` | plugins/Lomiri/Gestures/TouchGestureArea.cpp:281-294 | an input: two fingers, a third one, both candidates granted, with a maximum of two |
| `TouchGestureSpec.LiveListed` | plugins/Lomiri/Gestures/TouchGestureArea.cpp:467-533 | a listed touch is treated as if the event listed nothing else |
| `TouchGestureSpec.LiveFrame` | plugins/Lomiri/Gestures/TouchGestureArea.cpp:467-533 | touches an event does not list keep their point |
| `TouchGesturePoints.PointAfter` | plugins/Lomiri/Gestures/TouchGestureArea.cpp:467-533 | the point of a listed touch after an event: gone exactly when released, new where the event says, moved to where the event says, and dragging exactly when it was or the step is over a threshold |
| `TouchGesturePoints.WhoCameAndWent` | plugins/Lomiri/Gestures/TouchGestureArea.cpp:467-533 | touch by touch: it ended exactly when it was live and is not, began exactly when it is and was not, and moved exactly when it was and the event moved it |
| `TouchGesturePoints.DragsIff` | plugins/Lomiri/Gestures/TouchGestureArea.cpp:506-521 | over every run of events a touch that stays down drags exactly when one of them moved it over a threshold |
| `TouchGesturePoints.DragStartsIff` | plugins/Lomiri/Gestures/TouchGestureArea.cpp:536-546 | dragging starts exactly when the gesture is recognised and every touch drags |
| `TouchGesturePoints.SignalsMean` | plugins/Lomiri/Gestures/TouchGestureArea.cpp:547-566 | the exact list of closing signals, a click exactly when the last touch went without dragging |
| `TouchGestureSpec.EventTellsClient` | plugins/Lomiri/Gestures/TouchGestureArea.cpp:535-567 | released, pressed and updated points of an event turn the points before into the points after |
| `TouchGestureSpec.ResyncTellsClient` | plugins/Lomiri/Gestures/TouchGestureArea.cpp:737-790 | a resynchronisation tells exactly what was missed |
| `TouchGestureSpec.PointSignalsTell` | plugins/Lomiri/Gestures/TouchGestureArea.cpp:547-563 | a client that hears the closing signals knows points and dragging |
| `TouchGestures.TouchGestureArea.TouchEvent` | plugins/Lomiri/Gestures/TouchGestureArea.cpp:187-219 | status, id sets, live points and acceptance, with answers while requesting; replaying the signals gives what is visible, which is the live points except in WaitingForRejection; the timer runs exactly in its two states; dragging implies visible points |
| `TouchGestures.TouchGestureArea.TouchEventWaiting` | plugins/Lomiri/Gestures/TouchGestureArea.cpp:221-279 | presses become candidates; enough, too many or too few decide the status; accepted exactly when ownership is requested |
| `TouchGestures.TouchGestureArea.TouchEventRecognized` | plugins/Lomiri/Gestures/TouchGestureArea.cpp:296-316 | presses are watched; too many reject, enough recover from WaitingForRejection |
| `TouchGestures.TouchGestureArea.UnownedTouchEvent` | plugins/Lomiri/Gestures/TouchGestureArea.cpp:339-370 | the same guarantees; events without press or release change nothing |
| `TouchGestures.TouchGestureArea.UnownedTouchEventRecognized` | plugins/Lomiri/Gestures/TouchGestureArea.cpp:413-429 | releases leave the watched set, candidates stay, too few start the rejection timer |
| `TouchGestures.TouchGestureArea.UnownedTouchEventRejected` | plugins/Lomiri/Gestures/TouchGestureArea.cpp:431-453 | the watched set follows the touches; when it is empty the area waits again |
| `TouchGestures.TouchGestureArea.TouchOwnershipEvent` | plugins/Lomiri/Gestures/TouchGestureArea.cpp:168-185 | a gain watches the candidate and may recognise, a loss rejects; invariant kept |
| `TouchGestures.TouchGestureArea.RejectGesture` | plugins/Lomiri/Gestures/TouchGestureArea.cpp:714-735 | candidates become watched touches; the clients' copy is brought up to date |
| `TouchGestures.TouchGestureArea.OnTimeout` | plugins/Lomiri/Gestures/TouchGestureArea.cpp:714-735 | the timer rejects the gesture and has stopped |
| `TouchGestures.TouchGestureArea.SetInternalStatus` | plugins/Lomiri/Gestures/TouchGestureArea.cpp:579-617 | a new status is announced first; the timer runs exactly in the two waiting states and the clients stay in step |
| `TouchGestures.TouchGestureArea.EnterStatus` | plugins/Lomiri/Gestures/TouchGestureArea.cpp:595-616 | on entering a status the clients catch up or a timer starts |
| `TouchGestures.TouchGestureArea.UpdateTouchPoints` | plugins/Lomiri/Gestures/TouchGestureArea.cpp:455-567 | live points follow the event, the clients' copy too unless frozen, and exactly which signals are emitted |
| `TouchGestures.TouchGestureArea.TrackPoints` | plugins/Lomiri/Gestures/TouchGestureArea.cpp:467-533 | the loop over the points, and the sets of ended, begun and moved touches |
| `TouchGestures.TouchGestureArea.ResyncCachedTouchPoints` | plugins/Lomiri/Gestures/TouchGestureArea.cpp:737-790 | the copy equals the live points again and listeners know it |
| `LimitProxySpec.InsertReplay` | plugins/Utils/qlimitproxymodelqml.cpp:128-175 | for every insertion and limit: the announced ranges are legal for the view and replaying them gives the visible prefix |
| `LimitProxySpec.RemoveReplay` | plugins/Utils/qlimitproxymodelqml.cpp:177-224 | the same for every removal |
| `LimitProxySpec.InsertTight` | plugins/Utils/qlimitproxymodelqml.cpp:128-175 | nothing is announced without need: inserted rows start where the source inserted and are new, changed rows did change, and nothing is announced exactly when the visible rows stay, for rows that differ |
| `LimitProxySpec.RemoveTight` | plugins/Utils/qlimitproxymodelqml.cpp:177-224 | the same for a removal, with the last visible rows announced as removed when others are announced as changed |
| `LimitProxySpec.LimitTight` | plugins/Utils/qlimitproxymodelqml.cpp:88-126 | a new limit announces no changed rows, and nothing exactly when the visible rows stay |
| `LimitProxySpec.VisibleMeaning` | plugins/Utils/qlimitproxymodelqml.cpp:72-80 | what is visible: the first rows, as many as the limit allows, all of them for a negative limit |
| `LimitProxySpec.LimitReplayIff` | plugins/Utils/qlimitproxymodelqml.cpp:88-126 | the same for a change of limit, exactly unless both limits are negative and different, and then the visible rows stay |
| `LimitProxySpec.NegativeLimitsAnnounceNonsense` | plugins/Utils/qlimitproxymodelqml.cpp:88-126 | an input: from -1 to -2 with one row |
| `LimitProxySpec.SaneLimitsReplay` | plugins/Utils/qlimitproxymodelqml.cpp:88-126 | limits of at least -1 always announce properly |
| `LimitProxySpec.ObserverHoldsPrefix` | plugins/Utils/qlimitproxymodelqml.cpp:88-252 | over every run of insertions, removals and changes to any limit an observer ends with the visible prefix; each announcement is legal when made but for that exception, which it ignores |
| `LimitProxies.QLimitProxyModel.SetLimit` | plugins/Utils/qlimitproxymodelqml.cpp:88-126 | for every new limit: what is announced, exactly when it makes sense, and that an observer who replays what makes sense holds the visible prefix |
| `LimitProxies.QLimitProxyModel.SourceRowsAboutToBeInserted` | plugins/Utils/qlimitproxymodelqml.cpp:128-175 | flags and ranges remembered between the two halves are exactly what will be announced |
| `LimitProxies.QLimitProxyModel.SourceRowsAboutToBeRemoved` | plugins/Utils/qlimitproxymodelqml.cpp:177-224 | the same for a removal |
| `LimitProxies.QLimitProxyModel.SourceRowsInserted` | plugins/Utils/qlimitproxymodelqml.cpp:226-238 | the second half announces it and clears everything |
| `LimitProxies.QLimitProxyModel.SourceRowsRemoved` | plugins/Utils/qlimitproxymodelqml.cpp:240-252 | the same for a removal |
| `LimitProxies.QLimitProxyModel.InsertSourceRows` | plugins/Utils/qlimitproxymodelqml.cpp:128-238 | both halves around a source insertion leave the observer with the visible prefix |
| `LimitProxies.QLimitProxyModel.RemoveSourceRows` | plugins/Utils/qlimitproxymodelqml.cpp:177-252 | both halves around a source removal do too |
| `LimitProxies.QLimitProxyModel.RowCount` | plugins/Utils/qlimitproxymodelqml.cpp:72-80 | the number of visible rows |
| `AxisVelocitySpec.SumTelescopes` | plugins/Lomiri/Gestures/AxisVelocityCalculator.cpp:95-110 | for times that never run backwards, whatever their span: the distances telescope from the sample just before the first recent one, and so do the times but for the narrowed first step |
| `AxisVelocitySpec.TimeExactIff` | plugins/Lomiri/Gestures/AxisVelocityCalculator.cpp:102-106 | the time summed up is the time that passed exactly when the first step is below 2^31 |
| `AxisVelocitySpec.UndefinedIff` | plugins/Lomiri/Gestures/AxisVelocityCalculator.cpp:112 | the velocity is undefined exactly when the time since that sample is a multiple of 2^32, zero included |
| `AxisVelocitySpec.BaseIsLastOld` | plugins/Lomiri/Gestures/AxisVelocityCalculator.cpp:101-102 | that sample is the newest one more than 100 milliseconds old, or the oldest stored |
| `AxisVelocitySpec.LongGapUndefined` | plugins/Lomiri/Gestures/AxisVelocityCalculator.cpp:103 | two samples 2^32 milliseconds apart have no velocity |
| `AxisVelocitySpec.VelocityMeaning` | plugins/Lomiri/Gestures/AxisVelocityCalculator.cpp:79-113 | the velocity is the difference quotient between that sample and now exactly when the first step is below 2^31, or nothing moved and the time summed up does not vanish |
| `AxisVelocitySpec.ToInt32Exact` | plugins/Lomiri/Gestures/AxisVelocityCalculator.cpp:103 | the narrowing of a time difference is exact precisely within the range of a 32-bit int |
| `AxisVelocitySpec.PushFull` | plugins/Lomiri/Gestures/AxisVelocityCalculator.cpp:68-76 | writing into a full ring drops the oldest sample and appends the new one |
| `AxisVelocitySpec.PushNotFull` | plugins/Lomiri/Gestures/AxisVelocityCalculator.cpp:66-76 | writing into a ring with room appends |
| `AxisVelocities.AxisVelocityCalculator.ProcessMovement` | plugins/Lomiri/Gestures/AxisVelocityCalculator.cpp:64-77 | the ring holds the last 50 samples since the reset, in order |
| `AxisVelocities.AxisVelocityCalculator.NumSamples` | plugins/Lomiri/Gestures/AxisVelocityCalculator.cpp:121-137 | the smaller of 50 and the number of samples since the reset |
| `AxisVelocities.AxisVelocityCalculator.SetTrackedPosition` | plugins/Lomiri/Gestures/AxisVelocityCalculator.cpp:49-57 | samples keep being the differences of the tracked positions |
| `AxisVelocities.AxisVelocityCalculator.Calculate` | plugins/Lomiri/Gestures/AxisVelocityCalculator.cpp:79-113 | zero with fewer than two samples; otherwise, for times that never run backwards, the difference quotient exactly under that condition and undefined exactly under the other |
| `AxisVelocities.AxisVelocityCalculator.SumSamples` | plugins/Lomiri/Gestures/AxisVelocityCalculator.cpp:95-110 | the loop around the ring computes the two sums and stops |
| `AxisVelocities.AxisVelocityCalculator.Reset` | plugins/Lomiri/Gestures/AxisVelocityCalculator.cpp:115-119 | no samples are left |
| `MenuContentSearch.NextIsNearestIff` | plugins/Lomiri/Indicators/menucontentactivator.cpp:252-302 | from every explored state: the search finds the inactive index nearest the base, above before below, and finishes exactly when there is none or the base is out of range, if and only if no inactive index lies between a negative base and the menu |
| `MenuContentSearch.NextExplored` | plugins/Lomiri/Indicators/menucontentactivator.cpp:205-217 | whatever was found: with it everything up to it is active |
| `MenuContentSearch.FinishedIff` | plugins/Lomiri/Indicators/menucontentactivator.cpp:252-302 | the search finishes exactly when no candidate is inactive, for every base |
| `MenuContentSearch.AheadIff` | plugins/Lomiri/Indicators/menucontentactivator.cpp:252-302 | when the search reaches the menu something lies ahead exactly when an index of the menu is inactive |
| `MenuContentSearch.ActiveAfter` | plugins/Lomiri/Indicators/menucontentactivator.cpp:242-250 | setting an index decides about that index and no other |
| `MenuContentSearch.ReachesMenuFromMinusOne` | plugins/Lomiri/Indicators/menucontentactivator.cpp:279-293 | from a base of -1 upwards the search always reaches the menu |
| `MenuContentSearch.NegativeBaseEscapes` | plugins/Lomiri/Indicators/menucontentactivator.cpp:279-302 | an input: base -2 in a fresh menu of one |
| `MenuContentSearch.RankOrders` | plugins/Lomiri/Indicators/menucontentactivator.cpp:263-293 | the zig-zag visits by distance, above before below |
| `MenuContents.MenuContentActivator.FindNextInactiveDelta` | plugins/Lomiri/Indicators/menucontentactivator.cpp:252-302 | terminates for every base, count, start and content, with the first inactive candidate in the zig-zag or the news that there is none |
| `MenuContents.MenuContentActivator.Restart` | plugins/Lomiri/Indicators/menucontentactivator.cpp:87-106 | for every base: the base is active, the search starts over, the timer runs exactly when a candidate is inactive; if the search reaches the menu, exactly when the base is not behind the menu and an index of it is inactive |
| `MenuContents.MenuContentActivator.OnTimeout` | plugins/Lomiri/Indicators/menucontentactivator.cpp:205-217 | for every base: activates the next inactive candidate or stops the timer exactly when there is none; this is the nearest index of the menu, and shrinks its inactive set by one, exactly when the search reaches the menu |
| `MenuContents.MenuContentActivator.Stop` | plugins/Lomiri/Indicators/menucontentactivator.cpp:108-115 | the timer stops; the running flag is not cleared |
| `MenuContents.MenuContentActivator.SetBaseIndex` | plugins/Lomiri/Indicators/menucontentactivator.cpp:149-160 | restarts exactly when running and the base changed, and when the timer runs then |
| `MenuContents.MenuContentActivator.SetCount` | plugins/Lomiri/Indicators/menucontentactivator.cpp:167-177 | restarts exactly when running and the count changed, and when the timer runs then |
| `MenuContents.MenuContentActivator.Clear` | plugins/Lomiri/Indicators/menucontentactivator.cpp:117-126 | nothing is active and the timer stands still |
| `MenuStackSpec.InsertKeepsTrack` | plugins/Lomiri/Indicators/lomirimenumodelstack.cpp:43-49 | under any insertion every entry still points at the row it was opened at; exactly the entries of that model at or below it move down, by as many rows as came |
| `MenuStackSpec.RemoveKeepsTrack` | plugins/Lomiri/Indicators/lomirimenumodelstack.cpp:51-63 | a removal cuts the stack exactly below the lowest entry opened at one of the removed rows, by row number and by row; the rest still point at their rows and move up by as many rows as went above them |
| `MenuStackSpec.ResetKeepsTrack` | plugins/Lomiri/Indicators/lomirimenumodelstack.cpp:65-69 | a reset cuts below the lowest entry opened from that model; the rest are unaffected |
| `MenuStacks.LomiriMenuModelStack.RowsInserted` | plugins/Lomiri/Indicators/lomirimenumodelstack.cpp:43-49 | all entries hear of it and keep their rows |
| `MenuStacks.LomiriMenuModelStack.RowsRemoved` | plugins/Lomiri/Indicators/lomirimenumodelstack.cpp:51-63 | all entries hear of it, also those popped meanwhile; stack and rows as specified |
| `MenuStacks.LomiriMenuModelStack.ModelReset` | plugins/Lomiri/Indicators/lomirimenumodelstack.cpp:65-69 | the stack is cut below the lowest entry opened from the model |
| `MenuStacks.LomiriMenuModelStack.OnRemove` | plugins/Lomiri/Indicators/lomirimenumodelstack.cpp:145-158 | pops down to and including the entry; nothing for an entry already gone |
| `MenuStacks.LomiriMenuModelStack.Push` | plugins/Lomiri/Indicators/lomirimenumodelstack.cpp:117-125 | the new entry belongs to the row of the model that was on top |
| `MenuStacks.LomiriMenuModelStack.Pop` | plugins/Lomiri/Indicators/lomirimenumodelstack.cpp:127-143 | undoes a push and returns its model |
| `MenuStacks.LomiriMenuModelStack.SetHead` | plugins/Lomiri/Indicators/lomirimenumodelstack.cpp:96-105 | a different head replaces the stack, the same one changes nothing |
| `WindowRowSpec.BlockOut` | plugins/WindowManager/TopLevelWindowModel.cpp:545-588 | taking out the rows of a block is taking out exactly the rows that show its surfaces |
| `WindowRowSpec.RaisedMeaning` | plugins/WindowManager/TopLevelWindowModel.cpp:680-690 | raising distinct surfaces one by one leaves their rows on top in reverse list order, above the rest in unchanged order |
| `WindowRowSpec.OnTopAppend` | plugins/WindowManager/TopLevelWindowModel.cpp:680-690 | rows of surfaces listed later are further up |
| `WindowRowSpec.OnTopOne` | plugins/WindowManager/TopLevelWindowModel.cpp:680-690 | of a surface it is the first row that shows it, if there is one |
| `WindowRowSpec.RemainingMeaning` | plugins/WindowManager/TopLevelWindowModel.cpp:536-588 | removing block after block leaves exactly the rows that show no listed surface, in order |
| `WindowRowSpec.ForgottenIff` | plugins/WindowManager/TopLevelWindowModel.cpp:566-579 | surface by surface: the first is forgotten, any other exactly when its row does not lie directly below its list predecessor's once the earlier ones are gone |
| `WindowRowSpec.ForgetsAllIff` | plugins/WindowManager/TopLevelWindowModel.cpp:566-579 | all listed surfaces are forgotten exactly when no two list neighbours touch in this way |
| `WindowRowSpec.AdjacentNotForgotten` | plugins/WindowManager/TopLevelWindowModel.cpp:566-579 | an input: of two surfaces in adjacent rows only the first is forgotten |
| `WindowRowSpec.MoveNotice` | plugins/WindowManager/TopLevelWindowModel.cpp:850-878 | the announced move is legal and replaying it gives the moved rows |
| `WindowRowSpec.IndexOf` | plugins/WindowManager/TopLevelWindowModel.cpp:732-740 | the first row that shows the surface, or the row count |
| `WindowModels.TopLevelWindowModel.RemoveSurfaces` | plugins/WindowManager/TopLevelWindowModel.cpp:536-588 | leaves exactly the rows whose surface is not listed, in order, when no surface is shown twice, and the block by block result otherwise; says exactly which surfaces are forgotten; an observer of the notifications agrees |
| `WindowModels.TopLevelWindowModel.ExtendBlock` | plugins/WindowManager/TopLevelWindowModel.cpp:551-558 | the block found is the longest run of list neighbours in adjacent rows |
| `WindowModels.TopLevelWindowModel.TakeOut` | plugins/WindowManager/TopLevelWindowModel.cpp:560-588 | removing row after row at one place removes the block; one notification covers it |
| `WindowModels.TopLevelWindowModel.OnSurfacesRaised` | plugins/WindowManager/TopLevelWindowModel.cpp:680-690 | the loop of moves raises the listed rows; an observer agrees |
| `WindowModels.TopLevelWindowModel.Move` | plugins/WindowManager/TopLevelWindowModel.cpp:850-878 | the row moves and an observer agrees; out of range nothing happens |
| `WindowModels.TopLevelWindowModel.RemoveAt` | plugins/WindowManager/TopLevelWindowModel.cpp:601-641 | the row goes, its surface is forgotten and an observer agrees |
| `WindowModels.TopLevelWindowModel.RemoveApplication` | plugins/WindowManager/TopLevelWindowModel.cpp:153-167 | exactly the rows of other applications stay, in order, and exactly the surfaces of the removed rows are forgotten |
| `WindowModels.AppMembers` | plugins/WindowManager/TopLevelWindowModel.cpp:153-167 | which rows are left and which surfaces are meant, by the application of each row |
| `WindowModels.AppOrder` | plugins/WindowManager/TopLevelWindowModel.cpp:153-167 | the rows that are left keep their order |
| `WindowModels.TopLevelWindowModel.PrependWindow` | plugins/WindowManager/TopLevelWindowModel.cpp:297-317 | the row comes first, an observer agrees, and exactly a surface that is shown already is then shown twice |
| `WindowModels.TopLevelWindowModel.FindSurface` | plugins/WindowManager/TopLevelWindowModel.cpp:732-740 | the index of the first row that shows the surface, or -1 |

## Left out

- Everything that is input and output: D-Bus, login and greeter, settings, databases, files, cursors, QML, X11.
- Coordinates and their transformation, devices, modifiers and windows in touch events, and the timestamp of a delivery: they are carried along as opaque data and never looked at by the code modelled.
- The touch registry, the window manager library and the surface manager: they are the environment, with the contract stated above; moving contents really moves them.
- Re-entrancy: each handler is one step, and no observer calls back into the object, except for ownership answers given while ownership is being requested and for workspaces and screens that activate each other.
- A null, disabled, invisible or changing target item, which the code calls unsupported (plugins/Lomiri/Gestures/TouchGate.cpp:217).
- Presses of a touch id that the gate still tracks.
- `TouchGate::itemChange` and the enabling of items: only the reset they lead to is modelled.
- Desktops.Desktop.SyncScreens: does not say what the code does with a proxy whose workspace is gone; it follows a null pointer there, and the method stops.
- Proxies as objects: a proxy list is the list of the workspaces it points at. A mirrored removal does not reset the proxy's own model pointer, and a proxy dragged between screens is a removal from one list and an insertion into another.
- Desktops.Desktop.Sync: does not cover two proxies of one workspace or a proxy whose workspace is gone; the code follows such pointers unchecked.
- Workspaces, models and screens as heap objects: they are entries of tables under ids, because objects here are deleted and a Dafny object cannot be; so a dangling id would show, but aliasing in memory is not modelled. The manager, the models, the workspaces and the screens' handlers are one class for the same reason.
- Setting a screen's current workspace from outside, and `destroyWorkspace` without deletion.
- The order of points within one signal of the gesture area, the registration calls to the registry, the grab of touch points, and the per-point `pressed` flag of points already released.
- Changing the minimum or maximum number of touches while a gesture goes on, the two timer intervals and replacing the timer.
- Row moves, resets, nested rows and forwarded data changes of the limit proxy's source.
- Rounding of the velocity: positions are real numbers. A division by no elapsed time is `Undefined`, not infinity or NaN. Times that run backwards get the sums of the code and no further meaning.
- Replacing the time source or the content timer, and the objects behind the menu's content states.
- Notifications about the head, tail and count of the menu stack, and menu models that are destroyed while on the stack.
- Filling of placeholder rows and the fuzzy matching of application names, hiding and showing of windows, focus, the input method window, and rebuilding the whole window model.
- WindowModels.TopLevelWindowModel.OnSurfacesRaised: does not describe the order for a list that names a surface twice, beyond the moves one by one.
