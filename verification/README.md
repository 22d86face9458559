# Sophia: verified models of its state machines and pixel arithmetic

Sophia is a display-server stack. Around its I/O it has a core of bounded state machines and of pixel
and geometry arithmetic; this project models that core in Dafny and proves what it is for.

| module | what it models |
|---|---|
| `PresentationModel`, `PresentationRegistry` | the DMA-BUF presentation registry: counted sources and fences, deferred release, disconnect |
| `DeferredRelease`, `PresentationAnswers` | what a deferred release comes to, what each call of that registry answers, and whose descriptors a presentation uses |
| `PresentRuntimeModel`, `PresentRuntimeProofs`, `PresentRuntime` | the one-in-flight Present scheduler, the feedback coordinator, and the presentation steps that drive them |
| `PresentDelivery` | what each call does with the front of the queue, and that the whole queue gets shown |
| `Raster`, `CpuComposition`, `CpuBufferRegistry`, `CpuBufferLifetime` | CPU composition with a software cursor, patched buffers, and the ownership of buffer handles |
| `PortalLifecycle`, `PortalDecisions` | portal requests and grants with capacity, deadlines and generations, and which decisions grant |
| `WmPolicyModel`, `WmPlanning`, `WmPolicy` | the window-manager policy reducer, and what planning a response comes to |
| `WmDemo` | the demo tiler, whose replies that reducer accepts |
| `SurfaceTable` | the generational table of surface ids |
| `XProperties`, `InputGrabs`, `GrabActivation` | the X property table, and passive and active input grabs (ChangeProperty, GetProperty, GrabKey, GrabButton, GrabPointer, GrabKeyboard, GrabServer and AllowEvents in section 9, Requests, of the X Window System Protocol, Version 11) |
| `OutputTopology` | the extended desktop and the projection of damage onto its outputs |
| `Basics` | options, results, machine integers, and the key order of ordered maps |

Each stateful component appears twice: as functions over values, about which the run theorems are
proved, and as a class whose methods update fields and arrays in place, as the implementation does, with
postconditions that tie the new state to those functions. Machine integers, saturation, checked
arithmetic and panics are written out; `expect`s and unreachable error exits are proved unreachable.

Inputs the components cannot decide themselves are parameters: the clock, whether a descriptor clones,
what a fence answers and whether triggering it works, what the display did with a frame, and whether
the engine commits a prepared surface. A successful commit runs its feedback closure exactly once; that
is assumed, since the engine's commit is not part of this model.

## What the code does not promise

- The export diagnostic disconnects the registry while presentations may still be queued, and these then
  block the queue (`PresentRuntimeProofs.DiagnosticStrandsExample`,
  `PresentRuntimeProofs.StrandedFrontBlocks`). Queue, flight and registry agree throughout a run if and
  only if no drive diverts a front that others queue behind (`PresentRuntimeProofs.RunStaysAgreedIff`); the
  theorems about the end of a run are about such runs, among them all with the diagnostic off.
- A flip whose engine commit fails has already taken the flight out of the scheduler; its presentation
  stays Submitted in the registry until the disconnect, without feedback
  (`PresentRuntimeProofs.DroppedFlightExample`). Which presentations are settled without feedback, and how
  many of them stay registered, is told exactly by the calls (`PresentRuntimeProofs.RunLosesExactly`); so
  are the exact agreement of queue and registry and the completeness of feedback
  (`PresentRuntimeProofs.RunAgreesExactlyIff`, `PresentRuntimeProofs.EveryRunFeedsBackEachOnceIff`).
- A CPU buffer handle is reported for release while some surface still needs it exactly when a submission
  replaces a pending handle that is the same, is committed as well, or is needed by another surface; when a
  flip displaces a handle that another surface needs; or when a rejected handle is committed as well or
  needed by another surface (`CpuBufferLifetime.SubmitIsSoundIff`, `CpuBufferLifetime.RetireIsSoundIff`,
  `CpuBufferLifetime.RejectIsSoundIff`, with an example of each). Conservation over a run holds if and only
  if it has no such call (`CpuBufferLifetime.RunConservesIff`).
- Registering a focused surface on another workspace leaves its output with a hidden focus
  (`WmPolicyModel.HiddenFocusExample`); nothing else does (`WmPolicyModel.RunKeepsFocusVisibleIff`).
- Releasing the key or button of a grab that froze the other device leaves that device frozen with no grab
  (`InputGrabs.StrandedPointerExample`); nothing else does (`InputGrabs.RunKeepsThawableIff`).
- When an output's pixels are more than its scale and not a multiple of it, damage over the whole output
  does not reach its last pixels (`OutputTopology.FullDamageCoversIff`).
- The tiler's tiles overlap when there are more nodes than pixels of width (`WmDemo.TilesAreDisjointIff`).
- Storing a property does not check that its value is made of whole items
  (`XProperties.PartialItemStoredExample`, `XProperties.ChunkHoldsWholeItemsIff`); that rests on the wire
  decoder, which delivers whole items only (`XProperties.RunKeepsWholeItemsIff`).
- With more logical width than `i32` holds, saturation makes outputs overlap
  (`OutputTopology.PlacementsApartIff`, `OutputTopology.OverlapExample`).
- At the last 32-bit index the surface table hands out an id that is invalid by definition
  (`SurfaceTable.InsertedResolvesIff`, `SurfaceTable.FullTableExample`).

## Model

| member | source | states |
|---|---|---|
| PresentationModel.RunConserves | crates/sophia-renderer-live/src/buffer_registry.rs:371-724 | Release conservation over every run from an empty registry: nothing panics, the counting invariant holds at the end, and registrations of each source and fence handle equal its release reports plus one if it is still registered |
| PresentationModel.RunKeepsInv | crates/sophia-renderer-live/src/buffer_registry.rs:371-724 | In every state any run reaches, each source is referenced once per live presentation naming it, each fence once per acquire and once per idle use; every named handle is registered, a pending release implies a reference, an acquire fd is held exactly while waiting, capacities hold; no step panics |
| PresentationModel.RunKeepsBalance | crates/sophia-renderer-live/src/buffer_registry.rs:371-724 | A balanced ledger of registrations and releases stays balanced through any run |
| PresentationModel.StepMoves | crates/sophia-renderer-live/src/buffer_registry.rs:371-724 | Each operation moves the registered sources and fences by exactly what it tells the client was registered and released |
| PresentationModel.BeginAdmits | crates/sophia-renderer-live/src/buffer_registry.rs:423-517 | A presentation is admitted if and only if the transaction is new, there is room, the source and named fences are registered with no release pending, and every clone and the fence query succeed |
| PresentationModel.BeginKeepsInv | crates/sophia-renderer-live/src/buffer_registry.rs:423-517 | An admitted presentation, also one that uses one fence for both roles, keeps all counts exact and registers or releases nothing |
| PresentationModel.BeginEffect | crates/sophia-renderer-live/src/buffer_registry.rs:478-516 | Admission adds only that presentation; it waits exactly when it has an acquire fence that has not signaled |
| PresentationModel.PollKeepsInv | crates/sophia-renderer-live/src/buffer_registry.rs:519-542 | Polling keeps the counting invariant |
| PresentationModel.PollEffect | crates/sophia-renderer-live/src/buffer_registry.rs:519-542 | A registered presentation polls ready exactly when it no longer waits afterwards, fails only when a waiting one cannot be queried, and a failure changes nothing |
| PresentationModel.SubmitEffect | crates/sophia-renderer-live/src/buffer_registry.rs:544-559 | Submission succeeds exactly on ready presentations, changes only that state and keeps the invariant |
| PresentationModel.FinishEffect | crates/sophia-renderer-live/src/buffer_registry.rs:676-724 | A retirement of a live presentation never panics and no count saturates; it releases exactly the pending source and fences whose last user it was, each fence once, and keeps the invariant |
| PresentationModel.NamedIsReferenced | crates/sophia-renderer-live/src/buffer_registry.rs:682-720 | What a live presentation names is registered with a positive count, its idle fence also after its acquire fence was given back: the missing-entry branches are dead and the saturating decrements exact |
| PresentationModel.UnregisteredIsUnused | crates/sophia-renderer-live/src/buffer_registry.rs:578-600 | No presentation names a handle that is not registered |
| PresentationModel.RemoveSourceKeepsInv | crates/sophia-renderer-live/src/buffer_registry.rs:578-588 | A source is released at once exactly when no live presentation names it; otherwise it stays registered |
| PresentationModel.RemoveFenceKeepsInv | crates/sophia-renderer-live/src/buffer_registry.rs:590-600 | The same for a fence, counting both roles |
| PresentationModel.DisconnectEmpties | crates/sophia-renderer-live/src/buffer_registry.rs:645-674 | Disconnecting never panics and empties all three maps |
| PresentationModel.DisconnectReleasesEachOnce | crates/sophia-renderer-live/src/buffer_registry.rs:645-674 | The disconnect report names every registered source and fence exactly once and nothing else |
| PresentationModel.DisconnectCounts | crates/sophia-renderer-live/src/buffer_registry.rs:645-674 | The report counts every presentation and splits those with an idle fence by whether the trigger succeeded |
| PresentationModel.CountsBounded | crates/sophia-renderer-live/src/buffer_registry.rs:362-369 | Reference counts stay within the presentation capacity, fence counts within twice it |
| DeferredRelease.RemovedSourceIsPending | crates/sophia-renderer-live/src/buffer_registry.rs:578-588 | Removing a registered source answers Deferred exactly when some presentation names it, and then its release is recorded as pending and it stays with its descriptors; otherwise it answers Released and only that source is gone |
| DeferredRelease.RemovedFenceIsPending | crates/sophia-renderer-live/src/buffer_registry.rs:590-600 | The same for a fence, counting both roles |
| DeferredRelease.UnknownIsLeftAlone | crates/sophia-renderer-live/src/buffer_registry.rs:578-600 | Removing what is not registered answers Unknown and changes nothing |
| DeferredRelease.PendingIsRefused | crates/sophia-renderer-live/src/buffer_registry.rs:436-481 | From the Deferred answer on no presentation is admitted that names the source, or the fence in either role |
| DeferredRelease.PendingSourceIsReleasedIff | crates/sophia-renderer-live/src/buffer_registry.rs:676-700 | Over every run without a disconnect, a pending source is gone at the end if and only if some step retired the last presentation naming it, and is then reported released exactly once; otherwise it is still pending and was not reported |
| DeferredRelease.PendingFenceIsReleasedIff | crates/sophia-renderer-live/src/buffer_registry.rs:702-720 | The same for a fence, whose last user may name it in both roles |
| DeferredRelease.StepOnPendingSource | crates/sophia-renderer-live/src/buffer_registry.rs:676-700 | Of all steps, exactly the retirement of the last user releases and reports a pending source; every other leaves it pending |
| DeferredRelease.StepOnPendingFence | crates/sophia-renderer-live/src/buffer_registry.rs:702-720 | The same for a fence |
| DeferredRelease.RemovedSourceIsReleasedOnce | crates/sophia-renderer-live/src/buffer_registry.rs:578-700 | From a removal on, whatever else is called but a disconnect or a new registration of the handle, the source is registered and pending or has been reported released exactly once |
| DeferredRelease.RemovedFenceIsReleasedOnce | crates/sophia-renderer-live/src/buffer_registry.rs:590-720 | The same for a fence |
| PresentationAnswers.RegisterSourceAnswers | crates/sophia-renderer-live/src/buffer_registry.rs:371-398 | A source is refused for exactly one told reason, in order: descriptor, plane count, duplicate, capacity; an accepted one is stored with the descriptors given and no reference |
| PresentationAnswers.RegisterFenceAnswers | crates/sophia-renderer-live/src/buffer_registry.rs:400-421 | The same for a fence and its descriptor |
| PresentationAnswers.BeginAnswers | crates/sophia-renderer-live/src/buffer_registry.rs:423-517 | Each error of an admission is returned exactly when it is the first thing wrong: the transaction, the room, the source, the acquire fence, the idle fence, the query |
| PresentationAnswers.PollFollowsFence | crates/sophia-renderer-live/src/buffer_registry.rs:519-542 | Polling a waiting presentation answers what its fence answers, and makes it ready, giving up its clone, if and only if the fence has signaled; a query that fails is an error and changes nothing |
| PresentationAnswers.PollOfSettled | crates/sophia-renderer-live/src/buffer_registry.rs:519-530 | One that does not wait answers true unqueried, an unknown one is an error, and neither changes anything |
| PresentationAnswers.SubmitAnswers | crates/sophia-renderer-live/src/buffer_registry.rs:544-559 | Each error of a submission is returned exactly for its state |
| PresentationAnswers.RetiresExactly | crates/sophia-renderer-live/src/buffer_registry.rs:561-576 | A flip retires exactly submitted presentations, a rejection any registered one; every other call changes nothing |
| PresentationAnswers.EveryRunSharesFds | crates/sophia-renderer-live/src/buffer_registry.rs:423-517 | In every state any run from the start reaches, each presentation holds the plane descriptors of its source, waits on the descriptor of its own acquire fence, and will trigger that of its own idle fence |
| PresentRuntimeProofs.EveryRunAgrees | crates/sophia-backend-live/src/production_visual_runtime.rs:342-488 | After every run that never strands its queue: registry, queue and flight agree, only launched presentations are Submitted, feedback is one Complete-then-Idle pair per settlement that has any, and acceptance order is settled, then flight, then queue |
| PresentRuntimeProofs.RunStaysAgreedIff | crates/sophia-backend-live/src/production_visual_runtime.rs:342-488 | Registry, queue and flight agree after every step of a run if and only if no drive of it diverts to the export diagnostic a front that others queue behind |
| PresentRuntimeProofs.RunOk | crates/sophia-backend-live/src/production_visual_runtime.rs:342-488 | From any state in agreement, every run that never strands its queue ends in agreement |
| PresentRuntimeProofs.OffNeverStrands | crates/sophia-backend-live/src/production_visual_runtime.rs:404-433 | With the export diagnostic off no run strands its queue |
| PresentRuntimeProofs.StepOkIff | crates/sophia-backend-live/src/production_visual_runtime.rs:342-488 | A single step, of resource traffic, enqueue, drive or flip, keeps the agreement if and only if it does not strand the queue |
| PresentRuntimeProofs.DiagnoseOkIff | crates/sophia-backend-live/src/production_visual_runtime.rs:404-433 | The diagnostic discards the front without feedback and empties the registry, which keeps the agreement if and only if the front was alone |
| PresentRuntimeProofs.StrandedFrontBlocks | crates/sophia-backend-live/src/production_visual_runtime.rs:342-356 | A front the registry does not know blocks the queue: drives neither pop it nor settle anything |
| PresentRuntimeProofs.RunAgreesExactlyIff | crates/sophia-backend-live/src/production_visual_runtime.rs:342-577 | After such a run the registry holds exactly the queued presentations and the flight, which alone is Submitted, if and only if no flip dropped a flight since the registry was last emptied; the disconnect at shutdown retires exactly as many as were dropped since |
| PresentRuntimeProofs.EveryRunFeedsBackEachOnceIff | crates/sophia-backend-live/src/production_visual_runtime.rs:342-577 | Of every such run and its shutdown, told on the sink: it holds one Complete-then-Idle pair per presentation fed back, none twice; shutdown appends Skip pairs for the queue in order and then the flight; every accepted presentation has its pair if and only if no flip dropped a flight and no drive was diverted; before shutdown pairs come in acceptance order |
| PresentRuntimeProofs.DroppedFlightExample | crates/sophia-backend-live/src/production_visual_runtime.rs:832-857 | A run of four calls whose failing commit leaves an accepted presentation without feedback and Submitted in the registry |
| PresentRuntimeProofs.EveryRunSettlesEachOnce | crates/sophia-backend-live/src/production_visual_runtime.rs:567-577 | After shutdown every accepted presentation has been settled exactly once, by its own pair or without feedback, and the disconnect retires as many as dropped flights are left over |
| PresentRuntimeProofs.ShutdownOk | crates/sophia-backend-live/src/production_visual_runtime.rs:567-577 | Shutdown skips the queue in order and the flight last, each with one pair, and empties the registry |
| PresentRuntimeProofs.RejectAllSkips | crates/sophia-backend-live/src/production_visual_runtime.rs:567-576 | Rejecting everything leaves in the registry only what failed retirements lost |
| PresentRuntimeProofs.RejectFlightSkips | crates/sophia-backend-live/src/production_session.rs:319-361 | Rejecting the flight yields its own Skip pair and takes away only it |
| PresentRuntimeProofs.SettleHistory | crates/sophia-backend-live/src/production_session.rs:300-361 | A flip or a rejection appends exactly one pair, for the next presentation in acceptance order |
| PresentRuntimeProofs.DriveWaitsForFlight | crates/sophia-backend-live/src/production_visual_runtime.rs:346-356 | While one is in flight a drive changes nothing, so a flight is never overwritten |
| PresentRuntimeProofs.PollStopsWaitingAtDeadline | crates/sophia-backend-live/src/production_present_scheduler.rs:106-137 | With nothing in flight, a poll that does not fail waits only before the front's deadline, at most 2000 ms after it may start |
| PresentRuntimeProofs.OverdueFrontIsSkipped | crates/sophia-backend-live/src/production_visual_runtime.rs:346-366 | An overdue front whose fence has not signaled is popped and fed back as skipped in that very drive, with or without a display; without a display, whatever its fence says |
| PresentRuntimeProofs.RunLosesExactly | crates/sophia-backend-live/src/production_visual_runtime.rs:832-857 | As many presentations are settled without feedback as flips met a flight and were not committed or drives were diverted; of the dropped ones, those since the last diversion are still registered |
| PresentRuntimeProofs.OffCountsAgree | crates/sophia-backend-live/src/production_visual_runtime.rs:832-857 | With the diagnostic off both counts are the flips that dropped a flight |
| PresentRuntimeProofs.StepLosesExactly | crates/sophia-backend-live/src/production_visual_runtime.rs:832-857 | A step settles without feedback exactly the flight of a flip that is not committed, which stays registered, or the front that the diagnostic discards |
| PresentRuntimeProofs.AdmitAgrees | crates/sophia-backend-live/src/production_present_scheduler.rs:63-104 | Admitting at the back of the queue keeps queue and registry in agreement |
| PresentRuntimeProofs.LaunchAgrees | crates/sophia-backend-live/src/production_visual_runtime.rs:466-480 | A ready front can always be marked submitted, and becomes the one in flight |
| PresentRuntimeProofs.PollGateOk | crates/sophia-backend-live/src/production_present_scheduler.rs:106-137 | A poll names only the front, pops it only to reject it, and only with nothing in flight |
| PresentRuntimeProofs.DiagnosticKeepsQueueBackedIff | crates/sophia-backend-live/src/production_visual_runtime.rs:404-433 | The export diagnostic leaves every queued presentation registered if and only if the front was alone in the queue |
| PresentRuntimeProofs.DiagnosticStrandsExample | crates/sophia-backend-live/src/production_visual_runtime.rs:404-433 | Two calls from the start reach a queue of two that the diagnostic breaks |
| PresentDelivery.FindsFirst | crates/sophia-backend-live/src/production_present_scheduler.rs:72-82 | The timeout that counts is that of the first transaction of the surface |
| PresentDelivery.BatchIsQueued | crates/sophia-backend-live/src/production_present_scheduler.rs:63-104 | A batch is queued in order up to the first refusal, each entry with its surface, its earliest time, and a deadline at its own timeout kept between 100 and 2000 ms after it; only the first presentation ever accepted is held back by the configured delay |
| PresentDelivery.FrontIsAwaited | crates/sophia-backend-live/src/production_present_scheduler.rs:106-137 | Before its time, or before its deadline while its fence has not signaled, a drive leaves the front alone and counts one wait |
| PresentDelivery.FailedQueryChangesNothing | crates/sophia-backend-live/src/production_present_scheduler.rs:106-137 | A drive whose fence query fails changes nothing and the gate reports the error |
| PresentDelivery.ReadyFrontPasses | crates/sophia-backend-live/src/production_present_scheduler.rs:106-137 | A due front that is ready or whose fence has signaled passes the gate, unless the one controlled rejection is due |
| PresentDelivery.ControlledRejectionSkipsOnce | crates/sophia-backend-live/src/production_present_scheduler.rs:130-135 | The controlled rejection skips one ready front with its pair, is counted, and is spent |
| PresentDelivery.ReadyFrontIsLaunched | crates/sophia-backend-live/src/production_visual_runtime.rs:342-488 | With nothing in flight, no rejection control and no diagnostic, a due front that is ready or signaled and whose frame is submitted leaves the queue, is Submitted, and is the flight afterwards |
| PresentDelivery.ReadyFrontIsSkipped | crates/sophia-backend-live/src/production_visual_runtime.rs:357-403 | Without a display, when the engine is not ready, or when the frame is refused, that front is popped and fed back as skipped |
| PresentDelivery.ReadyFrontIsKept | crates/sophia-backend-live/src/production_visual_runtime.rs:367-465 | When outputs disagree or are blocked, a plane does not clone, or the frame is not submitted, that front stays at the head of the queue, ready |
| PresentDelivery.FlipFeedsBack | crates/sophia-backend-live/src/production_visual_runtime.rs:832-857 | A committed flip tells the client the flip's own time, then that the buffer is idle, and whether the idle fence was triggered; the presentation leaves the registry and the flight is empty |
| PresentDelivery.QuietFlips | crates/sophia-backend-live/src/production_visual_runtime.rs:832-857 | A flip that is not committed, or with nothing in flight, tells nobody and leaves the registry |
| PresentDelivery.SettledFeedback | crates/sophia-backend-live/src/production_session.rs:300-361 | The feedback of a retirement is Complete with the time and mode given, then Idle; its idle fence is triggered exactly when there is one and the trigger succeeds |
| PresentDelivery.QueueIsShown | crates/sophia-backend-live/src/production_visual_runtime.rs:342-857 | Liveness: with nothing in flight, fences signaled, and display and engine in order, as many drives as are queued, each followed by its flip, show the whole queue in order, each presentation with the time of its own flip |
| PresentationRegistry.LiveDmaBufPresentationRegistry.RegisterSource | crates/sophia-renderer-live/src/buffer_registry.rs:371-398 | The in-place registration has exactly the outcome and error order of the state machine and keeps the invariant |
| PresentationRegistry.LiveDmaBufPresentationRegistry.RegisterFence | crates/sophia-renderer-live/src/buffer_registry.rs:400-421 | The same for fences |
| PresentationRegistry.LiveDmaBufPresentationRegistry.BeginPresent | crates/sophia-renderer-live/src/buffer_registry.rs:423-517 | Admits exactly the admissible presentations; any failure leaves the whole registry as it was |
| PresentationRegistry.LiveDmaBufPresentationRegistry.PollAcquireFence | crates/sophia-renderer-live/src/buffer_registry.rs:519-542 | New state and answer are those of the state machine |
| PresentationRegistry.LiveDmaBufPresentationRegistry.SubmitPresent | crates/sophia-renderer-live/src/buffer_registry.rs:544-559 | New state and error are those of the state machine |
| PresentationRegistry.LiveDmaBufPresentationRegistry.RetirePageFlip | crates/sophia-renderer-live/src/buffer_registry.rs:561-570 | Retires exactly submitted presentations; any other call changes nothing |
| PresentationRegistry.LiveDmaBufPresentationRegistry.Reject | crates/sophia-renderer-live/src/buffer_registry.rs:572-576 | Rejects exactly registered presentations, in any state |
| PresentationRegistry.LiveDmaBufPresentationRegistry.FinishOne | crates/sophia-renderer-live/src/buffer_registry.rs:676-724 | The in-place retirement, whose source and fence lookups are proved never to miss and whose decrements never to saturate, equals the retirement of the state machine |
| PresentationRegistry.LiveDmaBufPresentationRegistry.DropFences | crates/sophia-renderer-live/src/buffer_registry.rs:702-715 | The loop over the two named fences finds both, gives back both references in order and lists what they released |
| PresentationRegistry.LiveDmaBufPresentationRegistry.RemoveSource | crates/sophia-renderer-live/src/buffer_registry.rs:578-588 | Immediate or deferred release as in the state machine |
| PresentationRegistry.LiveDmaBufPresentationRegistry.RemoveFence | crates/sophia-renderer-live/src/buffer_registry.rs:590-600 | Immediate or deferred release as in the state machine |
| PresentationRegistry.LiveDmaBufPresentationRegistry.FinishEvery | crates/sophia-renderer-live/src/buffer_registry.rs:645-674 | The retirement loop collects exactly the report of retiring the listed presentations in order |
| PresentationRegistry.LiveDmaBufPresentationRegistry.Disconnect | crates/sophia-renderer-live/src/buffer_registry.rs:645-674 | State and report are those of the state machine, presentations finished in key order |
| PresentRuntime.LiveProductionPresentScheduler.EnqueueBatch | crates/sophia-backend-live/src/production_present_scheduler.rs:63-104 | Admits the batch in order up to the first failure and reports success exactly when all were accepted |
| PresentRuntime.LiveProductionPresentScheduler.PollGate | crates/sophia-backend-live/src/production_present_scheduler.rs:106-137 | Decision, registry and scheduler after a poll are those of the state machine |
| PresentRuntime.LiveProductionPresentScheduler.DrainTransactions | crates/sophia-backend-live/src/production_present_scheduler.rs:163-168 | Empties the queue and lists its transactions in order |
| PresentRuntime.LiveProductionVisualRuntime.Enqueue | crates/sophia-backend-live/src/production_visual_runtime.rs:311-323 | The runtime accepts the batch in order up to the first failure, and records exactly what was accepted |
| PresentRuntime.LiveProductionVisualRuntime.RejectGpuPresentation | crates/sophia-backend-live/src/production_visual_runtime.rs:554-562 | A known presentation is retired and its Skip feedback routed; an unknown one is ignored |
| PresentRuntime.LiveProductionVisualRuntime.DriveGpuPresentation | crates/sophia-backend-live/src/production_visual_runtime.rs:342-488 | Runtime state after a drive is that of the state machine for every answer of fences, engine and display |
| PresentRuntime.LiveProductionVisualRuntime.FinalizeGpuPageFlip | crates/sophia-backend-live/src/production_visual_runtime.rs:832-857 | Retires the flight with Flip feedback and reports it exactly when the engine commits and it was submitted |
| PresentRuntime.LiveProductionVisualRuntime.ShutdownPresentations | crates/sophia-backend-live/src/production_visual_runtime.rs:567-577 | State and disconnect report of the shutdown are those of the state machine |
| CpuComposition.Compose | crates/sophia-renderer-live/src/cpu_composition.rs:91-154 | Every byte of every pixel is the painter's value (cursor, else topmost covering layer, else zero) on the direct and the row-copy path; the composed count is the number of eligible layers that cover some pixel; the two errors occur exactly on their conditions |
| CpuComposition.ComposeLayers | crates/sophia-renderer-live/src/cpu_composition.rs:133-142 | Composing one layer after another paints the list, and counts the layers that show |
| CpuComposition.ComposeLayer | crates/sophia-renderer-live/src/cpu_composition.rs:254-326 | One layer overwrites exactly the pixels it covers with its own; it counts exactly when it covers some pixel |
| CpuComposition.CopyRows | crates/sophia-renderer-live/src/cpu_composition.rs:298-326 | No row copy is ever skipped: all checked offsets fit and all slices are in range |
| CpuComposition.AxisIsExact | crates/sophia-renderer-live/src/cpu_composition.rs:274-297 | The start offsets and copy lengths per axis select exactly the covered columns or rows |
| CpuComposition.DirectIsPainted | crates/sophia-renderer-live/src/cpu_composition.rs:113-135 | Taking over the bytes of a matching layer gives the same picture and count as composing it |
| CpuComposition.ComposeSoftwareCursor | crates/sophia-renderer-live/src/cpu_composition.rs:177-202 | Exactly the coloured cursor cells inside the frame are drawn, with saturated coordinates; positions that are not finite or out of range draw nothing |
| CpuComposition.PutPixel | crates/sophia-renderer-live/src/cpu_composition.rs:204-227 | Writes the four bytes of the pixel, or nothing outside the frame |
| CpuComposition.PaintedIsTopmost | crates/sophia-renderer-live/src/cpu_composition.rs:133-142 | The painted byte is that of the last layer covering the point |
| CpuComposition.UncoveredIsBlack | crates/sophia-renderer-live/src/cpu_composition.rs:127-142 | A point no layer covers is zero |
| CpuBufferRegistry.LiveCpuBufferRegistry.Apply | crates/sophia-renderer-live/src/cpu_buffer_registry.rs:59-80 | Stale updates are ignored, refused ones change nothing and tell why, and accepted ones are exactly the replacement or the patch; every stored buffer stays valid |
| CpuBufferRegistry.LiveCpuBufferRegistry.ApplyPatch | crates/sophia-renderer-live/src/cpu_buffer_registry.rs:100-166 | All or nothing: accepted exactly when handle, metadata, rectangle and byte count fit, then exactly the rectangle's bytes and the generation change; else nothing changes and the first complaint is returned |
| CpuBufferRegistry.LiveCpuBufferRegistry.CopyPatchRows | crates/sophia-renderer-live/src/cpu_buffer_registry.rs:146-163 | Given a valid buffer, the row loop's error exits cannot be reached |
| CpuBufferRegistry.LiveCpuBufferRegistry.RetainHandles | crates/sophia-renderer-live/src/cpu_buffer_registry.rs:86-88 | Keeps exactly the retained buffers, unchanged |
| CpuBufferRegistry.PatchReadsBack | crates/sophia-renderer-live/src/cpu_buffer_registry.rs:146-163 | Reading the patched rectangle back row by row gives the patch |
| CpuBufferRegistry.GenerationsNeverDecrease | crates/sophia-renderer-live/src/cpu_buffer_registry.rs:59-88 | Through any run of updates and retentions, a buffer that stays registered never returns to an earlier generation |
| CpuBufferLifetime.RunConservesIff | crates/sophia-renderer-live/src/buffer_registry.rs:169-208 | For every run: handles taken on are the multiset sum of released ones and, once each, held ones if and only if no call was premature, told from the state before each call; each pending entry remembers the committed handle throughout |
| CpuBufferLifetime.RunIsSoundIff | crates/sophia-renderer-live/src/buffer_registry.rs:169-208 | A run releases nothing that is still held if and only if none of its calls is premature |
| CpuBufferLifetime.RunSurplus | crates/sophia-renderer-live/src/buffer_registry.rs:169-208 | Each premature call makes releases and held handles exceed the handles taken on by exactly one, over any run |
| CpuBufferLifetime.DisconnectReleasesEverythingIff | crates/sophia-renderer-live/src/buffer_registry.rs:214-229 | After any run from the start, the disconnect leaves every handle released exactly as often as it was taken on if and only if no call was premature |
| CpuBufferLifetime.SubmitIsSoundIff | crates/sophia-renderer-live/src/buffer_registry.rs:170-181 | A submission releases a handle still needed if and only if the pending handle it replaces is the same, is committed as well, or is needed by another surface |
| CpuBufferLifetime.ResubmissionReleasesHeldExample | crates/sophia-renderer-live/src/buffer_registry.rs:170-181 | Submitting a pending handle again reports it for release while it is still held |
| CpuBufferLifetime.SubmitAccounts | crates/sophia-renderer-live/src/buffer_registry.rs:170-181 | What is held after a submission, with what it released, is what was held before and the new handle |
| CpuBufferLifetime.RetireIsSoundIff | crates/sophia-renderer-live/src/buffer_registry.rs:183-197 | A retirement releases a handle still needed if and only if another surface needs the handle it displaces; presenting the committed handle again displaces none, and a mismatched call changes nothing |
| CpuBufferLifetime.SharedHandleExample | crates/sophia-renderer-live/src/buffer_registry.rs:183-197 | Five calls after which a retirement reports a handle that another surface still holds |
| CpuBufferLifetime.SubmitKeepsUnsharedIff | crates/sophia-renderer-live/src/buffer_registry.rs:170-181 | Handles become shared between surfaces exactly when a handle is submitted that another surface needs |
| CpuBufferLifetime.UnsharedRetireIsSound | crates/sophia-renderer-live/src/buffer_registry.rs:183-208 | While handles are unshared no retirement is premature, and retirements and rejections keep them unshared |
| CpuBufferLifetime.RejectIsSoundIff | crates/sophia-renderer-live/src/buffer_registry.rs:199-208 | A rejection releases a handle still needed if and only if that handle is committed as well or needed by another surface; a mismatched one changes nothing |
| CpuBufferLifetime.CommittedAgainExample | crates/sophia-renderer-live/src/buffer_registry.rs:183-197 | Presenting the committed handle again releases nothing and restores the state |
| CpuBufferLifetime.RejectionReleasesCommittedExample | crates/sophia-renderer-live/src/buffer_registry.rs:199-208 | Rejecting a resubmission of the committed handle reports it for release while it is committed |
| CpuBufferLifetime.CollectedOnce | crates/sophia-renderer-live/src/buffer_registry.rs:214-222 | Chaining, sorting and dropping repetitions lists every held handle exactly once |
| CpuBufferLifetime.LiveCpuBufferLifetimeRegistry.SubmitBuffer | crates/sophia-renderer-live/src/buffer_registry.rs:170-181 | The in-place operation has the state and the released handles of the ownership model |
| CpuBufferLifetime.LiveCpuBufferLifetimeRegistry.RetirePageFlip | crates/sophia-renderer-live/src/buffer_registry.rs:183-197 | The in-place operation has the state and the released handles of the ownership model |
| CpuBufferLifetime.LiveCpuBufferLifetimeRegistry.RejectBuffer | crates/sophia-renderer-live/src/buffer_registry.rs:199-208 | The in-place operation has the state and the released handles of the ownership model |
| CpuBufferLifetime.LiveCpuBufferLifetimeRegistry.DisconnectAll | crates/sophia-renderer-live/src/buffer_registry.rs:214-229 | The in-place operation has the state and the released handles of the ownership model |
| PortalLifecycle.RunKeepsInv | crates/sophia-portal/src/lifecycle.rs:58-185 | In every reachable state a grant exists exactly when its request is allowed and copies its namespaces, kind, generation and deadline; active grants carry the broker generation; pending plus active never exceeds the capacity |
| PortalLifecycle.RunFreezesEnded | crates/sophia-portal/src/lifecycle.rs:79-236 | A transfer that has ended (denied, completed, revoked, expired) is never changed again |
| PortalLifecycle.RunReportsOnce | crates/sophia-portal/src/lifecycle.rs:126-236 | Over a run no transfer is reported as ended twice, and what is reported has ended |
| PortalLifecycle.RunEndingsIff | crates/sophia-portal/src/lifecycle.rs:79-236 | A transfer ends in a run if and only if the run reports it or a decision names and ends it, never both; ended is for good |
| PortalLifecycle.StepReportsEndings | crates/sophia-portal/src/lifecycle.rs:126-236 | Every reported id was live and has ended; sweeps and broker restarts report exactly the ids they ended |
| PortalLifecycle.SweepClears | crates/sophia-portal/src/lifecycle.rs:139-173 | A sweep reports exactly the live transfers meeting its condition and leaves no such transfer live |
| PortalLifecycle.SweepEffect | crates/sophia-portal/src/lifecycle.rs:139-236 | A sweep ends exactly the transfers it hits, expiring or revoking them, and leaves the request and grant of every other transfer, live or ended, as they were |
| PortalLifecycle.CountIsLive | crates/sophia-portal/src/lifecycle.rs:238-248 | The capacity check counts exactly the live transfers |
| PortalLifecycle.DecideKeepsInv | crates/sophia-portal/src/lifecycle.rs:79-124 | A decision, also one that expires or is refused, keeps the invariant |
| PortalLifecycle.RestartKeepsInv | crates/sophia-portal/src/lifecycle.rs:175-185 | A broker restart keeps the invariant: no active grant of the old generation survives |
| PortalLifecycle.PortalRequestGrantLifecycle.WithCapacity | crates/sophia-portal/src/lifecycle.rs:43-56 | Construction succeeds exactly for a non-zero broker generation and capacity, with an empty lifecycle |
| PortalLifecycle.PortalRequestGrantLifecycle.SubmitRequest | crates/sophia-portal/src/lifecycle.rs:58-77 | State and error order of the value model |
| PortalLifecycle.PortalRequestGrantLifecycle.DecideRequest | crates/sophia-portal/src/lifecycle.rs:79-124 | State and result of the value model, granting or not |
| PortalLifecycle.PortalRequestGrantLifecycle.CloseGrant | crates/sophia-portal/src/lifecycle.rs:126-137 | Completion and executor failure close active grants only |
| PortalLifecycle.PortalRequestGrantLifecycle.SweepRequests | crates/sophia-portal/src/lifecycle.rs:139-173 | The loop with its nested cases sweeps exactly as the set-level model and lists the ended ids in key order |
| PortalLifecycle.PortalRequestGrantLifecycle.Visit | crates/sophia-portal/src/lifecycle.rs:213-234 | One loop iteration changes its entry exactly when it is live and meets the condition |
| PortalLifecycle.PortalRequestGrantLifecycle.RestartBroker | crates/sophia-portal/src/lifecycle.rs:175-185 | Rejects zero and stale generations, else revokes everything live |
| PortalDecisions.SubmitAnswers | crates/sophia-portal/src/lifecycle.rs:58-77 | A request is refused for exactly one told reason, in order: its form, its deadline, a duplicate, capacity by the number of live transfers; an accepted one is stored as it is |
| PortalDecisions.DecideAnswers | crates/sophia-portal/src/lifecycle.rs:79-124 | In time and for the current source, a grant of the request is returned and stored if and only if the decision allows, and the request becomes Allowed or Denied accordingly; a late or stale decision revokes it with its own error; nothing else changes |
| PortalDecisions.DecideRefuses | crates/sophia-portal/src/lifecycle.rs:79-100 | Deciding twice, or what is unknown, is an error and changes nothing |
| PortalDecisions.CloseAnswers | crates/sophia-portal/src/lifecycle.rs:126-137 | Exactly an active grant is closed, and is then in the state its caller reported |
| PortalDecisions.RestartAnswers | crates/sophia-portal/src/lifecycle.rs:175-185 | Exactly a newer generation is taken; then it is the current one, and exactly the transfers that were live have ended and are reported |
| PortalDecisions.RunGrantsIff | crates/sophia-portal/src/lifecycle.rs:79-124 | Over every run a transfer has a grant if and only if it had one before or some timely, current decision of the run allowed it |
| PortalDecisions.StepGrantsIff | crates/sophia-portal/src/lifecycle.rs:79-124 | A grant comes into being in exactly that step |
| PortalDecisions.StepEndsGrantAs | crates/sophia-portal/src/lifecycle.rs:126-236 | A step leaves an active grant Completed, Expired or Revoked exactly when it reports its success, finds its deadline elapsed, or is a failure, a change or disconnect of its ends, or a broker restart |
| PortalDecisions.SweepConditions | crates/sophia-portal/src/lifecycle.rs:139-173 | Which requests each sweep looks for |
| WmPolicyModel.NewIsInjective | crates/sophia-engine/src/wm_policy.rs:59-102 | A new state assigns different workspaces to different outputs and focuses nothing |
| WmPolicyModel.ActivateSwaps | crates/sophia-engine/src/wm_policy.rs:278-302 | Activating a workspace swaps it with the output that showed it, touches no other output, keeps bounds and focus, and stays injective |
| WmPolicyModel.PlanKeeps | crates/sophia-engine/src/wm_policy.rs:170-276 | An accepted plan is injective, every focus is on the workspace its output shows, and the affected outputs are, ascending, exactly those that changed |
| WmPolicyModel.FocusTakesEffect | crates/sophia-engine/src/wm_policy.rs:240-253 | A focus that a plan reports is the focus of some output of the candidate |
| WmPolicyModel.VisibleIsDisjoint | crates/sophia-engine/src/wm_policy.rs:157-168 | Visible surfaces of different outputs are disjoint, and no surface is focused on two outputs |
| WmPolicyModel.RunStaysInjective | crates/sophia-engine/src/wm_policy.rs:104-302 | Injectivity survives any sequence of registrations, removals and accepted plans |
| WmPolicyModel.StepKeepsFocusVisibleIff | crates/sophia-engine/src/wm_policy.rs:120-141 | From a state whose focuses are visible, a call hides one if and only if it is an accepted registration of a surface, focused on an output showing another workspace |
| WmPolicyModel.RunKeepsFocusVisibleIff | crates/sophia-engine/src/wm_policy.rs:120-302 | Focuses are visible after every step of a run if and only if no call of it moves a focused surface away |
| WmPolicyModel.HiddenFocusExample | crates/sophia-engine/src/wm_policy.rs:120-131 | Three calls on a new state after which an output has the focus on a surface it does not show |
| WmPlanning.PlanFollowsResponse | crates/sophia-engine/src/wm_policy.rs:170-276 | For every accepted response: each output shows what the response's activations, applied in order as swaps, put there; each assigned surface is where its command put it and every other where it was; sizes, placements, focus and session action are those asked for, in order |
| WmPlanning.PlanAcceptsIff | crates/sophia-engine/src/wm_policy.rs:170-276 | A response is accepted if and only if all it names is known and offered, nothing is done twice, and its focus, if any, is on a workspace some output shows after the activations |
| WmPlanning.PlanFocuses | crates/sophia-engine/src/wm_policy.rs:240-262 | After an accepted response, an output showing the focused surface's workspace has that focus, and any other keeps its own exactly while it is visible there |
| WmPlanning.ActivateIsSwap | crates/sophia-engine/src/wm_policy.rs:209-215 | An activation swaps what two outputs show and leaves bounds and focuses |
| WmPlanning.ApplyAllMoves | crates/sophia-engine/src/wm_policy.rs:185-238 | The commands in order switch outputs by their swaps and move surfaces by their assignments, and nothing else |
| WmPlanning.ApplyAllLists | crates/sophia-engine/src/wm_policy.rs:185-238 | The commands in order ask for their sizes and placements |
| WmPlanning.ApplyAllAsksOnce | crates/sophia-engine/src/wm_policy.rs:185-238 | The one focus and the one session action are those of the commands |
| WmPlanning.ApplyAllAcceptsIff | crates/sophia-engine/src/wm_policy.rs:185-238 | The commands are accepted if and only if all they name is known and offered and none does the same twice |
| WmPlanning.ApplyAnswers | crates/sophia-engine/src/wm_policy.rs:185-238 | Each error of a command is returned exactly for its reason, in the order of the checks |
| WmPlanning.MovesAt | crates/sophia-engine/src/wm_policy.rs:201-208 | A surface ends where its assignment put it, or stays |
| WmPlanning.NewAnswers | crates/sophia-engine/src/wm_policy.rs:59-102 | A state is made exactly from one to 64 workspaces and at most as many valid, different outputs, each showing the workspace of its place in the list, without surfaces or focus |
| WmPlanning.RegisterAnswers | crates/sophia-engine/src/wm_policy.rs:120-131 | Exactly real surfaces are registered on known workspaces, and that moves only them |
| WmPlanning.RemoveForgets | crates/sophia-engine/src/wm_policy.rs:133-141 | A removed surface is nowhere and no focus; everything else stays |
| WmPolicy.WmWorkspaceState.New | crates/sophia-engine/src/wm_policy.rs:59-102 | The constructor loop fails and succeeds exactly as the value model, and yields an injective state |
| WmPolicy.WmWorkspaceState.Register | crates/sophia-engine/src/wm_policy.rs:120-131 | New state and error of the value model |
| WmPolicy.WmWorkspaceState.Remove | crates/sophia-engine/src/wm_policy.rs:133-141 | The surface disappears from the surfaces and from every focus |
| WmPolicy.WmWorkspaceState.ActivateWorkspace | crates/sophia-engine/src/wm_policy.rs:278-302 | The in-place swap equals the value model |
| WmPolicy.WmWorkspaceState.ClearHidden | crates/sophia-engine/src/wm_policy.rs:304-313 | The loop clears exactly the focuses that are not visible |
| WmPolicy.WmWorkspaceState.ApplyCommand | crates/sophia-engine/src/wm_policy.rs:185-238 | Each command has the result, error order and accumulators of the value model |
| WmPolicy.WmWorkspaceState.PlanFor | crates/sophia-engine/src/wm_policy.rs:170-276 | Planning on the clone returns the value model's plan and leaves the state itself alone |
| WmDemo.RoundTrip | crates/sophia-wm-demo/src/policy.rs:151-191 | Planning the encoded response of a layout succeeds if and only if its surfaces are distinct and registered and its focus, after assignment, is on an active workspace, and then returns exactly that layout |
| WmDemo.RelayoutIsAccepted | crates/sophia-wm-demo/src/policy.rs:99-107 | Every relayout reply over distinct nodes registered to a shown workspace is accepted with the tiler's layout, and moves no surface |
| WmDemo.ManageIsAccepted | crates/sophia-wm-demo/src/policy.rs:90-98 | The reply to a new surface for a known, shown workspace is accepted with the tiler's layout |
| WmDemo.TileWorkspace | crates/sophia-wm-demo/src/policy.rs:17-86 | The tiler returns the tiling of the visible nodes in order, and panics exactly when the right edge leaves i32 or the nodes cannot be counted in it |
| WmDemo.TileNodes | crates/sophia-wm-demo/src/policy.rs:32-77 | No i32 step of the loop overflows exactly when the right edge of the bounds fits |
| WmDemo.TileRectsPartition | crates/sophia-wm-demo/src/policy.rs:32-52 | With a pixel of width per node, each point of the bounds is in exactly one tile and no tile leaves the bounds |
| WmDemo.TilesAreConsecutive | crates/sophia-wm-demo/src/policy.rs:32-52 | Each tile ends where the next begins; the last absorbs the remainder |
| WmDemo.TilesAreDisjointIff | crates/sophia-wm-demo/src/policy.rs:47-52 | Tiles are pairwise disjoint if and only if there is a pixel of width per node |
| WmDemo.TilesCover | crates/sophia-wm-demo/src/policy.rs:32-52 | Even overlapping tiles cover every column of the bounds |
| WmDemo.TileAnswers | crates/sophia-wm-demo/src/policy.rs:17-86 | The layout has one tile per visible node, in order and stacked in order, each asking its surface for the tile's size within the node's bounds; empty workspaces and bounds give an empty layout |
| WmDemo.VisibleNodesExact | crates/sophia-wm-demo/src/policy.rs:17-40 | The tiled nodes are exactly the visible ones of the workspace |
| WmDemo.FocusIsFirst | crates/sophia-wm-demo/src/policy.rs:17-86 | The focus goes to the first focusable node |
| WmDemo.ClampKeepsWithin | crates/sophia-wm-demo/src/policy.rs:192-207 | A size within the bounds is kept, a larger one becomes the maximum, a smaller one the minimum |
| SurfaceTable.InsertRefines | crates/sophia-protocol/src/table.rs:29-43 | Insertion adds one id that was not live and changes no other entry, while a slot is free or an index is left |
| SurfaceTable.InsertedResolvesIff | crates/sophia-protocol/src/table.rs:29-43 | A returned id resolves to its value if and only if a slot was free or an index below the invalid one was left |
| SurfaceTable.RemoveRefines | crates/sophia-protocol/src/table.rs:53-86 | Removal succeeds exactly on live ids, takes away that entry only, and otherwise changes nothing |
| SurfaceTable.RunCountsReuses | crates/sophia-protocol/src/table.rs:29-58 | After any run a slot's generation is its old one advanced once per reuse around the cycle that skips 0 |
| SurfaceTable.ResolvesIffWholeCycles | crates/sophia-protocol/src/table.rs:29-72 | An id whose slot once held its generation resolves exactly when the slot is full and was reused a multiple of 2^32 - 1 times |
| SurfaceTable.RemovedStaysDead | crates/sophia-protocol/src/table.rs:53-58 | A removed id does not resolve until its slot has been reused 2^32 - 1 times |
| SurfaceTable.FullTableExample | crates/sophia-protocol/src/table.rs:29-43 | After 2^32 - 1 insertions the next one hands out an id that does not resolve |
| SurfaceTable.Surfaces.InsertValue | crates/sophia-protocol/src/table.rs:29-43 | The in-place operation acts on the map of live ids as specified and keeps the free list exact |
| SurfaceTable.Surfaces.GetValue | crates/sophia-protocol/src/table.rs:45-47 | The in-place operation acts on the map of live ids as specified and keeps the free list exact |
| SurfaceTable.Surfaces.RemoveValue | crates/sophia-protocol/src/table.rs:53-58 | The in-place operation acts on the map of live ids as specified and keeps the free list exact |
| XProperties.ReadAllReturnsStored | crates/sophia-x-authority/src/property.rs:249-314 | Reading from the start in chunks of any readable length terminates and concatenates to exactly the stored bytes |
| XProperties.ReadAllFrom | crates/sophia-x-authority/src/property.rs:249-314 | The same from any offset inside the value |
| XProperties.ChunkEffect | crates/sophia-x-authority/src/property.rs:281-313 | A chunk is the stored bytes at its offset, full unless it is the last, and tells exactly how many bytes follow |
| XProperties.ChunkHoldsWholeItemsIff | crates/sophia-x-authority/src/property.rs:303-313 | The item count of a chunk accounts for all its bytes if and only if the read ends before the stored value or that value is made of whole items |
| XProperties.ApplyKeepsWholeItemsIff | crates/sophia-x-authority/src/property.rs:124-190 | An accepted change leaves whole items everywhere if and only if it carries whole items |
| XProperties.RunKeepsWholeItemsIff | crates/sophia-x-authority/src/property.rs:124-239 | Every state of a run holds whole items if and only if every accepted change of it carries whole items |
| XProperties.DecodedChangesAreWhole | crates/sophia-x-authority/src/wire.rs:3266-3311 | A run of changes whose byte count is a number of items times their width stores whole items only |
| XProperties.RunChunksAreWhole | crates/sophia-x-authority/src/property.rs:249-314 | After any such run the item count of every chunk accounts for all its bytes |
| XProperties.PartialItemStoredExample | crates/sophia-x-authority/src/property.rs:124-190 | Three bytes of format 32 are stored, and read back as no item |
| XProperties.RunIsPlain | crates/sophia-x-authority/src/property.rs:124-239 | Through any run each value stays within 256 KiB and the table within 4 MiB, and the contents are those of plain concatenation over the accepted changes |
| XProperties.ApplyKeepsInv | crates/sophia-x-authority/src/property.rs:124-190 | An accepted change keeps the limits |
| XProperties.TotalAfterStore | crates/sophia-x-authority/src/property.rs:160-176 | The size check computes exactly the size of the table after the change |
| XProperties.XPropertyTable.ApplyChange | crates/sophia-x-authority/src/property.rs:124-190 | Outcome, error order and stored record of the model; a failed change alters nothing |
| XProperties.XPropertyTable.SumBytes | crates/sophia-x-authority/src/property.rs:160-166 | The fold sums the bytes of all records, in any order |
| XProperties.XPropertyTable.Remove | crates/sophia-x-authority/src/property.rs:232-239 | Removes and returns exactly that record |
| XProperties.XPropertyTable.RemoveAllOf | crates/sophia-x-authority/src/property.rs:223-230 | Removes exactly the records of the window in the namespace and counts them |
| XProperties.ApplyStores | crates/sophia-x-authority/src/property.rs:124-190 | An accepted change replaces the bytes, puts them after, or puts them before the stored ones, stores the type and format it names, counts the generation, and touches no other property |
| XProperties.ApplyAnswers | crates/sophia-x-authority/src/property.rs:124-190 | A change is accepted if and only if names, format, type and both sizes fit; each refusal is told, in the order of the checks |
| XProperties.AppendsConcatenate | crates/sophia-x-authority/src/property.rs:124-190 | Appended pieces follow the stored value in the order they came, for any number of them |
| XProperties.PrependsConcatenate | crates/sophia-x-authority/src/property.rs:124-190 | Prepended pieces precede it, the last one foremost |
| XProperties.RemovalTakes | crates/sophia-x-authority/src/property.rs:223-230 | Removing a window takes exactly its properties in the namespace |
| XProperties.ReadAnswers | crates/sophia-x-authority/src/property.rs:249-314 | A read answers empty for what is not stored, only type and size for another type, and each error exactly on its condition |
| InputGrabs.OverlapIffCommonPress | crates/sophia-x-authority/src/input_authority.rs:412-418 | Two patterns of one window overlap if and only if some concrete press matches both |
| InputGrabs.EveryPressHasOneOwner | crates/sophia-x-authority/src/input_authority.rs:294-347 | In every reachable state all passive grabs of one window that a press matches have one owner |
| InputGrabs.RunKeepsInv | crates/sophia-x-authority/src/input_authority.rs:59-390 | In every reachable state passive grabs of different owners never overlap and no owner holds a pattern twice |
| InputGrabs.StepKeepsInv | crates/sophia-x-authority/src/input_authority.rs:59-390 | Each operation keeps that |
| InputGrabs.InsertStaysCompatible | crates/sophia-x-authority/src/input_authority.rs:420-439 | An accepted grab replaces the owner's same pattern and conflicts with nobody |
| InputGrabs.FirstMatchIsFirst | crates/sophia-x-authority/src/input_authority.rs:294-347 | A press activates a grab exactly when one matches, and then the earliest |
| InputGrabs.CleanupIsExact | crates/sophia-x-authority/src/input_authority.rs:360-390 | Afterwards nothing of the owner is left, all other grabs and selections are as they were and in order, and exactly the namespaces still in use keep an entry |
| InputGrabs.StepKeepsThawableIff | crates/sophia-x-authority/src/input_authority.rs:59-390 | From a state in which frozen input is somebody's to thaw, a call breaks that if and only if it is a release ending the only active grab while the other device is frozen |
| InputGrabs.RunKeepsThawableIff | crates/sophia-x-authority/src/input_authority.rs:59-390 | Frozen input has an active grab after every step of a run if and only if no release of it strands the other device |
| InputGrabs.StrandedStaysFrozen | crates/sophia-x-authority/src/input_authority.rs:198-226 | Without an active grab, allowing events thaws nothing, whoever asks |
| InputGrabs.StrandedPointerExample | crates/sophia-x-authority/src/input_authority.rs:294-321 | A key grab, its press and its release after which the pointer stays frozen with no grab |
| InputGrabs.XInputAuthorityState.GrabButtonFor | crates/sophia-x-authority/src/input_authority.rs:127-137 | The in-place operation has the state and result of the model and keeps the grabs of different owners apart |
| InputGrabs.XInputAuthorityState.GrabKeyFor | crates/sophia-x-authority/src/input_authority.rs:139-149 | The in-place operation has the state and result of the model and keeps the grabs of different owners apart |
| InputGrabs.XInputAuthorityState.UngrabButtonFor | crates/sophia-x-authority/src/input_authority.rs:151-162 | The in-place operation has the state and result of the model and keeps the grabs of different owners apart |
| InputGrabs.XInputAuthorityState.UngrabKeyFor | crates/sophia-x-authority/src/input_authority.rs:164-175 | The in-place operation has the state and result of the model and keeps the grabs of different owners apart |
| InputGrabs.XInputAuthorityState.PressKey | crates/sophia-x-authority/src/input_authority.rs:294-311 | The in-place operation has the state and result of the model and keeps the grabs of different owners apart |
| InputGrabs.XInputAuthorityState.PressButton | crates/sophia-x-authority/src/input_authority.rs:323-347 | The in-place operation has the state and result of the model and keeps the grabs of different owners apart |
| InputGrabs.XInputAuthorityState.ReleaseKeyOf | crates/sophia-x-authority/src/input_authority.rs:313-321 | The in-place operation has the state and result of the model and keeps the grabs of different owners apart |
| InputGrabs.XInputAuthorityState.ReleaseButtonOf | crates/sophia-x-authority/src/input_authority.rs:349-358 | The in-place operation has the state and result of the model and keeps the grabs of different owners apart |
| InputGrabs.XInputAuthorityState.GrabPointerFor | crates/sophia-x-authority/src/input_authority.rs:59-78 | The in-place operation has the state and result of the model and keeps the grabs of different owners apart |
| InputGrabs.XInputAuthorityState.GrabKeyboardFor | crates/sophia-x-authority/src/input_authority.rs:94-112 | The in-place operation has the state and result of the model and keeps the grabs of different owners apart |
| InputGrabs.XInputAuthorityState.UngrabPointerFor | crates/sophia-x-authority/src/input_authority.rs:80-92 | The in-place operation has the state and result of the model and keeps the grabs of different owners apart |
| InputGrabs.XInputAuthorityState.UngrabKeyboardFor | crates/sophia-x-authority/src/input_authority.rs:114-125 | The in-place operation has the state and result of the model and keeps the grabs of different owners apart |
| InputGrabs.XInputAuthorityState.GrabServerFor | crates/sophia-x-authority/src/input_authority.rs:177-188 | The in-place operation has the state and result of the model and keeps the grabs of different owners apart |
| InputGrabs.XInputAuthorityState.UngrabServerFor | crates/sophia-x-authority/src/input_authority.rs:190-196 | The in-place operation has the state and result of the model and keeps the grabs of different owners apart |
| InputGrabs.XInputAuthorityState.AllowEventsFor | crates/sophia-x-authority/src/input_authority.rs:198-226 | The in-place operation has the state and result of the model and keeps the grabs of different owners apart |
| InputGrabs.XInputAuthorityState.SelectEventsFor | crates/sophia-x-authority/src/input_authority.rs:258-273 | The in-place operation has the state and result of the model and keeps the grabs of different owners apart |
| InputGrabs.XInputAuthorityState.Cleanup | crates/sophia-x-authority/src/input_authority.rs:360-390 | The in-place operation has the state and result of the model and keeps the grabs of different owners apart |
| GrabActivation.ButtonPressAnswers | crates/sophia-x-authority/src/input_authority.rs:323-347 | A button press activates the earliest passive grab that asks for it, with its owner, window, modes and mask, and the implicit grab only when none does; it is stored, its detail or implicit origin noted, and its modes alone say what is frozen |
| GrabActivation.KeyPressAnswers | crates/sophia-x-authority/src/input_authority.rs:294-311 | A key press activates the earliest passive grab that asks for it and does nothing when none does; what is stored, noted and frozen likewise |
| GrabActivation.FirstMatchIsEarliest | crates/sophia-x-authority/src/input_authority.rs:294-347 | The earliest grab of the list whose detail and modifiers are the press's or any is found, and none exactly when none asks |
| GrabActivation.ReleaseAnswers | crates/sophia-x-authority/src/input_authority.rs:313-358 | A release ends the grab that its press activated, an implicit one at any button, thaws its device and leaves the other |
| GrabActivation.PressThenReleaseUngrabs | crates/sophia-x-authority/src/input_authority.rs:323-358 | A press and its release leave the pointer without a grab and not frozen, whichever grab the press activated |
| GrabActivation.GrabPointerAnswers | crates/sophia-x-authority/src/input_authority.rs:59-78 | The pointer is granted exactly with valid modes and unless another owner holds it; then it is that grab's, and its modes say what is frozen |
| GrabActivation.GrabKeyboardAnswers | crates/sophia-x-authority/src/input_authority.rs:94-112 | The same for the keyboard |
| GrabActivation.UngrabAnswers | crates/sophia-x-authority/src/input_authority.rs:80-125 | Only the holder ungrabs a device; then it is thawed, and so is the other one if nobody holds it |
| GrabActivation.ServerAnswers | crates/sophia-x-authority/src/input_authority.rs:177-196 | One owner at a time holds the server of a namespace, and only it gives it back |
| GrabActivation.AllowEventsAnswers | crates/sophia-x-authority/src/input_authority.rs:198-226 | Modes 0 to 2 thaw the pointer, 3 to 5 the keyboard, 6 and 7 both, each only for its own holder; no other mode is valid, and no grab changes |
| GrabActivation.GrabButtonAnswers | crates/sophia-x-authority/src/input_authority.rs:127-137 | A passive grab is refused exactly for bad modes or a conflict with another owner's grab of the window, and replaces its owner's same pattern |
| GrabActivation.GrabKeyAnswers | crates/sophia-x-authority/src/input_authority.rs:139-149 | The same for keys |
| GrabActivation.GrabbedPressGoesToOwner | crates/sophia-x-authority/src/input_authority.rs:127-347 | After an accepted button grab, a press it asks for is given to its owner, unless a grab of another window asks for it as well |
| GrabActivation.UngrabKeepsTheRest | crates/sophia-x-authority/src/input_authority.rs:441-454 | An ungrab drops exactly the owner's grabs of the window with the detail and modifiers named, or any, and keeps the rest in order |
| GrabActivation.SelectionIsLast | crates/sophia-x-authority/src/input_authority.rs:258-273 | What a client selects for a device is the last mask it gave, and nothing if that has no bit; all other selections stay |
| OutputTopology.FromOutputs | crates/sophia-engine/src/output.rs:76-112 | Each output is placed at the saturated sum of the widths before it, and the desktop is as wide as all and as high as the highest |
| OutputTopology.SpansTile | crates/sophia-engine/src/output.rs:76-112 | The exact logical spans cover the desktop without gap or overlap |
| OutputTopology.PlacementsApartIff | crates/sophia-engine/src/output.rs:76-112 | As placed, outputs do not overlap if and only if the last one starts within i32 |
| OutputTopology.OverlapExample | crates/sophia-engine/src/output.rs:76-112 | Two of three outputs placed on the same column |
| OutputTopology.ProjectionIsIntersection | crates/sophia-engine/src/output.rs:13-32 | A projection, translated back, is the damage rectangle intersected with the output, and stays inside it |
| OutputTopology.DamageProjects | crates/sophia-engine/src/output.rs:34-42 | The projected region, translated back, is the damaged region on that output |
| OutputTopology.ProjectedByOneOutput | crates/sophia-engine/src/output.rs:13-42 | No point is projected by two outputs |
| OutputTopology.ProjectedIffOnDesktop | crates/sophia-engine/src/output.rs:34-42 | A point is projected by some output if and only if it is damaged and lies on some output |
| OutputTopology.ProjectsIff | crates/sophia-engine/src/output.rs:34-42 | Output k projects a point if and only if it is damaged, in the span of k, and within its height |
| OutputTopology.PixelProjectionStaysInside | crates/sophia-engine/src/output.rs:44-56 | The pixel projection stays inside the output's pixels, and is non-empty on an axis exactly when there are pixels |
| OutputTopology.FullDamageCoversIff | crates/sophia-engine/src/output.rs:44-56 | Damage over a whole output reaches every pixel column, or row, if and only if the pixels are at most the scale or a multiple of it |
| OutputTopology.UncoveredPixelExample | crates/sophia-engine/src/output.rs:44-56 | Three pixel columns at scale two, of which full damage reaches two |
| OutputTopology.PixelProjectionScales | crates/sophia-engine/src/output.rs:44-56 | The pixel projection is the logical projection times the scale, exactly, except on an axis with fewer pixels than the scale, of which it reaches all |

## Left out

- Presentation registry: validation of a DMA-BUF descriptor is an input (`wellFormed`), and descriptors are tokens for open files; closing them, formats and the exported plane clones are not modelled.
- Present scheduler and runtime: the payload of a queued presentation (background frame, target, transactions), tick reports, error values of a drive, layers and effects of a composed frame, and the internals of `prepare_full_state_present`, `complete_prepared_retirement` and native submission.
- Present runtime: the diagnostic's exported status and layer counts; the loop that registers and releases resources observed from the X authority is its single operations in any order.
- Time: instants and durations are natural numbers of milliseconds; overflow of an instant is not modelled.
- Ids: numbers, with 0 for the invalid id; ordered maps are maps visited in ascending key order.
- CPU composition: the non-zero byte count and the checksum of a frame; the cursor position is an exact real number or not finite, so the rounding of floating point is not modelled.
- CPU buffer registry: the checksum over all buffers.
- Portal lifecycle: payload descriptions beyond namespaces, kind, generation and deadline, and the six per-kind portals on top.
- Window-manager policy: `descriptor` and the read-only lookups.
- Demo window manager: crop and transform of placements are constants and not represented; the replies to a removed surface and to an activated action are single branches.
- WmDemo.TileWorkspace: overflow of `i32` is a panic, as in a build with overflow checks; without them the result would wrap.
- X properties: listing queries, metadata candidates, and the deletion a reader may ask for after a complete read.
- Input grabs: the query of selected event bits; an event mask is a list of words.
- Outputs: variable refresh decisions, the deterministic test topology, and `project_damage_pixels`, which maps the projection shown here over a list.
- The page-flip tracker, `LiveBufferRegistry`, the multi-output service coordinator, codecs, dispatch tables, and the atom, shared-memory, resource and graphics-context tables are not modelled.
- EGL, GL, GBM, DRM, shared memory, sockets, device discovery and tracing: foreign calls and I/O.
