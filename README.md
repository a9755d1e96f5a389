# Overlay manager of the streaming client, in Dafny

This project models `Overlay::OverlayManager`, the component of the
streaming client that owns the on-screen overlays: the Debug overlay and the
StatusUpdate overlay, which also carries toasts. It keeps one record per
overlay: an enabled flag, a font size, a colour, a 1024-character text
buffer, a font that is opened lazily, and the last rasterised surface. Text
is rasterised into a surface, which is swapped into the record. The renderer
is notified and later claims the surface. On top of the StatusUpdate record
sits a small toast state machine: same-category toasts refresh, other toasts
supersede, and expiry happens inside the opacity poll with a fade-in, a
steady phase and a fade-out. While mouse mode is on, toast text is captured
into a pending buffer instead of being shown, and that text is revealed when
the current toast expires.

The project has three layers:

- **A value-level model** (`OverlayModel`, overlay_model.dfy). The
  manager's state is a `State` datatype. It holds the two slots, the renderer
  and font flags, the toast fields, the mouse-mode buffer, and the handle
  counters of the rasteriser and the font loader. It also holds a ghost
  ledger: the notifications sent, every surface ever rasterised and what it
  shows, the surfaces claimed by the renderer, the surfaces freed, and the
  fonts opened and closed.
  - Each operation of the source is one function over `State`.
  - `Inv` is the invariant of a live manager. Buffers are full-size and
    terminated. Font sizes and the Debug colour are fixed. Every surface is
    held by exactly one slot, claimed, or freed. Every font opened is held by
    its slot.
- **Proofs about the model.**
  - `OverlayProperties` (overlay_properties.dfy) proves that every
    operation keeps `Inv`.
  - `OverlayBehaviour` (overlay_behaviour.dfy) proves what each operation
    does for its callers.
  - `ToastTiming` (toast_timing.dfy) holds the 32-bit clock and the opacity
    curve.
  - `CStrings` (cstring.dfy) holds C strings in fixed buffers:
    `strncpy`/`strlen` semantics, and the `strncpy` loop itself on an array.
- **The imperative manager** (`Overlay`, overlay_manager.dfy).
  - `OverlaySlot` is a class over a `char` array.
  - `OverlayManager` is a class over an array of two slots and the pending
    buffer.
  - Each method changes the fields in place, as the source does. Its
    contract says that the ghost `model` moved exactly as the corresponding
    `OverlayModel` function says. Each public method also keeps `Valid()`;
    the step helpers keep the fields coupled to `model`, and `Destroy` ends
    in the torn-down state.
    `Valid()` means the fields agree with `model` and `Inv(model)` holds.

Time is an input: every operation that reads the tick counter takes the
reading as `now`. The rasteriser and the font loader hand out fresh handles
from counters. Whether the font data was read, and whether it parses, are
fixed when the manager is built.

In these places the model follows the code where a reader might expect
otherwise:

- The reveal on expiry does not clear the pending buffer. The pending text
  stays until mouse mode is turned off or the next capture overwrites it.
- A font that fails to open is not remembered. Every publish tries to open it
  again.
- An enabled slot is rasterised even when its text is empty.
- Disabling a slot writes only a NUL into the first cell of its buffer.
- At 2300 ms into a 2500 ms toast the opacity is 0.4. The 0.5 point falls at
  2250 ms.
- A same-category refresh keeps the category and duration. Under the
  invariant these already equal what a superseding toast would set, so the
  two paths end in the same state (`RefreshIsSupersede`).

## Model

| member | source | states |
|---|---|---|
| OverlayTypes.OverlayType.Index | app/streaming/video/overlaymanager.h:10-14 | each overlay type indexes the slot array below `OverlayMax` (2) |
| OverlayTypes.TypeAt | app/streaming/video/overlaymanager.h:10-14 | every index below `OverlayMax` is the index of exactly one overlay type |
| OverlayTypes.IndexInjective | app/streaming/video/overlaymanager.h:10-14 | two overlay types never share a slot |
| OverlayTypes.ToastColor | app/streaming/video/overlaymanager.cpp:176-187 | the toast colour is white exactly for information, gold (FF,D7,00) exactly for warnings, red (FF,45,45) exactly for errors; all opaque |
| CStrings.CLen | app/streaming/video/overlaymanager.cpp:161-165 | the C string length is the index of the first NUL (or the whole buffer): no NUL before it, a NUL at it |
| CStrings.CLenAt | app/streaming/video/overlaymanager.cpp:63-66 | a buffer whose first NUL is at `m` has C string length `m` |
| CStrings.StrNCopy | app/streaming/video/overlaymanager.cpp:70 | the two `strncpy` loops leave the array equal to the bounded, NUL-padded copy and the cells from `n` on unchanged |
| CStrings.CopyTerminatedInto | app/streaming/video/overlaymanager.cpp:192-193 | `strncpy` then a NUL in the last cell leaves the array equal to the terminated copy |
| CStrings.CopyTerminatedStoresPrefix | app/streaming/video/overlaymanager.cpp:70-71 | a terminated copy with either copy length the code uses stores the first 1023 characters of the source string (all of them when shorter) and stays terminated in its last cell |
| CStrings.ClearFirstEmpties | app/streaming/video/overlaymanager.cpp:109-112 | a NUL in the first cell empties the C string, whatever the rest holds |
| ToastTiming.Add32 | app/streaming/video/overlaymanager.h:79-80 | 32-bit unsigned addition wraps at 2^32 |
| ToastTiming.Sub32 | app/streaming/video/overlaymanager.cpp:227 | the elapsed time is the difference modulo 2^32 |
| ToastTiming.ElapsedAfter | app/streaming/video/overlaymanager.cpp:227 | the elapsed time `d` after a start is recovered exactly across a wrap of the tick counter |
| ToastTiming.Opacity | app/streaming/video/overlaymanager.cpp:229-254 | the opacity always lies in [0, 1]; it is 0 once expired, elapsed/250 during the fade-in, 1 from 250 ms until 500 ms before the end, and (duration − elapsed)/500 during the last 500 ms (the `Uint32` threshold does not wrap there) |
| ToastTiming.FadeInRises | app/streaming/video/overlaymanager.cpp:244-246 | during the fade-in the opacity never decreases |
| ToastTiming.FadeOutFalls | app/streaming/video/overlaymanager.cpp:248-252 | during the fade-out the opacity never increases |
| ToastTiming.VisibleUntilExpiry | app/streaming/video/overlaymanager.cpp:244-254 | for a window of at least 500 ms the opacity is positive at every instant strictly inside it |
| ToastTiming.DisplayCurve | app/streaming/video/overlaymanager.cpp:244-254 | the 2500 ms curve is 0 at 0, 0.5 at 125, 1 from 250 to 2000, 0.5 at 2250, 0.4 at 2300 and 0 at 2500 |
| OverlayModel.Initial | app/streaming/video/overlaymanager.cpp:10-28 | the constructor's state holds no surface and no font, and the texts of both slots and the pending buffer are empty |
| OverlayModel.OpenFont | app/streaming/video/overlaymanager.cpp:142-145 | the slot receives a font handle that is added to the opened fonts; when the handle supply is ahead of every font opened, the new handle is fresh and the supply stays ahead |
| OverlayModel.RenderAndSwap | app/streaming/video/overlaymanager.cpp:156-173 | the renderer is notified once for the slot; the slot holds a surface exactly when it is enabled, and that surface shows the slot's C string, colour and size; when the supply is ahead of every surface, the new one is fresh and the supply stays ahead |
| OverlayModel.Publish | app/streaming/video/overlaymanager.cpp:128-174 | a publish keeps the buffers full-size and leaves the pending buffer alone |
| OverlayModel.SetOverlayState | app/streaming/video/overlaymanager.cpp:102-116 | changing a slot's flag keeps the buffers full-size and leaves the pending buffer alone |
| OverlayModel.TextUpdated | app/streaming/video/overlaymanager.cpp:93-100 | publishing only an enabled slot keeps the buffers full-size; its effect is proved in UpdateOverlayTextStores |
| OverlayModel.UpdateOverlayText | app/streaming/video/overlaymanager.cpp:68-74 | the copy and the conditional publish keep the buffers full-size; the stored text is proved in UpdateOverlayTextStores |
| OverlayModel.ClaimSurface | app/streaming/video/overlaymanager.cpp:86-91 | the claim returns the slot's surface, which was one the slots held, leaves the slot without one, adds it to the claimed surfaces, and leaves the other slot and the surface ledger unchanged |
| OverlayModel.SetOverlayRenderer | app/streaming/video/overlaymanager.cpp:123-126 | the renderer flag takes the given value and the invariant holds afterwards exactly when it held before |
| OverlayModel.ShowToast | app/streaming/video/overlaymanager.cpp:189-219 | a toast keeps every buffer full-size |
| OverlayModel.ExpireToast | app/streaming/video/overlaymanager.cpp:229-242 | the expiry keeps every buffer full-size |
| OverlayModel.ToastTick | app/streaming/video/overlaymanager.cpp:221-255 | the poll returns an opacity in [0, 1] and keeps every buffer full-size |
| OverlayModel.SetMouseModeOverlayActive | app/streaming/video/overlaymanager.cpp:267-273 | setting the flag keeps the buffers full-size; its effect is proved in MouseModeToggle |
| OverlayModel.Teardown | app/streaming/video/overlaymanager.cpp:38-47 | the destructor changes no surface or font record; when every surface was held, claimed or freed, all of them end claimed or freed; when every opened font was held, all of them end closed |
| OverlayModel.HeldBelow | app/streaming/video/overlaymanager.cpp:40-43 | the surfaces of the first `n` slots are those the destructor's loop has freed after `n` rounds; after both rounds, every surface the slots hold |
| OverlayModel.FontsBelow | app/streaming/video/overlaymanager.cpp:44-46 | the fonts of the first `n` slots are those the loop has closed after `n` rounds; after both rounds, every font the slots hold |
| OverlayProperties.InitialInv | app/streaming/video/overlaymanager.cpp:10-28 | the constructed manager satisfies the invariant: no surface or font exists yet and the buffers are terminated |
| OverlayProperties.SwapAccounted | app/streaming/video/overlaymanager.cpp:157-173 | exchanging a slot's surface for none or a fresh one keeps every surface held by exactly one slot, claimed or freed, when the old one goes to the renderer or is freed |
| OverlayProperties.OpenFontSurfaces | app/streaming/video/overlaymanager.cpp:142-144 | opening a font leaves the surface accounting intact |
| OverlayProperties.SwapSurfaces | app/streaming/video/overlaymanager.cpp:157-173 | the swap of a publish keeps the surface accounting: the new surface is fresh, the old one is freed |
| OverlayProperties.PublishFrame | app/streaming/video/overlaymanager.cpp:128-174 | a publish changes only the slot's font and surface, the handle counters and the ledger; text, flag, colour, size, the other slot, toast and mouse-mode fields are untouched |
| OverlayProperties.PublishSurfaces | app/streaming/video/overlaymanager.cpp:128-174 | a publish that proceeds keeps every surface held by exactly one slot, claimed, or freed |
| OverlayProperties.PublishFonts | app/streaming/video/overlaymanager.cpp:135-153 | a publish that proceeds keeps every opened font held by its own slot and none closed |
| OverlayProperties.PublishInv | app/streaming/video/overlaymanager.cpp:128-174 | `notifyOverlayUpdated` keeps the invariant |
| OverlayProperties.SlotEditInv | app/streaming/video/overlaymanager.h:67-75 | editing a slot's flag, text or (StatusUpdate) colour keeps the invariant when the buffer stays terminated |
| OverlayProperties.UpdateOverlayTextInv | app/streaming/video/overlaymanager.cpp:68-74 | `updateOverlayText` keeps the invariant |
| OverlayProperties.SetOverlayStateInv | app/streaming/video/overlaymanager.cpp:102-116 | `setOverlayState` keeps the invariant |
| OverlayProperties.SetOverlayStateSteps | app/streaming/video/overlaymanager.cpp:102-116 | `setOverlayState` is: write the flag; on a change clear a disabled slot's first cell, then publish; without a change the state is as before |
| OverlayProperties.ClaimSurfaceInv | app/streaming/video/overlaymanager.cpp:86-91 | a claim keeps the invariant: the surface passes from the slot to the renderer |
| OverlayProperties.SetOverlayRendererInv | app/streaming/video/overlaymanager.cpp:123-126 | attaching or detaching the renderer keeps the invariant |
| OverlayProperties.ToastFieldsInv | app/streaming/video/overlaymanager.cpp:212-216 | writing the toast fields keeps the invariant when an active toast has the fixed 2500 ms duration |
| OverlayProperties.ToastStaged | app/streaming/video/overlaymanager.cpp:208-211 | writing the toast's text, colour and flag into the StatusUpdate slot keeps the invariant |
| OverlayProperties.ShowToastInv | app/streaming/video/overlaymanager.cpp:189-219 | `showToast` keeps the invariant on all three paths |
| OverlayProperties.RefreshInv | app/streaming/video/overlaymanager.cpp:197-205 | the same-category refresh keeps the invariant |
| OverlayProperties.SupersedeInv | app/streaming/video/overlaymanager.cpp:208-218 | starting a new toast keeps the invariant |
| OverlayProperties.ExpireToastInv | app/streaming/video/overlaymanager.cpp:229-242 | the expiry, with or without the reveal, keeps the invariant |
| OverlayProperties.ToastTickInv | app/streaming/video/overlaymanager.cpp:221-255 | `getToastOpacity` keeps the invariant |
| OverlayProperties.SetMouseModeOverlayActiveInv | app/streaming/video/overlaymanager.cpp:267-273 | `setMouseModeOverlayActive` keeps the invariant |
| OverlayBehaviour.PublishBlocked | app/streaming/video/overlaymanager.cpp:130-153 | without a renderer, or without a font that can be opened, a publish changes nothing, and the slot stays without a font, so the next publish retries |
| OverlayBehaviour.PublishEffect | app/streaming/video/overlaymanager.cpp:156-173 | a publish that proceeds notifies the renderer once for this slot; it installs a fresh surface showing the slot's C string, colour and size exactly when the slot is enabled (empty text included); it frees exactly the replaced surface, which was neither freed nor claimed; it keeps or opens the font; nothing else changes |
| OverlayBehaviour.ClaimOnce | app/streaming/video/overlaymanager.cpp:86-91 | a claim returns the published surface and leaves none, so an immediate second claim returns none; the claimed surface was neither claimed nor freed before |
| OverlayBehaviour.SetOverlayStateUnchanged | app/streaming/video/overlaymanager.cpp:104-108 | setting a flag to its current value changes nothing |
| OverlayBehaviour.DisableClears | app/streaming/video/overlaymanager.cpp:108-115 | disabling an enabled slot empties its C string and publishes, which installs no surface, notifies once and frees the old surface; a blocked publish leaves the surface and notifications |
| OverlayBehaviour.EnableRenders | app/streaming/video/overlaymanager.cpp:102-116 | when the publish proceeds (a renderer is attached and a font is held or opens), enabling a disabled slot keeps its text, notifies once and installs a surface showing it |
| OverlayBehaviour.UpdateOverlayTextStores | app/streaming/video/overlaymanager.cpp:68-74 | the stored C string is the first 1023 characters of the input (all when shorter) and the buffer is terminated; a disabled slot changes only its buffer; an enabled slot whose publish proceeds is published showing the new text |
| OverlayBehaviour.ShowToastSuppressed | app/streaming/video/overlaymanager.cpp:191-195 | in mouse mode `showToast` only stores a truncated, terminated copy in the pending buffer; no slot, toast field or notification changes |
| OverlayBehaviour.ShowToastDisplays | app/streaming/video/overlaymanager.cpp:197-218 | outside mouse mode the toast is active with the given category and type, started at `now`, lasting 2500 ms; the StatusUpdate slot is enabled in the type's colour with the truncated text; the Debug slot and the pending buffer are unchanged; when the publish proceeds, the newly installed surface shows the text |
| OverlayBehaviour.RefreshIsSupersede | app/streaming/video/overlaymanager.cpp:197-218 | the refresh path ends in the same state as the supersede path |
| OverlayBehaviour.ToastLivesFullWindow | app/streaming/video/overlaymanager.cpp:221-254 | after `showToast`, polls within 2500 ms change nothing and return the curve at the time elapsed, positive after the first instant |
| OverlayBehaviour.TickInactive | app/streaming/video/overlaymanager.cpp:223-225 | with no active toast the poll returns 1 and changes nothing |
| OverlayBehaviour.TickRunning | app/streaming/video/overlaymanager.cpp:227-254 | before expiry the poll changes nothing and returns the curve at the wrapped elapsed time |
| OverlayBehaviour.TickExpires | app/streaming/video/overlaymanager.cpp:229-242 | at expiry the poll returns 0, deactivates the toast, resets its category to none, keeps the Debug slot and the pending buffer; it reveals the pending text in (CC,00,00) when mouse mode holds some, and otherwise disables the StatusUpdate slot and empties it if it was enabled |
| OverlayBehaviour.CapturedTextRevealedOnExpiry | app/streaming/video/overlaymanager.cpp:191-240 | text captured in mouse mode is shown, truncated, in the banner red when the toast expires |
| OverlayBehaviour.MouseModeToggle | app/streaming/video/overlaymanager.cpp:267-273 | turning mouse mode off empties the pending text and nothing else, so a later expiry reveals nothing; turning it on only sets the flag |
| OverlayBehaviour.TeardownReleasesAll | app/streaming/video/overlaymanager.cpp:38-56 | after the destructor every surface ever rasterised was released exactly once, by the manager or by the renderer that claimed it, and every font opened was closed |
| Overlay.OverlaySlot.constructor | app/streaming/video/overlaymanager.cpp:20-26 | a zeroed record: disabled, no font, no surface, an all-NUL buffer of 1024, with its size and colour set |
| Overlay.OverlayManager.constructor | app/streaming/video/overlaymanager.cpp:10-28 | the manager starts in the initial state with the invariant |
| Overlay.OverlayManager.IsOverlayEnabled | app/streaming/video/overlaymanager.cpp:58-61 | returns the slot's flag |
| Overlay.OverlayManager.GetOverlayText | app/streaming/video/overlaymanager.cpp:63-66 | returns the slot's C string, always shorter than the buffer |
| Overlay.OverlayManager.GetOverlayMaxTextLength | app/streaming/video/overlaymanager.cpp:76-79 | returns the buffer size, 1024 |
| Overlay.OverlayManager.GetOverlayFontSize | app/streaming/video/overlaymanager.cpp:81-84 | returns 20 for Debug and 28 for StatusUpdate |
| Overlay.OverlayManager.GetOverlayColor | app/streaming/video/overlaymanager.cpp:118-121 | returns the slot's colour; Debug is always white |
| Overlay.OverlayManager.SetOverlayRenderer | app/streaming/video/overlaymanager.cpp:123-126 | sets whether a renderer is attached, keeping the invariant |
| Overlay.OverlayManager.OpenFont | app/streaming/video/overlaymanager.cpp:142-144 | the slot receives a fresh font handle |
| Overlay.OverlayManager.RenderAndSwap | app/streaming/video/overlaymanager.cpp:156-173 | the slot's surface is exchanged for a fresh one (enabled) or none (disabled), as the model's swap says |
| Overlay.OverlayManager.InstallSurface | app/streaming/video/overlaymanager.cpp:157-160 | an enabled slot receives the next surface handle |
| Overlay.OverlayManager.RemoveSurface | app/streaming/video/overlaymanager.cpp:157-165 | a disabled slot is left with no surface |
| Overlay.OverlayManager.NotifyOverlayUpdated | app/streaming/video/overlaymanager.cpp:128-174 | the early returns, the lazy font open and the swap move the state as `Publish` says, keeping the invariant |
| Overlay.OverlayManager.GetUpdatedOverlaySurface | app/streaming/video/overlaymanager.cpp:86-91 | returns the published surface and leaves none, as `ClaimSurface` says, keeping the invariant |
| Overlay.OverlayManager.StoreText | app/streaming/video/overlaymanager.cpp:70-71 | the slot's buffer becomes the bounded, terminated copy of the input |
| Overlay.OverlayManager.ClearText | app/streaming/video/overlaymanager.cpp:109-112 | a NUL is written into the first cell of the slot's buffer |
| Overlay.OverlayManager.SetSlotEnabled | app/streaming/video/overlaymanager.cpp:106 | the slot's flag is written |
| Overlay.OverlayManager.SetOverlayTextUpdated | app/streaming/video/overlaymanager.cpp:93-100 | only an enabled slot is published |
| Overlay.OverlayManager.UpdateOverlayText | app/streaming/video/overlaymanager.cpp:68-74 | the copy, the terminator and the conditional publish move the state as `UpdateOverlayText` says, keeping the invariant |
| Overlay.OverlayManager.SetOverlayState | app/streaming/video/overlaymanager.cpp:102-116 | the flag write and the publish on a change move the state as `SetOverlayState` says, keeping the invariant |
| Overlay.OverlayManager.PublishStateChange | app/streaming/video/overlaymanager.cpp:108-115 | after a change, a disabled slot's first cell is cleared and the slot is published |
| Overlay.OverlayManager.StorePending | app/streaming/video/overlaymanager.cpp:191-195 | the pending buffer becomes the bounded, terminated copy of the toast text |
| Overlay.OverlayManager.StageToast | app/streaming/video/overlaymanager.cpp:208-211 | the StatusUpdate slot receives the toast text, the type's colour and the enabled flag |
| Overlay.OverlayManager.SetToastFields | app/streaming/video/overlaymanager.cpp:212-216 | the toast's start time, duration, type, category and active flag are written |
| Overlay.OverlayManager.PostToast | app/streaming/video/overlaymanager.cpp:197-218 | the toast is staged, its fields set and the slot published, keeping the invariant |
| Overlay.OverlayManager.ShowToast | app/streaming/video/overlaymanager.cpp:189-219 | the three paths move the state as `ShowToast` says, keeping the invariant |
| Overlay.OverlayManager.ExpireToast | app/streaming/video/overlaymanager.cpp:229-242 | the expiry moves the state as `ExpireToast` says, keeping the invariant |
| Overlay.OverlayManager.RevealPending | app/streaming/video/overlaymanager.cpp:234-240 | the pending text is copied into the StatusUpdate slot in (CC,00,00), the slot enabled and published |
| Overlay.OverlayManager.GetToastOpacity | app/streaming/video/overlaymanager.cpp:221-255 | the state and opacity returned are those of `ToastTick`, keeping the invariant |
| Overlay.OverlayManager.GetToastColor | app/streaming/video/overlaymanager.cpp:257-260 | returns the colour of the current toast type |
| Overlay.OverlayManager.GetToastType | app/streaming/video/overlaymanager.cpp:262-265 | returns the current toast type |
| Overlay.OverlayManager.SetMouseModeOverlayActive | app/streaming/video/overlaymanager.cpp:267-273 | sets the flag and, when turning off, writes a NUL into the first pending cell, keeping the invariant |
| Overlay.OverlayManager.IsMouseModeOverlayActive | app/streaming/video/overlaymanager.cpp:275-278 | returns the mouse-mode flag |
| Overlay.OverlayManager.Destroy | app/streaming/video/overlaymanager.cpp:38-56 | the loop over both slots frees every held surface and closes every held font, as `Teardown` says |

## Left out

- Characters: the buffers are C `char` arrays of bytes, and one `char` of the model stands for one byte. Truncating at 1023 cells matches the source's 1023-byte truncation, which can split a multi-byte UTF-8 sequence; encodings are not modelled.
- Rasterisation and font parsing (`TTF_RenderText_Blended_Wrapped`, `TTF_OpenFontRW`): foreign calls. A rasterised surface is a fresh handle recorded with the text, colour and size it shows. Whether the font data parses is a fixed flag, so a retried font open always ends like the first one: a retry that later succeeds (a transient `TTF_OpenFontRW` failure, or one that depends on the slot's font size) is not modelled.
- A rasteriser that fails and returns no surface for an enabled slot: foreign behaviour; the model assumes rasterisation succeeds.
- `TTF_Init` and `TTF_Quit`: library reference counting with no effect on the manager's state.
- The file read of the font (`Path::readDataFile`): it is an input flag saying whether any data was read.
- Atomicity and memory ordering of `SDL_AtomicSetPtr`: the swap is modelled as a sequential exchange.
- Concurrency: every operation is one atomic step. Interleavings of the producer calls with the render thread's claim and `getToastOpacity` poll are not modelled.
- The order of field writes inside one `showToast` path: the writes are grouped, which only matters under concurrent reads.
- `SDL_GetTicks`: the clock reading is the parameter `now`.
- `SDL_Log*` calls: logging has no effect on state.
- Float rounding of the opacity: the model computes exact reals.
- The renderer: reduced to whether one is attached, with the notifications it receives kept in a ghost log.
- The `default:` branch of the toast colour switch: not reachable with the three-valued `ToastType`.
- Overlay.OverlayManager.GetOverlayText: returns the C string in the buffer rather than a pointer into it, so callers that write through the pointer are not modelled.
- app/main.cpp and app/wm.cpp are not part of this model: logging, start-up plumbing and environment probes.
