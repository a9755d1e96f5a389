/** What each operation of the overlay manager does, as seen by its callers
    and by the renderer, proved about the value-level model. */
module OverlayBehaviour {
  import opened CStrings
  import opened OverlayTypes
  import opened ToastTiming
  import opened OverlayModel
  import opened OverlayProperties

  // ---------------------------------------------------------------------
  // Publish and claim

  /** Without a renderer, or when the slot has no font and none can be
      opened, a publish changes nothing: in particular the slot still has no
      font, so the next publish tries to open it again. */
  lemma PublishBlocked(s: State, t: OverlayType)
    requires Buffered(s)
    requires !PublishProceeds(s, t)
    ensures Publish(s, t) == s
    ensures !s.rendererAttached || Publish(s, t).SlotOf(t).font.None?
  {
  }

  /** A publish that proceeds installs a fresh surface showing the slot's
      current text, colour and size when the slot is enabled (even if the
      text is empty) and no surface when it is disabled; it notifies the
      renderer once, for this slot; it frees exactly the surface it
      replaced, which was neither freed before nor owned by the renderer;
      it keeps the slot's font or opens one; nothing else changes. */
  lemma PublishEffect(s: State, t: OverlayType)
    requires Inv(s) && PublishProceeds(s, t)
    ensures var r := Publish(s, t);
      && r.notifications == s.notifications + [t]
      && (r.SlotOf(t).surface.Some? <==> s.SlotOf(t).enabled)
      && (s.SlotOf(t).enabled ==>
            r.SlotOf(t).surface.value !in s.surfaces &&
            r.surfaces == s.surfaces[r.SlotOf(t).surface.value :=
              Raster(CStr(s.SlotOf(t).text), s.SlotOf(t).color, s.SlotOf(t).fontSize)])
      && r.freed == s.freed + OptSet(s.SlotOf(t).surface)
      && (s.SlotOf(t).surface.Some? ==>
            s.SlotOf(t).surface.value !in s.freed && s.SlotOf(t).surface.value !in s.claimed)
      && r.SlotOf(t).font.Some?
      && (s.SlotOf(t).font.Some? ==> r.SlotOf(t).font == s.SlotOf(t).font)
      && r.SlotOf(t).(font := s.SlotOf(t).font, surface := s.SlotOf(t).surface) == s.SlotOf(t)
      && r.WithSlot(t, s.SlotOf(t)).(nextFont := s.nextFont, fontsOpened := s.fontsOpened,
           nextSurface := s.nextSurface, surfaces := s.surfaces, notifications := s.notifications,
           freed := s.freed) == s
  {
    var slot := s.SlotOf(t);
    var s1 := if slot.font.Some? then s else OpenFont(s, t);
    PublishSteps(s, t);
    OpenFontFrame(s, t);
    RenderAndSwapFrame(s1, t);
    assert s.nextSurface !in s.surfaces;
    assert slot.surface.Some? ==> slot.surface.value in s.Held();
  }

  /** A claim returns the surface last published in the slot and leaves none
      behind, so a second claim with nothing published in between returns
      none. A claimed surface passes to the renderer, which did not own it
      before and which the manager never freed. */
  lemma ClaimOnce(s: State, t: OverlayType)
    requires Inv(s)
    ensures ClaimSurface(s, t).1 == s.SlotOf(t).surface
    ensures ClaimSurface(s, t).0.SlotOf(t).surface.None?
    ensures ClaimSurface(ClaimSurface(s, t).0, t).1.None?
    ensures ClaimSurface(s, t).0.claimed == s.claimed + OptSet(s.SlotOf(t).surface)
    ensures ClaimSurface(s, t).1.Some? ==>
              ClaimSurface(s, t).1.value !in s.claimed && ClaimSurface(s, t).1.value !in s.freed
  {
    assert s.SlotOf(t).surface.Some? ==> s.SlotOf(t).surface.value in s.Held();
  }

  // ---------------------------------------------------------------------
  // Slot state and text

  /** Setting a slot's flag to the value it already has changes nothing. */
  lemma SetOverlayStateUnchanged(s: State, t: OverlayType, enabled: bool)
    requires Buffered(s)
    requires s.SlotOf(t).enabled == enabled
    ensures SetOverlayState(s, t, enabled) == s
  {
  }

  /** Disabling an enabled slot empties its text, whatever it held, and
      publishes: the slot's surface becomes none, the renderer is notified
      once and the replaced surface is freed. If the publish cannot proceed
      the slot keeps its surface and the renderer hears nothing. */
  lemma DisableClears(s: State, t: OverlayType)
    requires Inv(s) && s.SlotOf(t).enabled
    ensures var r := SetOverlayState(s, t, false);
      && !r.SlotOf(t).enabled
      && CStr(r.SlotOf(t).text) == []
      && (PublishProceeds(s, t) ==>
            r.SlotOf(t).surface.None? && r.notifications == s.notifications + [t] &&
            r.freed == s.freed + OptSet(s.SlotOf(t).surface))
      && (!PublishProceeds(s, t) ==>
            r.SlotOf(t).surface == s.SlotOf(t).surface && r.notifications == s.notifications)
  {
    var slot := s.SlotOf(t);
    var s1 := s.WithSlot(t, slot.(enabled := false, text := slot.text[0 := NUL]));
    ClearFirstEmpties(slot.text);
    SlotEditInv(s, t, s1.SlotOf(t));
    assert PublishProceeds(s1, t) == PublishProceeds(s, t);
    if PublishProceeds(s, t) {
      PublishEffect(s1, t);
    }
  }

  /** Enabling a disabled slot keeps its text and, when the publish
      proceeds, installs a fresh surface showing that text, even an empty
      one. */
  lemma EnableRenders(s: State, t: OverlayType)
    requires Inv(s) && !s.SlotOf(t).enabled && PublishProceeds(s, t)
    ensures var r := SetOverlayState(s, t, true);
      && r.SlotOf(t).enabled
      && r.SlotOf(t).text == s.SlotOf(t).text
      && r.SlotOf(t).surface.Some?
      && r.surfaces[r.SlotOf(t).surface.value] ==
           Raster(CStr(s.SlotOf(t).text), s.SlotOf(t).color, s.SlotOf(t).fontSize)
      && r.notifications == s.notifications + [t]
  {
    var slot := s.SlotOf(t);
    var s1 := s.WithSlot(t, slot.(enabled := true));
    SlotEditInv(s, t, s1.SlotOf(t));
    assert PublishProceeds(s1, t);
    PublishEffect(s1, t);
  }

  /** `updateOverlayText` stores the first 1023 characters of the text (all
      of them when shorter) and keeps the buffer terminated. A disabled slot
      only has its buffer changed; an enabled one is published with the new
      text. */
  lemma UpdateOverlayTextStores(s: State, t: OverlayType, text: seq<char>)
    requires Inv(s)
    ensures var r := UpdateOverlayText(s, t, text);
      && CStr(r.SlotOf(t).text) == Truncated(CStr(text), TextCapacity - 1)
      && |CStr(r.SlotOf(t).text)| < TextCapacity
      && r.SlotOf(t).text[TextCapacity - 1] == NUL
      && (!s.SlotOf(t).enabled ==> r == s.WithSlot(t, s.SlotOf(t).(text := r.SlotOf(t).text)))
      && (s.SlotOf(t).enabled && PublishProceeds(s, t) ==>
            r.notifications == s.notifications + [t] &&
            r.SlotOf(t).surface.Some? &&
            r.surfaces[r.SlotOf(t).surface.value] ==
              Raster(Truncated(CStr(text), TextCapacity - 1), s.SlotOf(t).color, s.SlotOf(t).fontSize))
  {
    var slot := s.SlotOf(t);
    var buf := CopyTerminated(slot.text, text, TextCapacity);
    CopyTerminatedStoresPrefix(slot.text, text, TextCapacity);
    var s1 := s.WithSlot(t, slot.(text := buf));
    SlotEditInv(s, t, s1.SlotOf(t));
    if slot.enabled && PublishProceeds(s, t) {
      assert PublishProceeds(s1, t);
      PublishEffect(s1, t);
    }
  }

  // ---------------------------------------------------------------------
  // Toasts

  /** While mouse mode is on, `showToast` only captures a truncated,
      terminated copy of the text into the pending buffer: no slot, toast
      field or notification changes, so the renderer has nothing new to
      claim. */
  lemma ShowToastSuppressed(s: State, ty: ToastType, category: ToastCategory, text: seq<char>, now: Uint32)
    requires Inv(s) && s.mouseModeActive
    ensures var r := ShowToast(s, ty, category, text, now);
      && r == s.(mouseModeText := r.mouseModeText)
      && CStr(r.mouseModeText) == Truncated(CStr(text), TextCapacity - 1)
      && r.mouseModeText[TextCapacity - 1] == NUL
      && ClaimSurface(r, OverlayStatusUpdate).1 == ClaimSurface(s, OverlayStatusUpdate).1
  {
    CopyTerminatedStoresPrefix(s.mouseModeText, text, TextCapacity - 1);
  }

  /** Outside mouse mode, `showToast` leaves an active toast of the given
      category and type that started at `now` and lasts the fixed 2500 ms,
      with the StatusUpdate slot enabled in the type's colour and showing the
      (truncated) text; when the publish proceeds, that is what the newly
      installed surface shows. This holds both when it refreshes a toast of
      the same category and when it supersedes any other. */
  lemma ShowToastDisplays(s: State, ty: ToastType, category: ToastCategory, text: seq<char>, now: Uint32)
    requires Inv(s) && !s.mouseModeActive
    ensures var r := ShowToast(s, ty, category, text, now);
      && r.toastActive && r.toastCategory == category && r.toastType == ty
      && r.toastStartTime == now && r.toastDuration == ToastDisplayMs
      && r.status.enabled && r.status.color == ToastColor(ty)
      && CStr(r.status.text) == Truncated(CStr(text), TextCapacity - 1)
      && r.debug == s.debug && !r.mouseModeActive && r.mouseModeText == s.mouseModeText
      && (PublishProceeds(s, OverlayStatusUpdate) ==>
            r.notifications == s.notifications + [OverlayStatusUpdate] &&
            r.status.surface.Some? &&
            r.surfaces[r.status.surface.value] ==
              Raster(Truncated(CStr(text), TextCapacity - 1), ToastColor(ty), s.status.fontSize))
  {
    CopyTerminatedStoresPrefix(s.status.text, text, TextCapacity - 1);
    var slot := ToastSlot(s, ty, text);
    SlotEditInv(s, OverlayStatusUpdate, slot);
    var s1 := s.(status := slot, toastType := ty, toastCategory := category, toastStartTime := now,
                 toastDuration := ToastDisplayMs, toastActive := true);
    ToastFieldsInv(s.(status := slot), now, ToastDisplayMs, ty, category, true);
    RefreshIsSupersede(s, ty, category, text, now);
    assert ShowToast(s, ty, category, text, now) == Publish(s1, OverlayStatusUpdate);
    if PublishProceeds(s, OverlayStatusUpdate) {
      assert PublishProceeds(s1, OverlayStatusUpdate);
      PublishEffect(s1, OverlayStatusUpdate);
    }
  }

  /** Refreshing a toast of the same category keeps its category and
      duration; since an active toast always has the fixed duration, the
      refresh leaves exactly the state a superseding toast would. */
  lemma RefreshIsSupersede(s: State, ty: ToastType, category: ToastCategory, text: seq<char>, now: Uint32)
    requires Inv(s) && !s.mouseModeActive
    ensures ShowToast(s, ty, category, text, now) ==
      Publish(s.(status := ToastSlot(s, ty, text), toastType := ty, toastCategory := category,
                 toastStartTime := now, toastDuration := ToastDisplayMs, toastActive := true),
              OverlayStatusUpdate)
  {
    if s.toastActive && s.toastCategory == category {
      assert s.(status := ToastSlot(s, ty, text), toastType := ty, toastStartTime := now)
          == s.(status := ToastSlot(s, ty, text), toastType := ty, toastCategory := category,
                toastStartTime := now, toastDuration := ToastDisplayMs, toastActive := true);
    }
  }

  /** After `showToast` at `now`, polls at any later instant inside the 2500 ms
      window find the toast still active, change nothing, and see the
      opacity curve at the time elapsed since `now` (positive after the
      first instant): a same-category call restarts the full display window
      without the toast passing through expiry. */
  lemma ToastLivesFullWindow(s: State, ty: ToastType, category: ToastCategory, text: seq<char>,
                             now: Uint32, d: Uint32)
    requires Inv(s) && !s.mouseModeActive
    requires d < ToastDisplayMs
    ensures var r := ShowToast(s, ty, category, text, now);
      && ToastTick(r, Add32(now, d)) == (r, Opacity(d, ToastDisplayMs))
      && (0 < d ==> 0.0 < ToastTick(r, Add32(now, d)).1)
  {
    ShowToastDisplays(s, ty, category, text, now);
    ElapsedAfter(now, d);
    if 0 < d {
      VisibleUntilExpiry(d, ToastDisplayMs);
    }
  }

  /** Polling without an active toast returns full opacity and changes
      nothing. */
  lemma TickInactive(s: State, now: Uint32)
    requires Buffered(s) && !s.toastActive
    ensures ToastTick(s, now) == (s, 1.0)
  {
  }

  /** Polling an active toast before its window ends changes nothing and
      returns the curve at the elapsed time, computed modulo 2^32. */
  lemma TickRunning(s: State, now: Uint32)
    requires Buffered(s) && s.toastActive
    requires Sub32(now, s.toastStartTime) < s.toastDuration
    ensures ToastTick(s, now) == (s, Opacity(Sub32(now, s.toastStartTime), s.toastDuration))
  {
  }

  /** Polling once the window has ended returns 0, deactivates the toast and
      resets its category. If mouse mode is on with pending text, the
      StatusUpdate slot is enabled showing that text in the banner red;
      otherwise it is disabled and, if it was enabled, emptied. The pending
      buffer keeps its text either way, and the Debug slot is untouched. */
  lemma TickExpires(s: State, now: Uint32)
    requires Inv(s) && s.toastActive
    requires Sub32(now, s.toastStartTime) >= s.toastDuration
    ensures var (r, o) := ToastTick(s, now);
      && o == 0.0
      && !r.toastActive && r.toastCategory == CategoryNone
      && r.mouseModeActive == s.mouseModeActive && r.mouseModeText == s.mouseModeText
      && r.debug == s.debug
      && (s.mouseModeActive && s.mouseModeText[0] != NUL ==>
            r.status.enabled && r.status.color == RevealRed &&
            CStr(r.status.text) == CStr(s.mouseModeText))
      && (!(s.mouseModeActive && s.mouseModeText[0] != NUL) ==>
            !r.status.enabled && (s.status.enabled ==> CStr(r.status.text) == []))
  {
    var s0 := s.(toastActive := false, toastCategory := CategoryNone);
    var s1 := SetOverlayState(s0, OverlayStatusUpdate, false);
    ToastFieldsInv(s, s.toastStartTime, s.toastDuration, s.toastType, CategoryNone, false);
    SetOverlayStateInv(s0, OverlayStatusUpdate, false);
    if s.status.enabled {
      DisableClears(s0, OverlayStatusUpdate);
    }
    if s.mouseModeActive && s.mouseModeText[0] != NUL {
      var slot := s1.status.(text := CopyTerminated(s1.status.text, s1.mouseModeText, TextCapacity - 1),
                             color := RevealRed, enabled := true);
      PublishFrame(s1.(status := slot), OverlayStatusUpdate);
      CopyTerminatedStoresPrefix(s1.status.text, s1.mouseModeText, TextCapacity - 1);
      assert Truncated(CStr(s.mouseModeText), TextCapacity - 1) == CStr(s.mouseModeText);
    }
  }

  /** Text captured while mouse mode is on becomes visible when the current
      toast expires: a suppressed `showToast` followed by the expiry shows
      that text, truncated, in the banner red. */
  lemma CapturedTextRevealedOnExpiry(s: State, ty: ToastType, category: ToastCategory, text: seq<char>,
                                     now: Uint32, later: Uint32)
    requires Inv(s) && s.mouseModeActive && s.toastActive
    requires CStr(text) != []
    requires Sub32(later, s.toastStartTime) >= s.toastDuration
    ensures var r := ToastTick(ShowToast(s, ty, category, text, now), later).0;
      && r.status.enabled && r.status.color == RevealRed
      && CStr(r.status.text) == Truncated(CStr(text), TextCapacity - 1)
  {
    var s1 := ShowToast(s, ty, category, text, now);
    ShowToastSuppressed(s, ty, category, text, now);
    ShowToastInv(s, ty, category, text, now);
    assert s1.mouseModeText[0] != NUL by {
      assert |CStr(s1.mouseModeText)| > 0;
    }
    TickExpires(s1, later);
  }

  /** Turning mouse mode off empties the pending text and changes nothing
      else, so a later expiry reveals nothing. Turning it on only sets the
      flag. */
  lemma MouseModeToggle(s: State, active: bool)
    requires Inv(s)
    ensures var r := SetMouseModeOverlayActive(s, active);
      && r.mouseModeActive == active
      && r == s.(mouseModeActive := active, mouseModeText := r.mouseModeText)
      && (active ==> r.mouseModeText == s.mouseModeText)
      && (!active ==> CStr(r.mouseModeText) == [] && !ExpireToast(r).status.enabled)
  {
    if !active {
      ClearFirstEmpties(s.mouseModeText);
      var r := SetMouseModeOverlayActive(s, active);
      SetMouseModeOverlayActiveInv(s, active);
      var r0 := r.(toastActive := false, toastCategory := CategoryNone);
      ToastFieldsInv(r, r.toastStartTime, r.toastDuration, r.toastType, CategoryNone, false);
      if r.status.enabled {
        DisableClears(r0, OverlayStatusUpdate);
      }
    }
  }

  // ---------------------------------------------------------------------
  // Teardown

  /** After the destructor every surface the rasteriser ever produced has
      been released exactly once: by the manager (freed now or earlier, never
      both) or by the renderer that claimed it; and every font opened has
      been closed. */
  lemma TeardownReleasesAll(s: State)
    requires Inv(s)
    ensures var d := Teardown(s);
      && d.surfaces.Keys == d.claimed + d.freed
      && d.claimed !! d.freed
      && s.Held() !! s.freed
      && d.fontsClosed == d.fontsOpened
  {
  }
}
