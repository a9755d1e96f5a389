/** What the overlay manager promises, proved about the value-level model:
    every operation keeps the ownership invariant, and each operation does
    what its callers rely on. */
module OverlayProperties {
  import opened CStrings
  import opened OverlayTypes
  import opened ToastTiming
  import opened OverlayModel

  // ---------------------------------------------------------------------
  // Invariant

  /** A freshly constructed manager satisfies the invariant. */
  lemma InitialInv(s: State, fontDataLoaded: bool, fontParses: bool)
    requires Initial(s, fontDataLoaded, fontParses)
    ensures Inv(s)
  {
    CLenAt(s.mouseModeText, 0);
    assert s.Held() == {} && s.FontsHeld() == {};
  }

  /** Exchanging the surface of slot `t` for `installed` (none, or a fresh
      handle) keeps every surface accounted for, when the surface it replaces
      goes to the renderer (`toRenderer`) or to the freed set. */
  lemma SwapAccounted(s: State, r: State, t: OverlayType, installed: Option<SurfaceId>, toRenderer: bool)
    requires SurfacesAccounted(s)
    requires installed.Some? ==> installed.value == s.nextSurface
    requires r.SlotOf(t).surface == installed
    requires t == OverlayDebug ==> r.status.surface == s.status.surface
    requires t == OverlayStatusUpdate ==> r.debug.surface == s.debug.surface
    requires r.surfaces.Keys == s.surfaces.Keys + OptSet(installed)
    requires r.nextSurface == if installed.Some? then s.nextSurface + 1 else s.nextSurface
    requires toRenderer ==> r.claimed == s.claimed + OptSet(s.SlotOf(t).surface) && r.freed == s.freed
    requires !toRenderer ==> r.claimed == s.claimed && r.freed == s.freed + OptSet(s.SlotOf(t).surface)
    ensures SurfacesAccounted(r)
  {
    var replaced := OptSet(s.SlotOf(t).surface);
    assert s.nextSurface !in s.surfaces;
    assert r.Held() == (s.Held() - replaced) + OptSet(installed) by {
      match t
      case OverlayDebug =>
      case OverlayStatusUpdate =>
    }
    assert r.surfaces.Keys == r.Held() + r.claimed + r.freed;
  }

  /** What `OpenFont` changes: the font of slot `t`, the font counter and
      the set of fonts opened; nothing else. */
  lemma OpenFontFrame(s: State, t: OverlayType)
    ensures var r := OpenFont(s, t);
      && r.SlotOf(t) == s.SlotOf(t).(font := Some(s.nextFont))
      && (t == OverlayDebug ==> r.status == s.status)
      && (t == OverlayStatusUpdate ==> r.debug == s.debug)
      && r == s.WithSlot(t, r.SlotOf(t)).(nextFont := s.nextFont + 1, fontsOpened := s.fontsOpened + {s.nextFont})
  {
  }

  /** A publish that proceeds is the swap, after opening a font when the
      slot has none. */
  lemma PublishSteps(s: State, t: OverlayType)
    requires Buffered(s) && PublishProceeds(s, t)
    ensures Publish(s, t) == RenderAndSwap(if s.SlotOf(t).font.Some? then s else OpenFont(s, t), t)
  {
  }

  /** Opening a font leaves the surfaces as they were. */
  lemma OpenFontSurfaces(s: State, t: OverlayType)
    requires SurfacesAccounted(s)
    ensures SurfacesAccounted(OpenFont(s, t))
  {
    OpenFontFrame(s, t);
    assert OpenFont(s, t).Held() == s.Held();
  }

  /** The swap keeps the surfaces accounted for: the new surface is fresh
      and the replaced one moves to the freed set. */
  lemma SwapSurfaces(s: State, t: OverlayType)
    requires SurfacesAccounted(s)
    ensures SurfacesAccounted(RenderAndSwap(s, t))
  {
    RenderAndSwapFrame(s, t);
    var installed := if s.SlotOf(t).enabled then Some(s.nextSurface) else None;
    SwapAccounted(s, RenderAndSwap(s, t), t, installed, false);
  }

  /** A publish changes only the font and surface of slot `t`, the handle
      counters and the record of rasters, notifications, fonts opened and
      surfaces freed. */
  lemma PublishFrame(s: State, t: OverlayType)
    requires Buffered(s)
    ensures var r := Publish(s, t);
      && r.SlotOf(t).(font := s.SlotOf(t).font, surface := s.SlotOf(t).surface) == s.SlotOf(t)
      && r.WithSlot(t, s.SlotOf(t)).(nextFont := s.nextFont, fontsOpened := s.fontsOpened,
           nextSurface := s.nextSurface, surfaces := s.surfaces, notifications := s.notifications,
           freed := s.freed) == s
  {
    if PublishProceeds(s, t) {
      PublishSteps(s, t);
      if s.SlotOf(t).font.Some? {
        RenderAndSwapFrame(s, t);
      } else {
        OpenFontFrame(s, t);
        RenderAndSwapFrame(OpenFont(s, t), t);
      }
    }
  }

  /** A publish keeps the surfaces accounted for. */
  lemma PublishSurfaces(s: State, t: OverlayType)
    requires Inv(s) && PublishProceeds(s, t)
    ensures SurfacesAccounted(Publish(s, t))
  {
    PublishSteps(s, t);
    if s.SlotOf(t).font.Some? {
      SwapSurfaces(s, t);
    } else {
      OpenFontSurfaces(s, t);
      SwapSurfaces(OpenFont(s, t), t);
    }
  }

  /** A publish keeps the fonts accounted for: a font it opens is fresh and
      becomes the slot's own. */
  lemma PublishFonts(s: State, t: OverlayType)
    requires Inv(s) && PublishProceeds(s, t)
    ensures FontsAccounted(Publish(s, t))
  {
    var s1 := if s.SlotOf(t).font.Some? then s else OpenFont(s, t);
    if s.SlotOf(t).font.None? {
      OpenFontFrame(s, t);
      assert s.nextFont !in s.fontsOpened;
      match t
      case OverlayDebug =>
        assert s1.FontsHeld() == s.FontsHeld() + {s.nextFont};
      case OverlayStatusUpdate =>
        assert s1.FontsHeld() == s.FontsHeld() + {s.nextFont};
    }
    PublishSteps(s, t);
    RenderAndSwapFrame(s1, t);
    var r := Publish(s, t);
    assert r.FontsHeld() == s1.FontsHeld();
  }

  /** A publish keeps the invariant. */
  lemma PublishInv(s: State, t: OverlayType)
    requires Inv(s)
    ensures Inv(Publish(s, t))
  {
    if PublishProceeds(s, t) {
      PublishSurfaces(s, t);
      PublishFonts(s, t);
      var r := Publish(s, t);
      assert r.debug.text == s.debug.text && r.status.text == s.status.text;
    }
  }

  /** Editing a slot's flag, colour or text keeps the invariant, as long as
      its buffer stays full-size and terminated, its surface, font and size
      are left alone, and only the StatusUpdate slot is recoloured. */
  lemma SlotEditInv(s: State, t: OverlayType, slot: Slot)
    requires Inv(s)
    requires slot.surface == s.SlotOf(t).surface && slot.font == s.SlotOf(t).font
    requires slot.fontSize == s.SlotOf(t).fontSize
    requires t == OverlayDebug ==> slot.color == s.SlotOf(t).color
    requires |slot.text| == TextCapacity && slot.text[TextCapacity - 1] == NUL
    ensures Inv(s.WithSlot(t, slot))
  {
    var r := s.WithSlot(t, slot);
    assert r.Held() == s.Held() && r.FontsHeld() == s.FontsHeld() by {
      match t
      case OverlayDebug =>
      case OverlayStatusUpdate =>
    }
  }

  /** `updateOverlayText` keeps the invariant. */
  lemma UpdateOverlayTextInv(s: State, t: OverlayType, text: seq<char>)
    requires Inv(s)
    ensures Inv(UpdateOverlayText(s, t, text))
  {
    var slot := s.SlotOf(t);
    CopyTerminatedStoresPrefix(slot.text, text, TextCapacity);
    var s1 := s.WithSlot(t, slot.(text := CopyTerminated(slot.text, text, TextCapacity)));
    SlotEditInv(s, t, s1.SlotOf(t));
    PublishInv(s1, t);
  }

  /** `setOverlayState` keeps the invariant. */
  lemma SetOverlayStateInv(s: State, t: OverlayType, enabled: bool)
    requires Inv(s)
    ensures Inv(SetOverlayState(s, t, enabled))
  {
    var slot := s.SlotOf(t);
    if slot.enabled != enabled {
      var text := if enabled then slot.text else slot.text[0 := NUL];
      SlotEditInv(s, t, slot.(enabled := enabled, text := text));
      PublishInv(s.WithSlot(t, slot.(enabled := enabled, text := text)), t);
    }
  }

  /** `SetOverlayState` in the order the source takes its steps: write the
      flag, then, only on a change, clear a disabled slot's text and publish. */
  lemma SetOverlayStateSteps(s: State, t: OverlayType, enabled: bool)
    requires Buffered(s)
    ensures var s1 := s.WithSlot(t, s.SlotOf(t).(enabled := enabled));
      SetOverlayState(s, t, enabled) ==
        if s.SlotOf(t).enabled == enabled then s1
        else if enabled then Publish(s1, t)
        else Publish(s1.WithSlot(t, s1.SlotOf(t).(text := s1.SlotOf(t).text[0 := NUL])), t)
  {
    var s1 := s.WithSlot(t, s.SlotOf(t).(enabled := enabled));
    if s.SlotOf(t).enabled == enabled {
      assert s.SlotOf(t).(enabled := enabled) == s.SlotOf(t);
    } else {
      match t
      case OverlayDebug =>
      case OverlayStatusUpdate =>
    }
  }

  /** What `RenderAndSwap` changes: the surface of slot `t`, the surface
      counter, the rasters, the notifications and the freed set; nothing
      else. */
  lemma RenderAndSwapFrame(s: State, t: OverlayType)
    ensures var r := RenderAndSwap(s, t);
      var slot := s.SlotOf(t);
      && r.SlotOf(t) == slot.(surface := if slot.enabled then Some(s.nextSurface) else None)
      && (t == OverlayDebug ==> r.status == s.status)
      && (t == OverlayStatusUpdate ==> r.debug == s.debug)
      && r.nextSurface == (if slot.enabled then s.nextSurface + 1 else s.nextSurface)
      && r == s.WithSlot(t, r.SlotOf(t)).(nextSurface := r.nextSurface, surfaces := r.surfaces,
                                          notifications := r.notifications, freed := r.freed)
  {
  }

  /** A claim keeps the invariant: the claimed surface moves from the slot
      to the renderer. */
  lemma ClaimSurfaceInv(s: State, t: OverlayType)
    requires Inv(s)
    ensures Inv(ClaimSurface(s, t).0)
  {
    var r := ClaimSurface(s, t).0;
    assert t == OverlayDebug ==> r.status == s.status;
    assert t == OverlayStatusUpdate ==> r.debug == s.debug;
    SwapAccounted(s, r, t, None, true);
    assert r.FontsHeld() == s.FontsHeld() by {
      match t
      case OverlayDebug =>
      case OverlayStatusUpdate =>
    }
  }

  /** `setOverlayRenderer` keeps the invariant. */
  lemma SetOverlayRendererInv(s: State, attached: bool)
    requires Inv(s)
    ensures Inv(SetOverlayRenderer(s, attached))
  {
  }

  /** Changing the toast fields keeps the invariant as long as an active
      toast has the fixed display duration. */
  lemma ToastFieldsInv(s: State, start: Uint32, duration: Uint32, ty: ToastType,
                       category: ToastCategory, active: bool)
    requires Inv(s)
    requires active ==> duration == ToastDisplayMs
    ensures Inv(s.(toastStartTime := start, toastDuration := duration, toastType := ty,
                   toastCategory := category, toastActive := active))
  {
    var r := s.(toastStartTime := start, toastDuration := duration, toastType := ty,
                toastCategory := category, toastActive := active);
    assert r.Held() == s.Held() && r.FontsHeld() == s.FontsHeld();
  }

  /** Writing the toast into the StatusUpdate record keeps the invariant. */
  lemma ToastStaged(s: State, ty: ToastType, text: seq<char>)
    requires Inv(s)
    ensures Inv(s.(status := ToastSlot(s, ty, text)))
  {
    CopyTerminatedStoresPrefix(s.status.text, text, TextCapacity - 1);
    SlotEditInv(s, OverlayStatusUpdate, ToastSlot(s, ty, text));
  }

  /** `showToast` keeps the invariant. */
  lemma ShowToastInv(s: State, ty: ToastType, category: ToastCategory, text: seq<char>, now: Uint32)
    requires Inv(s)
    ensures Inv(ShowToast(s, ty, category, text, now))
  {
    if s.mouseModeActive {
      CopyTerminatedStoresPrefix(s.mouseModeText, text, TextCapacity - 1);
      var r := ShowToast(s, ty, category, text, now);
      assert r.Held() == s.Held() && r.FontsHeld() == s.FontsHeld();
    } else {
      CopyTerminatedStoresPrefix(s.status.text, text, TextCapacity - 1);
      var slot := ToastSlot(s, ty, text);
      SlotEditInv(s, OverlayStatusUpdate, slot);
      if s.toastActive && s.toastCategory == category {
        RefreshInv(s, ty, text, now);
      } else {
        SupersedeInv(s, ty, category, text, now);
      }
    }
  }

  lemma RefreshInv(s: State, ty: ToastType, text: seq<char>, now: Uint32)
    requires Inv(s) && s.toastActive && Inv(s.(status := ToastSlot(s, ty, text)))
    ensures Inv(Publish(s.(status := ToastSlot(s, ty, text), toastType := ty, toastStartTime := now), OverlayStatusUpdate))
  {
    var s1 := s.(status := ToastSlot(s, ty, text));
    ToastFieldsInv(s1, now, s.toastDuration, ty, s.toastCategory, true);
    assert s1.(toastStartTime := now, toastDuration := s.toastDuration, toastType := ty,
               toastCategory := s.toastCategory, toastActive := true)
        == s.(status := ToastSlot(s, ty, text), toastType := ty, toastStartTime := now);
    PublishInv(s.(status := ToastSlot(s, ty, text), toastType := ty, toastStartTime := now), OverlayStatusUpdate);
  }

  lemma SupersedeInv(s: State, ty: ToastType, category: ToastCategory, text: seq<char>, now: Uint32)
    requires Inv(s) && Inv(s.(status := ToastSlot(s, ty, text)))
    ensures Inv(Publish(s.(status := ToastSlot(s, ty, text), toastType := ty, toastCategory := category,
                           toastStartTime := now, toastDuration := ToastDisplayMs, toastActive := true),
                        OverlayStatusUpdate))
  {
    var s1 := s.(status := ToastSlot(s, ty, text));
    ToastFieldsInv(s1, now, ToastDisplayMs, ty, category, true);
    PublishInv(s.(status := ToastSlot(s, ty, text), toastType := ty, toastCategory := category,
                  toastStartTime := now, toastDuration := ToastDisplayMs, toastActive := true),
               OverlayStatusUpdate);
  }

  /** The expiry transition keeps the invariant. */
  lemma ExpireToastInv(s: State)
    requires Inv(s)
    ensures Inv(ExpireToast(s))
  {
    var s0 := s.(toastActive := false, toastCategory := CategoryNone);
    ToastFieldsInv(s, s.toastStartTime, s.toastDuration, s.toastType, CategoryNone, false);
    SetOverlayStateInv(s0, OverlayStatusUpdate, false);
    var s1 := SetOverlayState(s0, OverlayStatusUpdate, false);
    if s1.mouseModeActive && s1.mouseModeText[0] != NUL {
      CopyTerminatedStoresPrefix(s1.status.text, s1.mouseModeText, TextCapacity - 1);
      var slot := s1.status.(text := CopyTerminated(s1.status.text, s1.mouseModeText, TextCapacity - 1),
                             color := RevealRed, enabled := true);
      SlotEditInv(s1, OverlayStatusUpdate, slot);
      PublishInv(s1.(status := slot), OverlayStatusUpdate);
    }
  }

  /** `getToastOpacity` keeps the invariant. */
  lemma ToastTickInv(s: State, now: Uint32)
    requires Inv(s)
    ensures Inv(ToastTick(s, now).0)
  {
    if s.toastActive && Sub32(now, s.toastStartTime) >= s.toastDuration {
      ExpireToastInv(s);
    }
  }

  /** `setMouseModeOverlayActive` keeps the invariant. */
  lemma SetMouseModeOverlayActiveInv(s: State, active: bool)
    requires Inv(s)
    ensures Inv(SetMouseModeOverlayActive(s, active))
  {
    if !active {
      ClearFirstEmpties(s.mouseModeText);
      CLenAt(s.mouseModeText[0 := NUL], 0);
    }
  }
}
