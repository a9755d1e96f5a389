/** `Overlay::OverlayManager` as a class over its slot array and character
    buffers. A ghost `model` follows the fields; each method changes the
    fields so that they still match it and moves it exactly as the matching
    function of `OverlayModel` says, keeping the invariant `OverlayModel.Inv`.
    The lemmas in `OverlayProperties` and `OverlayBehaviour` then say what
    that means for callers. */
module Overlay {
  import opened CStrings
  import opened OverlayTypes
  import opened ToastTiming
  import opened OverlayModel
  import opened OverlayProperties

  /** One record of `m_Overlays`: flag, style, text buffer, lazily opened
      font and the published surface. */
  class OverlaySlot {
    var enabled: bool
    var fontSize: int
    var color: Color
    const text: array<char>
    var font: Option<FontId>
    var surface: Option<SurfaceId>

    /** A zeroed record with its font size and colour filled in. */
    constructor (fontSize: int, color: Color)
      ensures !enabled && this.fontSize == fontSize && this.color == color
      ensures font.None? && surface.None?
      ensures fresh(text) && text[..] == seq(TextCapacity, _ => NUL)
    {
      enabled := false;
      this.fontSize := fontSize;
      this.color := color;
      text := new char[TextCapacity](_ => NUL);
      font := None;
      surface := None;
    }

    ghost function View(): Slot
      reads this, text
    {
      Slot(enabled, fontSize, color, text[..], font, surface)
    }
  }

  class OverlayManager {
    const overlays: array<OverlaySlot>
    /** Whether a renderer is set (`m_Renderer != nullptr`). */
    var rendererAttached: bool
    /** Whether the font file was read (`!m_FontData.isEmpty()`). */
    const fontDataLoaded: bool
    /** Whether the rasteriser library can open a font from that data. */
    const fontParses: bool

    var toastStartTime: Uint32
    var toastDuration: Uint32
    var toastType: ToastType
    var toastCategory: ToastCategory
    var toastActive: bool

    var mouseModeActive: bool
    const mouseModeText: array<char>

    /** The next handles the rasteriser and the font loader hand out. */
    var nextSurface: SurfaceId
    var nextFont: FontId

    /** The manager as a value, with its record of notifications, surfaces
        and fonts. */
    ghost var model: State

    /** The slot array has one distinct record per overlay type, and no two
        buffers are the same array. */
    ghost predicate Structured()
      reads this, overlays
    {
      overlays.Length == OverlayMax &&
      overlays[0] != overlays[1] &&
      overlays[0].text != overlays[1].text &&
      mouseModeText != overlays[0].text && mouseModeText != overlays[1].text
    }

    /** Every field agrees with `model`. */
    ghost predicate Coupled()
      reads this, overlays, overlays[0], overlays[1], overlays[0].text, overlays[1].text, mouseModeText
      requires Structured()
    {
      model.debug == overlays[0].View() && model.status == overlays[1].View() &&
      model.rendererAttached == rendererAttached &&
      model.fontDataLoaded == fontDataLoaded && model.fontParses == fontParses &&
      model.toastStartTime == toastStartTime && model.toastDuration == toastDuration &&
      model.toastType == toastType && model.toastCategory == toastCategory &&
      model.toastActive == toastActive &&
      model.mouseModeActive == mouseModeActive && model.mouseModeText == mouseModeText[..] &&
      model.nextSurface == nextSurface && model.nextFont == nextFont
    }

    ghost predicate Valid()
      reads this, overlays, overlays[..], set i | 0 <= i < overlays.Length :: overlays[i].text, mouseModeText
    {
      Structured() && Coupled() && Inv(model)
    }

    /** The record of type `t` sits at its enumerator's index. */
    lemma SlotAt(t: OverlayType)
      requires Structured() && Coupled()
      ensures model.SlotOf(t) == overlays[t.Index()].View()
    {
    }

    constructor (fontDataLoaded: bool, fontParses: bool)
      ensures Valid()
      ensures Initial(model, fontDataLoaded, fontParses)
    {
      var debug := new OverlaySlot(DebugFontSize, White);
      var status := new OverlaySlot(StatusUpdateFontSize, White);
      overlays := new OverlaySlot[OverlayMax](i => if i == 0 then debug else status);
      mouseModeText := new char[TextCapacity];
      rendererAttached := false;
      this.fontDataLoaded := fontDataLoaded;
      this.fontParses := fontParses;
      toastStartTime := 0;
      toastDuration := 0;
      toastType := ToastInfo;
      toastCategory := CategoryNone;
      toastActive := false;
      mouseModeActive := false;
      nextSurface := 0;
      nextFont := 0;
      new;
      mouseModeText[0] := NUL;
      model := State(debug.View(), status.View(), false, fontDataLoaded, fontParses,
                     0, 0, ToastInfo, CategoryNone, false, false, mouseModeText[..], 0, 0,
                     [], map[], {}, {}, {}, {});
      InitialInv(model, fontDataLoaded, fontParses);
    }

    // -------------------------------------------------------------------
    // Accessors

    method IsOverlayEnabled(t: OverlayType) returns (enabled: bool)
      requires Valid()
      ensures enabled == model.SlotOf(t).enabled
    {
      SlotAt(t);
      enabled := overlays[t.Index()].enabled;
    }

    /** The text of slot `t`, as a C string reader sees it: never longer than
        the buffer minus its terminator. */
    method GetOverlayText(t: OverlayType) returns (text: seq<char>)
      requires Valid()
      ensures text == CStr(model.SlotOf(t).text)
      ensures |text| < TextCapacity
    {
      SlotAt(t);
      var buffer := overlays[t.Index()].text[..];
      text := buffer[..CLen(buffer)];
    }

    method GetOverlayMaxTextLength() returns (n: nat)
      ensures n == TextCapacity
    {
      n := TextCapacity;
    }

    /** Font sizes are those the constructor set: 20 for Debug, 28 for
        StatusUpdate. */
    method GetOverlayFontSize(t: OverlayType) returns (size: int)
      requires Valid()
      ensures size == if t == OverlayDebug then DebugFontSize else StatusUpdateFontSize
    {
      SlotAt(t);
      size := overlays[t.Index()].fontSize;
    }

    /** The colour of slot `t`; the Debug slot is always white. */
    method GetOverlayColor(t: OverlayType) returns (color: Color)
      requires Valid()
      ensures color == model.SlotOf(t).color
      ensures t == OverlayDebug ==> color == White
    {
      SlotAt(t);
      color := overlays[t.Index()].color;
    }

    method SetOverlayRenderer(attached: bool)
      requires Valid()
      modifies this
      ensures Valid()
      ensures model == OverlayModel.SetOverlayRenderer(old(model), attached)
    {
      SetOverlayRendererInv(model, attached);
      rendererAttached := attached;
      model := OverlayModel.SetOverlayRenderer(model, attached);
    }

    // -------------------------------------------------------------------
    // Publish and claim

    /** The font loader opens the font data at the size of slot `t`. */
    method OpenFont(t: OverlayType)
      requires Structured() && Coupled()
      modifies this, overlays[t.Index()]
      ensures Structured() && Coupled()
      ensures model == OverlayModel.OpenFont(old(model), t)
    {
      SlotAt(t);
      overlays[t.Index()].font := Some(nextFont);
      nextFont := nextFont + 1;
      model := OverlayModel.OpenFont(model, t);
    }

    /** Rasterise slot `t` into a new surface (none when the slot is
        disabled), swap it in, notify the renderer and free the surface it
        replaced. */
    method RenderAndSwap(t: OverlayType)
      requires Structured() && Coupled()
      modifies this, overlays[t.Index()]
      ensures Structured() && Coupled()
      ensures model == OverlayModel.RenderAndSwap(old(model), t)
    {
      SlotAt(t);
      RenderAndSwapFrame(model, t);
      if overlays[t.Index()].enabled {
        InstallSurface(t);
      } else {
        RemoveSurface(t);
      }
    }

    /** The enabled case: the rasteriser hands out the next surface. */
    method InstallSurface(t: OverlayType)
      requires Structured() && Coupled() && model.SlotOf(t).enabled
      modifies this, overlays[t.Index()]
      ensures Structured() && Coupled()
      ensures model == OverlayModel.RenderAndSwap(old(model), t)
    {
      SlotAt(t);
      RenderAndSwapFrame(model, t);
      overlays[t.Index()].surface := Some(nextSurface);
      nextSurface := nextSurface + 1;
      model := OverlayModel.RenderAndSwap(model, t);
    }

    /** The disabled case: no surface replaces the old one. */
    method RemoveSurface(t: OverlayType)
      requires Structured() && Coupled() && !model.SlotOf(t).enabled
      modifies this, overlays[t.Index()]
      ensures Structured() && Coupled()
      ensures model == OverlayModel.RenderAndSwap(old(model), t)
    {
      SlotAt(t);
      RenderAndSwapFrame(model, t);
      overlays[t.Index()].surface := None;
      model := OverlayModel.RenderAndSwap(model, t);
    }

    /** Open the font if needed, rasterise, swap the surface in, notify the
        renderer and free the surface replaced. */
    method NotifyOverlayUpdated(t: OverlayType)
      requires Valid()
      modifies this, overlays[t.Index()]
      ensures Valid()
      ensures model == Publish(old(model), t)
    {
      PublishInv(model, t);
      if !rendererAttached {
        return;
      }
      SlotAt(t);
      if overlays[t.Index()].font.None? {
        if !fontDataLoaded || !fontParses {
          return;
        }
        OpenFont(t);
      }
      RenderAndSwap(t);
    }

    /** Hand the published surface to the caller, leaving none behind. */
    method GetUpdatedOverlaySurface(t: OverlayType) returns (surface: Option<SurfaceId>)
      requires Valid()
      modifies this, overlays[t.Index()]
      ensures Valid()
      ensures (model, surface) == ClaimSurface(old(model), t)
    {
      SlotAt(t);
      ClaimSurfaceInv(model, t);
      var slot := overlays[t.Index()];
      surface := slot.surface;
      slot.surface := None;
      model := ClaimSurface(model, t).0;
    }

    // -------------------------------------------------------------------
    // Slot edits: each writes one field of record `t`, as the source does
    // inline.

    /** Bounded copy of `src` into the text buffer of slot `t` (at most `n`
        characters, NUL padded), then a terminator in the buffer's last
        cell. */
    method StoreText(t: OverlayType, src: seq<char>, n: nat)
      requires Valid()
      requires n <= TextCapacity
      modifies this, overlays[t.Index()].text
      ensures Valid()
      ensures model == old(model).WithSlot(t, old(model).SlotOf(t).(
                text := CopyTerminated(old(model).SlotOf(t).text, src, n)))
    {
      SlotAt(t);
      var buffer := overlays[t.Index()].text;
      ghost var s := model;
      CopyTerminatedInto(buffer, src, n);
      model := model.WithSlot(t, model.SlotOf(t).(text := CopyTerminated(model.SlotOf(t).text, src, n)));
      SlotEditInv(s, t, model.SlotOf(t));
    }

    /** Empty the text of slot `t` by writing a NUL at its start. */
    method ClearText(t: OverlayType)
      requires Valid()
      modifies this, overlays[t.Index()].text
      ensures Valid()
      ensures model == old(model).WithSlot(t, old(model).SlotOf(t).(text := old(model).SlotOf(t).text[0 := NUL]))
    {
      SlotAt(t);
      ghost var s := model;
      overlays[t.Index()].text[0] := NUL;
      model := model.WithSlot(t, model.SlotOf(t).(text := model.SlotOf(t).text[0 := NUL]));
      SlotEditInv(s, t, model.SlotOf(t));
    }

    method SetSlotEnabled(t: OverlayType, enabled: bool)
      requires Valid()
      modifies this, overlays[t.Index()]
      ensures Valid()
      ensures model == old(model).WithSlot(t, old(model).SlotOf(t).(enabled := enabled))
    {
      SlotAt(t);
      ghost var s := model;
      overlays[t.Index()].enabled := enabled;
      model := model.WithSlot(t, model.SlotOf(t).(enabled := enabled));
      SlotEditInv(s, t, model.SlotOf(t));
    }

    // -------------------------------------------------------------------
    // Slot state and text

    method SetOverlayTextUpdated(t: OverlayType)
      requires Valid()
      modifies this, overlays[t.Index()]
      ensures Valid()
      ensures model == TextUpdated(old(model), t)
    {
      SlotAt(t);
      if overlays[t.Index()].enabled {
        NotifyOverlayUpdated(t);
      }
    }

    method UpdateOverlayText(t: OverlayType, text: seq<char>)
      requires Valid()
      modifies this, overlays[t.Index()], overlays[t.Index()].text
      ensures Valid()
      ensures model == OverlayModel.UpdateOverlayText(old(model), t, text)
    {
      var capacity := GetOverlayMaxTextLength();
      StoreText(t, text, capacity);
      SetOverlayTextUpdated(t);
    }

    method SetOverlayState(t: OverlayType, enabled: bool)
      requires Valid()
      modifies this, overlays[t.Index()], overlays[t.Index()].text
      ensures Valid()
      ensures model == OverlayModel.SetOverlayState(old(model), t, enabled)
    {
      SetOverlayStateSteps(model, t, enabled);
      SlotAt(t);
      var stateChanged := overlays[t.Index()].enabled != enabled;
      SetSlotEnabled(t, enabled);
      if stateChanged {
        PublishStateChange(t, enabled);
      }
    }

    /** After a change of the flag: a disabled record loses its text (a NUL
        at its start), and the record is published. */
    method PublishStateChange(t: OverlayType, enabled: bool)
      requires Valid()
      modifies this, overlays[t.Index()], overlays[t.Index()].text
      ensures Valid()
      ensures model == Publish(if enabled then old(model)
                               else old(model).WithSlot(t, old(model).SlotOf(t).(text := old(model).SlotOf(t).text[0 := NUL])), t)
    {
      if !enabled {
        ClearText(t);
      }
      NotifyOverlayUpdated(t);
    }

    // -------------------------------------------------------------------
    // Toasts

    /** Bounded, terminated copy of `src` into the pending mouse-mode
        buffer. */
    method StorePending(src: seq<char>)
      requires Structured() && Coupled() && Buffered(model)
      modifies this, mouseModeText
      ensures Structured() && Coupled() && Buffered(model)
      ensures model == old(model).(mouseModeText := CopyTerminated(old(model).mouseModeText, src, TextCapacity - 1))
    {
      CopyTerminatedInto(mouseModeText, src, TextCapacity - 1);
      model := model.(mouseModeText := CopyTerminated(model.mouseModeText, src, TextCapacity - 1));
    }

    /** Write the toast's text, colour and visibility into the StatusUpdate
        record. */
    method StageToast(ty: ToastType, text: seq<char>)
      requires Structured() && Coupled() && Inv(model)
      modifies this, overlays[OverlayStatusUpdate.Index()], overlays[OverlayStatusUpdate.Index()].text
      ensures Structured() && Coupled()
      ensures model == old(model).(status := ToastSlot(old(model), ty, text))
    {
      var slot := overlays[OverlayStatusUpdate.Index()];
      CopyTerminatedInto(slot.text, text, TextCapacity - 1);
      slot.color := ToastColor(ty);
      slot.enabled := true;
      model := model.(status := ToastSlot(model, ty, text));
    }

    /** Set the toast's bookkeeping fields. */
    method SetToastFields(start: Uint32, duration: Uint32, ty: ToastType, category: ToastCategory, active: bool)
      requires Structured() && Coupled()
      modifies this
      ensures Structured() && Coupled()
      ensures model == old(model).(toastStartTime := start, toastDuration := duration, toastType := ty,
                                   toastCategory := category, toastActive := active)
    {
      toastStartTime := start;
      toastDuration := duration;
      toastType := ty;
      toastCategory := category;
      toastActive := active;
      model := model.(toastStartTime := start, toastDuration := duration, toastType := ty,
                      toastCategory := category, toastActive := active);
    }

    /** Show a toast: stage its text and fields, then publish. The caller
        passes the fields the toast is to have; a refresh keeps the category
        and duration of the toast it replaces. */
    method PostToast(ty: ToastType, category: ToastCategory, duration: Uint32, text: seq<char>, now: Uint32)
      requires Valid() && duration == ToastDisplayMs
      modifies this, overlays[OverlayStatusUpdate.Index()], overlays[OverlayStatusUpdate.Index()].text
      ensures Valid()
      ensures model == Publish(old(model).(status := ToastSlot(old(model), ty, text), toastStartTime := now,
                                           toastDuration := duration, toastType := ty,
                                           toastCategory := category, toastActive := true),
                               OverlayStatusUpdate)
    {
      ghost var s := model;
      ToastStaged(s, ty, text);
      ToastFieldsInv(s.(status := ToastSlot(s, ty, text)), now, duration, ty, category, true);
      StageToast(ty, text);
      SetToastFields(now, duration, ty, category, true);
      NotifyOverlayUpdated(OverlayStatusUpdate);
    }

    method ShowToast(ty: ToastType, category: ToastCategory, text: seq<char>, now: Uint32)
      requires Valid()
      modifies this, overlays[OverlayStatusUpdate.Index()], overlays[OverlayStatusUpdate.Index()].text
      modifies mouseModeText
      ensures Valid()
      ensures model == OverlayModel.ShowToast(old(model), ty, category, text, now)
    {
      ShowToastInv(model, ty, category, text, now);
      if mouseModeActive {
        StorePending(text);
      } else if toastActive && toastCategory == category {
        PostToast(ty, toastCategory, toastDuration, text, now);
      } else {
        PostToast(ty, category, ToastDisplayMs, text, now);
      }
    }

    /** End the toast and hide its record; then, if mouse mode holds a
        pending message, show it in the record instead. */
    method ExpireToast()
      requires Valid()
      modifies this, overlays[OverlayStatusUpdate.Index()], overlays[OverlayStatusUpdate.Index()].text
      ensures Valid()
      ensures model == OverlayModel.ExpireToast(old(model))
    {
      ghost var s := model;
      ExpireToastInv(s);
      ToastFieldsInv(s, s.toastStartTime, s.toastDuration, s.toastType, CategoryNone, false);
      SetToastFields(toastStartTime, toastDuration, toastType, CategoryNone, false);
      SetOverlayState(OverlayStatusUpdate, false);
      if mouseModeActive && mouseModeText[0] != NUL {
        RevealPending();
      }
    }

    /** Copy the pending mouse-mode text into the StatusUpdate record in
        the reveal colour, enable it and publish. */
    method RevealPending()
      requires Valid()
      modifies this, overlays[OverlayStatusUpdate.Index()], overlays[OverlayStatusUpdate.Index()].text
      ensures Valid()
      ensures model == Publish(old(model).(status := old(model).status.(
                text := CopyTerminated(old(model).status.text, old(model).mouseModeText, TextCapacity - 1),
                color := RevealRed, enabled := true)), OverlayStatusUpdate)
    {
      ghost var s := model;
      var slot := overlays[OverlayStatusUpdate.Index()];
      CopyTerminatedInto(slot.text, mouseModeText[..], TextCapacity - 1);
      slot.color := RevealRed;
      slot.enabled := true;
      model := model.(status := model.status.(text := CopyTerminated(model.status.text, model.mouseModeText, TextCapacity - 1),
                                              color := RevealRed, enabled := true));
      SlotEditInv(s, OverlayStatusUpdate, model.status);
      NotifyOverlayUpdated(OverlayStatusUpdate);
    }

    /** Poll the toast at clock reading `now`; expire it once its window has
        ended. */
    method GetToastOpacity(now: Uint32) returns (opacity: real)
      requires Valid()
      modifies this, overlays[OverlayStatusUpdate.Index()], overlays[OverlayStatusUpdate.Index()].text
      ensures Valid()
      ensures (model, opacity) == ToastTick(old(model), now)
    {
      if !toastActive {
        return 1.0;
      }
      var elapsed := Sub32(now, toastStartTime);
      if elapsed >= toastDuration {
        ExpireToast();
        return 0.0;
      }
      opacity := Opacity(elapsed, toastDuration);
    }

    method GetToastColor() returns (color: Color)
      requires Valid()
      ensures color == ToastColor(model.toastType)
    {
      color := ToastColor(toastType);
    }

    method GetToastType() returns (ty: ToastType)
      requires Valid()
      ensures ty == model.toastType
    {
      ty := toastType;
    }

    // -------------------------------------------------------------------
    // Mouse mode

    method SetMouseModeOverlayActive(active: bool)
      requires Valid()
      modifies this, mouseModeText
      ensures Valid()
      ensures model == OverlayModel.SetMouseModeOverlayActive(old(model), active)
    {
      SetMouseModeOverlayActiveInv(model, active);
      mouseModeActive := active;
      if !active {
        mouseModeText[0] := NUL;
      }
      model := OverlayModel.SetMouseModeOverlayActive(model, active);
    }

    method IsMouseModeOverlayActive() returns (active: bool)
      requires Valid()
      ensures active == model.mouseModeActive
    {
      active := mouseModeActive;
    }

    // -------------------------------------------------------------------
    // Teardown

    /** The destructor: free every record's surface and close its font. */
    method Destroy()
      requires Valid()
      modifies this
      ensures model == Teardown(old(model))
    {
      ghost var s := model;
      ghost var released := s;
      for i := 0 to OverlayMax
        modifies {}
        invariant released == s.(freed := s.freed + HeldBelow(s, i), fontsClosed := s.fontsClosed + FontsBelow(s, i))
      {
        SlotAt(TypeAt(i));
        var slot := overlays[i];
        // Free the record's surface and close its font, where it has them.
        released := released.(freed := released.freed + OptSet(slot.surface),
                              fontsClosed := released.fontsClosed + OptSet(slot.font));
      }
      model := released;
    }
  }
}
