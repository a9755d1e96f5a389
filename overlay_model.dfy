/** The overlay manager as a value: its whole state, one function per
    operation giving the state after it, and the ownership invariant on
    rasterised surfaces and fonts. The class in module `Overlay` is proved to
    change its fields exactly as these functions say. */
module OverlayModel {
  import opened CStrings
  import opened OverlayTypes
  import opened ToastTiming

  /** One record of `m_Overlays`. `text` is the whole character buffer. */
  datatype Slot = Slot(
    enabled: bool,
    fontSize: int,
    color: Color,
    text: seq<char>,
    font: Option<FontId>,
    surface: Option<SurfaceId>)

  /** What a rasterised surface shows: the C string of the slot's text in
      the slot's colour and font size (wrapped at 1024 pixels). */
  datatype Raster = Raster(text: seq<char>, color: Color, fontSize: int)

  /** Everything the overlay manager holds, plus a record of its dealings
      with the outside world: the notifications the renderer received, every
      surface the rasteriser produced and what it shows, which surfaces were
      handed to the renderer by a claim, which the manager freed, and which
      fonts it opened and closed. */
  datatype State = State(
    debug: Slot,
    status: Slot,
    rendererAttached: bool,
    fontDataLoaded: bool,
    fontParses: bool,
    toastStartTime: Uint32,
    toastDuration: Uint32,
    toastType: ToastType,
    toastCategory: ToastCategory,
    toastActive: bool,
    mouseModeActive: bool,
    mouseModeText: seq<char>,
    nextSurface: SurfaceId,
    nextFont: FontId,
    notifications: seq<OverlayType>,
    surfaces: map<SurfaceId, Raster>,
    claimed: set<SurfaceId>,
    freed: set<SurfaceId>,
    fontsOpened: set<FontId>,
    fontsClosed: set<FontId>)
  {
    function SlotOf(t: OverlayType): Slot
    {
      match t
      case OverlayDebug => debug
      case OverlayStatusUpdate => status
    }

    function WithSlot(t: OverlayType, slot: Slot): (r: State)
      ensures r.SlotOf(t) == slot
      ensures slot == SlotOf(t) ==> r == this
    {
      match t
      case OverlayDebug => this.(debug := slot)
      case OverlayStatusUpdate => this.(status := slot)
    }

    /** The surfaces currently published in a slot and not yet claimed. */
    function Held(): set<SurfaceId>
    {
      OptSet(debug.surface) + OptSet(status.surface)
    }

    /** The fonts the slots currently own. */
    function FontsHeld(): set<FontId>
    {
      OptSet(debug.font) + OptSet(status.font)
    }
  }

  /** Every buffer has its declared capacity. */
  predicate Buffered(s: State)
  {
    |s.debug.text| == TextCapacity &&
    |s.status.text| == TextCapacity &&
    |s.mouseModeText| == TextCapacity
  }

  /** The state the constructor leaves: both slots zeroed except for their
      white colour and font size, no renderer, no toast, mouse mode off with
      an empty pending text (only its first character is written), and no
      surface or font produced yet. */
  predicate Initial(s: State, fontDataLoaded: bool, fontParses: bool)
    ensures Initial(s, fontDataLoaded, fontParses) ==>
              s.Held() == {} && s.FontsHeld() == {} &&
              CLen(s.debug.text) == 0 && CLen(s.status.text) == 0 && CLen(s.mouseModeText) == 0
  {
    s.debug == Slot(false, DebugFontSize, White, seq(TextCapacity, _ => NUL), None, None) &&
    s.status == Slot(false, StatusUpdateFontSize, White, seq(TextCapacity, _ => NUL), None, None) &&
    !s.rendererAttached &&
    s.fontDataLoaded == fontDataLoaded && s.fontParses == fontParses &&
    s.toastStartTime == 0 && s.toastDuration == 0 &&
    s.toastType == ToastInfo && s.toastCategory == CategoryNone && !s.toastActive &&
    !s.mouseModeActive && |s.mouseModeText| == TextCapacity && s.mouseModeText[0] == NUL &&
    s.notifications == [] && s.surfaces == map[] && s.claimed == {} && s.freed == {} &&
    s.fontsOpened == {} && s.fontsClosed == {}
  }

  /** Every surface the rasteriser produced is in exactly one place: published
      in one slot, handed to the renderer, or freed by the manager; and the
      handle supply is ahead of every handle produced. */
  ghost predicate SurfacesAccounted(s: State)
  {
    (s.debug.surface.Some? && s.status.surface.Some? ==> s.debug.surface != s.status.surface) &&
    s.surfaces.Keys == s.Held() + s.claimed + s.freed &&
    s.Held() !! s.claimed && s.Held() !! s.freed && s.claimed !! s.freed &&
    forall id :: id in s.surfaces ==> id < s.nextSurface
  }

  /** Each slot owns its own font, none is closed while the manager lives,
      and the handle supply is ahead of every font opened. */
  ghost predicate FontsAccounted(s: State)
  {
    (s.debug.font.Some? && s.status.font.Some? ==> s.debug.font != s.status.font) &&
    s.fontsOpened == s.FontsHeld() && s.fontsClosed == {} &&
    forall f :: f in s.fontsOpened ==> f < s.nextFont
  }

  /** The invariant of a live overlay manager. Font sizes keep their
      constructor values, and only toasts recolour a slot, the StatusUpdate
      one. */
  ghost predicate Inv(s: State)
  {
    Buffered(s) &&
    s.debug.fontSize == DebugFontSize && s.status.fontSize == StatusUpdateFontSize &&
    s.debug.color == White &&
    s.debug.text[TextCapacity - 1] == NUL && s.status.text[TextCapacity - 1] == NUL &&
    Terminated(s.mouseModeText) &&
    SurfacesAccounted(s) && FontsAccounted(s) &&
    (s.toastActive ==> s.toastDuration == ToastDisplayMs)
  }

  /** A publish gets past its early returns: a renderer is attached and the
      slot has a font or one can be opened from the font data. */
  predicate PublishProceeds(s: State, t: OverlayType)
  {
    s.rendererAttached && (s.SlotOf(t).font.Some? || (s.fontDataLoaded && s.fontParses))
  }

  /** The font loader opens the font data at the size of slot `t`, giving
      the slot a fresh font handle. */
  function OpenFont(s: State, t: OverlayType): (r: State)
    ensures r.SlotOf(t).font.Some? && r.fontsOpened == s.fontsOpened + {r.SlotOf(t).font.value}
    ensures (forall f :: f in s.fontsOpened ==> f < s.nextFont) ==>
              r.SlotOf(t).font.value !in s.fontsOpened && forall f :: f in r.fontsOpened ==> f < r.nextFont
  {
    s.WithSlot(t, s.SlotOf(t).(font := Some(s.nextFont))).(
      nextFont := s.nextFont + 1, fontsOpened := s.fontsOpened + {s.nextFont})
  }

  /** Rasterise slot `t` into a fresh surface showing its C string (none when
      the slot is disabled), swap it in, notify the renderer and free the
      surface it replaced. */
  function RenderAndSwap(s: State, t: OverlayType): (r: State)
    ensures r.notifications == s.notifications + [t]
    ensures r.SlotOf(t).surface.Some? <==> s.SlotOf(t).enabled
    ensures r.SlotOf(t).surface.Some? ==>
              r.SlotOf(t).surface.value in r.surfaces &&
              r.surfaces[r.SlotOf(t).surface.value] ==
                Raster(CStr(s.SlotOf(t).text), s.SlotOf(t).color, s.SlotOf(t).fontSize)
    ensures (forall id :: id in s.surfaces ==> id < s.nextSurface) ==>
              (r.SlotOf(t).surface.Some? ==> r.SlotOf(t).surface.value !in s.surfaces) &&
              forall id :: id in r.surfaces ==> id < r.nextSurface
  {
    var slot := s.SlotOf(t);
    var raster := Raster(CStr(slot.text), slot.color, slot.fontSize);
    s.WithSlot(t, slot.(surface := if slot.enabled then Some(s.nextSurface) else None)).(
      nextSurface := if slot.enabled then s.nextSurface + 1 else s.nextSurface,
      surfaces := if slot.enabled then s.surfaces[s.nextSurface := raster] else s.surfaces,
      notifications := s.notifications + [t],
      freed := s.freed + OptSet(slot.surface))
  }

  /** `notifyOverlayUpdated`: open the slot's font if it has none yet,
      rasterise the slot's text when it is enabled (no surface when it is
      not), swap the result into the slot, notify the renderer, and free the
      surface that was replaced. Without a renderer, or when no font can be
      opened, nothing happens, and a later publish tries the font again. */
  function Publish(s: State, t: OverlayType): (r: State)
    requires Buffered(s)
    ensures Buffered(r)
    ensures r.mouseModeText == s.mouseModeText
  {
    if !s.rendererAttached then s
    else if s.SlotOf(t).font.Some? then RenderAndSwap(s, t)
    else if !s.fontDataLoaded || !s.fontParses then s
    else RenderAndSwap(OpenFont(s, t), t)
  }

  /** `setOverlayTextUpdated`: publish only an enabled slot. */
  function TextUpdated(s: State, t: OverlayType): (r: State)
    requires Buffered(s)
    ensures Buffered(r)
  {
    if s.SlotOf(t).enabled then Publish(s, t) else s
  }

  /** `updateOverlayText`: bounded, terminated copy into the slot's buffer,
      then `setOverlayTextUpdated`. */
  function UpdateOverlayText(s: State, t: OverlayType, text: seq<char>): (r: State)
    requires Buffered(s)
    ensures Buffered(r)
  {
    var slot := s.SlotOf(t);
    TextUpdated(s.WithSlot(t, slot.(text := CopyTerminated(slot.text, text, TextCapacity))), t)
  }

  /** `setOverlayState`: when the flag changes, store it, empty the text on
      disable, and publish. */
  function SetOverlayState(s: State, t: OverlayType, enabled: bool): (r: State)
    requires Buffered(s)
    ensures Buffered(r)
    ensures r.mouseModeText == s.mouseModeText
  {
    var slot := s.SlotOf(t);
    if slot.enabled == enabled then s
    else
      var text := if enabled then slot.text else slot.text[0 := NUL];
      Publish(s.WithSlot(t, slot.(enabled := enabled, text := text)), t)
  }

  /** `getUpdatedOverlaySurface`: exchange the slot's surface for none and
      return it; ownership of a returned surface passes to the renderer. */
  function ClaimSurface(s: State, t: OverlayType): (r: (State, Option<SurfaceId>))
    ensures r.1 == s.SlotOf(t).surface && r.0.SlotOf(t).surface.None?
    ensures r.0.claimed == s.claimed + OptSet(r.1) && r.0.surfaces == s.surfaces
    ensures r.1.Some? ==> r.1.value in s.Held()
    ensures forall u :: u != t ==> r.0.SlotOf(u) == s.SlotOf(u)
  {
    var slot := s.SlotOf(t);
    (s.WithSlot(t, slot.(surface := None)).(claimed := s.claimed + OptSet(slot.surface)), slot.surface)
  }

  /** `setOverlayRenderer`, with the renderer reduced to whether one is set. */
  function SetOverlayRenderer(s: State, attached: bool): (r: State)
    ensures r.rendererAttached == attached
    ensures Inv(r) <==> Inv(s)
  {
    s.(rendererAttached := attached)
  }

  /** The StatusUpdate record `showToast` writes before publishing: the
      truncated text, the colour of the toast type, enabled. */
  function ToastSlot(s: State, ty: ToastType, text: seq<char>): Slot
    requires Buffered(s)
  {
    s.status.(text := CopyTerminated(s.status.text, text, TextCapacity - 1),
              color := ToastColor(ty), enabled := true)
  }

  /** `showToast` at clock reading `now`: captured into the pending buffer
      while mouse mode is on; otherwise refreshes an active toast of the same
      category (keeping its category and duration) or starts a new one, and
      publishes the StatusUpdate slot. */
  function ShowToast(s: State, ty: ToastType, category: ToastCategory, text: seq<char>, now: Uint32): (r: State)
    requires Buffered(s)
    ensures Buffered(r)
  {
    if s.mouseModeActive then
      s.(mouseModeText := CopyTerminated(s.mouseModeText, text, TextCapacity - 1))
    else
      var slot := ToastSlot(s, ty, text);
      if s.toastActive && s.toastCategory == category then
        Publish(s.(status := slot, toastType := ty, toastStartTime := now), OverlayStatusUpdate)
      else
        Publish(s.(status := slot, toastType := ty, toastCategory := category, toastStartTime := now,
                   toastDuration := ToastDisplayMs, toastActive := true), OverlayStatusUpdate)
  }

  /** The expiry transition inside `getToastOpacity`: deactivate the toast,
      reset its category, disable the StatusUpdate slot, and reveal the
      pending mouse-mode text if mouse mode is on and the text is not empty.
      The pending buffer keeps its contents. */
  function ExpireToast(s: State): (r: State)
    requires Buffered(s)
    ensures Buffered(r)
  {
    var s1 := SetOverlayState(s.(toastActive := false, toastCategory := CategoryNone), OverlayStatusUpdate, false);
    if s1.mouseModeActive && s1.mouseModeText[0] != NUL then
      var slot := s1.status.(text := CopyTerminated(s1.status.text, s1.mouseModeText, TextCapacity - 1),
                             color := RevealRed, enabled := true);
      Publish(s1.(status := slot), OverlayStatusUpdate)
    else
      s1
  }

  /** `getToastOpacity` at clock reading `now`: the state afterwards and the
      opacity returned, always between 0 and 1. */
  function ToastTick(s: State, now: Uint32): (r: (State, real))
    requires Buffered(s)
    ensures Buffered(r.0)
    ensures 0.0 <= r.1 <= 1.0
  {
    if !s.toastActive then (s, 1.0)
    else
      var elapsed := Sub32(now, s.toastStartTime);
      if elapsed >= s.toastDuration then (ExpireToast(s), 0.0)
      else (s, Opacity(elapsed, s.toastDuration))
  }

  /** `setMouseModeOverlayActive`: set the flag; turning it off empties the
      pending text. */
  function SetMouseModeOverlayActive(s: State, active: bool): (r: State)
    requires Buffered(s)
    ensures Buffered(r)
  {
    s.(mouseModeActive := active,
       mouseModeText := if active then s.mouseModeText else s.mouseModeText[0 := NUL])
  }

  /** The surfaces published in the slots of index below `n`. */
  function HeldBelow(s: State, n: nat): (held: set<SurfaceId>)
    requires n <= OverlayMax
    ensures held == (if 0 < n then OptSet(s.debug.surface) else {}) + (if 1 < n then OptSet(s.status.surface) else {})
    ensures n == OverlayMax ==> held == s.Held()
  {
    if n == 0 then {} else HeldBelow(s, n - 1) + OptSet(s.SlotOf(TypeAt(n - 1)).surface)
  }

  /** The fonts owned by the slots of index below `n`. */
  function FontsBelow(s: State, n: nat): (fonts: set<FontId>)
    requires n <= OverlayMax
    ensures fonts == (if 0 < n then OptSet(s.debug.font) else {}) + (if 1 < n then OptSet(s.status.font) else {})
    ensures n == OverlayMax ==> fonts == s.FontsHeld()
  {
    if n == 0 then {} else FontsBelow(s, n - 1) + OptSet(s.SlotOf(TypeAt(n - 1)).font)
  }

  /** The destructor: free every surface still published and close every
      font the slots own. */
  function Teardown(s: State): (r: State)
    ensures r.surfaces == s.surfaces && r.fontsOpened == s.fontsOpened
    ensures s.surfaces.Keys == s.Held() + s.claimed + s.freed ==> r.surfaces.Keys == r.claimed + r.freed
    ensures s.fontsOpened == s.FontsHeld() ==> r.fontsOpened <= r.fontsClosed
  {
    s.(freed := s.freed + s.Held(), fontsClosed := s.fontsClosed + s.FontsHeld())
  }
}
