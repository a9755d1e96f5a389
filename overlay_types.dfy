/** The vocabulary of the overlay manager: its overlay types, toast types and
    toast categories, colours, buffer capacity and the handles it passes
    around. */
module OverlayTypes {

  datatype Option<T> = None | Some(value: T)

  /** The set holding the value of `o`, if any. */
  function OptSet<T>(o: Option<T>): set<T>
  {
    if o.Some? then {o.value} else {}
  }

  /** The number of overlay slots (`OverlayMax`, the enumeration's last value). */
  const OverlayMax: nat := 2

  /** Size of each slot's text buffer and of the mouse-mode pending buffer,
      in characters; the terminator takes one of them. */
  const TextCapacity: nat := 1024

  /** Independent overlay layers, each with its own slot. */
  datatype OverlayType = OverlayDebug | OverlayStatusUpdate {
    /** The value of the enumerator, used to index the slot array. */
    function Index(): (i: nat)
      ensures i < OverlayMax
    {
      match this
      case OverlayDebug => 0
      case OverlayStatusUpdate => 1
    }
  }

  /** The overlay type whose slot sits at index `i`. */
  function TypeAt(i: nat): (t: OverlayType)
    requires i < OverlayMax
    ensures t.Index() == i
  {
    if i == 0 then OverlayDebug else OverlayStatusUpdate
  }

  /** Two overlay types never share a slot. */
  lemma IndexInjective(t1: OverlayType, t2: OverlayType)
    ensures t1.Index() == t2.Index() ==> t1 == t2
  {
  }

  datatype ToastType = ToastInfo | ToastWarning | ToastError

  /** Coalescing keys for toasts; `CategoryNone` is what an expired toast
      leaves behind. */
  datatype ToastCategory = CategoryNone | CaptureKeys | GamepadMouse | ConnectionStatus

  type Byte = x: int | 0 <= x < 256

  /** An RGBA colour with 8-bit channels (`SDL_Color`). */
  datatype Color = Color(r: Byte, g: Byte, b: Byte, a: Byte)

  const White: Color := Color(0xFF, 0xFF, 0xFF, 0xFF)
  const Gold: Color := Color(0xFF, 0xD7, 0x00, 0xFF)
  const Red: Color := Color(0xFF, 0x45, 0x45, 0xFF)
  /** The colour of the mouse-mode banner revealed when a toast expires. */
  const RevealRed: Color := Color(0xCC, 0x00, 0x00, 0xFF)

  const DebugFontSize: int := 20
  const StatusUpdateFontSize: int := 28

  /** The fixed toast palette: white for information, gold for warnings and
      red for errors. */
  function ToastColor(t: ToastType): (c: Color)
    ensures c.r == 0xFF && c.a == 0xFF
    ensures c == White <==> t == ToastInfo
    ensures c == Gold <==> t == ToastWarning
    ensures c == Red <==> t == ToastError
  {
    match t
    case ToastWarning => Gold
    case ToastError => Red
    case ToastInfo => White
  }

  /** Handles of rasterised surfaces (`SDL_Surface*`) and of opened fonts
      (`TTF_Font*`); the null pointer is `None`. */
  type SurfaceId = nat
  type FontId = nat
}
