/** Toast timing: the 32-bit millisecond clock arithmetic and the fade-in,
    steady and fade-out opacity curve that the renderer polls every frame. */
module ToastTiming {

  const Modulus: int := 0x1_0000_0000

  /** `Uint32`: the tick counter, the toast start time and duration. */
  type Uint32 = x: int | 0 <= x < 0x1_0000_0000

  const ToastFadeInMs: Uint32 := 250
  const ToastFadeOutMs: Uint32 := 500
  const ToastDisplayMs: Uint32 := 2500

  /** Unsigned 32-bit addition, wrapping around. */
  function Add32(a: Uint32, b: Uint32): (r: Uint32)
    ensures r == if a + b < Modulus then a + b else a + b - Modulus
  {
    (a + b) % Modulus
  }

  /** Unsigned 32-bit subtraction `a - b`, wrapping around. */
  function Sub32(a: Uint32, b: Uint32): (r: Uint32)
    ensures r == if b <= a then a - b else a - b + Modulus
  {
    (a - b) % Modulus
  }

  /** Subtraction undoes addition on the wrapping clock: a toast started at
      `start` has been shown for `d` milliseconds when the clock reads
      `start + d`, even across the wrap of the tick counter. */
  lemma ElapsedAfter(start: Uint32, d: Uint32)
    ensures Sub32(Add32(start, d), start) == d
    ensures Add32(start, Sub32(Add32(start, d), start)) == Add32(start, d)
  {
  }

  /** Opacity of an active toast `elapsed` milliseconds into a display window
      of `duration` milliseconds: zero once expired, a linear fade-in over the
      first 250 ms, a linear fade-out over the last 500 ms (clamped at zero)
      and full opacity in between. The fade-out threshold `duration - 500` is
      computed on `Uint32`, as in the source. */
  function Opacity(elapsed: Uint32, duration: Uint32): (o: real)
    ensures 0.0 <= o <= 1.0
    ensures elapsed >= duration ==> o == 0.0
    ensures elapsed < duration && elapsed < ToastFadeInMs ==> o == elapsed as real / ToastFadeInMs as real
    ensures ToastFadeInMs <= elapsed && elapsed + ToastFadeOutMs <= duration ==> o == 1.0
    ensures ToastFadeOutMs <= duration && ToastFadeInMs <= elapsed < duration < elapsed + ToastFadeOutMs ==>
              o == (duration - elapsed) as real / ToastFadeOutMs as real
  {
    if elapsed >= duration then 0.0
    else if elapsed < ToastFadeInMs then elapsed as real / ToastFadeInMs as real
    else if elapsed > Sub32(duration, ToastFadeOutMs) then
      var fadeElapsed := Sub32(elapsed, Sub32(duration, ToastFadeOutMs));
      var opacity := 1.0 - fadeElapsed as real / ToastFadeOutMs as real;
      if opacity > 0.0 then opacity else 0.0
    else 1.0
  }

  /** During the fade-in the opacity never decreases. */
  lemma FadeInRises(e1: Uint32, e2: Uint32, duration: Uint32)
    requires e1 <= e2 < ToastFadeInMs && e2 < duration
    ensures Opacity(e1, duration) <= Opacity(e2, duration)
  {
  }

  /** During the fade-out the opacity never increases. */
  lemma FadeOutFalls(e1: Uint32, e2: Uint32, duration: Uint32)
    requires ToastFadeOutMs <= duration
    requires ToastFadeInMs <= e1 && duration - ToastFadeOutMs < e1 <= e2
    ensures Opacity(e1, duration) >= Opacity(e2, duration)
  {
  }

  /** For any display window of at least 500 ms the clamp at zero never
      applies: a toast is visible at every instant strictly between its start
      and its expiry. */
  lemma VisibleUntilExpiry(elapsed: Uint32, duration: Uint32)
    requires ToastFadeOutMs <= duration
    requires 0 < elapsed < duration
    ensures 0.0 < Opacity(elapsed, duration)
  {
  }

  /** The curve of the fixed 2500 ms toast at a few instants. At 2300 ms the
      fade-out has run for 300 of its 500 ms, leaving 0.4. */
  lemma DisplayCurve()
    ensures Opacity(0, ToastDisplayMs) == 0.0
    ensures Opacity(125, ToastDisplayMs) == 0.5
    ensures Opacity(250, ToastDisplayMs) == 1.0
    ensures Opacity(1000, ToastDisplayMs) == 1.0
    ensures Opacity(2000, ToastDisplayMs) == 1.0
    ensures Opacity(2250, ToastDisplayMs) == 0.5
    ensures Opacity(2300, ToastDisplayMs) == 0.4
    ensures Opacity(2500, ToastDisplayMs) == 0.0
  {
  }
}
