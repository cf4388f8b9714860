/** The geometry of `apply_resize`: the target box, the resolution of the
    `auto` mode, and the integer crop arithmetic of the fill paths.

    The scale factors of the source are `f32` computations; the model takes
    their rounded results as inputs (`derived`, `scaled`) and states, beside
    the integer geometry, what exact arithmetic would give for each mode. */
module ResizeGeometry {
  import opened Wrappers
  import opened Text
  import opened Transform

  /** A crop window in the scaled image. */
  datatype Crop = Crop(x: u32, y: u32, w: u32, h: u32)

  /** What `apply_resize` does to an image of a given size: the mode it
      dispatches on, the box it aims at, the size it resamples to and the
      window it then cuts out (if any). */
  datatype Plan = Plan(mode: ResizeMode, target: (u32, u32), scaled: (u32, u32), crop: Option<Crop>)

  function Min(a: int, b: int): int { if a <= b then a else b }

  /** `u32::saturating_sub`. */
  function SaturatingSub(a: u32, b: u32): (r: u32)
    ensures r <= a
    ensures b <= a ==> r + b == a
    ensures a <= b ==> r == 0
  {
    if a <= b then 0 else a - b
  }

  /** The mode `apply_resize` dispatches on: `auto` becomes `fill` when the
      source and the target box have the same orientation (portrait meaning
      height greater than width), and `fit` otherwise. */
  function ResolveMode(mode: ResizeMode, srcW: u32, srcH: u32, targetW: u32, targetH: u32): (m: ResizeMode)
    ensures m != Auto
    ensures mode != Auto ==> m == mode
    ensures mode == Auto ==> (m == Fill <==> ((srcH > srcW) == (targetH > targetW)))
    ensures mode == Auto ==> (m == Fill || m == Fit)
  {
    match mode
    case Auto => if (srcH > srcW) == (targetH > targetW) then Fill else Fit
    case _ => mode
  }

  /** `calculate_dimensions`: the target box.  `derived` is the rounded
      `f32` value the source computes for a missing side from the aspect
      ratio; a side that was given is always kept. */
  function CalculateDimensions(srcW: u32, srcH: u32, w: u32, h: u32, derived: u32): (t: (u32, u32))
    ensures w == 0 && h == 0 ==> t == (srcW, srcH)
    ensures w != 0 ==> t.0 == w
    ensures h != 0 ==> t.1 == h
    ensures w == 0 && h != 0 ==> t.0 == derived
    ensures w != 0 && h == 0 ==> t.1 == derived
  {
    if w == 0 && h == 0 then (srcW, srcH)
    else if w == 0 then (derived, h)
    else if h == 0 then (w, derived)
    else (w, h)
  }

  /** `apply_resize_fill`'s crop: the target box, centred in the scaled
      image with the offset `(scaled - target) / 2` saturating at zero. */
  function FillCrop(newW: u32, newH: u32, targetW: u32, targetH: u32): (c: Crop)
    ensures c.w == targetW && c.h == targetH
    ensures targetW <= newW ==> c.x + c.w <= newW && 0 <= (newW - c.w - c.x) - c.x <= 1
    ensures targetH <= newH ==> c.y + c.h <= newH && 0 <= (newH - c.h - c.y) - c.y <= 1
    ensures newW <= targetW ==> c.x == 0
    ensures newH <= targetH ==> c.y == 0
  {
    Crop(SaturatingSub(newW, targetW) / 2, SaturatingSub(newH, targetH) / 2, targetW, targetH)
  }

  /** `apply_resize_fill_down`'s crop: the target box shrunk to what the
      scaled image has, centred the same way; it never leaves the image. */
  function FillDownCrop(newW: u32, newH: u32, targetW: u32, targetH: u32): (c: Crop)
    ensures c.w == Min(newW, targetW) && c.h == Min(newH, targetH)
    ensures c.x + c.w <= newW && c.y + c.h <= newH
    ensures 0 <= (newW - c.w - c.x) - c.x <= 1
    ensures 0 <= (newH - c.h - c.y) - c.y <= 1
  {
    var cw: u32 := if newW <= targetW then newW else targetW;
    var ch: u32 := if newH <= targetH then newH else targetH;
    Crop(SaturatingSub(newW, cw) / 2, SaturatingSub(newH, ch) / 2, cw, ch)
  }

  /** `apply_resize` for an image of `srcW`×`srcH`.  `scaled` is the size
      the resolved mode's `f32` scaling produces (unused by `force`). */
  function PlanResize(srcW: u32, srcH: u32, r: Resize, derived: u32, scaled: (u32, u32)): (p: Plan)
    ensures p.target == CalculateDimensions(srcW, srcH, r.w, r.h, derived)
    ensures p.mode == ResolveMode(r.mode, srcW, srcH, p.target.0, p.target.1)
    ensures p.mode == Fit ==> p.scaled == scaled && p.crop.None?
    ensures p.mode == Force ==> p.scaled == p.target && p.crop.None?
    ensures p.mode == Fill ==> p.crop.Some? && p.scaled == scaled
    ensures p.mode == FillDown ==> p.crop.Some? && p.scaled == scaled
  {
    var target := CalculateDimensions(srcW, srcH, r.w, r.h, derived);
    var mode := ResolveMode(r.mode, srcW, srcH, target.0, target.1);
    match mode
    case Fit => Plan(Fit, target, scaled, None)
    case Fill => Plan(Fill, target, scaled, Some(FillCrop(scaled.0, scaled.1, target.0, target.1)))
    case FillDown => Plan(FillDown, target, scaled, Some(FillDownCrop(scaled.0, scaled.1, target.0, target.1)))
    case Force => Plan(Force, target, target, None)
  }

  /** The size of the window `crop_imm` cuts: the image crate first
      clamps the offset to the image, then the size to what lies right of
      and below the offset. A window inside the image keeps its size. */
  function ClampedSize(c: Crop, imgW: u32, imgH: u32): (s: (int, int))
    ensures 0 <= s.0 <= c.w && s.0 <= imgW
    ensures 0 <= s.1 <= c.h && s.1 <= imgH
    ensures c.x + c.w <= imgW ==> s.0 == c.w
    ensures c.y + c.h <= imgH ==> s.1 == c.h
  {
    var x := Min(c.x, imgW);
    var y := Min(c.y, imgH);
    (Min(c.w, imgW - x), Min(c.h, imgH - y))
  }

  /** The size of the image `apply_resize` returns. */
  function OutputSize(p: Plan): (int, int)
  {
    match p.crop
    case None => (p.scaled.0 as int, p.scaled.1 as int)
    case Some(c) => ClampedSize(c, p.scaled.0, p.scaled.1)
  }

  /** What each mode gives as output size: `force` the target box, `fit`
      the scaled image, and `fill` and `fill-down` the target box cut down,
      per side, to the scaled image. So `fill` gives exactly the box
      whenever its scaling covers the box (see `FillCoversTarget`). A
      requested side is never replaced. */
  lemma OutputSizeByMode(srcW: u32, srcH: u32, r: Resize, derived: u32, scaled: (u32, u32))
    ensures var p := PlanResize(srcW, srcH, r, derived, scaled);
      && (p.mode == Force ==> OutputSize(p) == (p.target.0 as int, p.target.1 as int))
      && (p.mode == Fit ==> OutputSize(p) == (scaled.0 as int, scaled.1 as int))
      && (p.mode == Fill || p.mode == FillDown ==>
            OutputSize(p) == (Min(p.target.0, scaled.0), Min(p.target.1, scaled.1)))
      && (p.mode == Fill && p.target.0 <= scaled.0 && p.target.1 <= scaled.1 ==>
            OutputSize(p) == (p.target.0 as int, p.target.1 as int))
      && (r.w != 0 ==> p.target.0 == r.w)
      && (r.h != 0 ==> p.target.1 == r.h)
  {
    var p := PlanResize(srcW, srcH, r, derived, scaled);
    if p.mode == Fill {
      FillCropClamped(scaled.0, scaled.1, p.target.0, p.target.1);
    }
  }

  /** The fill window, once clamped, is the target cut down to the scaled
      image on each side. */
  lemma FillCropClamped(newW: u32, newH: u32, targetW: u32, targetH: u32)
    ensures ClampedSize(FillCrop(newW, newH, targetW, targetH), newW, newH)
            == (Min(targetW, newW), Min(targetH, newH))
  {
  }

  // -------------------------------------------------- exact-arithmetic reference

  /** Rounding to the nearest integer, halves up (`f32::round` rounds halves
      away from zero, which agrees on the non-negative values used here). */
  function Round(x: real): (n: int)
    ensures x - 0.5 < n as real <= x + 0.5
  {
    (x + 0.5).Floor
  }

  lemma RoundWithin(x: real, k: int)
    requires -0.5 <= x <= k as real
    ensures 0 <= Round(x) <= k
  {
    var n := Round(x);
    assert n as real < k as real + 1.0;
  }

  lemma RoundWhole(k: int)
    ensures Round(k as real) == k
  {
    var n := Round(k as real);
    assert k as real - 1.0 < n as real < k as real + 1.0;
  }

  function Ceil(x: real): (n: int)
    ensures x <= n as real < x + 1.0
  {
    -((-x).Floor)
  }

  lemma CeilWithin(x: real, k: int)
    requires 0.0 <= x <= k as real
    ensures 0 <= Ceil(x) <= k
  {
    var n := Ceil(x);
    assert n as real < k as real + 1.0;
  }

  function MinR(a: real, b: real): real { if a <= b then a else b }
  function MaxR(a: real, b: real): real { if a <= b then b else a }

  /** The factor `apply_resize_fit` scales by: the smaller of the two
      ratios, never above 1. */
  function FitScale(w: nat, h: nat, targetW: nat, targetH: nat): (s: real)
    requires w > 0 && h > 0
    ensures 0.0 <= s <= 1.0 && s <= targetW as real / w as real && s <= targetH as real / h as real
  {
    MinR(MinR(targetW as real / w as real, targetH as real / h as real), 1.0)
  }

  /** The factor `apply_resize_fill` scales by: the larger of the two ratios. */
  function FillScale(w: nat, h: nat, targetW: nat, targetH: nat): (s: real)
    requires w > 0 && h > 0
    ensures 0.0 <= s && s >= targetW as real / w as real && s >= targetH as real / h as real
  {
    MaxR(targetW as real / w as real, targetH as real / h as real)
  }

  /** The factor `apply_resize_fill_down` scales by: as fill, never above 1. */
  function FillDownScale(w: nat, h: nat, targetW: nat, targetH: nat): (s: real)
    requires w > 0 && h > 0
    ensures 0.0 <= s <= 1.0
    ensures FillScale(w, h, targetW, targetH) <= 1.0 ==> s == FillScale(w, h, targetW, targetH)
  {
    MinR(FillScale(w, h, targetW, targetH), 1.0)
  }

  /** The size `apply_resize_fit` aims at. */
  function FitExact(w: nat, h: nat, targetW: nat, targetH: nat): (int, int)
    requires w > 0 && h > 0
  {
    var s := FitScale(w, h, targetW, targetH);
    (Round(w as real * s), Round(h as real * s))
  }

  /** The size `apply_resize_fill` aims at, rounded up. */
  function FillExact(w: nat, h: nat, targetW: nat, targetH: nat): (int, int)
    requires w > 0 && h > 0
  {
    var s := FillScale(w, h, targetW, targetH);
    (Ceil(w as real * s), Ceil(h as real * s))
  }

  /** The size `apply_resize_fill_down` aims at, rounded up. */
  function FillDownExact(w: nat, h: nat, targetW: nat, targetH: nat): (int, int)
    requires w > 0 && h > 0
  {
    var s := FillDownScale(w, h, targetW, targetH);
    (Ceil(w as real * s), Ceil(h as real * s))
  }

  lemma ScaleBelow(w: nat, t: nat, s: real)
    requires w > 0 && 0.0 <= s <= t as real / w as real
    ensures w as real * s <= t as real
  {
    calc {
      w as real * s;
    <= w as real * (t as real / w as real);
    == t as real;
    }
  }

  lemma ScaleAbove(w: nat, t: nat, s: real)
    requires w > 0 && s >= t as real / w as real
    ensures w as real * s >= t as real
  {
    calc {
      w as real * s;
    >= w as real * (t as real / w as real);
    == t as real;
    }
  }

  /** Scaling by a factor in [0, 1] gives a value in [0, w]. */
  lemma ScaleWithinOne(w: nat, s: real)
    requires 0.0 <= s <= 1.0
    ensures 0.0 <= w as real * s <= w as real
  {
  }

  /** One side of a fit: scaled by `s` it stays within both the source and
      the target side. */
  lemma FitSide(w: nat, t: nat, s: real)
    requires w > 0 && 0.0 <= s <= 1.0 && s <= t as real / w as real
    ensures 0 <= Round(w as real * s) <= w && Round(w as real * s) <= t
  {
    ScaleBelow(w, t, s);
    ScaleWithinOne(w, s);
    RoundWithin(w as real * s, Min(w, t));
  }

  /** Fit never upscales and always fits the box. */
  lemma FitStaysInside(w: nat, h: nat, targetW: nat, targetH: nat)
    requires w > 0 && h > 0
    ensures var d := FitExact(w, h, targetW, targetH);
      0 <= d.0 <= w && 0 <= d.1 <= h && d.0 <= targetW && d.1 <= targetH
  {
    var s := FitScale(w, h, targetW, targetH);
    FitSide(w, targetW, s);
    FitSide(h, targetH, s);
  }

  /** Fit leaves an image that already fits the box untouched. */
  lemma FitKeepsSmallImage(w: nat, h: nat, targetW: nat, targetH: nat)
    requires 0 < w <= targetW && 0 < h <= targetH
    ensures FitExact(w, h, targetW, targetH) == (w, h)
  {
    assert targetW as real / w as real >= 1.0;
    assert targetH as real / h as real >= 1.0;
    assert FitScale(w, h, targetW, targetH) == 1.0;
    RoundWhole(w);
    RoundWhole(h);
  }

  /** The fill scaling covers the target box, so the centred crop of
      `apply_resize_fill` lies inside the scaled image and the output is
      exactly the box. */
  lemma FillCoversTarget(w: nat, h: nat, targetW: u32, targetH: u32)
    requires w > 0 && h > 0
    requires var d := FillExact(w, h, targetW as nat, targetH as nat); d.0 < U32_BOUND && d.1 < U32_BOUND
    ensures var d := FillExact(w, h, targetW as nat, targetH as nat);
      && targetW as int <= d.0 && targetH as int <= d.1
      && var c := FillCrop(d.0 as u32, d.1 as u32, targetW, targetH);
         c.x + c.w <= d.0 && c.y + c.h <= d.1 && c.w == targetW && c.h == targetH
         && ClampedSize(c, d.0 as u32, d.1 as u32) == (targetW as int, targetH as int)
  {
    var s := FillScale(w, h, targetW as nat, targetH as nat);
    ScaleAbove(w, targetW as nat, s);
    ScaleAbove(h, targetH as nat, s);
  }

  /** Fill-down never upscales: the scaled size is at most the source. */
  lemma FillDownNeverUpscales(w: nat, h: nat, targetW: nat, targetH: nat)
    requires w > 0 && h > 0
    ensures var d := FillDownExact(w, h, targetW, targetH);
      0 <= d.0 <= w && 0 <= d.1 <= h
  {
    var s := FillDownScale(w, h, targetW, targetH);
    CeilScaledWithin(w, s);
    CeilScaledWithin(h, s);
  }

  lemma CeilScaledWithin(w: nat, s: real)
    requires 0.0 <= s <= 1.0
    ensures 0 <= Ceil(w as real * s) <= w
  {
    ScaleWithinOne(w, s);
    CeilWithin(w as real * s, w);
  }

  /** When the source is large enough to cover the box without upscaling,
      fill-down gives exactly the box, like fill. */
  lemma FillDownReachesTargetWhenLarge(w: u32, h: u32, targetW: u32, targetH: u32)
    requires w > 0 && h > 0
    requires targetW as real / w as real <= 1.0 && targetH as real / h as real <= 1.0
    ensures var d := FillDownExact(w as nat, h as nat, targetW as nat, targetH as nat);
      && 0 <= d.0 < U32_BOUND && 0 <= d.1 < U32_BOUND
      && var c := FillDownCrop(d.0 as u32, d.1 as u32, targetW, targetH);
         c.w == targetW && c.h == targetH
  {
    FillDownNeverUpscales(w as nat, h as nat, targetW as nat, targetH as nat);
    var s := FillDownScale(w as nat, h as nat, targetW as nat, targetH as nat);
    assert s == FillScale(w as nat, h as nat, targetW as nat, targetH as nat);
    ScaleAbove(w as nat, targetW as nat, s);
    ScaleAbove(h as nat, targetH as nat, s);
  }

  /** A 100×50 source fitted into 400×400 is not enlarged. */
  lemma FitExample()
    ensures FitExact(100, 50, 400, 400) == (100, 50)
  {
    FitKeepsSmallImage(100, 50, 400, 400);
  }

  /** A 100×50 source filled to 40×40 is scaled to 80×40 and cut at x = 20,
      giving exactly 40×40. */
  lemma FillExample()
    ensures FillExact(100, 50, 40, 40) == (80, 40)
    ensures FillCrop(80, 40, 40, 40) == Crop(20, 0, 40, 40)
  {
    assert MaxR(40.0 / 100.0, 40.0 / 50.0) == 0.8;
    assert 100.0 * 0.8 == 80.0;
    assert 50.0 * 0.8 == 40.0;
  }
}
