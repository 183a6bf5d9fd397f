/**
 * The centre crop that `capturePhoto` computes before drawing the video frame
 * onto the canvas: which rectangle of the camera frame is kept, and the fixed
 * size of the raster it is scaled to.
 *
 * The source divides in floating point (`vw / vh`, `targetW / targetH`) and
 * rounds with `Math.round`. Here the arithmetic is exact: the aspect test
 * `vw / vh > tw / th` is the cross-multiplied `vw * th > vh * tw`, and
 * `Math.round` is rounding half up of an exact rational.
 */
module Crop {

  /** The fixed raster size the still image is drawn at. */
  datatype Target = Target(width: nat, height: nat)

  /** A source rectangle of the video frame: corner (x, y), size w by h. */
  datatype Rect = Rect(x: int, y: int, w: int, h: int)

  /** The arguments of the canvas `drawImage` call: source rectangle and output size. */
  datatype Draw = Draw(source: Rect, width: nat, height: nat)

  const PortraitTarget := Target(720, 1280)
  const LandscapeTarget := Target(1280, 720)

  /** 720 by 1280 in portrait orientation, 1280 by 720 otherwise. */
  function TargetFor(portrait: bool): (t: Target)
    ensures t.width > 0 && t.height > 0
    ensures portrait <==> t.width < t.height
    ensures t.width * t.height == 720 * 1280
    ensures portrait ==> t.width == 720 && t.height == 1280
    ensures !portrait ==> t.width == 1280 && t.height == 720
  {
    if portrait then PortraitTarget else LandscapeTarget
  }

  /**
   * `Math.round(p / q)`: the nearest integer to p/q, ties going up.
   * The ensures says exactly that: r - 1/2 <= p/q < r + 1/2.
   */
  function Round(p: int, q: int): (r: int)
    requires q > 0
    ensures 2 * q * r <= 2 * p + q < 2 * q * r + 2 * q
  {
    (2 * p + q) / (2 * q)
  }

  /** `srcAspect > dstAspect`: the frame is relatively wider than the target. */
  predicate Wider(vw: nat, vh: nat, t: Target)
  {
    vw * t.height > vh * t.width
  }

  /**
   * The source rectangle: keep the full height of a relatively wider frame and
   * centre horizontally, otherwise keep the full width and centre vertically.
   * The ensures pin each chosen side and offset by its rounding inequality:
   * w = round(vh * tw / th) and x = round((vw - w) / 2), or symmetrically.
   */
  function CropRect(vw: nat, vh: nat, t: Target): (r: Rect)
    requires t.width > 0 && t.height > 0
    ensures Wider(vw, vh, t) ==>
      && r.y == 0 && r.h == vh
      && 2 * t.height * r.w <= 2 * vh * t.width + t.height < 2 * t.height * r.w + 2 * t.height
      && 4 * r.x <= 2 * (vw - r.w) + 2 < 4 * r.x + 4
    ensures !Wider(vw, vh, t) ==>
      && r.x == 0 && r.w == vw
      && 2 * t.width * r.h <= 2 * vw * t.height + t.width < 2 * t.width * r.h + 2 * t.width
      && 4 * r.y <= 2 * (vh - r.h) + 2 < 4 * r.y + 4
  {
    if Wider(vw, vh, t) then
      var sw := Round(vh * t.width, t.height);
      Rect(Round(vw - sw, 2), 0, sw, vh)
    else
      var sh := Round(vw * t.height, t.width);
      Rect(0, Round(vh - sh, 2), vw, sh)
  }

  /** What `capturePhoto` hands to `drawImage` for a frame of size vw by vh. */
  function CapturePlan(vw: nat, vh: nat, portrait: bool): (d: Draw)
    ensures d.width == TargetFor(portrait).width && d.height == TargetFor(portrait).height
    ensures portrait ==> d.width == 720 && d.height == 1280
    ensures !portrait ==> d.width == 1280 && d.height == 720
  {
    var t := TargetFor(portrait);
    Draw(CropRect(vw, vh, t), t.width, t.height)
  }

  /** The rectangle the crop keeps lies inside the frame and is centred within a pixel. */
  ghost predicate InsideAndCentred(vw: nat, vh: nat, r: Rect)
  {
    && 0 <= r.x && 0 <= r.w && r.x + r.w <= vw
    && 0 <= r.y && 0 <= r.h && r.y + r.h <= vh
    // left margin equals the right margin or exceeds it by one pixel; same vertically
    && 0 <= 2 * r.x + r.w - vw <= 1
    && 0 <= 2 * r.y + r.h - vh <= 1
  }

  /**
   * For any frame size the crop lies inside the frame, is centred, keeps at
   * least one full dimension, is non-empty for a non-empty frame, and has the
   * target's aspect ratio up to the rounding of one side.
   */
  lemma CropWithinFrame(vw: nat, vh: nat, portrait: bool)
    ensures var t := TargetFor(portrait); var r := CropRect(vw, vh, t);
      && InsideAndCentred(vw, vh, r)
      && (r.w == vw || r.h == vh)
      && (vw > 0 && vh > 0 ==> r.w > 0 && r.h > 0)
      && -1280 <= 2 * (r.w * t.height - r.h * t.width) <= 1280
  {
    var t := TargetFor(portrait);
    var r := CropRect(vw, vh, t);
    if portrait {
      assert t == Target(720, 1280);
      if Wider(vw, vh, t) {
        WiderSide(vw, vh, 720, 1280);
      } else {
        NarrowerSide(vw, vh, 720, 1280);
      }
    } else {
      assert t == Target(1280, 720);
      if Wider(vw, vh, t) {
        WiderSide(vw, vh, 1280, 720);
      } else {
        NarrowerSide(vw, vh, 1280, 720);
      }
    }
  }

  /** Wider frame: the rounded width fits and is centred horizontally. */
  lemma WiderSide(vw: nat, vh: nat, tw: nat, th: nat)
    requires (tw, th) == (720, 1280) || (tw, th) == (1280, 720)
    requires vw * th > vh * tw
    ensures var sw := Round(vh * tw, th); var sx := Round(vw - sw, 2);
      && 0 <= sw <= vw && 0 <= sx && sx + sw <= vw
      && 0 <= 2 * sx + sw - vw <= 1
      && (vh > 0 ==> sw > 0)
      && -1280 <= 2 * (sw * th - vh * tw) <= 1280
  {
    var sw := Round(vh * tw, th);
    assert 2 * th * sw <= 2 * vh * tw + th < 2 * th * sw + 2 * th;
    if (tw, th) == (720, 1280) {
      assert 2560 * sw <= 1440 * vh + 1280 < 2560 * sw + 2560;
      assert 1280 * vw > 720 * vh;
    } else {
      assert 1440 * sw <= 2560 * vh + 720 < 1440 * sw + 1440;
      assert 720 * vw > 1280 * vh;
    }
  }

  /** Frame no wider than the target: the rounded height fits and is centred vertically. */
  lemma NarrowerSide(vw: nat, vh: nat, tw: nat, th: nat)
    requires (tw, th) == (720, 1280) || (tw, th) == (1280, 720)
    requires vw * th <= vh * tw
    ensures var sh := Round(vw * th, tw); var sy := Round(vh - sh, 2);
      && 0 <= sh <= vh && 0 <= sy && sy + sh <= vh
      && 0 <= 2 * sy + sh - vh <= 1
      && (vw > 0 ==> sh > 0)
      && -1280 <= 2 * (vw * th - sh * tw) <= 1280
  {
    var sh := Round(vw * th, tw);
    assert 2 * tw * sh <= 2 * vw * th + tw < 2 * tw * sh + 2 * tw;
    if (tw, th) == (720, 1280) {
      assert 1440 * sh <= 2560 * vw + 720 < 1440 * sh + 1440;
      assert 1280 * vw <= 720 * vh;
    } else {
      assert 2560 * sh <= 1440 * vw + 1280 < 2560 * sh + 2560;
      assert 720 * vw <= 1280 * vh;
    }
  }

  /**
   * The crop may keep both full dimensions although the frame's aspect ratio
   * differs from the target's: an 18 by 10 frame in landscape is slightly wider
   * than 16:9, yet the rounded width is the whole 18.
   */
  lemma BothDimensionsCanBeFull()
    ensures Wider(18, 10, LandscapeTarget)
    ensures CropRect(18, 10, LandscapeTarget) == Rect(0, 0, 18, 10)
  {
    assert Round(10 * 1280, 720) == 18;
    assert Round(0, 2) == 0;
  }
}
