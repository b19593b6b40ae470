/**
 * Mockup rendering: which design boxes are used, how each box is clamped to the
 * 4000 x 4000 canvas (and re-clamped after rotation), the order in which the
 * boxes are pasted onto the design layer, and the order in which background,
 * design layer and overlay are stacked. Pixels are not modelled: an image is its
 * origin and its size, and the size of a rotated design is supplied by the caller.
 */
module MockupGenerator {
  import opened Wrappers
  import Text

  /** `EXPECTED_SIZE`, both sides. */
  const Canvas: int := 4000

  datatype Size = Size(w: int, h: int)

  const Expected: Size := Size(Canvas, Canvas)

  /** An image as far as placement cares: where it came from and how big it is. */
  datatype Image =
    | Decoded(name: string, size: Size)
    | Resized(original: Image, size: Size)

  /** `_ensure_size`: an image of the expected size is kept, any other is resized to it. */
  function EnsureSize(img: Image): (r: Image)
    ensures r.size == Expected
    ensures img.size == Expected ==> r == img
    ensures img.size != Expected ==> r.Resized? && r.original == img
  {
    if img.size != Expected then Resized(img, Expected) else img
  }

  // ---------------------------------------------------------------------
  // SVG input
  // ---------------------------------------------------------------------

  /** `name.lower().endswith(".svg")`. */
  predicate HasSvgName(name: string) {
    Text.EndsWith(Text.Lower(name), ".svg")
  }

  /** `convert_svg_bytes`: an SVG (by name or mime type) is rasterised, and a ".svg" name becomes ".png". */
  function ConvertSvg(name: string, mime: string, data: seq<bv8>, rasterise: seq<bv8> -> seq<bv8>): (r: (string, seq<bv8>))
    ensures !HasSvgName(name) && mime != "image/svg+xml" ==> r == (name, data)
    ensures HasSvgName(name) ==> |r.0| == |name| && Text.EndsWith(r.0, ".png") && r.0[..|name| - 4] == name[..|name| - 4]
    ensures !HasSvgName(name) ==> r.0 == name
    ensures HasSvgName(name) || mime == "image/svg+xml" ==> r.1 == rasterise(data)
  {
    if !(HasSvgName(name) || mime == "image/svg+xml") then (name, data)
    else
      var png := rasterise(data);
      if HasSvgName(name) then (name[..|name| - 4] + ".png", png) else (name, png)
  }

  // ---------------------------------------------------------------------
  // Boxes and their placement
  // ---------------------------------------------------------------------

  /** A design box as stored: four fields, or five with a rotation in degrees. */
  datatype Box =
    | Box4(x: int, y: int, w: int, h: int)
    | Box5(x: int, y: int, w: int, h: int, rot: real)
  {
    /** The rotation of the box: 0 for a four-field box. */
    function Rotation(): (r: real)
      ensures Box4? ==> r == 0.0
      ensures Box5? ==> r == rot
    {
      if Box5? then rot else 0.0
    }
  }

  /** The box covering the whole canvas. */
  const FullCanvas: Box := Box4(0, 0, Canvas, Canvas)

  /** `design_boxes or ([design_box] if design_box else [full canvas])`. */
  function ChooseBoxes(designBoxes: seq<Box>, designBox: Option<Box>): (boxes: seq<Box>)
    ensures boxes != []
    ensures designBoxes != [] ==> boxes == designBoxes
    ensures designBoxes == [] && designBox.Some? ==> boxes == [designBox.value]
    ensures designBoxes == [] && designBox.None? ==> boxes == [FullCanvas]
  {
    if designBoxes != [] then designBoxes
    else if designBox.Some? then [designBox.value]
    else [FullCanvas]
  }

  function Max(a: int, b: int): int { if a >= b then a else b }
  function Min(a: int, b: int): int { if a <= b then a else b }

  /** `max(1, min(4000, v))`: a side length on the canvas. */
  function ClampSide(v: int): (r: int)
    ensures 1 <= r <= Canvas
    ensures 1 <= v <= Canvas ==> r == v
  {
    Max(1, Min(Canvas, v))
  }

  /** `max(0, min(4000 - extent, v))`: an offset that keeps `extent` on the canvas when it fits. */
  function ClampOffset(v: int, extent: int): (r: int)
    ensures r >= 0
    ensures extent <= Canvas ==> r + extent <= Canvas
    ensures extent > Canvas ==> r == 0
    ensures 0 <= v && v + extent <= Canvas ==> r == v
  {
    Max(0, Min(Canvas - extent, v))
  }

  /** A rectangle on the canvas. */
  datatype Rect = Rect(x: int, y: int, w: int, h: int)

  predicate OnCanvas(r: Rect) {
    1 <= r.w <= Canvas && 1 <= r.h <= Canvas && 0 <= r.x && r.x + r.w <= Canvas && 0 <= r.y && r.y + r.h <= Canvas
  }

  /** The first clamp: sides into 1..4000, then the corner so the box fits. */
  function FirstClamp(b: Box): (r: Rect)
    ensures OnCanvas(r)
    ensures (var inside := Rect(b.x, b.y, b.w, b.h); OnCanvas(inside) ==> r == inside)
  {
    var w := ClampSide(b.w);
    var h := ClampSide(b.h);
    Rect(ClampOffset(b.x, w), ClampOffset(b.y, h), w, h)
  }

  /**
   * Where one pasted image goes: the design resized to `w` x `h`, rotated by
   * `rot` (unrotated when `rot` is 0), and pasted with its corner at (`x`, `y`);
   * `pasted` is the size of the image actually pasted.
   */
  datatype Placement = Placement(x: int, y: int, w: int, h: int, rot: real, pasted: Size)

  /**
   * One iteration of the box loop. `rotated(w, h, rot)` is the size of the
   * design resized to `w` x `h` and rotated by `rot` with expansion.
   */
  function Place(b: Box, rotated: (int, int, real) -> Size): (p: Placement)
    ensures p.x >= 0 && p.y >= 0
    ensures 1 <= p.w <= Canvas && 1 <= p.h <= Canvas
    ensures p.rot == b.Rotation()
    ensures p.pasted.w <= Canvas ==> p.x + p.pasted.w <= Canvas
    ensures p.pasted.h <= Canvas ==> p.y + p.pasted.h <= Canvas
    ensures p.pasted.w > Canvas ==> p.x == 0
    ensures p.pasted.h > Canvas ==> p.y == 0
  {
    var r := FirstClamp(b);
    var rot := b.Rotation();
    if rot != 0.0 then
      var rs := rotated(r.w, r.h, rot);
      Placement(ClampOffset(r.x, rs.w), ClampOffset(r.y, rs.h), r.w, r.h, rot, rs)
    else
      Placement(r.x, r.y, r.w, r.h, rot, Size(r.w, r.h))
  }

  /** An unrotated box is pasted exactly where the first clamp puts it. */
  lemma UnrotatedIsFirstClamp(b: Box, rotated: (int, int, real) -> Size)
    requires b.Rotation() == 0.0
    ensures var p := Place(b, rotated); var r := FirstClamp(b);
      p.x == r.x && p.y == r.y && p.w == r.w && p.h == r.h && p.pasted == Size(r.w, r.h)
  {
  }

  /** A four-field box is never rotated, whatever the rotation oracle says. */
  lemma Box4IsFirstClamp(x: int, y: int, w: int, h: int, rotated: (int, int, real) -> Size)
    ensures var p := Place(Box4(x, y, w, h), rotated); var r := FirstClamp(Box4(x, y, w, h));
      Rect(p.x, p.y, p.w, p.h) == r && p.rot == 0.0
  {
    UnrotatedIsFirstClamp(Box4(x, y, w, h), rotated);
  }

  /** A box already on the canvas and not rotated is pasted unchanged. */
  lemma InBoundsBoxUnchanged(b: Box, rotated: (int, int, real) -> Size)
    requires OnCanvas(Rect(b.x, b.y, b.w, b.h)) && b.Rotation() == 0.0
    ensures var p := Place(b, rotated); p.x == b.x && p.y == b.y && p.w == b.w && p.h == b.h
  {
  }

  /** The placements of the boxes, in list order. */
  function Placements(boxes: seq<Box>, rotated: (int, int, real) -> Size): (ps: seq<Placement>)
    ensures |ps| == |boxes|
  {
    if boxes == [] then [] else Placements(boxes[..|boxes| - 1], rotated) + [Place(boxes[|boxes| - 1], rotated)]
  }

  /** The `i`-th placement is that of the `i`-th box. */
  lemma {:induction false} PlacementsAt(boxes: seq<Box>, rotated: (int, int, real) -> Size, i: nat)
    requires i < |boxes|
    ensures Placements(boxes, rotated)[i] == Place(boxes[i], rotated)
  {
    if i < |boxes| - 1 {
      PlacementsAt(boxes[..|boxes| - 1], rotated, i);
      assert boxes[..|boxes| - 1][i] == boxes[i];
    }
  }

  /** The design layer: a transparent canvas the designs are pasted onto, one after another. */
  class DesignLayer {
    var size: Size
    /** The pastes so far; a later one lies over the earlier ones. */
    var pastes: seq<Placement>

    constructor(size: Size)
      ensures this.size == size && pastes == []
    {
      this.size := size;
      pastes := [];
    }

    /** `design_layer.paste(resized, (x, y), resized)`. */
    method Paste(p: Placement)
      modifies this
      ensures pastes == old(pastes) + [p]
      ensures size == old(size)
    {
      pastes := pastes + [p];
    }
  }

  /** A layer in the final stack. */
  datatype Layer =
    | BackgroundLayer(image: Image)
    | OverlayLayer(image: Image)
    | DesignLayerOf(pastes: seq<Placement>, mask: Option<Image>)

  /**
   * The stacking order, bottom first: the background at the bottom and the
   * design layer there exactly once; an overlay is there exactly when given,
   * under the design exactly when the position is "UNDER".
   */
  function Stack(background: Image, design: Layer, overlay: Option<Image>, position: string): (s: seq<Layer>)
    requires design.DesignLayerOf?
    ensures |s| >= 2 && s[0] == BackgroundLayer(background)
    ensures overlay.None? ==> s == [BackgroundLayer(background), design]
    ensures overlay.Some? ==> |s| == 3 && OverlayLayer(EnsureSize(overlay.value)) in s && design in s
    ensures overlay.Some? ==> (s[1] == design <==> position != "UNDER")
  {
    if overlay.Some? && position == "UNDER" then
      [BackgroundLayer(background), OverlayLayer(EnsureSize(overlay.value)), design]
    else if overlay.Some? then
      [BackgroundLayer(background), design, OverlayLayer(EnsureSize(overlay.value))]
    else
      [BackgroundLayer(background), design]
  }

  /** Without an overlay the position flag changes nothing. */
  lemma PositionIrrelevantWithoutOverlay(background: Image, design: Layer, p1: string, p2: string)
    requires design.DesignLayerOf?
    ensures Stack(background, design, None, p1) == Stack(background, design, None, p2)
  {
  }

  /** The background and overlay layers of the stack have the canvas size once the background does. */
  lemma StackImagesSized(background: Image, design: Layer, overlay: Option<Image>, position: string)
    requires design.DesignLayerOf? && background.size == Expected
    ensures var s := Stack(background, design, overlay, position);
      forall i :: 0 <= i < |s| && !s[i].DesignLayerOf? ==> s[i].image.size == Expected
  {
    var s := Stack(background, design, overlay, position);
    if overlay.Some? {
      assert EnsureSize(overlay.value).size == Expected;
    }
  }

  /**
   * `render_mockup`: the layers of the composed picture, bottom first. The
   * design is pasted once per chosen box, in order, onto one design layer,
   * which a mask (if any) then cuts, and the layers are stacked.
   */
  method RenderMockup(design: Image, background: Image, overlay: Option<Image>, mask: Option<Image>,
                      position: string, designBox: Option<Box>, designBoxes: seq<Box>,
                      rotated: (int, int, real) -> Size)
    returns (composed: seq<Layer>)
    ensures var boxes := ChooseBoxes(designBoxes, designBox);
      var maskUsed := if mask.Some? then Some(EnsureSize(mask.value)) else None;
      composed == Stack(EnsureSize(background), DesignLayerOf(Placements(boxes, rotated), maskUsed), overlay, position)
  {
    var bg := EnsureSize(background);
    var layer := new DesignLayer(bg.size);
    var boxes := ChooseBoxes(designBoxes, designBox);
    var i := 0;
    while i < |boxes|
      invariant 0 <= i <= |boxes|
      invariant layer.pastes == Placements(boxes[..i], rotated)
    {
      assert boxes[..i + 1][..i] == boxes[..i];
      layer.Paste(Place(boxes[i], rotated));
      i := i + 1;
    }
    assert boxes[..i] == boxes;
    var maskUsed: Option<Image> := None;
    if mask.Some? {
      maskUsed := Some(EnsureSize(mask.value));
    }
    var designLayer := DesignLayerOf(layer.pastes, maskUsed);
    if overlay.Some? && position == "UNDER" {
      var ov := EnsureSize(overlay.value);
      composed := [BackgroundLayer(bg)];
      composed := composed + [OverlayLayer(ov)];
      composed := composed + [designLayer];
    } else {
      composed := [BackgroundLayer(bg), designLayer];
      if overlay.Some? {
        var ov := EnsureSize(overlay.value);
        composed := composed + [OverlayLayer(ov)];
      }
    }
  }

  // ---------------------------------------------------------------------
  // Output name
  // ---------------------------------------------------------------------

  /** `f"{template.label or f'mockup-{template.order}'}.png"`. */
  function MockupFilename(caption: string, order: nat): (name: string)
    ensures Text.EndsWith(name, ".png")
    ensures caption != [] ==> |name| == |caption| + 4 && name[..|caption|] == caption
  {
    (if caption != [] then caption else "mockup-" + Text.NatToString(order)) + ".png"
  }

  /** Unlabelled templates with different orders get different file names. */
  lemma UnlabelledFilenamesDistinct(o1: nat, o2: nat)
    requires o1 != o2
    ensures MockupFilename("", o1) != MockupFilename("", o2)
  {
    var a := MockupFilename("", o1);
    var b := MockupFilename("", o2);
    if a == b {
      var n1 := Text.NatToString(o1);
      var n2 := Text.NatToString(o2);
      assert |n1| == |n2|;
      assert n1 == a[7..|a| - 4];
      assert n2 == b[7..|b| - 4];
      Text.NatToStringInjective(o1, o2);
    }
  }

  /** Labelled templates with different labels get different file names. */
  lemma LabelledFilenamesDistinct(l1: string, l2: string, o1: nat, o2: nat)
    requires l1 != [] && l2 != [] && l1 != l2
    ensures MockupFilename(l1, o1) != MockupFilename(l2, o2)
  {
    var a := MockupFilename(l1, o1);
    var b := MockupFilename(l2, o2);
    if a == b {
      assert l1 == a[..|l1|];
    }
  }
}
