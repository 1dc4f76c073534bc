/** The arithmetic of `get_face_resized` in shelface.py: how big a face is drawn and where. */
module Placement {
  import opened Wrappers

  /** The three values of `--resize_method`; any other value is refused when the script starts. */
  datatype Policy = Pad | ResizePad | Resize

  datatype Dims = Dims(width: nat, height: nat)

  datatype Fault =
    | FooterTooTall   // the assertion that the screen is more than twice the reserved text height
    | FaceTooLarge    // `pad` with a face larger than the face area: numpy refuses the slice assignment
    | EmptyResize     // `cv2.resize` refuses a target size with a zero side

  /** Where a face goes: the buffer it is drawn into, the size it is drawn at, its top-left corner. */
  datatype Layout = Layout(canvas: Dims, size: Dims, x: int, y: int)

  /** `(outer - inner) // 2`, the offset that centres a span `inner` long in one `outer` long.
      Python's `//` floors, and so does Dafny's `/` by a positive divisor. */
  function Center(outer: int, inner: int): (c: int)
    ensures 0 <= (outer - inner - c) - c <= 1
    ensures 0 <= inner <= outer ==> 0 <= c && c + inner <= outer
  {
    (outer - inner) / 2
  }

  /** The comparison `SCREEN_WIDTH / FACE_HEIGHT > face_width / face_height`, cross-multiplied. */
  predicate FitsToHeight(src: Dims, area: Dims) {
    area.width * src.height > src.width * area.height
  }

  /** The cross-multiplied comparison decides the same as the comparison of the two ratios. */
  lemma FitsToHeightIsRatioComparison(src: Dims, area: Dims)
    requires src.width > 0 && src.height > 0 && area.height > 0
    ensures FitsToHeight(src, area) <==>
      (area.width as real) / (area.height as real) > (src.width as real) / (src.height as real)
  {
    var aw, ah, sw, sh := area.width as real, area.height as real, src.width as real, src.height as real;
    assert aw / ah - sw / sh == (aw * sh - sw * ah) / (ah * sh);
    assert (aw * sh - sw * ah) as real == (area.width * src.height - src.width * area.height) as real;
  }

  /** The `resize_pad` target size: `src` scaled to fill the height or the width of `area`, keeping
      its aspect ratio; `int(...)` truncates, which for these non-negative operands is floor division. */
  function FitSize(src: Dims, area: Dims): (d: Dims)
    requires src.width > 0 && src.height > 0
    ensures FitSizeSpec(src, area, d)
  {
    if FitsToHeight(src, area) then
      var d := Dims(area.height * src.width / src.height, area.height);
      HeightBranch(src, area, d);
      d
    else
      var d := Dims(area.width, area.width * src.height / src.width);
      WidthBranch(src, area, d);
      d
  }

  /** What `FitSize` promises: the size fits in `area` and fills it in one direction; its other side
      is the largest that does not make the face wider (resp. taller) than its aspect ratio, so the
      cross-multiplied aspect ratios differ by less than one pixel's worth. */
  predicate FitSizeSpec(src: Dims, area: Dims, d: Dims) {
    && d.width <= area.width && d.height <= area.height
    && (d.width == area.width || d.height == area.height)
    && (FitsToHeight(src, area) ==>
          d.height == area.height &&
          d.width * src.height <= area.height * src.width < (d.width + 1) * src.height)
    && (!FitsToHeight(src, area) ==>
          d.width == area.width &&
          d.height * src.width <= area.width * src.height < (d.height + 1) * src.width)
    && -(src.width as int) < d.height * src.width - d.width * src.height < src.height
  }

  /** The height-filling branch of `FitSize`: the truncated width stays within the area. */
  lemma HeightBranch(src: Dims, area: Dims, d: Dims)
    requires src.width > 0 && src.height > 0 && FitsToHeight(src, area)
    requires d == Dims(area.height * src.width / src.height, area.height)
    ensures FitSizeSpec(src, area, d)
  {
    var sw, sh, aw, ah, w := src.width, src.height, area.width, area.height, d.width;
    FloorBounds(ah * sw, sh);
    assert w * sh <= ah * sw < (w + 1) * sh;
    assert w * sh < aw * sh;
    MulMonotone(w, aw, sh);
  }

  /** The width-filling branch of `FitSize`: the truncated height stays within the area. */
  lemma WidthBranch(src: Dims, area: Dims, d: Dims)
    requires src.width > 0 && src.height > 0 && !FitsToHeight(src, area)
    requires d == Dims(area.width, area.width * src.height / src.width)
    ensures FitSizeSpec(src, area, d)
  {
    var sw, sh, aw, ah, h := src.width, src.height, area.width, area.height, d.height;
    FloorBounds(aw * sh, sw);
    assert h * sw <= aw * sh < (h + 1) * sw;
    assert h * sw < (ah + 1) * sw;
    MulMonotone(h, ah + 1, sw);
  }

  lemma FloorBounds(a: nat, b: nat)
    requires b > 0
    ensures (a / b) * b <= a < (a / b + 1) * b
  {
  }

  /** Multiplying by a positive factor keeps a strict order. */
  lemma MulMonotone(x: nat, y: nat, k: nat)
    requires k > 0 && x * k < y * k
    ensures x < y
  {
  }

  /** `get_face_resized`'s geometry for a face of size `src` on a `screen` with `textHeight` rows
      reserved at the bottom: `Pad` keeps the size, `ResizePad` fits the size to the face area,
      `Resize` stretches the face to the whole face area. */
  function ComputeLayout(src: Dims, screen: Dims, policy: Policy, textHeight: nat): (r: Result<Layout, Fault>)
    requires src.width > 0 && src.height > 0
    ensures r == Err(FooterTooTall) <==> screen.height <= 2 * textHeight
    ensures r.Ok? ==>
      var l := r.value;
      var faceHeight := screen.height - textHeight;
      && l.canvas == (if policy == Resize then Dims(screen.width, faceHeight) else screen)
      && 0 <= l.x && l.x + l.size.width <= l.canvas.width
      && 0 <= l.y && l.y + l.size.height <= faceHeight <= l.canvas.height
      && 0 <= (l.canvas.width - l.size.width - l.x) - l.x <= 1
      && 0 <= (faceHeight - l.size.height - l.y) - l.y <= 1
      && (l.size.width > 0 || (policy == Pad && screen.width == 0)) && l.size.height > 0
  {
    if screen.height <= 2 * textHeight then Err(FooterTooTall)
    else
      var faceHeight := screen.height - textHeight;
      match policy
      case Pad =>
        if src.height > faceHeight || (src.width > screen.width && !(screen.width == 0 && src.width == 1)) then Err(FaceTooLarge)
        else
          // On a zero-width screen the slice is empty and numpy broadcasts a one-column face onto
          // it: nothing of the face is drawn.
          var size := if screen.width == 0 then Dims(0, src.height) else src;
          Ok(Layout(screen, size, Center(screen.width, size.width), Center(faceHeight, size.height)))
      case ResizePad =>
        var size := FitSize(src, Dims(screen.width, faceHeight));
        if size.width == 0 || size.height == 0 then Err(EmptyResize)
        else Ok(Layout(screen, size, Center(screen.width, size.width), Center(faceHeight, size.height)))
      case Resize =>
        var area := Dims(screen.width, faceHeight);
        if screen.width == 0 then Err(EmptyResize) else Ok(Layout(area, area, 0, 0))
  }

  /** The face area is the screen height minus the reserved rows; a screen exactly twice the reserved
      height is refused, as is anything smaller. */
  lemma FooterBoundary(src: Dims, screen: Dims, policy: Policy, textHeight: nat)
    requires src.width > 0 && src.height > 0
    requires screen.height == 2 * textHeight
    ensures ComputeLayout(src, screen, policy, textHeight) == Err(FooterTooTall)
  {
  }

  /** `pad` draws the face at its own size, and fails exactly when it is larger than the face area,
      except that a one-column face on a zero-width screen is broadcast onto the empty slice. */
  lemma PadLayout(src: Dims, screen: Dims, textHeight: nat)
    requires src.width > 0 && src.height > 0
    requires screen.height > 2 * textHeight
    ensures var r := ComputeLayout(src, screen, Pad, textHeight);
      && (r.Ok? <==> (src.width <= screen.width || (screen.width == 0 && src.width == 1))
                     && src.height <= screen.height - textHeight)
      && (r.Ok? && screen.width > 0 ==> r.value.size == src)
      && (r.Ok? && screen.width == 0 ==> r.value.size == Dims(0, src.height) && r.value.x == 0)
      && (r.Ok? ==> r.value.canvas == screen)
      && (r.Err? ==> r.error == FaceTooLarge)
  {
  }

  /** `resize_pad` draws the face at `FitSize`: full face-area height when the face area is relatively
      wider than the face, full screen width otherwise, and fails only when truncation leaves a zero side. */
  lemma ResizePadLayout(src: Dims, screen: Dims, textHeight: nat)
    requires src.width > 0 && src.height > 0
    requires screen.height > 2 * textHeight
    ensures var area := Dims(screen.width, screen.height - textHeight);
      var r := ComputeLayout(src, screen, ResizePad, textHeight);
      && (r.Ok? <==> FitSize(src, area).width > 0 && FitSize(src, area).height > 0)
      && (r.Ok? ==> r.value.size == FitSize(src, area) && r.value.canvas == screen)
      && (r.Err? ==> r.error == EmptyResize)
      && (FitSize(src, area).width == 0 ==> screen.width == 0 || area.height * src.width < src.height)
      && (FitSize(src, area).height == 0 ==> screen.width * src.height < src.width)
  {
  }

  /** `resize` succeeds on a valid reservation and a screen of some width, and yields exactly the
      face area, not the screen; on a zero-width screen `cv2.resize` refuses the empty target. */
  lemma ResizeLayout(src: Dims, screen: Dims, textHeight: nat)
    requires src.width > 0 && src.height > 0
    requires screen.height > 2 * textHeight
    ensures var r := ComputeLayout(src, screen, Resize, textHeight);
      && (screen.width > 0 ==> r == Ok(Layout(Dims(screen.width, screen.height - textHeight),
                                               Dims(screen.width, screen.height - textHeight), 0, 0)))
      && (screen.width == 0 ==> r == Err(EmptyResize))
  {
  }

  /** A one-column face five rows tall on a zero-width screen 1080 rows tall is accepted under `pad`:
      nothing of it is drawn, and the frame is the empty-width background. */
  lemma PadZeroWidthExample()
    ensures ComputeLayout(Dims(1, 5), Dims(0, 1080), Pad, 150) == Ok(Layout(Dims(0, 1080), Dims(0, 5), 0, 462))
  {
  }

  /** A 640x480 face on a 1920x1080 screen with 150 rows reserved is drawn 1240x930 at (340, 0). */
  lemma ResizePadExample()
    ensures ComputeLayout(Dims(640, 480), Dims(1920, 1080), ResizePad, 150) ==
      Ok(Layout(Dims(1920, 1080), Dims(1240, 930), 340, 0))
  {
  }
}
