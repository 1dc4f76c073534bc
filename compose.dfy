/** The buffer work of `get_face_resized` in shelface.py: a zero-filled background with the face
    copied in by slice assignment, `background[y:y+h, x:x+w] = face`. */
module Compose {
  import opened Wrappers
  import opened Image
  import opened Placement

  /** A `canvas`-sized black image with `face` at column `x`, row `y`, as a value. */
  function Placed(face: Grid<Pixel>, canvas: Dims, x: nat, y: nat): (g: Grid<Pixel>)
    requires Rectangular(face)
    ensures Shaped(g, canvas.height, canvas.width)
  {
    seq(canvas.height, i requires 0 <= i < canvas.height =>
      seq(canvas.width, j requires 0 <= j < canvas.width =>
        if y <= i < y + |face| && x <= j < x + Cols(face) then face[i - y][j - x] else Black))
  }

  /** The `rows` x `cols` window of `g` whose top-left corner is at column `x`, row `y`. */
  function Crop<T>(g: Grid<T>, x: nat, y: nat, cols: nat, rows: nat): (r: Grid<T>)
    requires Rectangular(g) && y + rows <= |g| && x + cols <= Cols(g)
    ensures Shaped(r, rows, cols)
  {
    seq(rows, i requires 0 <= i < rows => g[y + i][x .. x + cols])
  }

  /** Placing a face and cropping its rectangle back out gives the face; everything outside the
      rectangle is black. */
  lemma {:induction false} CropPlaced(face: Grid<Pixel>, canvas: Dims, x: nat, y: nat)
    requires Rectangular(face) && |face| > 0
    requires x + Cols(face) <= canvas.width && y + |face| <= canvas.height
    ensures Crop(Placed(face, canvas, x, y), x, y, Cols(face), |face|) == face
    ensures forall i, j ::
      (0 <= i < canvas.height && 0 <= j < canvas.width && !(y <= i < y + |face| && x <= j < x + Cols(face))) ==>
        Placed(face, canvas, x, y)[i][j] == Black
  {
    var g := Placed(face, canvas, x, y);
    var c := Crop(g, x, y, Cols(face), |face|);
    forall i, j | 0 <= i < |face| && 0 <= j < Cols(face)
      ensures c[i][j] == face[i][j]
    {
      assert c[i][j] == g[y + i][x + j];
    }
    SameGrid(c, face, |face|, Cols(face));
  }

  /** A face that fills the whole canvas is the canvas. */
  lemma PlacedWhole(face: Grid<Pixel>, canvas: Dims)
    requires Shaped(face, canvas.height, canvas.width)
    ensures Placed(face, canvas, 0, 0) == face
  {
    var g := Placed(face, canvas, 0, 0);
    assert canvas.height > 0 ==> Cols(face) == canvas.width;
    forall i, j | 0 <= i < canvas.height && 0 <= j < canvas.width
      ensures g[i][j] == face[i][j]
    {
    }
    SameGrid(g, face, canvas.height, canvas.width);
  }

  /** `np.zeros((H, W, 3))` followed by `background[y:y+h, x:x+w] = face`. */
  method PlaceOnBlank(face: Grid<Pixel>, canvas: Dims, x: nat, y: nat) returns (bg: array2<Pixel>)
    requires Rectangular(face)
    requires x + Cols(face) <= canvas.width && y + |face| <= canvas.height
    ensures fresh(bg)
    ensures Contents(bg) == Placed(face, canvas, x, y)
  {
    bg := new Pixel[canvas.height, canvas.width]((i, j) => Black);
    var rows, cols := |face|, Cols(face);
    var r := 0;
    while r < rows
      invariant 0 <= r <= rows
      invariant forall i, j :: 0 <= i < bg.Length0 && 0 <= j < bg.Length1 ==>
        bg[i, j] == if y <= i < y + r && x <= j < x + cols then face[i - y][j - x] else Black
    {
      var c := 0;
      while c < cols
        invariant 0 <= c <= cols
        invariant forall i, j :: 0 <= i < bg.Length0 && 0 <= j < bg.Length1 ==>
          bg[i, j] == if (y <= i < y + r && x <= j < x + cols) || (i == y + r && x <= j < x + c)
                      then face[i - y][j - x] else Black
      {
        bg[y + r, x + c] := face[r][c];
        c := c + 1;
      }
      r := r + 1;
    }
    SameGrid(Contents(bg), Placed(face, canvas, x, y), canvas.height, canvas.width);
  }

  /** What the slice assignment copies into the background: the face itself under `pad` (nothing
      when the layout has width 0), the resized face otherwise. */
  function Drawn(face: Grid<Pixel>, l: Layout, policy: Policy): Grid<Pixel>
    requires IsImage(face)
  {
    if policy != Pad then Resized(face, l.size.height, l.size.width)
    else if l.size.width == 0 then []
    else face
  }

  /** The frame `get_face_resized` returns for `face`, as a value, or the failure that aborts it. */
  function Frame(face: Grid<Pixel>, screen: Dims, policy: Policy, textHeight: nat): (r: Result<Grid<Pixel>, Fault>)
    requires IsImage(face)
  {
    match ComputeLayout(Dims(Cols(face), |face|), screen, policy, textHeight)
    case Err(e) => Err(e)
    case Ok(l) =>
      Ok(Placed(Drawn(face, l, policy), l.canvas, l.x as nat, l.y as nat))
  }

  /** The frame has the screen's shape under `pad` and `resize_pad` and the face area's under
      `resize`. Under `pad` the drawn rectangle holds the face itself, under `resize_pad` the face
      resized to the fitted size; every pixel outside it, in particular in the reserved bottom
      rows, is black. */
  lemma {:induction false} FrameShape(face: Grid<Pixel>, screen: Dims, policy: Policy, textHeight: nat)
    requires IsImage(face)
    ensures var r := Frame(face, screen, policy, textHeight);
      var l := ComputeLayout(Dims(Cols(face), |face|), screen, policy, textHeight);
      && (r.Ok? <==> l.Ok?)
      && (r.Ok? ==> Shaped(r.value, l.value.canvas.height, screen.width))
      && (r.Ok? && policy != Resize ==> Shaped(r.value, screen.height, screen.width))
      && (r.Ok? && policy == Resize ==> r.value == Resized(face, screen.height - textHeight, screen.width))
      && (r.Ok? && policy == Pad && screen.width > 0 ==>
            Crop(r.value, l.value.x as nat, l.value.y as nat, Cols(face), |face|) == face)
      && (r.Ok? && screen.width == 0 ==> forall i :: 0 <= i < screen.height ==> r.value[i] == [])
      && (r.Ok? && policy == ResizePad ==>
            var s := l.value.size;
            Crop(r.value, l.value.x as nat, l.value.y as nat, s.width, s.height) == Resized(face, s.height, s.width))
      && (r.Ok? && policy != Resize ==>
            var (x, y, s) := (l.value.x, l.value.y, l.value.size);
            forall i, j ::
              (0 <= i < screen.height && 0 <= j < screen.width && !(y <= i < y + s.height && x <= j < x + s.width)) ==>
                r.value[i][j] == Black)
      && (r.Ok? && policy != Resize ==>
            forall i, j :: screen.height - textHeight <= i < screen.height && 0 <= j < screen.width ==>
              r.value[i][j] == Black)
  {
    var l := ComputeLayout(Dims(Cols(face), |face|), screen, policy, textHeight);
    if l.Ok? {
      var v := l.value;
      var drawn := Drawn(face, v, policy);
      if drawn != [] {
        assert Rectangular(drawn) && |drawn| == v.size.height && Cols(drawn) == v.size.width;
        CropPlaced(drawn, v.canvas, v.x as nat, v.y as nat);
        if policy == Resize {
          PlacedWhole(drawn, v.canvas);
        }
      }
    }
  }

  /** `get_face_resized(face, ...)`: a fresh buffer holding `Frame(face, ...)`, or the failure. */
  method GetFaceResized(face: Grid<Pixel>, screen: Dims, policy: Policy, textHeight: nat)
    returns (r: Result<array2<Pixel>, Fault>)
    requires IsImage(face)
    ensures var f := Frame(face, screen, policy, textHeight);
      && (r.Ok? <==> f.Ok?)
      && (r.Ok? ==> fresh(r.value) && Contents(r.value) == f.value)
      && (r.Err? ==> r.error == f.error)
  {
    var layout := ComputeLayout(Dims(Cols(face), |face|), screen, policy, textHeight);
    if layout.Err? {
      return Err(layout.error);
    }
    var l := layout.value;
    var buffer := PlaceOnBlank(Drawn(face, l, policy), l.canvas, l.x as nat, l.y as nat);
    r := Ok(buffer);
  }
}
