/**
 The layout arithmetic of `create_collage` (main.py): every image is resized
 to one cell size, the cell is the largest resized width and height, the
 images are laid out row by row in a grid with a fixed number of columns,
 and a margin separates the cells from each other and from the canvas edge.

 Only sizes and coordinates are modelled: an image is its width and height,
 and pasting an image is recorded as a `Placement`.
 */
module Collage {

  /** The width and height of an image, in pixels. */
  datatype Size = Size(width: nat, height: nat)

  /** The dimensions of the background canvas. */
  datatype Canvas = Canvas(width: int, height: int)

  /** Where image number `index` is pasted: its grid cell and its top-left corner. */
  datatype Placement = Placement(index: nat, row: nat, col: nat, x: int, y: int, size: Size)

  /** Everything `create_collage` computes before it pastes and saves. */
  datatype Layout = Layout(canvas: Canvas, cell: Size, rows: nat, placements: seq<Placement>)

  /** The two ways `create_collage` can fail before it draws anything: it
      raises when it is given no images, and the imaging library's `resize`
      raises when an image must change to a target size with a width or
      height below 1 (a negative size cannot be written here, because `Size`
      has `nat` fields). An image that already has the target size is copied
      instead, whatever that size is. */
  datatype Error = NoImages | EmptyTargetSize

  datatype Result<T> = Ok(value: T) | Err(error: Error)

  /** The number of images per row that the program uses. */
  const ImagesPerRow: nat := 7

  /** The default cell size and margin of `create_collage`. */
  const DefaultImageSize: Size := Size(800, 800)
  const DefaultMargin: int := 100

  // ---------------------------------------------------------------------------
  // Resizing and the cell size

  /** A target size that `resize` can stretch to: both sides at least one
      pixel. A side below 1 is a zero side, since `Size` has `nat` fields. */
  predicate ResizableTo(target: Size)
  {
    target.width > 0 && target.height > 0
  }

  /** `img.resize(target)` raises: the image must change size, and the target
      has a zero side. An image already of the target size is copied first. */
  predicate ResizeRaises(img: Size, target: Size)
  {
    img != target && !ResizableTo(target)
  }

  /** `img.resize(target)` when it does not raise: a copy of an image that
      already has the target size, otherwise a non-aspect-preserving stretch
      to exactly `target`. */
  function Resize(img: Size, target: Size): (r: Size)
  {
    if img == target then img else target
  }

  /** The list comprehension that resizes every image. */
  function ResizeAll(images: seq<Size>, target: Size): (r: seq<Size>)
    ensures |r| == |images|
    ensures forall i :: 0 <= i < |r| ==> r[i] == target
  {
    seq(|images|, i requires 0 <= i < |images| => Resize(images[i], target))
  }

  /** The comprehension of `create_collage`, which stops at the first image
      whose `resize` raises. */
  method ResizeEach(images: seq<Size>, target: Size) returns (r: Result<seq<Size>>)
    ensures r.Err? <==> exists k :: 0 <= k < |images| && ResizeRaises(images[k], target)
    ensures r.Err? ==> r.error == EmptyTargetSize
    ensures r.Ok? ==> r.value == ResizeAll(images, target)
  {
    var resized: seq<Size> := [];
    var k := 0;
    while k < |images|
      invariant 0 <= k <= |images|
      invariant forall j :: 0 <= j < k ==> !ResizeRaises(images[j], target)
      invariant resized == ResizeAll(images[..k], target)
    {
      if ResizeRaises(images[k], target) {
        return Err(EmptyTargetSize);
      }
      resized := resized + [Resize(images[k], target)];
      k := k + 1;
    }
    assert images[..k] == images;
    return Ok(resized);
  }

  /** Resizing images that already have the target size changes nothing.
      This follows from modelling `resize` as yielding exactly the target. */
  lemma ResizeIdempotent(images: seq<Size>, target: Size)
    ensures ResizeAll(ResizeAll(images, target), target) == ResizeAll(images, target)
  {
  }

  /** Python's `max` over a non-empty sequence. */
  function MaxOf(xs: seq<nat>): (m: nat)
    requires |xs| > 0
    ensures m in xs
    ensures forall i :: 0 <= i < |xs| ==> xs[i] <= m
  {
    if |xs| == 1 then xs[0]
    else
      var rest := MaxOf(xs[1..]);
      assert forall i :: 1 <= i < |xs| ==> xs[i] == xs[1..][i - 1];
      if xs[0] < rest then rest else xs[0]
  }

  function Widths(sizes: seq<Size>): (ws: seq<nat>)
  {
    seq(|sizes|, i requires 0 <= i < |sizes| => sizes[i].width)
  }

  function Heights(sizes: seq<Size>): (hs: seq<nat>)
  {
    seq(|sizes|, i requires 0 <= i < |sizes| => sizes[i].height)
  }

  /** The cell: the largest width and the largest height among the images. */
  function CellSize(sizes: seq<Size>): (cell: Size)
    requires |sizes| > 0
    ensures forall i :: 0 <= i < |sizes| ==> sizes[i].width <= cell.width && sizes[i].height <= cell.height
    ensures exists i :: 0 <= i < |sizes| && sizes[i].width == cell.width
    ensures exists i :: 0 <= i < |sizes| && sizes[i].height == cell.height
  {
    var w := MaxOf(Widths(sizes));
    var h := MaxOf(Heights(sizes));
    assert forall i :: 0 <= i < |sizes| ==> Widths(sizes)[i] == sizes[i].width;
    assert forall i :: 0 <= i < |sizes| ==> Heights(sizes)[i] == sizes[i].height;
    Size(w, h)
  }

  // ---------------------------------------------------------------------------
  // Grid arithmetic

  /** `math.ceil(n / cols)`: the fewest rows of `cols` cells that hold `n` images. */
  function Rows(n: nat, cols: nat): (rows: nat)
    requires cols >= 1
    ensures rows * cols >= n
    ensures (rows - 1) * cols < n || rows == 0
    ensures rows == 0 <==> n == 0
  {
    var q := (n + cols - 1) / cols;
    assert q * cols + (n + cols - 1) % cols == n + cols - 1;
    q
  }

  /** The centring offset `(cell - extent) // 2`. Python's `//` rounds toward
      negative infinity, which for the positive divisor 2 is Dafny's `/`. */
  function Offset(cell: nat, extent: nat): (o: int)
    ensures extent <= cell ==> 0 <= o && 2 * o + extent <= cell <= 2 * o + extent + 1
    ensures extent == cell ==> o == 0
  {
    (cell - extent) / 2
  }

  /** The left (or top) edge of grid slot `k`, counting from 0. */
  function SlotStart(k: nat, cell: nat, margin: int): (s: int)
  {
    margin + k * (cell + margin)
  }

  /** Where the loop body pastes image `i` of size `img`. */
  function PlaceAt(i: nat, img: Size, cols: nat, cell: Size, margin: int): (p: Placement)
    requires cols >= 1
    ensures p.index == i && p.size == img
    ensures p.col < cols && i == p.row * cols + p.col
    ensures img.width <= cell.width ==>
      SlotStart(p.col, cell.width, margin) <= p.x && p.x + img.width <= SlotStart(p.col, cell.width, margin) + cell.width
    ensures img.height <= cell.height ==>
      SlotStart(p.row, cell.height, margin) <= p.y && p.y + img.height <= SlotStart(p.row, cell.height, margin) + cell.height
  {
    var row := i / cols;
    var col := i % cols;
    Placement(i, row, col,
              SlotStart(col, cell.width, margin) + Offset(cell.width, img.width),
              SlotStart(row, cell.height, margin) + Offset(cell.height, img.height),
              img)
  }

  /** The placements of all images, in the order they are pasted. */
  function Placements(sizes: seq<Size>, cols: nat, cell: Size, margin: int): (ps: seq<Placement>)
    requires cols >= 1
  {
    seq(|sizes|, i requires 0 <= i < |sizes| => PlaceAt(i, sizes[i], cols, cell, margin))
  }

  /** The background canvas: `cols` cells across, `rows` cells down, with a
      margin before every cell and one after the last. */
  function CanvasFor(n: nat, cols: nat, cell: Size, margin: int): (c: Canvas)
    requires cols >= 1
  {
    Canvas(cols * (cell.width + margin) + margin,
           Rows(n, cols) * (cell.height + margin) + margin)
  }

  /** The whole layout of already resized images, or the error for no images. */
  function ComputeLayout(resized: seq<Size>, cols: nat, margin: int): (r: Result<Layout>)
    requires cols >= 1
    ensures r.Err? <==> resized == []
    ensures r.Ok? ==> |r.value.placements| == |resized|
  {
    if resized == [] then Err(NoImages)
    else
      var cell := CellSize(resized);
      Ok(Layout(CanvasFor(|resized|, cols, cell, margin), cell, Rows(|resized|, cols),
                Placements(resized, cols, cell, margin)))
  }

  /** `create_collage(images, output_file, image_size, margin)` without the
      pixels: first the check for no images, then the resize, which fails when
      some image must be stretched to a target with a zero side, then the
      layout of the resized images. */
  function CollageLayout(images: seq<Size>, imageSize: Size, margin: int): (r: Result<Layout>)
    ensures r == Err(NoImages) <==> images == []
    ensures r == Err(EmptyTargetSize) <==>
      images != [] && !ResizableTo(imageSize) && exists k :: 0 <= k < |images| && images[k] != imageSize
    ensures r.Ok? ==> r.value.cell == imageSize && |r.value.placements| == |images|
  {
    if images == [] then Err(NoImages)
    else if exists k :: 0 <= k < |images| && ResizeRaises(images[k], imageSize) then Err(EmptyTargetSize)
    else
      UniformCell(ResizeAll(images, imageSize), imageSize);
      ComputeLayout(ResizeAll(images, imageSize), ImagesPerRow, margin)
  }

  // ---------------------------------------------------------------------------
  // The imperative part: the `enumerate` loop that pastes each image

  /** The `enumerate` loop: image `i` is pasted at its cell, in order. */
  method PasteAll(resized: seq<Size>, cell: Size, margin: int) returns (placed: seq<Placement>)
    ensures placed == Placements(resized, ImagesPerRow, cell, margin)
  {
    placed := [];
    var i := 0;
    while i < |resized|
      invariant 0 <= i <= |resized|
      invariant |placed| == i
      invariant forall k :: 0 <= k < i ==> placed[k] == PlaceAt(k, resized[k], ImagesPerRow, cell, margin)
    {
      placed := placed + [PlaceAt(i, resized[i], ImagesPerRow, cell, margin)];
      i := i + 1;
    }
  }

  /** Resizes, sizes the canvas and then walks the images in order, recording
      where each one is pasted. */
  method CreateCollage(images: seq<Size>, imageSize: Size, margin: int) returns (r: Result<Layout>)
    ensures r == CollageLayout(images, imageSize, margin)
    ensures r == Err(NoImages) <==> images == []
    ensures r == Err(EmptyTargetSize) <==>
      images != [] && !ResizableTo(imageSize) && exists k :: 0 <= k < |images| && images[k] != imageSize
    ensures r.Ok? ==> r.value.cell == imageSize
    ensures r.Ok? ==> forall i :: 0 <= i < |r.value.placements| ==>
              r.value.placements[i].x == SlotStart(i % ImagesPerRow, imageSize.width, margin) &&
              r.value.placements[i].y == SlotStart(i / ImagesPerRow, imageSize.height, margin)
  {
    if images == [] {
      return Err(NoImages);
    }
    var attempt := ResizeEach(images, imageSize);
    if attempt.Err? {
      return Err(attempt.error);
    }
    var resized := attempt.value;
    var cell := CellSize(resized);
    var canvas := CanvasFor(|resized|, ImagesPerRow, cell, margin);
    var placed := PasteAll(resized, cell, margin);
    r := Ok(Layout(canvas, cell, Rows(|resized|, ImagesPerRow), placed));
    UniformCell(resized, imageSize);
    forall k | 0 <= k < |placed|
      ensures placed[k].x == SlotStart(k % ImagesPerRow, imageSize.width, margin)
      ensures placed[k].y == SlotStart(k / ImagesPerRow, imageSize.height, margin)
    {
      UniformOffsetsZero(resized, ImagesPerRow, margin, k);
    }
  }

  // ---------------------------------------------------------------------------
  // Properties of the layout

  /** A pasted image covers the pixel (px, py). */
  predicate Covers(p: Placement, px: int, py: int)
  {
    p.x <= px < p.x + p.size.width && p.y <= py < p.y + p.size.height
  }

  /** No images: the error, before any canvas is computed. */
  lemma EmptyInputFails(imageSize: Size, margin: int)
    ensures CollageLayout([], imageSize, margin) == Err(NoImages)
  {
  }

  /** A target size with a width or height below 1 is the error of `resize`,
      before any canvas is computed, as soon as one image differs from it; a
      positive target, or images that all already have the target size, give
      a layout. */
  lemma EmptyTargetFails(images: seq<Size>, imageSize: Size, margin: int)
    requires images != []
    ensures CollageLayout(images, imageSize, margin) == Err(EmptyTargetSize) <==>
      (imageSize.width == 0 || imageSize.height == 0) && exists k :: 0 <= k < |images| && images[k] != imageSize
    ensures CollageLayout(images, imageSize, margin).Ok? <==>
      ResizableTo(imageSize) || forall k :: 0 <= k < |images| ==> images[k] == imageSize
  {
  }

  /** An image that already has a zero-sided target size is copied, not
      rejected: one 0 by 800 image gives an 800 by 1000 canvas. */
  lemma SameSizeCopied()
    ensures var r := CollageLayout([Size(0, 800)], Size(0, 800), DefaultMargin);
      && r.Ok? && r.value.cell == Size(0, 800) && r.value.canvas == Canvas(800, 1000)
  {
    assert Rows(1, ImagesPerRow) == 1;
  }

  /** The cell, the row count and the canvas size, as closed formulas. */
  lemma CanvasDimensions(sizes: seq<Size>, cols: nat, margin: int)
    requires cols >= 1 && |sizes| > 0
    ensures var l := ComputeLayout(sizes, cols, margin).value;
      && (forall i :: 0 <= i < |sizes| ==> sizes[i].width <= l.cell.width && sizes[i].height <= l.cell.height)
      && l.cell.width in Widths(sizes) && l.cell.height in Heights(sizes)
      && l.rows >= 1
      && l.rows * cols >= |sizes| > (l.rows - 1) * cols
      && l.canvas.width == cols * (l.cell.width + margin) + margin
      && l.canvas.height == l.rows * (l.cell.height + margin) + margin
  {
    var l := ComputeLayout(sizes, cols, margin).value;
    var i :| 0 <= i < |sizes| && sizes[i].width == l.cell.width;
    assert Widths(sizes)[i] == l.cell.width;
    var j :| 0 <= j < |sizes| && sizes[j].height == l.cell.height;
    assert Heights(sizes)[j] == l.cell.height;
  }

  /** The placement of image `i`: its row and column, and its paste coordinate. */
  lemma PlacementFormula(sizes: seq<Size>, cols: nat, margin: int, i: nat)
    requires cols >= 1 && i < |sizes|
    ensures var l := ComputeLayout(sizes, cols, margin).value;
      var p := l.placements[i];
      && p.index == i && p.size == sizes[i]
      && p.row == i / cols && p.col == i % cols
      && p.col < cols && p.row < l.rows && i == p.row * cols + p.col
      && p.x == margin + p.col * (l.cell.width + margin) + (l.cell.width - sizes[i].width) / 2
      && p.y == margin + p.row * (l.cell.height + margin) + (l.cell.height - sizes[i].height) / 2
  {
    var l := ComputeLayout(sizes, cols, margin).value;
    assert l.placements[i] == PlaceAt(i, sizes[i], cols, l.cell, margin);
    GridIndex(i, |sizes|, cols);
  }

  /** Each image is centred in its cell: the offsets are non-negative and
      leave at most one pixel more on the right (bottom) than on the left (top). */
  lemma OffsetsCentre(sizes: seq<Size>, cols: nat, margin: int, i: nat)
    requires cols >= 1 && i < |sizes|
    ensures var l := ComputeLayout(sizes, cols, margin).value;
      var p := l.placements[i];
      var ox := p.x - SlotStart(p.col, l.cell.width, margin);
      var oy := p.y - SlotStart(p.row, l.cell.height, margin);
      && 0 <= ox && 2 * ox + sizes[i].width <= l.cell.width <= 2 * ox + sizes[i].width + 1
      && 0 <= oy && 2 * oy + sizes[i].height <= l.cell.height <= 2 * oy + sizes[i].height + 1
  {
  }

  /** When every image has the same size, that size is the cell. */
  lemma UniformCell(sizes: seq<Size>, s: Size)
    requires |sizes| > 0
    requires forall i :: 0 <= i < |sizes| ==> sizes[i] == s
    ensures CellSize(sizes) == s
  {
  }

  /** When every image has the same size, every offset is zero and each image
      sits exactly at the corner of its cell. */
  lemma UniformOffsetsZero(sizes: seq<Size>, cols: nat, margin: int, i: nat)
    requires cols >= 1 && i < |sizes|
    requires forall k :: 0 <= k < |sizes| ==> sizes[k] == sizes[0]
    ensures var l := ComputeLayout(sizes, cols, margin).value;
      var p := l.placements[i];
      && l.cell == sizes[0]
      && p.x == SlotStart(i % cols, sizes[0].width, margin)
      && p.y == SlotStart(i / cols, sizes[0].height, margin)
  {
    UniformCell(sizes, sizes[0]);
  }

  /** After `create_collage`'s resize every offset is zero. */
  lemma ResizedOffsetsZero(images: seq<Size>, imageSize: Size, margin: int, i: nat)
    requires i < |images|
    ensures var r := CollageLayout(images, imageSize, margin);
      r.Ok? ==> var l := r.value;
      && l.cell == imageSize
      && l.placements[i].x == SlotStart(i % ImagesPerRow, imageSize.width, margin)
      && l.placements[i].y == SlotStart(i / ImagesPerRow, imageSize.height, margin)
  {
    var resized := ResizeAll(images, imageSize);
    UniformOffsetsZero(resized, ImagesPerRow, margin, i);
  }

  /** With a non-negative margin, every pasted image lies inside the canvas,
      at least a margin away from each edge. */
  lemma Containment(sizes: seq<Size>, cols: nat, margin: int, i: nat)
    requires cols >= 1 && margin >= 0 && i < |sizes|
    ensures var l := ComputeLayout(sizes, cols, margin).value;
      var p := l.placements[i];
      && 0 <= margin <= p.x && p.x + p.size.width + margin <= l.canvas.width
      && 0 <= margin <= p.y && p.y + p.size.height + margin <= l.canvas.height
  {
    var l := ComputeLayout(sizes, cols, margin).value;
    var p := l.placements[i];
    assert p == PlaceAt(i, sizes[i], cols, l.cell, margin);
    GridIndex(i, |sizes|, cols);
    AxisFits(p.col, cols, l.cell.width, margin, p.x, p.size.width);
    AxisFits(p.row, l.rows, l.cell.height, margin, p.y, p.size.height);
  }

  /** With a non-negative margin, no pixel is covered by two different images. */
  lemma NoOverlap(sizes: seq<Size>, cols: nat, margin: int, i: nat, j: nat, px: int, py: int)
    requires cols >= 1 && margin >= 0 && i < |sizes| && j < |sizes|
    ensures var ps := ComputeLayout(sizes, cols, margin).value.placements;
      Covers(ps[i], px, py) && Covers(ps[j], px, py) ==> i == j
  {
    var l := ComputeLayout(sizes, cols, margin).value;
    var pi, pj := l.placements[i], l.placements[j];
    if Covers(pi, px, py) && Covers(pj, px, py) {
      PlacementFormula(sizes, cols, margin, i);
      PlacementFormula(sizes, cols, margin, j);
      InCell(sizes, cols, margin, i);
      InCell(sizes, cols, margin, j);
      SameSlot(pi.col, pj.col, l.cell.width, margin, px);
      SameSlot(pi.row, pj.row, l.cell.height, margin, py);
    }
  }

  /** The end-to-end case of seven images: one row, canvas 6400 by 1000,
      image `i` at (100 + 900 i, 100). */
  lemma SevenImages(images: seq<Size>)
    requires |images| == 7
    ensures var r := CollageLayout(images, DefaultImageSize, DefaultMargin);
      && r.Ok? && r.value.rows == 1 && r.value.canvas == Canvas(6400, 1000)
      && forall i :: 0 <= i < 7 ==> r.value.placements[i].x == 100 + 900 * i && r.value.placements[i].y == 100
  {
    var r := CollageLayout(images, DefaultImageSize, DefaultMargin);
    assert Rows(7, ImagesPerRow) == 1;
    assert r.value.rows == 1;
    assert r.value.canvas == Canvas(6400, 1000);
    forall i | 0 <= i < 7
      ensures r.value.placements[i].x == 100 + 900 * i && r.value.placements[i].y == 100
    {
      FirstRowPlacement(images, i);
    }
  }

  /** Image `i` of the first row, with the defaults, starts at (100 + 900 i, 100). */
  lemma FirstRowPlacement(images: seq<Size>, i: nat)
    requires i < |images| && i < ImagesPerRow
    ensures var r := CollageLayout(images, DefaultImageSize, DefaultMargin);
      r.Ok? ==> r.value.placements[i].x == 100 + 900 * i && r.value.placements[i].y == 100
  {
    ResizedOffsetsZero(images, DefaultImageSize, DefaultMargin, i);
    assert i % ImagesPerRow == i && i / ImagesPerRow == 0;
    assert SlotStart(i, 800, 100) == 100 + 900 * i;
  }

  /** The end-to-end case of eight images: two rows, canvas 6400 by 1900, and
      the eighth image starts the second row at (100, 1000). */
  lemma EightImages(images: seq<Size>)
    requires |images| == 8
    ensures var r := CollageLayout(images, DefaultImageSize, DefaultMargin);
      && r.Ok? && r.value.rows == 2 && r.value.canvas == Canvas(6400, 1900)
      && r.value.placements[7].row == 1 && r.value.placements[7].col == 0
      && r.value.placements[7].x == 100 && r.value.placements[7].y == 1000
  {
    ResizedOffsetsZero(images, DefaultImageSize, DefaultMargin, 7);
  }

  // ---------------------------------------------------------------------------
  // Arithmetic helpers

  /** Image `i` of `n` has a column inside the grid and a row that the row
      count covers, and its row and column give back `i`. */
  lemma GridIndex(i: nat, n: nat, cols: nat)
    requires cols >= 1 && i < n
    ensures i % cols < cols && i / cols < Rows(n, cols) && i == (i / cols) * cols + i % cols
  {
    var q := i / cols;
    assert q * cols <= i;
    MulMono(Rows(n, cols), q, cols);
  }

  lemma MulMono(a: nat, b: nat, k: nat)
    ensures a <= b ==> a * k <= b * k
  {
  }

  /** A placed image lies within its cell. */
  lemma InCell(sizes: seq<Size>, cols: nat, margin: int, i: nat)
    requires cols >= 1 && i < |sizes|
    ensures var l := ComputeLayout(sizes, cols, margin).value;
      var p := l.placements[i];
      && SlotStart(p.col, l.cell.width, margin) <= p.x
      && p.x + p.size.width <= SlotStart(p.col, l.cell.width, margin) + l.cell.width
      && SlotStart(p.row, l.cell.height, margin) <= p.y
      && p.y + p.size.height <= SlotStart(p.row, l.cell.height, margin) + l.cell.height
  {
  }

  /** Slot `a` ends before slot `b` starts, for `a < b`. */
  lemma SlotsOrdered(a: nat, b: nat, cell: nat, margin: int)
    requires margin >= 0 && a < b
    ensures SlotStart(a, cell, margin) + cell <= SlotStart(b, cell, margin)
  {
    MulMono(a + 1, b, cell + margin);
  }

  /** A coordinate inside two slots means they are the same slot. */
  lemma SameSlot(a: nat, b: nat, cell: nat, margin: int, v: int)
    requires margin >= 0
    requires SlotStart(a, cell, margin) <= v < SlotStart(a, cell, margin) + cell
    requires SlotStart(b, cell, margin) <= v < SlotStart(b, cell, margin) + cell
    ensures a == b
  {
    if a < b {
      SlotsOrdered(a, b, cell, margin);
    } else if b < a {
      SlotsOrdered(b, a, cell, margin);
    }
  }

  /** A segment inside slot `k` of `count` lies at least a margin from
      either end of the whole axis. */
  lemma AxisFits(k: nat, count: nat, cell: nat, margin: int, start: int, extent: nat)
    requires margin >= 0 && k < count
    requires SlotStart(k, cell, margin) <= start && start + extent <= SlotStart(k, cell, margin) + cell
    ensures margin <= start && start + extent + margin <= count * (cell + margin) + margin
  {
    MulMono(k + 1, count, cell + margin);
  }
}
