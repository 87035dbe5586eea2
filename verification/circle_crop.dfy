/**
 * Circular region extraction: the largest disc centred in the image is kept,
 * everything outside it is set to 0 in a copy, and the copy is cut down to the
 * disc's bounding square. Images are single-channel grids of naturals.
 */
module CircleCrop {
  import opened Wrappers

  /** `height` rows of `width` pixel values each. */
  datatype Image = Image(height: nat, width: nat, rows: seq<seq<nat>>) {
    predicate Valid() {
      |rows| == height && forall y :: 0 <= y < |rows| ==> |rows[y]| == width
    }
  }

  predicate MaskFits(mask: seq<seq<bool>>, h: nat, w: nat) {
    |mask| == h && forall y :: 0 <= y < |mask| ==> |mask[y]| == w
  }

  function Sq(a: int): int {
    a * a
  }

  function Min4(a: int, b: int, c: int, d: int): int {
    var ab := if a <= b then a else b;
    var cd := if c <= d then c else d;
    if ab <= cd then ab else cd
  }

  /**
   * `sqrt((x - cx)**2 + (y - cy)**2) <= r`, without the square root: a negative
   * radius holds no pixel, otherwise squared distances are compared exactly.
   */
  predicate InDisc(x: int, y: int, cx: int, cy: int, r: int) {
    0 <= r && Sq(x - cx) + Sq(y - cy) <= Sq(r)
  }

  /** The mask's default centre, `(int(w/2), int(h/2))`, computed through true division. */
  function DefaultCentre(h: nat, w: nat): (int, int) {
    (((w as real) / 2.0).Floor, ((h as real) / 2.0).Floor)
  }

  /** The radius that reaches the nearest image edge from centre `c`. */
  function EdgeRadius(h: nat, w: nat, c: (int, int)): int {
    Min4(c.0, c.1, w - c.0, h - c.1)
  }

  /** The centre the crop uses: `(w // 2, h // 2)`. */
  function CropCentre(h: nat, w: nat): (int, int) {
    (w / 2, h / 2)
  }

  function CropRadius(h: nat, w: nat): int {
    EdgeRadius(h, w, CropCentre(h, w))
  }

  /**
   * `create_circular_mask(h, w, center, radius)`: an `h` by `w` grid, true on the
   * pixels of the disc. A missing centre or radius takes its default.
   */
  function CircularMask(h: nat, w: nat, center: Option<(int, int)>, radius: Option<int>): (mask: seq<seq<bool>>)
    ensures MaskFits(mask, h, w)
    ensures var c := if center.Some? then center.value else DefaultCentre(h, w);
            var r := if radius.Some? then radius.value else EdgeRadius(h, w, c);
            forall y, x :: 0 <= y < h && 0 <= x < w ==> (mask[y][x] <==> InDisc(x, y, c.0, c.1, r))
  {
    var c := if center.Some? then center.value else DefaultCentre(h, w);
    var r := if radius.Some? then radius.value else EdgeRadius(h, w, c);
    seq(h, y => seq(w, x => InDisc(x, y, c.0, c.1, r)))
  }

  /** `img[~mask] = 0` on a copy: pixels under the mask keep their value, the rest become 0. */
  function Masked(img: Image, mask: seq<seq<bool>>): (out: Image)
    requires img.Valid() && MaskFits(mask, img.height, img.width)
    ensures out.Valid() && out.height == img.height && out.width == img.width
    ensures forall y, x :: 0 <= y < img.height && 0 <= x < img.width ==>
              out.rows[y][x] == if mask[y][x] then img.rows[y][x] else 0
  {
    Image(img.height, img.width,
      seq(img.height, y requires 0 <= y < img.height =>
        seq(img.width, x requires 0 <= x < img.width =>
          if mask[y][x] then img.rows[y][x] else 0)))
  }

  /** `img[y0:y0+n, x0:x0+n]` for a window that lies inside the image. */
  function Window(img: Image, y0: int, x0: int, n: nat): (out: Image)
    requires img.Valid()
    requires 0 <= y0 && y0 + n <= img.height && 0 <= x0 && x0 + n <= img.width
    ensures out.Valid() && out.height == n && out.width == n
    ensures forall i, j :: 0 <= i < n && 0 <= j < n ==> out.rows[i][j] == img.rows[y0 + i][x0 + j]
  {
    Image(n, n, seq(n, i requires 0 <= i < n => seq(n, j requires 0 <= j < n => img.rows[y0 + i][x0 + j])))
  }

  /**
   * The radius reaches the nearer of the two half-sides, and the square of side
   * `2r` around the centre lies inside the image, so the crop never wraps or clips.
   */
  lemma RadiusBounds(h: nat, w: nat)
    ensures var (cx, cy) := CropCentre(h, w);
            var r := CropRadius(h, w);
            && r == (if w / 2 <= h / 2 then w / 2 else h / 2)
            && 0 <= r
            && 0 <= cx - r && cx + r <= w
            && 0 <= cy - r && cy + r <= h
  {
  }

  /** The mask's defaults coincide with the centre and radius the crop computes itself. */
  lemma DefaultMaskIsCropMask(h: nat, w: nat)
    ensures DefaultCentre(h, w) == CropCentre(h, w)
    ensures CircularMask(h, w, None, None)
         == CircularMask(h, w, Some(CropCentre(h, w)), Some(CropRadius(h, w)))
  {
    HalfFloor(w);
    HalfFloor(h);
  }

  lemma HalfFloor(n: nat)
    ensures ((n as real) / 2.0).Floor == n / 2
  {
    var q := n / 2;
    assert n as real == 2.0 * (q as real) + ((n % 2) as real);
    assert (q as real) <= (n as real) / 2.0 < (q as real) + 1.0;
  }

  /**
   * The crop of `crop_circle_from_image`: mask with the centred disc, then cut out
   * the half-open square `[cy - r, cy + r) x [cx - r, cx + r)`, a square of side `2r`.
   */
  function CropCircle(img: Image): (out: Image)
    requires img.Valid()
    ensures var r := CropRadius(img.height, img.width);
            out.Valid() && out.height == 2 * r && out.width == 2 * r
  {
    var h, w := img.height, img.width;
    var (cx, cy) := CropCentre(h, w);
    var r := CropRadius(h, w);
    RadiusBounds(h, w);
    Window(Masked(img, CircularMask(h, w, Some((cx, cy)), Some(r))), cy - r, cx - r, 2 * r)
  }

  /**
   * In the crop the disc is centred at `(r, r)`: inside it every pixel is the
   * source pixel at the matching place, outside it every pixel is 0.
   */
  lemma CropPixels(img: Image)
    requires img.Valid()
    ensures var (cx, cy) := CropCentre(img.height, img.width);
            var r := CropRadius(img.height, img.width);
            var out := CropCircle(img);
            forall i, j :: 0 <= i < 2 * r && 0 <= j < 2 * r ==>
              && 0 <= cy - r + i < img.height
              && 0 <= cx - r + j < img.width
              && out.rows[i][j] == if InDisc(j, i, r, r, r) then img.rows[cy - r + i][cx - r + j] else 0
  {
    var (cx, cy) := CropCentre(img.height, img.width);
    var r := CropRadius(img.height, img.width);
    forall i, j | 0 <= i < 2 * r && 0 <= j < 2 * r
      ensures && 0 <= cy - r + i < img.height
              && 0 <= cx - r + j < img.width
              && CropCircle(img).rows[i][j] == if InDisc(j, i, r, r, r) then img.rows[cy - r + i][cx - r + j] else 0
    {
      CropPixelAt(img, cx, cy, r, i, j);
    }
  }

  lemma CropPixelAt(img: Image, cx: int, cy: int, r: int, i: int, j: int)
    requires img.Valid() && (cx, cy) == CropCentre(img.height, img.width) && r == CropRadius(img.height, img.width)
    requires 0 <= i < 2 * r && 0 <= j < 2 * r
    ensures 0 <= cy - r + i < img.height && 0 <= cx - r + j < img.width
    ensures CropCircle(img).rows[i][j] == if InDisc(j, i, r, r, r) then img.rows[cy - r + i][cx - r + j] else 0
  {
    var h, w := img.height, img.width;
    RadiusBounds(h, w);
    var mask := CircularMask(h, w, Some((cx, cy)), Some(r));
    var masked := Masked(img, mask);
    assert CropCircle(img) == Window(masked, cy - r, cx - r, 2 * r);
    assert mask[cy - r + i][cx - r + j] == InDisc(cx - r + j, cy - r + i, cx, cy, r);
    DiscShift(cx, cy, r, i, j);
  }

  /** The disc test depends only on the offsets from the centre. */
  lemma DiscShift(cx: int, cy: int, r: int, i: int, j: int)
    ensures InDisc(cx - r + j, cy - r + i, cx, cy, r) == InDisc(j, i, r, r, r)
  {
    assert cx - r + j - cx == j - r && cy - r + i - cy == i - r;
  }

  /** Two valid images with the same shape and the same pixels are the same image. */
  lemma ImageEq(a: Image, b: Image)
    requires a.Valid() && b.Valid() && a.height == b.height && a.width == b.width
    requires forall y, x :: 0 <= y < a.height && 0 <= x < a.width ==> a.rows[y][x] == b.rows[y][x]
    ensures a == b
  {
    assert forall y :: 0 <= y < a.height ==> a.rows[y] == b.rows[y];
  }

  /** Cropping an already cropped image changes nothing: centre `(r, r)`, radius `r`, same grid. */
  lemma CropIdempotent(img: Image)
    requires img.Valid()
    ensures var out := CropCircle(img);
            && CropCentre(out.height, out.width) == (CropRadius(img.height, img.width), CropRadius(img.height, img.width))
            && CropRadius(out.height, out.width) == CropRadius(img.height, img.width)
            && CropCircle(out) == out
  {
    var out := CropCircle(img);
    var r := CropRadius(img.height, img.width);
    RadiusBounds(img.height, img.width);
    assert CropCentre(out.height, out.width) == (r, r);
    assert CropRadius(out.height, out.width) == r;
    var again := CropCircle(out);
    CropPixels(img);
    CropPixels(out);
    ImageEq(again, out);
  }

  lemma SqNonNegative(a: int)
    ensures Sq(a) >= 0
  {
  }

  lemma SqMonotone(a: int, b: int)
    requires 0 <= a <= b
    ensures Sq(a) <= Sq(b)
    ensures a < b ==> Sq(a) < Sq(b)
  {
    assert Sq(b) - Sq(a) == (b - a) * (b + a);
  }

  lemma SqZero(a: int)
    requires Sq(a) <= 0
    ensures a == 0
  {
    if a != 0 {
      SqMonotone(0, if a < 0 then -a else a);
    }
  }

  /**
   * Because the disc test is inclusive and the slice is half-open, the pixels of
   * the image that lie in the disc but not in the crop are exactly `(cx + r, cy)`
   * and `(cx, cy + r)`: the right and bottom ends of the disc (the centre itself
   * when `r` is 0).
   */
  lemma CropDropsBoundary(h: nat, w: nat, x: int, y: int)
    requires 0 <= x < w && 0 <= y < h
    ensures var (cx, cy) := CropCentre(h, w);
            var r := CropRadius(h, w);
            (InDisc(x, y, cx, cy, r) && !(cx - r <= x < cx + r && cy - r <= y < cy + r))
            <==> ((x, y) == (cx + r, cy) || (x, y) == (cx, cy + r))
  {
    var (cx, cy) := CropCentre(h, w);
    var r := CropRadius(h, w);
    RadiusBounds(h, w);
    if (x, y) == (cx + r, cy) || (x, y) == (cx, cy + r) {
      assert Sq(0) == 0;
      assert InDisc(x, y, cx, cy, r);
    }
    if InDisc(x, y, cx, cy, r) && !(cx - r <= x < cx + r && cy - r <= y < cy + r) {
      var dx, dy := x - cx, y - cy;
      Apart(dx, dy, r);
      Apart(dy, dx, r);
    }
  }

  /** A lattice point in the disc of radius `r` whose first offset reaches `r` or beyond lies on the axis. */
  lemma Apart(a: int, b: int, r: int)
    requires 0 <= r && Sq(a) + Sq(b) <= Sq(r)
    ensures -r <= a <= r
    ensures a == r ==> b == 0
  {
    SqNonNegative(b);
    SqNonNegative(a);
    var m := if a < 0 then -a else a;
    assert Sq(m) == Sq(a);
    if m > r {
      SqMonotone(r, m);
    }
    if a == r {
      SqZero(b);
    }
  }

  /** The pixel grid currently held by a buffer. */
  function Snapshot(a: array2<nat>): (img: Image)
    reads a
    ensures img.Valid() && img.height == a.Length0 && img.width == a.Length1
    ensures forall y, x :: 0 <= y < a.Length0 && 0 <= x < a.Length1 ==> img.rows[y][x] == a[y, x]
  {
    Image(a.Length0, a.Length1,
      seq(a.Length0, y requires 0 <= y < a.Length0 reads a =>
        seq(a.Length1, x requires 0 <= x < a.Length1 reads a => a[y, x])))
  }

  /** `img.copy()`: a new buffer with the same pixels. */
  method CopyImage(src: array2<nat>) returns (dst: array2<nat>)
    ensures fresh(dst)
    ensures Snapshot(dst) == Snapshot(src)
  {
    dst := new nat[src.Length0, src.Length1];
    for y := 0 to src.Length0
      invariant forall i, j :: 0 <= i < y && 0 <= j < src.Length1 ==> dst[i, j] == src[i, j]
    {
      for x := 0 to src.Length1
        invariant forall i, j :: 0 <= i < y && 0 <= j < src.Length1 ==> dst[i, j] == src[i, j]
        invariant forall j :: 0 <= j < x ==> dst[y, j] == src[y, j]
      {
        dst[y, x] := src[y, x];
      }
    }
    ImageEq(Snapshot(dst), Snapshot(src));
  }

  /** `buf[~mask] = 0` in place. */
  method ApplyMask(buf: array2<nat>, mask: seq<seq<bool>>)
    requires MaskFits(mask, buf.Length0, buf.Length1)
    modifies buf
    ensures Snapshot(buf) == Masked(old(Snapshot(buf)), mask)
  {
    ghost var before := Snapshot(buf);
    for y := 0 to buf.Length0
      invariant forall i, j :: 0 <= i < y && 0 <= j < buf.Length1 ==>
                  buf[i, j] == if mask[i][j] then before.rows[i][j] else 0
      invariant forall i, j :: y <= i < buf.Length0 && 0 <= j < buf.Length1 ==> buf[i, j] == before.rows[i][j]
    {
      for x := 0 to buf.Length1
        invariant forall i, j :: 0 <= i < y && 0 <= j < buf.Length1 ==>
                    buf[i, j] == if mask[i][j] then before.rows[i][j] else 0
        invariant forall j :: 0 <= j < x ==> buf[y, j] == if mask[y][j] then before.rows[y][j] else 0
        invariant forall i, j :: y <= i < buf.Length0 && 0 <= j < buf.Length1 && (i > y || j >= x) ==>
                    buf[i, j] == before.rows[i][j]
      {
        if !mask[y][x] {
          buf[y, x] := 0;
        }
      }
    }
    ImageEq(Snapshot(buf), Masked(before, mask));
  }

  /** `src[y0:y0+n, x0:x0+n]` into a new buffer. */
  method CopyWindow(src: array2<nat>, y0: int, x0: int, n: nat) returns (out: array2<nat>)
    requires 0 <= y0 && y0 + n <= src.Length0 && 0 <= x0 && x0 + n <= src.Length1
    ensures fresh(out)
    ensures Snapshot(out) == Window(old(Snapshot(src)), y0, x0, n)
  {
    out := new nat[n, n];
    for i := 0 to n
      invariant forall y, x :: 0 <= y < i && 0 <= x < n ==> out[y, x] == src[y0 + y, x0 + x]
    {
      for j := 0 to n
        invariant forall y, x :: 0 <= y < i && 0 <= x < n ==> out[y, x] == src[y0 + y, x0 + x]
        invariant forall x :: 0 <= x < j ==> out[i, x] == src[y0 + i, x0 + x]
      {
        out[i, j] := src[y0 + i, x0 + j];
      }
    }
    ImageEq(Snapshot(out), Window(Snapshot(src), y0, x0, n));
  }

  /** The crop is the window of the masked image around the centre. */
  lemma CropIsMaskedWindow(img: Image)
    requires img.Valid()
    ensures var (cx, cy) := CropCentre(img.height, img.width);
            var r := CropRadius(img.height, img.width);
            && 0 <= cy - r && cy + r <= img.height && 0 <= cx - r && cx + r <= img.width
            && CropCircle(img)
               == Window(Masked(img, CircularMask(img.height, img.width, Some((cx, cy)), Some(r))), cy - r, cx - r, 2 * r)
  {
    RadiusBounds(img.height, img.width);
  }

  /**
   * `crop_circle_from_image` after loading: copy, zero outside the centred disc,
   * slice out the bounding square. The source buffer is left as it was.
   */
  method CropCircleFromImage(img: array2<nat>) returns (out: array2<nat>)
    ensures fresh(out)
    ensures Snapshot(out) == CropCircle(Snapshot(img))
  {
    ghost var source := Snapshot(img);
    var h, w := img.Length0, img.Length1;
    var cx, cy := w / 2, h / 2;
    var r := Min4(cx, cy, w - cx, h - cy);
    RadiusBounds(h, w);
    var mask := CircularMask(h, w, Some((cx, cy)), Some(r));
    var masked := CopyImage(img);
    ApplyMask(masked, mask);
    ghost var maskedImage := Snapshot(masked);
    assert maskedImage.Valid() && maskedImage.height == h && maskedImage.width == w;
    var top, left, side := cy - r, cx - r, 2 * r;
    out := CopyWindow(masked, top, left, side);
    ghost var cut := Snapshot(out);
    assert cut == Window(maskedImage, top, left, side);
    CropSteps(source, mask, maskedImage, cut, cx, cy, r, top, left, side);
  }

  /** Masking with the centred disc and then cutting out its square is the crop. */
  lemma CropSteps(source: Image, mask: seq<seq<bool>>, maskedImage: Image, cut: Image,
                  cx: int, cy: int, r: int, top: int, left: int, side: nat)
    requires source.Valid() && (cx, cy) == CropCentre(source.height, source.width)
    requires r == CropRadius(source.height, source.width)
    requires mask == CircularMask(source.height, source.width, Some((cx, cy)), Some(r))
    requires maskedImage == Masked(source, mask)
    requires top == cy - r && left == cx - r && side == 2 * r
    requires 0 <= top && top + side <= source.height && 0 <= left && left + side <= source.width
    requires cut == Window(maskedImage, top, left, side)
    ensures cut == CropCircle(source)
  {
    CropIsMaskedWindow(source);
  }
}
