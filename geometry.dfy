/**
 * The layout arithmetic and the geometric queries of a GUI instance: the eight
 * scale/offset descriptor fields, the four cached absolute bounds, the
 * parent-relative formula that turns one into the other, and the strict
 * point-in-rectangle and rectangle-overlap tests.
 */
module Geometry {

  /** Absolute rectangle on the canvas: the cached `x`, `y`, `w`, `h` of an instance. */
  datatype Bounds = Bounds(x: real, y: real, w: real, h: real)

  /** Names of the eight descriptor fields, one per getter/setter pair. */
  datatype Field = XScale | XOff | YScale | YOff | WScale | WOff | HScale | HOff

  /** The layout descriptor: a scale (fraction of the parent) and an offset (pixels) per axis. */
  datatype Layout = Layout(xscale: real, xoff: real, yscale: real, yoff: real,
                           wscale: real, woff: real, hscale: real, hoff: real)
  {
    /** The getter of field `f`. */
    function Get(f: Field): real
    {
      match f
      case XScale => xscale
      case XOff => xoff
      case YScale => yscale
      case YOff => yoff
      case WScale => wscale
      case WOff => woff
      case HScale => hscale
      case HOff => hoff
    }

    /**
     * The descriptor after the setter of field `f` stored `v`: that field's getter
     * reads `v` and every other getter reads what it read before; storing what the
     * getter already returns changes nothing.
     */
    function With(f: Field, v: real): (r: Layout)
      ensures r.Get(f) == v
      ensures forall g | g != f :: r.Get(g) == Get(g)
      ensures v == Get(f) ==> r == this
    {
      match f
      case XScale => this.(xscale := v)
      case XOff => this.(xoff := v)
      case YScale => this.(yscale := v)
      case YOff => this.(yoff := v)
      case WScale => this.(wscale := v)
      case WOff => this.(woff := v)
      case HScale => this.(hscale := v)
      case HOff => this.(hoff := v)
    }
  }

  /** A freshly constructed instance has all eight descriptor fields at zero. */
  const ZeroLayout := Layout(0.0, 0.0, 0.0, 0.0, 0.0, 0.0, 0.0, 0.0)

  /** ... and all four bounds at zero. */
  const ZeroBounds := Bounds(0.0, 0.0, 0.0, 0.0)

  /** The frame of an instance without a parent: the canvas, with origin (0, 0). */
  function Viewport(width: real, height: real): Bounds
  {
    Bounds(0.0, 0.0, width, height)
  }

  /**
   * The parent-relative layout formula: each coordinate is the frame's origin plus
   * scale times the frame's extent plus offset; each extent is scale times the
   * frame's extent plus offset. Nothing is clamped: with zero scales an instance
   * sits at the frame's origin plus its offsets and is exactly its offsets in size.
   */
  function Resolve(l: Layout, frame: Bounds): (r: Bounds)
    ensures l.xscale == 0.0 && l.yscale == 0.0 ==> r.x == frame.x + l.xoff && r.y == frame.y + l.yoff
    ensures l.wscale == 0.0 && l.hscale == 0.0 ==> r.w == l.woff && r.h == l.hoff
  {
    Bounds(frame.x + l.xscale * frame.w + l.xoff,
           frame.y + l.yscale * frame.h + l.yoff,
           l.wscale * frame.w + l.woff,
           l.hscale * frame.h + l.hoff)
  }

  /** A root on an 800 by 600 canvas with xscale 0.5 and xoff 10 lands at x = 410. */
  lemma RootExample()
    ensures Resolve(ZeroLayout.With(XScale, 0.5).With(XOff, 10.0), Viewport(800.0, 600.0)).x == 410.0
  {
    var l := ZeroLayout.With(XScale, 0.5).With(XOff, 10.0);
    assert l.xscale == 0.5 && l.xoff == 10.0;
    assert Resolve(l, Viewport(800.0, 600.0)).x == 0.0 + 0.5 * 800.0 + 10.0;
  }

  /** Scales (0, 0, 1, 1) with zero offsets fill the frame exactly. */
  lemma ResolveFill(frame: Bounds)
    ensures Resolve(ZeroLayout.With(WScale, 1.0).With(HScale, 1.0), frame) == frame
  {
  }

  /**
   * With scales "from 0 to 1" that leave room for the extent (scale of the
   * position plus scale of the size at most 1) and no offsets, the resolved
   * rectangle lies inside a frame of non-negative size.
   */
  lemma ResolveWithinFrame(l: Layout, frame: Bounds)
    requires frame.w >= 0.0 && frame.h >= 0.0
    requires 0.0 <= l.xscale && 0.0 <= l.wscale && l.xscale + l.wscale <= 1.0 && l.xoff == 0.0 && l.woff == 0.0
    requires 0.0 <= l.yscale && 0.0 <= l.hscale && l.yscale + l.hscale <= 1.0 && l.yoff == 0.0 && l.hoff == 0.0
    ensures var r := Resolve(l, frame);
            frame.x <= r.x && r.x + r.w <= frame.x + frame.w && 0.0 <= r.w &&
            frame.y <= r.y && r.y + r.h <= frame.y + frame.h && 0.0 <= r.h
  {
    AxisWithin(frame.x, frame.w, l.xscale, l.xoff, l.wscale, l.woff);
    AxisWithin(frame.y, frame.h, l.yscale, l.yoff, l.hscale, l.hoff);
  }

  /** One axis of `ResolveWithinFrame`: position `start + s * e + o` and extent `t * e + u`. */
  lemma AxisWithin(start: real, e: real, s: real, o: real, t: real, u: real)
    requires e >= 0.0 && 0.0 <= s && 0.0 <= t && s + t <= 1.0 && o == 0.0 && u == 0.0
    ensures start <= start + s * e + o && 0.0 <= t * e + u
    ensures (start + s * e + o) + (t * e + u) <= start + e
  {
    var a, b := s * e, t * e;
    assert 0.0 <= a && 0.0 <= b;
    assert a + b == (s + t) * e;
    assert (s + t) * e <= e;
  }

  /**
   * The strict point-in-rectangle test of an instance's bounds: only a rectangle of
   * positive size holds a point, and no point of its outline counts.
   */
  function IntersectsPoint(b: Bounds, px: real, py: real): (r: bool)
    ensures r ==> 0.0 < b.w && 0.0 < b.h
    ensures px == b.x || px == b.x + b.w || py == b.y || py == b.y + b.h ==> !r
  {
    px > b.x && py > b.y && px < b.x + b.w && py < b.y + b.h
  }

  /** Some point passes the test exactly when both extents are positive. */
  lemma InteriorNonEmpty(b: Bounds)
    ensures (exists px, py :: IntersectsPoint(b, px, py)) <==> b.w > 0.0 && b.h > 0.0
  {
    if b.w > 0.0 && b.h > 0.0 {
      assert IntersectsPoint(b, b.x + b.w / 2.0, b.y + b.h / 2.0);
    }
  }

  /**
   * The overlap test of `this` (here `a`) against `other` (here `b`) with strict
   * inequalities, reading `this.y` where the source reads the undefined `me.y`.
   * Two rectangles overlap only if their widths, and their heights, add up to
   * something positive.
   */
  function Intersects(a: Bounds, b: Bounds): (r: bool)
    ensures r ==> 0.0 < a.w + b.w && 0.0 < a.h + b.h
  {
    b.x < a.x + a.w && b.y < a.y + a.h && b.x + b.w > a.x && b.y + b.h > a.y
  }

  /** How a call of the overlap test as written completes. */
  datatype Completion = Normal(value: bool) | ReferenceError

  /**
   * The overlap test as written: `&&` short-circuits, so a false first comparison
   * returns false; otherwise the second comparison reads the undeclared `me` and throws.
   * It never returns true.
   */
  function IntersectsAsWritten(a: Bounds, b: Bounds): (r: Completion)
    ensures r != Normal(true)
    ensures r == ReferenceError <==> b.x < a.x + a.w
  {
    if !(b.x < a.x + a.w) then Normal(false) else ReferenceError
  }

  /** As written, every overlapping pair throws. */
  lemma IntersectsAsWrittenThrowsOnOverlap(a: Bounds, b: Bounds)
    ensures Intersects(a, b) ==> IntersectsAsWritten(a, b) == ReferenceError
  {
  }

  /** Concrete input: two equal unit squares overlap, yet the test as written throws. */
  lemma IntersectsAsWrittenExample()
    ensures Intersects(Bounds(0.0, 0.0, 1.0, 1.0), Bounds(0.0, 0.0, 1.0, 1.0))
    ensures IntersectsAsWritten(Bounds(0.0, 0.0, 1.0, 1.0), Bounds(0.0, 0.0, 1.0, 1.0)) == ReferenceError
  {
  }

  /** Overlap does not depend on which rectangle is `this`. */
  lemma IntersectsSymmetric(a: Bounds, b: Bounds)
    ensures Intersects(a, b) == Intersects(b, a)
  {
  }

  /**
   * For rectangles of positive size the overlap test agrees with the point test:
   * they overlap exactly when some point lies strictly inside both.
   */
  lemma IntersectsIffCommonPoint(a: Bounds, b: Bounds)
    requires a.w > 0.0 && a.h > 0.0 && b.w > 0.0 && b.h > 0.0
    ensures Intersects(a, b) <==> exists px, py :: IntersectsPoint(a, px, py) && IntersectsPoint(b, px, py)
  {
    if Intersects(a, b) {
      var lx := if a.x < b.x then b.x else a.x;
      var hx := if a.x + a.w < b.x + b.w then a.x + a.w else b.x + b.w;
      var ly := if a.y < b.y then b.y else a.y;
      var hy := if a.y + a.h < b.y + b.h then a.y + a.h else b.y + b.h;
      assert IntersectsPoint(a, (lx + hx) / 2.0, (ly + hy) / 2.0) && IntersectsPoint(b, (lx + hx) / 2.0, (ly + hy) / 2.0);
    }
  }
}
