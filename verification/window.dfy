/** The window record of include/window.h and the per-window helpers of
    src/window.c that do not touch the window list: the damaged-ratio
    accumulator, the border-inclusive size, visibility against the
    screen, the cached rectangular-shape answer and the release of the
    window pixmap. Regions, pixmaps and damage objects are XIDs the
    server interprets; the model only records which one a window holds. */
module Window {
  import opened Wrappers
  import opened XTypes
  import opened Render

  /** `WINDOW_FULLY_DAMAGED_RATIO` */
  const FullyDamagedRatio: real := 0.9

  /** `map_state` of the GetWindowAttributes reply */
  datatype MapState = Unmapped | Unviewable | Viewable

  /** The part of `xcb_get_window_attributes_reply_t` the compositor uses;
      `inputOnly` is `_class == XCB_WINDOW_CLASS_INPUT_ONLY` */
  datatype Attributes = Attributes(mapState: MapState, overrideRedirect: bool, inputOnly: bool)

  /** The identity of a `window_t` object (its address in the source). Two
      objects may carry the same X id, so the list and the index refer to
      windows by handle. */
  type Handle = nat

  /** `window_t`. The `next` link is the order of the window sequence;
      `shapePending` stands for a non-zero `shape_cookie.sequence`; the
      `short` damage counter is kept as a 16-bit signed integer and
      `damaged_ratio` as a real. */
  datatype Window = Window(
    handle: Handle,
    id: Xid,
    attributes: Option<Attributes>,
    geometry: Option<Geometry>,
    region: Xid,
    shapePending: bool,
    isRectangular: bool,
    damage: Xid,
    damaged: bool,
    ratio: real,
    counter: I16,
    pixmap: Xid,
    rendering: Option<RenderWindow>)

  /** The object `window_list_append` allocates with `calloc`: every field
      zero, NULL or false except the id */
  function NewWindow(h: Handle, id: Xid): Window {
    Window(h, id, None, None, NONE, false, false, NONE, false, 0.0, 0, NONE, None)
  }

  /** The window's area in pixels, border excluded */
  function Area(g: Geometry): int {
    g.width * g.height
  }

  /** `window_get_damaged_ratio`: adds the fraction of the window covered
      by the damaged rectangle to the stored ratio; the new ratio is also
      the value returned. The window size is at least 1x1, so the division
      is defined. */
  function DamagedRatio(w: Window, area: Rectangle): (r: Window)
    requires w.geometry.Some?
    ensures r == w.(ratio := r.ratio)
    ensures r.ratio >= w.ratio
    ensures (r.ratio - w.ratio) * Area(w.geometry.value) as real == (area.width * area.height) as real
  {
    var g := w.geometry.value;
    AreaPositive(g);
    w.(ratio := w.ratio + (area.width * area.height) as real / Area(g) as real)
  }

  /** `window_width_with_border`: width plus both borders, truncated to 16
      bits */
  function WidthWithBorder(g: Geometry): (r: U16)
    ensures (r - (g.width + 2 * g.borderWidth)) % 0x1_0000 == 0
    ensures g.width + 2 * g.borderWidth < 0x1_0000 ==> r == g.width + 2 * g.borderWidth
  {
    ToU16(g.width + g.borderWidth * 2)
  }

  /** `window_height_with_border` */
  function HeightWithBorder(g: Geometry): (r: U16)
    ensures (r - (g.height + 2 * g.borderWidth)) % 0x1_0000 == 0
    ensures g.height + 2 * g.borderWidth < 0x1_0000 ==> r == g.height + 2 * g.borderWidth
  {
    ToU16(g.height + g.borderWidth * 2)
  }

  /** `window_is_visible`: the window has a geometry and its rectangle,
      border excluded, reaches into the screen */
  predicate IsVisible(w: Window, screenWidth: U16, screenHeight: U16) {
    && w.geometry.Some?
    && w.geometry.value.x + w.geometry.value.width >= 1
    && w.geometry.value.y + w.geometry.value.height >= 1
    && w.geometry.value.x < screenWidth
    && w.geometry.value.y < screenHeight
  }

  /** `window_is_rectangular`: without a pending shape fetch the cached
      answer is returned; otherwise the fetched region decides (at most one
      rectangle, or no reply at all, means rectangular), the answer is
      cached and the fetch is no longer pending. `reply` is the number of
      rectangles in the FetchRegion reply, `None` when there is no reply. */
  function IsRectangular(w: Window, reply: Option<nat>): (r: (Window, bool))
    ensures !w.shapePending ==> r == (w, w.isRectangular)
    ensures w.shapePending ==> (r.1 <==> reply.None? || reply.value <= 1)
    ensures r.0 == w.(shapePending := false, isRectangular := r.1)
  {
    if !w.shapePending then (w, w.isRectangular)
    else
      var isRect := match reply
        case Some(n) => n <= 1
        case None => true;
      (w.(shapePending := false, isRectangular := isRect), isRect)
  }

  /** `window_free_pixmap`: a held pixmap is released together with the
      backend picture made from it; without a pixmap nothing happens */
  function FreePixmap(w: Window): (r: Window)
    ensures r.pixmap == NONE
    ensures r == w.(pixmap := NONE, rendering := r.rendering)
    ensures w.pixmap == NONE ==> r == w
    ensures w.pixmap != NONE ==> r.rendering == FreeWindowPixmap(w.rendering)
    ensures forall o :: Referenced(r.rendering, o) == Referenced(w.rendering, o)
  {
    if w.pixmap != NONE then w.(pixmap := NONE, rendering := FreeWindowPixmap(w.rendering)) else w
  }

  // ---------------------------------------------------------------------
  // Properties
  // ---------------------------------------------------------------------

  lemma AreaPositive(g: Geometry)
    ensures Area(g) >= 1
  {
    assert g.width * g.height >= 1 * g.height;
  }

  lemma ProductBounds(a: nat, b: nat, c: nat, d: nat)
    ensures a <= c && b <= d ==> a * b <= c * d
    ensures a >= c && b >= d ==> a * b >= c * d
  {
    if a <= c && b <= d {
      assert a * b <= c * b;
      assert c * b <= c * d;
    }
    if a >= c && b >= d {
      assert a * b >= c * b;
      assert c * b >= c * d;
    }
  }

  lemma QuotientVersusOne(x: real, y: real)
    requires y > 0.0
    ensures x <= y ==> x / y <= 1.0
    ensures x >= y ==> x / y >= 1.0
  {
    assert x / y * y == x;
  }

  /** A damaged rectangle within the window's size adds at most 1 to the
      ratio; one covering the whole size adds at least 1 */
  lemma DamagedRatioCoverage(w: Window, area: Rectangle)
    requires w.geometry.Some?
    ensures area.width <= w.geometry.value.width && area.height <= w.geometry.value.height ==>
      DamagedRatio(w, area).ratio <= w.ratio + 1.0
    ensures area.width >= w.geometry.value.width && area.height >= w.geometry.value.height ==>
      DamagedRatio(w, area).ratio >= w.ratio + 1.0
  {
    var g := w.geometry.value;
    AreaPositive(g);
    ProductBounds(area.width, area.height, g.width, g.height);
    QuotientVersusOne((area.width * area.height) as real, Area(g) as real);
  }

  /** Pixel (px, py) lies on a screen of the given size */
  predicate OnScreen(screenWidth: U16, screenHeight: U16, px: int, py: int) {
    0 <= px < screenWidth && 0 <= py < screenHeight
  }

  /** Pixel (px, py) lies inside the window's rectangle, border excluded */
  predicate Covers(g: Geometry, px: int, py: int) {
    g.x <= px < g.x + g.width && g.y <= py < g.y + g.height
  }

  /** Visibility is exactly overlap with the screen: some screen pixel lies
      inside the window's rectangle (screens are at least one pixel wide
      and high) */
  lemma VisibleIffOverlap(w: Window, screenWidth: U16, screenHeight: U16)
    requires screenWidth >= 1 && screenHeight >= 1
    ensures IsVisible(w, screenWidth, screenHeight) <==>
      w.geometry.Some? &&
      exists px: int, py: int :: OnScreen(screenWidth, screenHeight, px, py) && Covers(w.geometry.value, px, py)
  {
    if IsVisible(w, screenWidth, screenHeight) {
      var g := w.geometry.value;
      var px := if g.x >= 0 then g.x else 0;
      var py := if g.y >= 0 then g.y else 0;
      assert OnScreen(screenWidth, screenHeight, px, py) && Covers(g, px, py);
    }
  }

  /** The shape answer is fetched once: asking again answers from the
      cache, whatever reply would have come */
  lemma IsRectangularCached(w: Window, reply: Option<nat>, later: Option<nat>)
    ensures var (w', b) := IsRectangular(w, reply); IsRectangular(w', later) == (w', b)
  {
  }

  /** `window_free_pixmap` is idempotent */
  lemma FreePixmapIdempotent(w: Window)
    ensures FreePixmap(FreePixmap(w)) == FreePixmap(w)
  {
  }
}
