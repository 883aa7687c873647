/** The XRender backend of rendering/render.c, as far as it keeps state:
    the shared, reference-counted alpha pictures (one per opacity value),
    the per-window backend record, the choice of composite operator when a
    window is painted, and the bounds-checked label tables used for X
    error reports. The XRender requests themselves are not modelled: a
    freshly generated XID is a parameter. */
module Render {
  import opened Wrappers
  import opened XTypes

  type Opacity = U16

  /** `UINT16_MAX`: a fully opaque window needs no alpha picture */
  const OPAQUE: Opacity := 0xFFFF

  /** `_render_alpha_picture_t`: one cached alpha picture */
  datatype AlphaPicture = AlphaPicture(picture: Xid, refs: nat, opacity: Opacity)

  /** The global list `_render_conf.alpha_pictures`, head first; its
      `previous` links are implied by the order */
  type Cache = seq<AlphaPicture>

  /** `_render_window_t`. The pointer to a shared alpha picture is
      represented by that picture's opacity, which identifies the cache
      entry because cached opacities are distinct (see `WellFormed`). */
  datatype RenderWindow = RenderWindow(picture: Xid, isArgb: bool, alpha: Option<Opacity>)

  /** The record `render_paint_window` allocates with `calloc` */
  const EmptyRenderWindow := RenderWindow(NONE, false, None)

  // ---------------------------------------------------------------------
  // The alpha picture cache
  // ---------------------------------------------------------------------

  /** The cache invariant: distinct opacities, every entry referenced at
      least once, never an entry for the opaque value, never a NONE
      picture */
  ghost predicate WellFormed(c: Cache) {
    && (forall i, j :: 0 <= i < j < |c| ==> c[i].opacity != c[j].opacity)
    && (forall i :: 0 <= i < |c| ==> c[i].refs >= 1 && c[i].opacity != OPAQUE && c[i].picture != NONE)
  }

  /** The search loop of `_render_get_window_alpha_picture`: the index of
      the first entry with the given opacity, from the head */
  function Find(c: Cache, o: Opacity): (r: Option<nat>)
    ensures r.Some? ==> r.value < |c| && c[r.value].opacity == o
    ensures r.Some? ==> forall j :: 0 <= j < r.value ==> c[j].opacity != o
    ensures r.None? <==> forall j :: 0 <= j < |c| ==> c[j].opacity != o
  {
    if |c| == 0 then None
    else if c[0].opacity == o then Some(0)
    else match Find(c[1..], o)
      case None => None
      case Some(i) => Some(i + 1)
  }

  /** The entry cached for an opacity, if any */
  function Lookup(c: Cache, o: Opacity): Option<AlphaPicture> {
    match Find(c, o)
    case None => None
    case Some(i) => Some(c[i])
  }

  /** The window's alpha reference, if it has one, points into the cache */
  ghost predicate Holds(c: Cache, rw: RenderWindow) {
    rw.alpha.Some? ==> Find(c, rw.alpha.value).Some?
  }

  /** The reference counter cached for an opacity, 0 when none is: the
      cache seen as a map from opacity to reference counter */
  function Count(c: Cache, o: Opacity): nat {
    match Lookup(c, o)
    case None => 0
    case Some(e) => e.refs
  }

  /** 1 when the window references the opacity, else 0 */
  function Refers(a: Option<Opacity>, o: Opacity): nat {
    if a == Some(o) then 1 else 0
  }

  /** 1 when a window's backend record, if allocated, references the
      opacity */
  function Referenced(rendering: Option<RenderWindow>, o: Opacity): nat {
    if rendering.Some? then Refers(rendering.value.alpha, o) else 0
  }

  /** `_render_create_window_alpha_picture`: a new entry with reference
      counter 1, inserted at the head of the list, referenced by the
      window */
  function Create(c: Cache, rw: RenderWindow, o: Opacity, newId: Xid): (r: (Cache, RenderWindow))
    requires WellFormed(c) && Find(c, o).None? && o != OPAQUE && newId != NONE
    ensures r.1 == rw.(alpha := Some(o))
    ensures WellFormed(r.0)
    ensures |r.0| == |c| + 1 && r.0[0] == AlphaPicture(newId, 1, o)
    ensures Lookup(r.0, o) == Some(AlphaPicture(newId, 1, o))
    ensures forall p :: p != o ==> Lookup(r.0, p) == Lookup(c, p)
  {
    var e := AlphaPicture(newId, 1, o);
    var c' := [e] + c;
    assert forall p :: p != o ==> Lookup(c', p) == Lookup(c, p) by {
      assert c'[1..] == c;
    }
    (c', rw.(alpha := Some(o)))
  }

  /** `_render_unref_window_alpha_picture`: the last reference unlinks and
      frees the entry, any other reference only decrements the counter;
      either way the window no longer holds an alpha picture */
  function Unref(c: Cache, rw: RenderWindow): (r: (Cache, RenderWindow))
    requires WellFormed(c) && rw.alpha.Some? && Holds(c, rw)
    ensures r.1 == rw.(alpha := None)
    ensures WellFormed(r.0)
    ensures Count(r.0, rw.alpha.value) == Count(c, rw.alpha.value) - 1
    ensures Lookup(r.0, rw.alpha.value).None? <==> Count(c, rw.alpha.value) == 1
    ensures forall p :: p != rw.alpha.value ==> Lookup(r.0, p) == Lookup(c, p)
  {
    var o := rw.alpha.value;
    var i := Find(c, o).value;
    if c[i].refs == 1 then
      RemoveProps(c, i);
      (c[..i] + c[i + 1..], rw.(alpha := None))
    else
      UpdateProps(c, i, c[i].refs - 1);
      (c[i := c[i].(refs := c[i].refs - 1)], rw.(alpha := None))
  }

  /** Shares the cached entry `i`: one more reference */
  function Share(c: Cache, rw: RenderWindow, i: nat): (r: (Cache, RenderWindow))
    requires WellFormed(c) && i < |c|
    ensures r.1 == rw.(alpha := Some(c[i].opacity))
    ensures WellFormed(r.0)
    ensures Lookup(r.0, c[i].opacity) == Some(c[i].(refs := c[i].refs + 1))
    ensures forall p :: p != c[i].opacity ==> Lookup(r.0, p) == Lookup(c, p)
  {
    UpdateProps(c, i, c[i].refs + 1);
    (c[i := c[i].(refs := c[i].refs + 1)], rw.(alpha := Some(c[i].opacity)))
  }

  /** What `_render_get_window_alpha_picture` returns and leaves behind */
  datatype AlphaResult = AlphaResult(cache: Cache, window: RenderWindow, picture: Xid)

  /** The first half of a changed opacity: the old reference, if any, is
      released */
  function Release(c: Cache, rw: RenderWindow): (r: (Cache, RenderWindow))
    requires WellFormed(c) && Holds(c, rw)
    ensures r.1 == rw.(alpha := None)
    ensures WellFormed(r.0)
    ensures forall p :: Count(r.0, p) == Count(c, p) - Refers(rw.alpha, p)
    ensures forall p: Opacity :: rw.alpha != Some(p) ==> Lookup(r.0, p) == Lookup(c, p)
  {
    if rw.alpha.Some? then Unref(c, rw) else (c, rw)
  }

  /** The second half: the opaque value yields NONE; otherwise an entry
      cached for the opacity is shared or, failing that, created */
  function Acquire(c: Cache, rw: RenderWindow, o: Opacity, newId: Xid): (r: AlphaResult)
    requires WellFormed(c) && newId != NONE
    ensures WellFormed(r.cache) && Holds(r.cache, r.window)
    ensures r.window == rw.(alpha := if o == OPAQUE then None else Some(o))
    ensures forall p :: Count(r.cache, p) == Count(c, p) + Refers(r.window.alpha, p)
    ensures r.picture == NONE <==> o == OPAQUE
    ensures o != OPAQUE ==> Lookup(r.cache, o).Some? && Lookup(r.cache, o).value.picture == r.picture
    ensures Lookup(c, o).Some? ==> Lookup(r.cache, o) == Some(Lookup(c, o).value.(refs := Lookup(c, o).value.refs + 1))
    ensures o != OPAQUE && Lookup(c, o).None? ==> r.cache[0] == AlphaPicture(newId, 1, o) && r.picture == newId
  {
    if o == OPAQUE then
      assert Lookup(c, o).None?;
      AlphaResult(c, rw.(alpha := None), NONE)
    else
      match Find(c, o)
      case Some(i) =>
        var (c', rw') := Share(c, rw, i);
        AlphaResult(c', rw', c[i].picture)
      case None =>
        var (c', rw') := Create(c, rw, o, newId);
        AlphaResult(c', rw', newId)
  }

  /** `_render_get_window_alpha_picture`: the alpha picture for the
      window's current opacity. An unchanged opacity returns the picture
      already held, with no counter change; otherwise the old reference is
      released first, the opaque value yields NONE and no reference, an
      entry cached for the opacity is shared and, failing that, a new entry
      is created at the head. */
  function GetAlpha(c: Cache, rw: RenderWindow, o: Opacity, newId: Xid): (r: AlphaResult)
    requires WellFormed(c) && Holds(c, rw) && newId != NONE
    ensures WellFormed(r.cache) && Holds(r.cache, r.window)
    ensures forall p :: Count(r.cache, p) == Count(c, p) - Refers(rw.alpha, p) + Refers(r.window.alpha, p)
    ensures r.window == rw.(alpha := if o == OPAQUE then None else Some(o))
    ensures r.picture == NONE <==> o == OPAQUE
    ensures o != OPAQUE ==> Lookup(r.cache, o).Some? && Lookup(r.cache, o).value.picture == r.picture
    ensures rw.alpha == Some(o) ==> r.cache == c && r.window == rw
    ensures rw.alpha != Some(o) && Lookup(c, o).Some? ==>
      Lookup(r.cache, o) == Some(Lookup(c, o).value.(refs := Lookup(c, o).value.refs + 1))
    ensures o != OPAQUE && Lookup(c, o).None? ==> r.cache[0] == AlphaPicture(newId, 1, o) && r.picture == newId
  {
    if rw.alpha == Some(o) then
      AlphaResult(c, rw, c[Find(c, o).value].picture)
    else
      var (c1, rw1) := Release(c, rw);
      Acquire(c1, rw1, o, newId)
  }

  /** `render_free_window_pixmap`: drops the window picture; a second call
      finds NONE and does nothing */
  function FreeWindowPixmap(rendering: Option<RenderWindow>): (r: Option<RenderWindow>)
    ensures r.Some? <==> rendering.Some?
    ensures r.Some? ==> r.value == rendering.value.(picture := NONE)
  {
    match rendering
    case None => None
    case Some(rw) => if rw.picture != NONE then Some(rw.(picture := NONE)) else rendering
  }

  /** `render_free_window`: releases the window's alpha reference, if it
      holds one; the record itself is freed */
  function FreeWindow(c: Cache, rendering: Option<RenderWindow>): (r: Cache)
    requires WellFormed(c) && (rendering.Some? ==> Holds(c, rendering.value))
    ensures WellFormed(r)
    ensures rendering.None? || rendering.value.alpha.None? ==> r == c
    ensures forall p :: Count(r, p) == Count(c, p) - Referenced(rendering, p)
  {
    if rendering.Some? && rendering.value.alpha.Some? then Unref(c, rendering.value).0 else c
  }

  // ---------------------------------------------------------------------
  // Painting one window
  // ---------------------------------------------------------------------

  /** `XCB_RENDER_PICT_OP_SRC` and `XCB_RENDER_PICT_OP_OVER` */
  datatype Op = Src | Over

  /** The RenderComposite request issued for a window: operator, source
      and mask pictures, destination position and size */
  datatype Composite = Composite(op: Op, source: Xid, mask: Xid, x: I16, y: I16, width: U16, height: U16)

  datatype Paint = Paint(cache: Cache, window: RenderWindow, composite: Composite)

  /** `render_paint_window`. Nothing happens without a window pixmap.
      Otherwise the backend record is allocated if missing, the window
      picture is created if missing (which also decides whether the window
      is ARGB, from its visual), and the operator is SRC unless the window
      is ARGB or the opacity plugin's hook yields an alpha picture.
      `opacity` is the hook's answer, `None` when no opacity plugin with
      that hook is loaded; `freshPicture` and `freshAlpha` are the XIDs the
      connection would generate. */
  function PaintWindow(pixmap: Xid, rendering: Option<RenderWindow>, g: Geometry, visualIsArgb: bool,
                       opacity: Option<Opacity>, c: Cache, freshPicture: Xid, freshAlpha: Xid): (r: Option<Paint>)
    requires WellFormed(c) && (rendering.Some? ==> Holds(c, rendering.value))
    requires freshPicture != NONE && freshAlpha != NONE
    ensures r.None? <==> pixmap == NONE
    ensures r.Some? ==> WellFormed(r.value.cache) && Holds(r.value.cache, r.value.window)
    ensures r.Some? ==> r.value.window.picture != NONE && r.value.composite.source == r.value.window.picture
    ensures r.Some? ==> (r.value.composite.op == Src <==> !r.value.window.isArgb && r.value.composite.mask == NONE)
    ensures r.Some? ==> (r.value.composite.mask == NONE <==> opacity.None? || opacity.value == OPAQUE)
    ensures r.Some? && (rendering.None? || rendering.value.picture == NONE) ==> r.value.window.isArgb == visualIsArgb
    ensures r.Some? && rendering.Some? && rendering.value.picture != NONE ==> r.value.window.isArgb == rendering.value.isArgb
    ensures r.Some? ==> r.value.composite.x == g.x && r.value.composite.y == g.y
    ensures r.Some? ==> r.value.composite.width == ToU16(g.width + g.borderWidth * 2)
    ensures r.Some? ==> r.value.composite.height == ToU16(g.height + g.borderWidth * 2)
    ensures r.Some? && opacity.None? ==> r.value.cache == c
    ensures r.Some? ==> forall p :: Count(r.value.cache, p) == Count(c, p) - Referenced(rendering, p) + Refers(r.value.window.alpha, p)
  {
    if pixmap == NONE then None
    else
      var rw0 := rendering.GetOr(EmptyRenderWindow);
      var rw1 := if rw0.picture == NONE then rw0.(picture := freshPicture, isArgb := visualIsArgb) else rw0;
      var op := if rw1.isArgb then Over else Src;
      var (c', rw', mask, op') :=
        match opacity
        case None => (c, rw1, NONE, op)
        case Some(o) =>
          var a := GetAlpha(c, rw1, o, freshAlpha);
          (a.cache, a.window, a.picture, if a.picture != NONE then Over else op);
      Some(Paint(c', rw', Composite(op', rw'.picture, mask, g.x, g.y,
                                    ToU16(g.width + g.borderWidth * 2), ToU16(g.height + g.borderWidth * 2))))
  }

  // ---------------------------------------------------------------------
  // Error reporting labels
  // ---------------------------------------------------------------------

  /** `_render_request_label`, indexed by minor opcode */
  const RequestLabels: seq<string> := [
    "RenderQueryVersion", "RenderQueryPictFormats", "RenderQueryPictIndexValues",
    "Render minor 3", "RenderCreatePicture", "RenderChangePicture",
    "RenderSetPictureClipRectangles", "RenderFreePicture", "RenderComposite",
    "Render minor 9", "RenderTrapezoids", "RenderTriangles", "RenderTriStrip",
    "RenderTriFan", "Render minor 14", "Render minor 15", "Render minor 16",
    "RenderCreateGlyphSet", "RenderReferenceGlyphSet", "RenderFreeGlyphSet",
    "RenderAddGlyphs", "Render minor 21", "RenderFreeGlyphs",
    "RenderCompositeGlyphs8", "RenderCompositeGlyphs16", "RenderCompositeGlyphs32",
    "RenderFillRectangles", "RenderCreateCursor", "RenderSetPictureTransform",
    "RenderQueryFilters", "RenderSetPictureFilter", "RenderCreateAnimCursor",
    "RenderAddTraps", "RenderCreateSolidFill", "RenderCreateLinearGradient",
    "RenderCreateRadialGradient", "RenderCreateConicalGradient"
  ]

  /** `_render_error_label`, indexed by error code minus the extension's
      first error (`XCB_RENDER_PICT_FORMAT` = 0 .. `XCB_RENDER_GLYPH` = 4) */
  const ErrorLabels: seq<string> := ["PictFormat", "Picture", "PictOp", "GlyphSet", "Glyph"]

  /** `render_error_get_request_label`: no label past the table */
  function RequestLabel(minor: U16): (r: Option<string>)
    ensures r.Some? <==> minor < 37
    ensures r.Some? ==> r.value == RequestLabels[minor]
  {
    if minor < |RequestLabels| then Some(RequestLabels[minor]) else None
  }

  /** `render_error_get_error_label`: the code is taken relative to the
      extension's first error and must fall within 0..4 */
  function ErrorLabel(errorCode: U8, firstError: U8): (r: Option<string>)
    ensures r.Some? <==> firstError <= errorCode <= firstError + 4
    ensures r.Some? ==> r.value == ErrorLabels[errorCode - firstError]
  {
    var renderError := errorCode - firstError;
    if renderError < 0 || renderError > 4 then None else Some(ErrorLabels[renderError])
  }

  // ---------------------------------------------------------------------
  // Proofs about the cache
  // ---------------------------------------------------------------------

  /** With distinct opacities an entry is found exactly at its index */
  lemma FindAt(c: Cache, k: nat)
    requires forall i, j :: 0 <= i < j < |c| ==> c[i].opacity != c[j].opacity
    requires k < |c|
    ensures Find(c, c[k].opacity) == Some(k)
  {
  }

  /** Unlinking entry `i` keeps every other entry */
  lemma RemoveProps(c: Cache, i: nat)
    requires WellFormed(c) && i < |c|
    ensures WellFormed(c[..i] + c[i + 1..])
    ensures Lookup(c[..i] + c[i + 1..], c[i].opacity).None?
    ensures forall p :: p != c[i].opacity ==> Lookup(c[..i] + c[i + 1..], p) == Lookup(c, p)
  {
    var c' := c[..i] + c[i + 1..];
    assert forall j :: 0 <= j < |c'| ==> c'[j] == (if j < i then c[j] else c[j + 1]);
    forall p | p != c[i].opacity
      ensures Lookup(c', p) == Lookup(c, p)
    {
      match Find(c, p)
      case None =>
      case Some(k) =>
        var k' := if k < i then k else k - 1;
        assert c'[k'] == c[k];
        FindAt(c', k');
    }
  }

  /** Replacing the counter of entry `i` changes nothing else */
  lemma UpdateProps(c: Cache, i: nat, n: nat)
    requires WellFormed(c) && i < |c| && n >= 1
    ensures WellFormed(c[i := c[i].(refs := n)])
    ensures Lookup(c[i := c[i].(refs := n)], c[i].opacity) == Some(c[i].(refs := n))
    ensures forall p :: p != c[i].opacity ==> Lookup(c[i := c[i].(refs := n)], p) == Lookup(c, p)
  {
    var c' := c[i := c[i].(refs := n)];
    FindAt(c', i);
    forall p | p != c[i].opacity
      ensures Lookup(c', p) == Lookup(c, p)
    {
      match Find(c, p)
      case None =>
      case Some(k) =>
        FindAt(c', k);
    }
  }

  // ---------------------------------------------------------------------
  // Reference counters match the windows holding them
  // ---------------------------------------------------------------------

  /** The number of windows whose backend record references an opacity */
  function RefCount(rs: seq<Option<RenderWindow>>, o: Opacity): nat {
    if |rs| == 0 then 0 else Referenced(rs[0], o) + RefCount(rs[1..], o)
  }

  /** Every entry's counter is the number of windows referencing it, and
      no window references an opacity that is not cached */
  ghost predicate Accounted(c: Cache, rs: seq<Option<RenderWindow>>) {
    WellFormed(c) && forall o :: Count(c, o) == RefCount(rs, o)
  }

  lemma {:induction false} RefCountConcat(a: seq<Option<RenderWindow>>, b: seq<Option<RenderWindow>>, o: Opacity)
    ensures RefCount(a + b, o) == RefCount(a, o) + RefCount(b, o)
  {
    if |a| > 0 {
      assert (a + b)[1..] == a[1..] + b;
      RefCountConcat(a[1..], b, o);
    } else {
      assert a + b == b;
    }
  }

  lemma {:induction false} RefCountUpdate(rs: seq<Option<RenderWindow>>, i: nat, r: Option<RenderWindow>, o: Opacity)
    requires i < |rs|
    ensures RefCount(rs, o) >= Referenced(rs[i], o)
    ensures RefCount(rs[i := r], o) == RefCount(rs, o) - Referenced(rs[i], o) + Referenced(r, o)
  {
    if i > 0 {
      assert rs[i := r][1..] == rs[1..][i - 1 := r];
      RefCountUpdate(rs[1..], i - 1, r, o);
    } else {
      assert rs[i := r][1..] == rs[1..];
    }
  }

  lemma RefCountRemove(rs: seq<Option<RenderWindow>>, i: nat, o: Opacity)
    requires i < |rs|
    ensures RefCount(rs[..i] + rs[i + 1..], o) == RefCount(rs, o) - Referenced(rs[i], o)
  {
    assert rs == rs[..i] + ([rs[i]] + rs[i + 1..]);
    RefCountConcat(rs[..i], [rs[i]] + rs[i + 1..], o);
    RefCountConcat([rs[i]], rs[i + 1..], o);
    RefCountConcat(rs[..i], rs[i + 1..], o);
  }

  /** A window of an accounted collection holds a reference into the cache */
  lemma AccountedHolds(c: Cache, rs: seq<Option<RenderWindow>>, i: nat)
    requires Accounted(c, rs) && i < |rs|
    ensures rs[i].Some? ==> Holds(c, rs[i].value)
  {
    if rs[i].Some? && rs[i].value.alpha.Some? {
      RefCountUpdate(rs, i, rs[i], rs[i].value.alpha.value);
      assert Count(c, rs[i].value.alpha.value) >= 1;
    }
  }

  /** Painting one window keeps every counter equal to the number of
      windows referencing the entry */
  lemma PaintWindowKeepsAccounting(c: Cache, rs: seq<Option<RenderWindow>>, i: nat, pixmap: Xid, g: Geometry,
                                   visualIsArgb: bool, opacity: Option<Opacity>, freshPicture: Xid, freshAlpha: Xid)
    requires Accounted(c, rs) && i < |rs| && freshPicture != NONE && freshAlpha != NONE
    ensures rs[i].Some? ==> Holds(c, rs[i].value)
    ensures var p := PaintWindow(pixmap, rs[i], g, visualIsArgb, opacity, c, freshPicture, freshAlpha);
      p.Some? ==> Accounted(p.value.cache, rs[i := Some(p.value.window)])
  {
    AccountedHolds(c, rs, i);
    var p := PaintWindow(pixmap, rs[i], g, visualIsArgb, opacity, c, freshPicture, freshAlpha);
    if p.Some? {
      forall o
        ensures Count(p.value.cache, o) == RefCount(rs[i := Some(p.value.window)], o)
      {
        RefCountUpdate(rs, i, Some(p.value.window), o);
      }
    }
  }

  /** Freeing one window's backend record keeps the accounting of the
      remaining windows */
  lemma FreeWindowKeepsAccounting(c: Cache, rs: seq<Option<RenderWindow>>, i: nat)
    requires Accounted(c, rs) && i < |rs|
    ensures rs[i].Some? ==> Holds(c, rs[i].value)
    ensures Accounted(FreeWindow(c, rs[i]), rs[..i] + rs[i + 1..])
  {
    AccountedHolds(c, rs, i);
    var r := FreeWindow(c, rs[i]);
    forall o
      ensures Count(r, o) == RefCount(rs[..i] + rs[i + 1..], o)
    {
      RefCountRemove(rs, i, o);
    }
  }

  /** `render_free_window_pixmap` is idempotent */
  lemma FreeWindowPixmapIdempotent(rendering: Option<RenderWindow>)
    ensures FreeWindowPixmap(FreeWindowPixmap(rendering)) == FreeWindowPixmap(rendering)
  {
  }
}
