/** The X event handlers of src/event.c as transitions on the part of
    `globalconf` they read and write: the window registry, the screen
    size, the background-reset flag, the damaged region (as the list of
    regions added to it since the last paint), the plugin list and the
    lock masks. A handler either finishes, naming the plugins whose hook
    it called, or dereferences NULL (or fails an assertion), which the
    model calls `Crash`. Requests to the server are not modelled; the
    XIDs the connection would generate, and the answers of code outside
    this model, are inputs. */
module Event {
  import opened Wrappers
  import opened XTypes
  import ITree
  import opened Render
  import opened Window
  import opened Registry
  import opened Plugin
  import Keys

  /** `DAMAGE_NOTIFY_MAX` */
  const DamageNotifyMax: int := 24

  /** A region handed to `display_add_damaged_region`: a window's stored
      region (destroyed after use when `temporary`), or a region the
      handler created from a rectangle, which is always temporary */
  datatype Damage = WindowRegion(region: Xid, temporary: bool) | AreaRegion(region: Xid, area: Rectangle)

  /** The part of `globalconf` the handlers touch */
  datatype Conf = Conf(
    reg: State,
    root: Xid,
    screenWidth: U16,
    screenHeight: U16,
    backgroundReset: bool,
    damaged: seq<Damage>,
    plugins: seq<Plugin>,
    keyMasks: Keys.LockMasks)

  /** How a handler ends: normally, with the positions of the plugins
      whose hook it called in call order, or by a NULL dereference */
  datatype Outcome = Crash | Done(conf: Conf, calls: seq<nat>)

  /** The DamageNotify counter stays within 16 bits: it counts at most
      `DamageNotifyMax + 2` events, and past `DamageNotifyMax + 1` only
      on a window already marked fully damaged */
  ghost predicate DamageOk(w: Window) {
    && 0 <= w.counter <= DamageNotifyMax + 2
    && (w.ratio < FullyDamagedRatio ==> w.counter <= DamageNotifyMax + 1)
  }

  ghost predicate AllDamageOk(ws: seq<Window>) {
    forall w | w in ws :: DamageOk(w)
  }

  /** What the handlers keep: the registry invariant and bounded damage
      counters */
  ghost predicate Valid(c: Conf) {
    Inv(c.reg) && AllDamageOk(c.reg.windows)
  }

  // ---------------------------------------------------------------------
  // DamageNotify
  // ---------------------------------------------------------------------

  /** The fields of `xcb_damage_notify_event_t` the handler uses */
  datatype DamageEvent = DamageEvent(drawable: Xid, area: Rectangle, geometry: Rectangle)

  /** The event's area moved by the event geometry's origin, each sum
      stored back into a 16-bit field */
  function Translate(area: Rectangle, geometry: Rectangle): (r: Rectangle)
    ensures r.width == area.width && r.height == area.height
    ensures (r.x - (area.x + geometry.x)) % 0x1_0000 == 0 && (r.y - (area.y + geometry.y)) % 0x1_0000 == 0
  {
    area.(x := ToI16(area.x + geometry.x), y := ToI16(area.y + geometry.y))
  }

  /** The decision tree of `event_handle_damage_notify` on a listed,
      visible window: the window as updated and the region added, or
      `None` when the window is already fully damaged. A window never
      damaged before is painted whole; otherwise the counter is
      post-incremented, and the whole window is painted when the counter
      had passed `DamageNotifyMax` (the ratio is then not accumulated) or
      when the accumulated ratio reaches the fully-damaged threshold;
      otherwise only the translated rectangle is added. */
  function DamageWindow(w: Window, ev: DamageEvent, newRegion: Xid): (r: Option<(Window, Damage)>)
    requires w.geometry.Some?
    ensures r.None? <==> w.damaged && w.ratio >= FullyDamagedRatio
    ensures r.Some? ==> var (w', d) := r.value;
      && w' == w.(damaged := true, ratio := w'.ratio, counter := w'.counter)
      && (d.WindowRegion? ==> d == WindowRegion(w.region, false) && w'.ratio == 1.0)
      && (d.AreaRegion? ==>
            d == AreaRegion(newRegion, Translate(ev.area, ev.geometry)) && w.counter <= DamageNotifyMax &&
            w'.ratio == DamagedRatio(w, ev.area).ratio && w'.ratio < FullyDamagedRatio)
    ensures !w.damaged ==> r == Some((w.(damaged := true, ratio := 1.0), WindowRegion(w.region, false)))
    ensures w.damaged && w.ratio < FullyDamagedRatio ==> r.value.0.counter == ToI16(w.counter + 1)
    ensures w.damaged && w.ratio < FullyDamagedRatio && w.counter > DamageNotifyMax ==> r.value.1.WindowRegion?
    ensures w.damaged && w.ratio < FullyDamagedRatio && w.counter <= DamageNotifyMax ==>
      (r.value.1.WindowRegion? <==> DamagedRatio(w, ev.area).ratio >= FullyDamagedRatio)
  {
    if !w.damaged then Some((w.(damaged := true, ratio := 1.0), WindowRegion(w.region, false)))
    else if w.ratio >= FullyDamagedRatio then None
    else
      var w1 := w.(counter := ToI16(w.counter + 1));
      if w.counter > DamageNotifyMax then Some((w1.(ratio := 1.0), WindowRegion(w.region, false)))
      else
        var w2 := DamagedRatio(w1, ev.area);
        if w2.ratio >= FullyDamagedRatio then Some((w2.(ratio := 1.0), WindowRegion(w.region, false)))
        else Some((w2, AreaRegion(newRegion, Translate(ev.area, ev.geometry))))
  }

  /** `event_handle_damage_notify`. An unknown or invisible window, or one
      already fully damaged, changes nothing and reaches no plugin;
      otherwise the window record is updated in place, one region is
      added and the enabled plugins with a damage hook are called. */
  function DamageNotify(c: Conf, ev: DamageEvent, newRegion: Xid): (r: Outcome)
    requires Valid(c)
    ensures r.Done? && Valid(r.conf)
    ensures ListGet(c.reg, ev.drawable).None? ==> r == Done(c, [])
    ensures (ListGet(c.reg, ev.drawable).Some? &&
             !IsVisible(c.reg.windows[ListGet(c.reg, ev.drawable).value], c.screenWidth, c.screenHeight)) ==>
      r == Done(c, [])
    ensures r.conf.damaged == c.damaged ==> r == Done(c, [])
    ensures r.conf.damaged != c.damaged ==>
      && r.calls == EventHandle(c.plugins, DamageHook)
      && |r.conf.damaged| == |c.damaged| + 1 && r.conf.damaged[..|c.damaged|] == c.damaged
      && |r.conf.reg.windows| == |c.reg.windows|
      && var i := ListGet(c.reg, ev.drawable).value;
        && IsVisible(c.reg.windows[i], c.screenWidth, c.screenHeight)
        && r.conf == c.(reg := c.reg.(windows := c.reg.windows[i := r.conf.reg.windows[i]]), damaged := r.conf.damaged)
        && r.conf.reg.windows[i].damaged
  {
    match ListGet(c.reg, ev.drawable)
    case None => Done(c, [])
    case Some(i) =>
      var w := c.reg.windows[i];
      if !IsVisible(w, c.screenWidth, c.screenHeight) then Done(c, [])
      else match DamageWindow(w, ev, newRegion)
        case None => Done(c, [])
        case Some((w', d)) =>
          OkAt(c, i);
          DamageWindowKeepsOk(w, ev, newRegion);
          ValidSet(c, i, w');
          Done(c.(reg := SetWindow(c.reg, i, w'), damaged := c.damaged + [d]), EventHandle(c.plugins, DamageHook))
  }

  /** The counter bound survives every DamageNotify, and under it the
      16-bit post-increment never wraps */
  lemma DamageWindowKeepsOk(w: Window, ev: DamageEvent, newRegion: Xid)
    requires w.geometry.Some? && DamageOk(w)
    ensures DamageWindow(w, ev, newRegion).Some? ==> DamageOk(DamageWindow(w, ev, newRegion).value.0)
    ensures w.damaged && w.ratio < FullyDamagedRatio ==> DamageWindow(w, ev, newRegion).value.0.counter == w.counter + 1
  {
    if w.damaged && w.ratio < FullyDamagedRatio {
      assert ToI16(w.counter + 1) == w.counter + 1;
    }
  }

  // ---------------------------------------------------------------------
  // Window-level handlers
  // ---------------------------------------------------------------------

  /** The fields of `xcb_configure_notify_event_t` the handler uses */
  datatype ConfigureEvent = ConfigureEvent(window: Xid, aboveSibling: Xid, x: I16, y: I16,
                                           width: Dim, height: Dim, borderWidth: U16, overrideRedirect: bool)

  /** The stored region is damaged (and destroyed) when the window is
      visible */
  function DamageIfVisible(c: Conf, w: Window): (r: (seq<Damage>, Window))
    ensures IsVisible(w, c.screenWidth, c.screenHeight) ==>
      r == (c.damaged + [WindowRegion(w.region, true)], w.(ratio := 1.0))
    ensures !IsVisible(w, c.screenWidth, c.screenHeight) ==> r == (c.damaged, w)
  {
    if IsVisible(w, c.screenWidth, c.screenHeight) then (c.damaged + [WindowRegion(w.region, true)], w.(ratio := 1.0))
    else (c.damaged, w)
  }

  /** The window record after the geometry and override-redirect updates
      of `event_handle_configure_notify`: if it is visible afterwards it
      gets a new region, and a new pixmap when it is viewable and its size
      or border changed */
  function Reconfigured(w: Window, ev: ConfigureEvent, screenWidth: U16, screenHeight: U16,
                        newRegion: Xid, newPixmap: Xid): (r: Window)
    requires w.geometry.Some? && w.attributes.Some?
    ensures r.geometry == Some(Geometry(ev.x, ev.y, ev.width, ev.height, ev.borderWidth))
    ensures r.attributes == Some(w.attributes.value.(overrideRedirect := ev.overrideRedirect))
    ensures r.handle == w.handle && r.id == w.id && r.damaged == w.damaged && r.ratio == w.ratio && r.counter == w.counter
    ensures r.damage == w.damage && r.shapePending == w.shapePending && r.isRectangular == w.isRectangular
    ensures forall o :: Referenced(r.rendering, o) == Referenced(w.rendering, o)
    ensures r.region == if IsVisible(r, screenWidth, screenHeight) then newRegion else w.region
    ensures var g := w.geometry.value;
      var resized := g.width != ev.width || g.height != ev.height || g.borderWidth != ev.borderWidth;
      r.pixmap == if w.attributes.value.mapState == Viewable && resized && IsVisible(r, screenWidth, screenHeight)
                  then newPixmap else w.pixmap
  {
    var g := w.geometry.value;
    var a := w.attributes.value;
    var updatePixmap := a.mapState == Viewable &&
      (g.width != ev.width || g.height != ev.height || g.borderWidth != ev.borderWidth);
    var w1 := w.(geometry := Some(Geometry(ev.x, ev.y, ev.width, ev.height, ev.borderWidth)),
                 attributes := Some(a.(overrideRedirect := ev.overrideRedirect)));
    if IsVisible(w1, screenWidth, screenHeight) then
      var w2 := w1.(region := newRegion);
      if updatePixmap then FreePixmap(w2).(pixmap := newPixmap) else w2
    else w1
  }

  /** `event_handle_configure_notify`. On the root window the screen size
      is taken over and the background is to be reset, with no plugin
      called; an unmanaged window changes nothing. A window without a
      geometry or attributes record (the compositing manager's own
      window), and a sibling named while this is the only window, crash
      the handler; any other managed window is reconfigured as
      `ConfigureManaged` says and the plugins are called. */
  function ConfigureNotify(c: Conf, ev: ConfigureEvent, newRegion: Xid, newPixmap: Xid): (r: Outcome)
    requires Valid(c)
    ensures r.Done? ==> Valid(r.conf)
    ensures ev.window == c.root ==>
      r == Done(c.(screenWidth := ev.width, screenHeight := ev.height, backgroundReset := true), [])
    ensures ev.window != c.root && ListGet(c.reg, ev.window).None? ==> r == Done(c, [])
    ensures ev.window != c.root && ListGet(c.reg, ev.window).Some? ==>
      var i := ListGet(c.reg, ev.window).value;
      var w := c.reg.windows[i];
      && (r.Crash? <==> w.geometry.None? || w.attributes.None? || (ev.aboveSibling != NONE && |c.reg.windows| < 2))
      && (r.Done? ==>
            r == Done(ConfigureManaged(c, i, ev, newRegion, newPixmap), EventHandle(c.plugins, ConfigureHook)))
  {
    if ev.window == c.root then
      Done(c.(screenWidth := ev.width, screenHeight := ev.height, backgroundReset := true), [])
    else match ListGet(c.reg, ev.window)
      case None => Done(c, [])
      case Some(i) =>
        var w := c.reg.windows[i];
        if w.geometry.None? || w.attributes.None? || (ev.aboveSibling != NONE && |c.reg.windows| < 2) then Crash
        else Done(ConfigureManaged(c, i, ev, newRegion, newPixmap), EventHandle(c.plugins, ConfigureHook))
  }

  /** A managed window's ConfigureNotify: its old area is damaged if it
      was visible, it takes the new geometry (see `Reconfigured`) and is
      restacked right above the named sibling, at the bottom for none.
      The other windows keep their relative order. */
  function ConfigureManaged(c: Conf, i: nat, ev: ConfigureEvent, newRegion: Xid, newPixmap: Xid): (r: Conf)
    requires Valid(c) && i < |c.reg.windows|
    requires c.reg.windows[i].geometry.Some? && c.reg.windows[i].attributes.Some?
    requires ev.aboveSibling != NONE ==> |c.reg.windows| >= 2
    ensures Valid(r)
    ensures r == c.(reg := r.reg, damaged := r.damaged)
    ensures r.damaged == DamageIfVisible(c, c.reg.windows[i]).0
    ensures r.reg.index == c.reg.index && |r.reg.windows| == |c.reg.windows|
    ensures Position(r.reg.windows, c.reg.windows[i].handle).Some?
    ensures var p := Position(r.reg.windows, c.reg.windows[i].handle).value;
      && r.reg.windows[p] ==
           Reconfigured(DamageIfVisible(c, c.reg.windows[i]).1, ev, c.screenWidth, c.screenHeight, newRegion, newPixmap)
      && Without(r.reg.windows, p) == Without(c.reg.windows, i)
      && (ev.aboveSibling == NONE ==> p == 0)
      && (ev.aboveSibling != NONE ==> AboveSibling(Without(c.reg.windows, i), ev.aboveSibling, p))
  {
    var w := c.reg.windows[i];
    var (damaged, w1) := DamageIfVisible(c, w);
    var w2 := Reconfigured(w1, ev, c.screenWidth, c.screenHeight, newRegion, newPixmap);
    OkAt(c, i);
    RestackSet(c, i, w2, ev.aboveSibling);
    c.(reg := Restack(SetWindow(c.reg, i, w2), w.handle, ev.aboveSibling), damaged := damaged)
  }

  /** The fields of `xcb_create_notify_event_t` the handler uses */
  datatype CreateEvent = CreateEvent(window: Xid, x: I16, y: I16, width: Dim, height: Dim, borderWidth: U16)

  /** `event_handle_create_notify`: the window is added; when that fails
      the handler stops without calling plugins. Otherwise the geometry
      the event carries replaces the fetched one and, if the window is
      visible with it, the window gets its region with a shape fetch
      pending. */
  function CreateNotify(c: Conf, ev: CreateEvent, rep: AddReplies, newRegion: Xid): (r: Outcome)
    requires Valid(c)
    ensures r.Done? && Valid(r.conf)
    ensures r.conf.damaged == c.damaged && r.conf.plugins == c.plugins
    ensures Add(c.reg, ev.window, rep).1.None? ==> r == Done(c.(reg := Add(c.reg, ev.window, rep).0), [])
    ensures Add(c.reg, ev.window, rep).1.Some? ==>
      && r.calls == EventHandle(c.plugins, CreateHook)
      && r.conf.reg == Add(c.reg, ev.window, rep).0.(windows :=
           c.reg.windows + [Created(c.reg.next, ev, rep, c.screenWidth, c.screenHeight, newRegion)])
  {
    var (reg1, h) := Add(c.reg, ev.window, rep);
    ValidAdd(c, ev.window, rep);
    match h
    case None => Done(c.(reg := reg1), [])
    case Some(_) =>
      var w := Created(c.reg.next, ev, rep, c.screenWidth, c.screenHeight, newRegion);
      SetAdded(c, ev.window, rep, w);
      Done(c.(reg := SetWindow(reg1, |c.reg.windows|, w)), EventHandle(c.plugins, CreateHook))
  }

  /** The record `event_handle_create_notify` leaves for a new window: as
      added, but with the geometry the event carries and, if the window is
      visible with it, its region and a pending shape fetch */
  function Created(next: Handle, ev: CreateEvent, rep: AddReplies, screenWidth: U16, screenHeight: U16,
                   newRegion: Xid): (r: Window)
    requires rep.attributes.Some?
    ensures r == NewWindow(next, ev.window).(attributes := rep.attributes,
                  geometry := Some(Geometry(ev.x, ev.y, ev.width, ev.height, ev.borderWidth)),
                  damage := if rep.attributes.value.inputOnly then NONE else rep.damage,
                  region := r.region, shapePending := r.shapePending)
    ensures IsVisible(r, screenWidth, screenHeight) ==> r.region == newRegion && r.shapePending
    ensures !IsVisible(r, screenWidth, screenHeight) ==> r.region == NONE && !r.shapePending
  {
    var w := NewWindow(next, ev.window).(attributes := rep.attributes,
               geometry := Some(Geometry(ev.x, ev.y, ev.width, ev.height, ev.borderWidth)),
               damage := if rep.attributes.value.inputOnly then NONE else rep.damage);
    if IsVisible(w, screenWidth, screenHeight) then w.(region := newRegion, shapePending := true) else w
  }

  /** `event_handle_destroy_notify`: an unmanaged window changes nothing;
      a managed one loses its Damage object (the server freed it), the
      plugins are called while it is still listed, and it is then
      removed */
  function DestroyNotify(c: Conf, window: Xid): (r: Outcome)
    requires Valid(c)
    ensures r.Done? && Valid(r.conf)
    ensures ListGet(c.reg, window).None? ==> r == Done(c, [])
    ensures ListGet(c.reg, window).Some? ==>
      var i := ListGet(c.reg, window).value;
      && r.calls == EventHandle(c.plugins, DestroyHook)
      && r.conf == c.(reg := r.conf.reg)
      && r.conf.reg.windows == Without(c.reg.windows, i)
      && ITree.ToMap(r.conf.reg.index) == ITree.ToMap(c.reg.index) - {window}
      && ListGet(r.conf.reg, window).None?
  {
    match ListGet(c.reg, window)
    case None => Done(c, [])
    case Some(i) =>
      var w := c.reg.windows[i].(damage := NONE);
      OkAt(c, i);
      ValidSet(c, i, w);
      var c1 := c.(reg := SetWindow(c.reg, i, w));
      PositionAt(c1.reg.windows, i);
      ValidRemove(c1, w.handle);
      assert Without(c1.reg.windows, i) == Without(c.reg.windows, i);
      Done(c1.(reg := RemoveWindow(c1.reg, w.handle)), EventHandle(c.plugins, DestroyHook))
  }

  /** `event_handle_map_notify`: an unmanaged window changes nothing; a
      managed one becomes viewable and is no longer marked damaged; if it
      is visible it gets a new region (shape fetch pending) and a new
      pixmap. A window without attributes crashes the handler. */
  function MapNotify(c: Conf, window: Xid, newRegion: Xid, newPixmap: Xid): (r: Outcome)
    requires Valid(c)
    ensures r.Done? ==> Valid(r.conf)
    ensures ListGet(c.reg, window).None? ==> r == Done(c, [])
    ensures ListGet(c.reg, window).Some? ==>
      var i := ListGet(c.reg, window).value;
      var w := c.reg.windows[i];
      && (r.Crash? <==> w.attributes.None?)
      && (r.Done? ==>
            && r.calls == EventHandle(c.plugins, MapHook)
            && r.conf == c.(reg := c.reg.(windows := c.reg.windows[i := Mapped(w, c.screenWidth, c.screenHeight, newRegion, newPixmap)])))
  {
    match ListGet(c.reg, window)
    case None => Done(c, [])
    case Some(i) =>
      var w := c.reg.windows[i];
      if w.attributes.None? then Crash
      else
        var w' := Mapped(w, c.screenWidth, c.screenHeight, newRegion, newPixmap);
        OkAt(c, i);
        ValidSet(c, i, w');
        Done(c.(reg := SetWindow(c.reg, i, w')), EventHandle(c.plugins, MapHook))
  }

  /** The window record after a MapNotify: viewable and not marked
      damaged; if it is visible, with a new region (shape fetch pending)
      and a new pixmap in place of the old one. Nothing else changes. */
  function Mapped(w: Window, screenWidth: U16, screenHeight: U16, newRegion: Xid, newPixmap: Xid): (r: Window)
    requires w.attributes.Some?
    ensures r.handle == w.handle && r.id == w.id && r.geometry == w.geometry && r.damage == w.damage
    ensures r.ratio == w.ratio && r.counter == w.counter
    ensures r.attributes == Some(w.attributes.value.(mapState := Viewable)) && !r.damaged
    ensures forall o :: Referenced(r.rendering, o) == Referenced(w.rendering, o)
    ensures IsVisible(w, screenWidth, screenHeight) ==>
      r.region == newRegion && r.shapePending && r.pixmap == newPixmap
    ensures !IsVisible(w, screenWidth, screenHeight) ==> r == w.(attributes := r.attributes, damaged := false)
  {
    var w1 := w.(attributes := Some(w.attributes.value.(mapState := Viewable)));
    var w2 := if IsVisible(w1, screenWidth, screenHeight)
              then FreePixmap(w1.(region := newRegion, shapePending := true)).(pixmap := newPixmap)
              else w1;
    w2.(damaged := false)
  }

  /** `event_handle_unmap_notify`: an unmanaged window changes nothing; a
      managed one has its region damaged (ratio 1.0) if it is visible,
      becomes unmapped and is no longer marked damaged. A window without
      attributes crashes the handler. */
  function UnmapNotify(c: Conf, window: Xid): (r: Outcome)
    requires Valid(c)
    ensures r.Done? ==> Valid(r.conf)
    ensures ListGet(c.reg, window).None? ==> r == Done(c, [])
    ensures ListGet(c.reg, window).Some? ==>
      var i := ListGet(c.reg, window).value;
      var w := c.reg.windows[i];
      && (r.Crash? <==> w.attributes.None?)
      && (r.Done? ==>
            && r.calls == EventHandle(c.plugins, UnmapHook)
            && |r.conf.reg.windows| == |c.reg.windows|
            && r.conf == c.(reg := c.reg.(windows := c.reg.windows[i := r.conf.reg.windows[i]]),
                            damaged := r.conf.damaged)
            && r.conf.reg.windows[i] == w.(attributes := Some(w.attributes.value.(mapState := Unmapped)),
                                           damaged := false, ratio := r.conf.reg.windows[i].ratio)
            && (IsVisible(w, c.screenWidth, c.screenHeight) ==>
                  r.conf.damaged == c.damaged + [WindowRegion(w.region, true)] && r.conf.reg.windows[i].ratio == 1.0)
            && (!IsVisible(w, c.screenWidth, c.screenHeight) ==>
                  r.conf.damaged == c.damaged && r.conf.reg.windows[i].ratio == w.ratio))
  {
    match ListGet(c.reg, window)
    case None => Done(c, [])
    case Some(i) =>
      var w := c.reg.windows[i];
      if w.attributes.None? then Crash
      else
        var (damaged, w1) := DamageIfVisible(c, w);
        var w2 := w1.(attributes := Some(w.attributes.value.(mapState := Unmapped)), damaged := false);
        OkAt(c, i);
        ValidSet(c, i, w2);
        Done(c.(reg := SetWindow(c.reg, i, w2), damaged := damaged), EventHandle(c.plugins, UnmapHook))
  }

  /** The fields of `xcb_reparent_notify_event_t` the handler uses */
  datatype ReparentEvent = ReparentEvent(window: Xid, parent: Xid)

  /** `event_handle_reparent_notify`: a window reparented to the root, or
      not managed at all, is added (even when it is already managed, which
      lists it twice); a managed window reparented elsewhere is removed.
      The plugins are called either way. */
  function ReparentNotify(c: Conf, ev: ReparentEvent, rep: AddReplies): (r: Outcome)
    requires Valid(c)
    ensures r.Done? && Valid(r.conf)
    ensures r.calls == EventHandle(c.plugins, ReparentHook)
    ensures r.conf == c.(reg := r.conf.reg)
    ensures ev.parent == c.root || ListGet(c.reg, ev.window).None? ==> r.conf.reg == Add(c.reg, ev.window, rep).0
    ensures ev.parent != c.root && ListGet(c.reg, ev.window).Some? ==>
      && r.conf.reg.windows == Without(c.reg.windows, ListGet(c.reg, ev.window).value)
      && ITree.ToMap(r.conf.reg.index) == ITree.ToMap(c.reg.index) - {ev.window}
  {
    var found := ListGet(c.reg, ev.window);
    if ev.parent == c.root || found.None? then
      ValidAdd(c, ev.window, rep);
      Done(c.(reg := Add(c.reg, ev.window, rep).0), EventHandle(c.plugins, ReparentHook))
    else
      var i := found.value;
      PositionAt(c.reg.windows, i);
      ValidRemove(c, c.reg.windows[i].handle);
      Done(c.(reg := RemoveWindow(c.reg, c.reg.windows[i].handle)), EventHandle(c.plugins, ReparentHook))
  }

  /** `XCB_PLACE_ON_TOP` and `XCB_PLACE_ON_BOTTOM` */
  datatype Place = OnTop | OnBottom

  /** `event_handle_circulate_notify`: to the bottom, the window becomes
      the head of the list; to the top, it is restacked right above the
      window that is the tail. An unmanaged window crashes the handler (it
      is restacked through a NULL pointer), and so does placing the only
      window on top (restacking after the tail empties the list). */
  function CirculateNotify(c: Conf, window: Xid, place: Place): (r: Outcome)
    requires Valid(c)
    ensures r.Done? ==> Valid(r.conf)
    ensures r.Crash? <==>
      (ListGet(c.reg, window).None? ||
       (place == OnTop && c.reg.windows[|c.reg.windows| - 1].id != NONE && |c.reg.windows| < 2))
    ensures r.Done? ==>
      var w := c.reg.windows[ListGet(c.reg, window).value];
      && r.calls == EventHandle(c.plugins, CirculateHook)
      && r.conf == c.(reg := r.conf.reg)
      && r.conf.reg.index == c.reg.index
      && |r.conf.reg.windows| == |c.reg.windows|
      && Position(r.conf.reg.windows, w.handle).Some?
      && (place == OnBottom ==> r.conf.reg.windows[0] == w)
      && (place == OnTop ==>
            r.conf.reg == Restack(c.reg, w.handle, c.reg.windows[|c.reg.windows| - 1].id))
  {
    match ListGet(c.reg, window)
    case None => Crash
    case Some(i) =>
      var w := c.reg.windows[i];
      PositionAt(c.reg.windows, i);
      var above := if place == OnBottom then NONE else c.reg.windows[|c.reg.windows| - 1].id;
      if above != NONE && |c.reg.windows| < 2 then
        assert place == OnTop;
        assert above == c.reg.windows[|c.reg.windows| - 1].id;
        Crash
      else
        ValidRestack(c, w.handle, above);
        Done(c.(reg := Restack(c.reg, w.handle, above)), EventHandle(c.plugins, CirculateHook))
  }

  /** With distinct ids in the list, placing a window on top leaves it at
      the tail, the top of the stack */
  lemma CirculateOnTopEndsAtTail(c: Conf, window: Xid)
    requires Valid(c) && ListGet(c.reg, window).Some? && |c.reg.windows| >= 2
    requires c.reg.windows[|c.reg.windows| - 1].id != NONE
    requires forall a, b :: 0 <= a < b < |c.reg.windows| ==> c.reg.windows[a].id != c.reg.windows[b].id
    ensures CirculateNotify(c, window, OnTop).Done?
    ensures var r := CirculateNotify(c, window, OnTop).conf.reg;
      r.windows[|r.windows| - 1] == c.reg.windows[ListGet(c.reg, window).value]
  {
    var i := ListGet(c.reg, window).value;
    var h := c.reg.windows[i].handle;
    var above := c.reg.windows[|c.reg.windows| - 1].id;
    PositionAt(c.reg.windows, i);
    RestackAfterTail(c.reg, i);
    var r := CirculateNotify(c, window, OnTop);
    assert r.Done? && r.conf.reg == Restack(c.reg, h, above);
  }

  lemma RestackAfterTail(s: State, i: nat)
    requires Inv(s) && i < |s.windows| && |s.windows| >= 2
    requires s.windows[|s.windows| - 1].id != NONE
    requires forall a, b :: 0 <= a < b < |s.windows| ==> s.windows[a].id != s.windows[b].id
    requires Position(s.windows, s.windows[i].handle) == Some(i)
    ensures var r := Restack(s, s.windows[i].handle, s.windows[|s.windows| - 1].id);
      r.windows[|r.windows| - 1] == s.windows[i]
  {
    TailIdPosition(s.windows, i);
  }

  /** Where the tail's id is found once window `i` is unlinked: nowhere
      if `i` was the tail, else at the new tail */
  lemma TailIdPosition(ws: seq<Window>, i: nat)
    requires i < |ws| && |ws| >= 2
    requires forall a, b :: 0 <= a < b < |ws| ==> ws[a].id != ws[b].id
    ensures var rest := Without(ws, i); var t := ws[|ws| - 1].id;
      && (i == |ws| - 1 ==> IdPosition(rest, t).None?)
      && (i < |ws| - 1 ==> IdPosition(rest, t) == Some(|rest| - 1))
  {
    var n := |ws|;
    var rest := Without(ws, i);
    var t := ws[n - 1].id;
    if i == n - 1 {
      forall j | 0 <= j < |rest|
        ensures rest[j].id != t
      {
        assert rest[j] == ws[j];
      }
    } else {
      assert rest[|rest| - 1] == ws[n - 1];
      forall j | 0 <= j < |rest| - 1
        ensures rest[j].id != t
      {
        if j < i { assert rest[j] == ws[j]; } else { assert rest[j] == ws[j + 1]; }
      }
      var v := IdPosition(rest, t);
      assert v.Some?;
      assert v.value == |rest| - 1;
    }
  }

  // ---------------------------------------------------------------------
  // PropertyNotify
  // ---------------------------------------------------------------------

  /** The plugin loop of `event_handle_property_notify`: every plugin with
      a property hook is called, enabled or not, and a disabled one with a
      requirements check is re-enabled by what the check answers
      (`checks`, by plugin position) */
  function PropertyPass(ps: seq<Plugin>, checks: seq<bool>): (r: (seq<nat>, seq<Plugin>))
    requires |checks| == |ps|
    ensures forall i :: 0 <= i < |ps| ==> (i in r.0 <==> PropertyHook in ps[i].vtable.events)
    ensures forall k :: 0 <= k < |r.0| ==> r.0[k] < |ps|
    ensures Increasing(r.0)
    ensures |r.1| == |ps|
    ensures forall i :: 0 <= i < |ps| ==> r.1[i].vtable == ps[i].vtable
    ensures forall i :: 0 <= i < |ps| && ps[i].enable ==> r.1[i].enable
    ensures forall i :: 0 <= i < |ps| && !ps[i].enable ==>
      (r.1[i].enable <==> PropertyHook in ps[i].vtable.events && ps[i].vtable.checkRequirements && checks[i])
  {
    var calls := Select(ps, (p: Plugin) => PropertyHook in p.vtable.events);
    var ps' := seq(|ps|, i requires 0 <= i < |ps| =>
      if PropertyHook in ps[i].vtable.events && !ps[i].enable && ps[i].vtable.checkRequirements
      then ps[i].(enable := checks[i]) else ps[i]);
    (calls, ps')
  }

  /** The fields of `xcb_property_notify_event_t` the handler uses, with
      whether the atom is one of the root background atoms */
  datatype PropertyEvent = PropertyEvent(window: Xid, isBackgroundAtom: bool)

  /** `event_handle_property_notify`: a background atom changed on the
      root window makes the background be reset; then the plugin loop
      runs. The registry is not touched. */
  function PropertyNotify(c: Conf, ev: PropertyEvent, checks: seq<bool>): (r: Outcome)
    requires Valid(c) && |checks| == |c.plugins|
    ensures r.Done? && Valid(r.conf)
    ensures r.conf.reg == c.reg && r.conf.damaged == c.damaged
    ensures r.conf.backgroundReset <==> c.backgroundReset || (ev.isBackgroundAtom && ev.window == c.root)
    ensures (r.calls, r.conf.plugins) == PropertyPass(c.plugins, checks)
  {
    var (calls, ps) := PropertyPass(c.plugins, checks);
    Done(c.(backgroundReset := c.backgroundReset || (ev.isBackgroundAtom && ev.window == c.root), plugins := ps), calls)
  }

  /** `event_handle_randr_screen_change_notify`, `_key_press`,
      `_key_release` and `_button_release` only forward the event */
  function ForwardOnly(c: Conf, hook: Hook): (r: Outcome)
    requires hook in {RandrScreenChangeHook, KeyPressHook, KeyReleaseHook, ButtonReleaseHook}
    ensures r.Done? && r.conf == c
    ensures forall i :: 0 <= i < |c.plugins| ==> (i in r.calls <==> c.plugins[i].enable && hook in c.plugins[i].vtable.events)
  {
    Done(c, EventHandle(c.plugins, hook))
  }

  /** The `request` of a MappingNotify */
  datatype MappingRequest = MappingModifier | MappingKeyboard | MappingPointer

  /** `event_handle_mapping_notify`: a pointer mapping change is ignored;
      a modifier or keyboard mapping change re-reads the lock masks */
  method MappingNotify(c: Conf, request: MappingRequest, m: Keys.ModifierMapping, codes: Keys.LockKeycodes)
    returns (r: Conf)
    requires Keys.WellShaped(m) && Keys.ZeroTerminated(codes)
    ensures request == MappingPointer ==> r == c
    ensures request != MappingPointer ==>
      && r == c.(keyMasks := r.keyMasks)
      && r.keyMasks.numlock == Keys.MaskOf(m, codes.numlock)
      && r.keyMasks.shiftlock == Keys.MaskOf(m, codes.shiftlock)
      && r.keyMasks.capslock == Keys.MaskOf(m, codes.capslock)
      && r.keyMasks.modeswitch == Keys.MaskOf(m, codes.modeswitch)
  {
    if request == MappingPointer {
      return c;
    }
    var masks := Keys.LockMaskReply(m, codes);
    r := c.(keyMasks := masks);
  }

  // ---------------------------------------------------------------------
  // Errors, startup and dispatch
  // ---------------------------------------------------------------------

  /** What `QueryExtension` told about the extensions in use */
  datatype Extensions = Extensions(
    renderMajor: U8, renderFirstError: U8,
    compositeMajor: U8,
    xfixesMajor: U8, xfixesFirstError: U8,
    damageMajor: U8, damageFirstError: U8, damageFirstEvent: U8,
    randrFirstEvent: Option<U8>)

  /** A label for an error report: a text, NULL, or the one xcb-util's
      core tables give for the code */
  datatype Label = Text(text: string) | NoLabel | CoreLabel(code: U8)

  const CompositeRequestLabels: seq<string> := [
    "CompositeQueryVersion", "CompositeRedirectWindow", "CompositeRedirectSubwindows",
    "CompositeUnredirectWindow", "CompositeUnredirectWindows", "CompositeCreateRegionFromBorderClip",
    "CompositeNameWindowPixmap", "CompositeCompositeGetOverlayWindow",
    "CompositeCompositeReleaseOverlayWindow", "CompositeRedirectCoordinate",
    "CompositeTransformCoordinate"
  ]

  const XFixesRequestLabels: seq<string> := [
    "XFixesQueryVersion", "XFixesChangeSaveSet", "XFixesSelectSelectionInput",
    "XFixesSelectCursorInput", "XFixesGetCursorImage", "XFixesCreateRegion",
    "XFixesCreateRegionFromBitmap", "XFixesCreateRegionFromWindow", "XFixesCreateRegionFromGC",
    "XFixesCreateRegionFromPicture", "XFixesDestroyRegion", "XFixesSetRegion",
    "XFixesCopyRegion", "XFixesUnionRegion", "XFixesIntersectRegion", "XFixesSubtractRegion",
    "XFixesInvertRegion", "XFixesTranslateRegion", "XFixesRegionExtents", "XFixesFetchRegion",
    "XFixesSetGCClipRegion", "XFixesSetWindowShapeRegion", "XFixesSetPictureClipRegion",
    "XFixesSetCursorName", "XFixesGetCursorName", "XFixesGetCursorImageAndName",
    "XFixesChangeCursor", "XFixesChangeCursorByName", "XFixesExpandRegion",
    "XFixesHideCursor", "XFixesShowCursor"
  ]

  const DamageRequestLabels: seq<string> := [
    "DamageQueryVersion", "DamageCreate", "DamageDestroy", "DamageSubtract", "DamageAdd"
  ]

  /** `ERROR_EXTENSION_GET_REQUEST_LABEL`: the table entry for the minor
      opcode, NULL past the end of the table */
  function ExtensionRequestLabel(labels: seq<string>, minor: U16): (r: Label)
    ensures r != NoLabel <==> minor < |labels|
    ensures minor < |labels| ==> r == Text(labels[minor])
  {
    if minor < |labels| then Text(labels[minor]) else NoLabel
  }

  /** `error_get_request_label`: the rendering backend's table for its
      own requests, then the Composite, XFixes and Damage tables, and the
      core table for anything else */
  function RequestLabelOf(ext: Extensions, major: U8, minor: U16): (r: Label)
    ensures major == ext.renderMajor ==>
      r == match Render.RequestLabel(minor) case Some(s) => Text(s) case None => NoLabel
    ensures major != ext.renderMajor && major == ext.compositeMajor ==>
      r == ExtensionRequestLabel(CompositeRequestLabels, minor)
    ensures major != ext.renderMajor && major != ext.compositeMajor && major == ext.xfixesMajor ==>
      r == ExtensionRequestLabel(XFixesRequestLabels, minor)
    ensures (major != ext.renderMajor && major != ext.compositeMajor && major != ext.xfixesMajor &&
             major == ext.damageMajor) ==> r == ExtensionRequestLabel(DamageRequestLabels, minor)
    ensures major !in {ext.renderMajor, ext.compositeMajor, ext.xfixesMajor, ext.damageMajor} ==> r == CoreLabel(major)
  {
    if major == ext.renderMajor then
      match Render.RequestLabel(minor)
      case Some(s) => Text(s)
      case None => NoLabel
    else if major == ext.compositeMajor then ExtensionRequestLabel(CompositeRequestLabels, minor)
    else if major == ext.xfixesMajor then ExtensionRequestLabel(XFixesRequestLabels, minor)
    else if major == ext.damageMajor then ExtensionRequestLabel(DamageRequestLabels, minor)
    else CoreLabel(major)
  }

  /** The extension request tables are bounded: no label past minor 10
      for Composite, 30 for XFixes, 4 for Damage */
  lemma ExtensionLabelBounds(minor: U16)
    ensures ExtensionRequestLabel(CompositeRequestLabels, minor) == NoLabel <==> minor >= 11
    ensures ExtensionRequestLabel(XFixesRequestLabels, minor) == NoLabel <==> minor >= 31
    ensures ExtensionRequestLabel(DamageRequestLabels, minor) == NoLabel <==> minor >= 5
  {
  }

  /** `XCB_XFIXES_BAD_REGION` and `XCB_DAMAGE_BAD_DAMAGE` */
  const XFixesBadRegion: int := 0
  const DamageBadDamage: int := 0

  /** The error label `event_handle_error` reports: the rendering
      backend's, else BadRegion or BadDamage for those extensions' error
      codes, else the core one */
  function ErrorLabelOf(ext: Extensions, errorCode: U8): (r: Label)
    ensures r.Text? || r.CoreLabel?
    ensures Render.ErrorLabel(errorCode, ext.renderFirstError).Some? ==>
      r == Text(Render.ErrorLabel(errorCode, ext.renderFirstError).value)
    ensures Render.ErrorLabel(errorCode, ext.renderFirstError).None? ==>
      && (errorCode == (ext.xfixesFirstError + XFixesBadRegion) % 0x100 ==> r == Text("BadRegion"))
      && ((errorCode != (ext.xfixesFirstError + XFixesBadRegion) % 0x100 &&
           errorCode == (ext.damageFirstError + DamageBadDamage) % 0x100) ==> r == Text("BadDamage"))
      && ((errorCode != (ext.xfixesFirstError + XFixesBadRegion) % 0x100 &&
           errorCode != (ext.damageFirstError + DamageBadDamage) % 0x100) ==> r == CoreLabel(errorCode))
  {
    match Render.ErrorLabel(errorCode, ext.renderFirstError)
    case Some(s) => Text(s)
    case None =>
      if errorCode == (ext.xfixesFirstError + XFixesBadRegion) % 0x100 then Text("BadRegion")
      else if errorCode == (ext.damageFirstError + DamageBadDamage) % 0x100 then Text("BadDamage")
      else CoreLabel(errorCode)
  }

  /** `XCB_COMPOSITE_REDIRECT_SUBWINDOWS` */
  const CompositeRedirectSubwindows: int := 2

  /** What `event_handle_startup` sees: an error, a PropertyNotify, or
      any other event */
  datatype StartupEvent = StartupError(major: U8, minor: U16) | StartupProperty | StartupOther

  datatype FatalReason = AnotherManagerRunning | UnexpectedError

  /** What `event_handle_startup` does: give up, complete the ownership
      handshake, or nothing */
  datatype StartupAction = Fatal(reason: FatalReason) | SetOwnerProperty | Ignore

  /** `event_handle_startup`: every error is fatal during startup; a
      failed RedirectSubwindows means another compositing manager holds
      the redirection */
  function StartupHandle(ext: Extensions, ev: StartupEvent): (r: StartupAction)
    ensures ev.StartupError? <==> r.Fatal?
    ensures r == Fatal(AnotherManagerRunning) <==>
      ev.StartupError? && ev.major == ext.compositeMajor && ev.minor == CompositeRedirectSubwindows
    ensures r == SetOwnerProperty <==> ev == StartupProperty
  {
    match ev
    case StartupError(major, minor) =>
      if major == ext.compositeMajor && minor == CompositeRedirectSubwindows then Fatal(AnotherManagerRunning)
      else Fatal(UnexpectedError)
    case StartupProperty => SetOwnerProperty
    case StartupOther => Ignore
  }

  /** The handlers `event_handle` can pick */
  datatype Handler =
    | ErrorHandler | DamageHandler | RandrHandler | KeyPressHandler | KeyReleaseHandler
    | ButtonReleaseHandler | CirculateHandler | ConfigureHandler | CreateHandler | DestroyHandler
    | MapHandler | ReparentHandler | UnmapHandler | PropertyHandler | MappingHandler | NoHandler

  /** The core event code each core handler serves, as the X Window
      System Protocol numbers the events: KeyPress 2, KeyRelease 3,
      ButtonRelease 5, CreateNotify 16, DestroyNotify 17, UnmapNotify 18,
      MapNotify 19, ReparentNotify 21, ConfigureNotify 22,
      CirculateNotify 26, PropertyNotify 28, MappingNotify 34 */
  function EventCode(h: Handler): Option<int> {
    match h
    case KeyPressHandler => Some(2)
    case KeyReleaseHandler => Some(3)
    case ButtonReleaseHandler => Some(5)
    case CreateHandler => Some(16)
    case DestroyHandler => Some(17)
    case UnmapHandler => Some(18)
    case MapHandler => Some(19)
    case ReparentHandler => Some(21)
    case ConfigureHandler => Some(22)
    case CirculateHandler => Some(26)
    case PropertyHandler => Some(28)
    case MappingHandler => Some(34)
    case _ => None
  }

  /** The core event codes `event_handle` switches on: a code with a
      handler gets the one serving it, any other code none */
  function CoreHandler(t: int): (r: Handler)
    ensures r !in {ErrorHandler, DamageHandler, RandrHandler}
    ensures r != NoHandler ==> EventCode(r) == Some(t)
  {
    if t == 2 then KeyPressHandler
    else if t == 3 then KeyReleaseHandler
    else if t == 5 then ButtonReleaseHandler
    else if t == 26 then CirculateHandler
    else if t == 22 then ConfigureHandler
    else if t == 16 then CreateHandler
    else if t == 17 then DestroyHandler
    else if t == 19 then MapHandler
    else if t == 21 then ReparentHandler
    else if t == 18 then UnmapHandler
    else if t == 28 then PropertyHandler
    else if t == 34 then MappingHandler
    else NoHandler
  }

  /** `event_handle`: the response type without its send-event bit picks
      the handler; errors first, then the Damage and RandR events (the
      latter only when RandR is present), then the core events */
  function Classify(ext: Extensions, responseType: U8): (r: Handler)
    ensures r == ErrorHandler <==> responseType % 0x80 == 0
    ensures r == DamageHandler <==> responseType % 0x80 != 0 && responseType % 0x80 == ext.damageFirstEvent
    ensures r == RandrHandler <==>
      && responseType % 0x80 != 0 && responseType % 0x80 != ext.damageFirstEvent
      && ext.randrFirstEvent == Some(responseType % 0x80)
    ensures r !in {ErrorHandler, DamageHandler, RandrHandler} ==> r == CoreHandler(responseType % 0x80)
  {
    var t := responseType % 0x80;
    if t == 0 then ErrorHandler
    else if t == ext.damageFirstEvent then DamageHandler
    else if ext.randrFirstEvent == Some(t) then RandrHandler
    else CoreHandler(t)
  }

  // ---------------------------------------------------------------------
  // Properties
  // ---------------------------------------------------------------------

  /** The switch and the table agree in both directions: a code picks a
      handler exactly when that handler serves the code, and a code no
      handler serves picks none */
  lemma CoreHandlerIsEventCode(t: int, h: Handler)
    ensures (CoreHandler(t) == h && h != NoHandler) <==> EventCode(h) == Some(t)
    ensures CoreHandler(t) == NoHandler <==> t !in {2, 3, 5, 16, 17, 18, 19, 21, 22, 26, 28, 34}
  {
  }

  /** A never-damaged visible window is painted whole: marked damaged,
      ratio 1.0, its whole region added */
  lemma FirstDamagePaintsWhole(c: Conf, ev: DamageEvent, newRegion: Xid)
    requires Valid(c) && ListGet(c.reg, ev.drawable).Some?
    requires var w := c.reg.windows[ListGet(c.reg, ev.drawable).value];
      IsVisible(w, c.screenWidth, c.screenHeight) && !w.damaged
    ensures var i := ListGet(c.reg, ev.drawable).value; var w := c.reg.windows[i];
      var r := DamageNotify(c, ev, newRegion);
      && r.conf.reg.windows[i] == w.(damaged := true, ratio := 1.0)
      && r.conf.damaged == c.damaged + [WindowRegion(w.region, false)]
      && r.calls == EventHandle(c.plugins, DamageHook)
  {
  }

  /** A window already marked fully damaged ignores further damage: no
      region, no counter change, no plugin */
  lemma FullyDamagedIgnores(c: Conf, ev: DamageEvent, newRegion: Xid)
    requires Valid(c) && ListGet(c.reg, ev.drawable).Some?
    requires var w := c.reg.windows[ListGet(c.reg, ev.drawable).value];
      w.damaged && w.ratio >= FullyDamagedRatio
    ensures DamageNotify(c, ev, newRegion) == Done(c, [])
  {
  }

  /** Past the counter threshold the whole window is painted and the
      ratio is not accumulated */
  lemma CounterForcesWhole(c: Conf, ev: DamageEvent, newRegion: Xid)
    requires Valid(c) && ListGet(c.reg, ev.drawable).Some?
    requires var w := c.reg.windows[ListGet(c.reg, ev.drawable).value];
      IsVisible(w, c.screenWidth, c.screenHeight) && w.damaged && w.ratio < FullyDamagedRatio &&
      w.counter > DamageNotifyMax
    ensures var i := ListGet(c.reg, ev.drawable).value; var w := c.reg.windows[i];
      var r := DamageNotify(c, ev, newRegion);
      && r.conf.reg.windows[i] == w.(ratio := 1.0, counter := w.counter + 1)
      && r.conf.damaged == c.damaged + [WindowRegion(w.region, false)]
  {
    var i := ListGet(c.reg, ev.drawable).value;
    var w := c.reg.windows[i];
    assert w in c.reg.windows;
    DamageWindowKeepsOk(w, ev, newRegion);
  }

  /** Under the threshold, the whole window is painted exactly when the
      accumulated ratio reaches 0.9; otherwise only the translated area
      is added and the ratio keeps its accumulated value */
  lemma RatioDecidesWhole(c: Conf, ev: DamageEvent, newRegion: Xid)
    requires Valid(c) && ListGet(c.reg, ev.drawable).Some?
    requires var w := c.reg.windows[ListGet(c.reg, ev.drawable).value];
      IsVisible(w, c.screenWidth, c.screenHeight) && w.damaged && w.ratio < FullyDamagedRatio &&
      w.counter <= DamageNotifyMax
    ensures var i := ListGet(c.reg, ev.drawable).value; var w := c.reg.windows[i];
      var r := DamageNotify(c, ev, newRegion);
      var accumulated := DamagedRatio(w, ev.area).ratio;
      && r.conf.reg.windows[i].counter == w.counter + 1
      && (accumulated >= FullyDamagedRatio ==>
            r.conf.reg.windows[i].ratio == 1.0 && r.conf.damaged == c.damaged + [WindowRegion(w.region, false)])
      && (accumulated < FullyDamagedRatio ==>
            r.conf.reg.windows[i].ratio == accumulated &&
            r.conf.damaged == c.damaged + [AreaRegion(newRegion, Translate(ev.area, ev.geometry))])
  {
    var i := ListGet(c.reg, ev.drawable).value;
    var w := c.reg.windows[i];
    assert w in c.reg.windows;
    DamageWindowKeepsOk(w, ev, newRegion);
  }

  // ---------------------------------------------------------------------
  // Invariant proofs
  // ---------------------------------------------------------------------

  lemma OkAt(c: Conf, i: nat)
    requires Valid(c) && i < |c.reg.windows|
    ensures DamageOk(c.reg.windows[i])
  {
    assert c.reg.windows[i] in c.reg.windows;
  }

  lemma ValidSet(c: Conf, i: nat, w: Window)
    requires Valid(c) && i < |c.reg.windows|
    requires w.handle == c.reg.windows[i].handle && w.id == c.reg.windows[i].id
    requires forall o :: Referenced(w.rendering, o) == Referenced(c.reg.windows[i].rendering, o)
    requires w.damaged ==> w.geometry.Some?
    requires DamageOk(w)
    ensures Valid(c.(reg := SetWindow(c.reg, i, w)))
  {
    var ws := c.reg.windows;
    forall x | x in ws[i := w]
      ensures DamageOk(x)
    {
      var k :| 0 <= k < |ws| && ws[i := w][k] == x;
      if k != i { assert ws[k] in ws; }
    }
  }

  /** Replacing window `i` and then restacking it */
  /** Where `window_restack` leaves a window named above a sibling:
      right after the first of the other windows carrying the sibling's
      id, or at the tail when none does */
  predicate AboveSibling(rest: seq<Window>, above: Xid, p: nat) {
    && (IdPosition(rest, above).Some? ==> p == IdPosition(rest, above).value + 1)
    && (IdPosition(rest, above).None? ==> p == |rest|)
  }

  lemma RestackSet(c: Conf, i: nat, w: Window, above: Xid)
    requires Valid(c) && i < |c.reg.windows|
    requires w.handle == c.reg.windows[i].handle && w.id == c.reg.windows[i].id
    requires forall o :: Referenced(w.rendering, o) == Referenced(c.reg.windows[i].rendering, o)
    requires w.damaged ==> w.geometry.Some?
    requires DamageOk(w)
    requires above != NONE ==> |c.reg.windows| >= 2
    ensures var s1 := SetWindow(c.reg, i, w);
      && Inv(s1) && CanRestack(s1, w.handle, above)
      && var r := Restack(s1, w.handle, above);
        && Valid(c.(reg := r))
        && r.index == c.reg.index && |r.windows| == |c.reg.windows|
        && Position(r.windows, w.handle).Some?
        && var p := Position(r.windows, w.handle).value;
          && r.windows[p] == w
          && Without(r.windows, p) == Without(c.reg.windows, i)
          && (above == NONE ==> p == 0)
          && (above != NONE ==> AboveSibling(Without(c.reg.windows, i), above, p))
  {
    ValidSet(c, i, w);
    var c1 := c.(reg := SetWindow(c.reg, i, w));
    WithoutUpdate(c.reg.windows, i, w);
    PositionAt(c1.reg.windows, i);
    ValidRestack(c1, w.handle, above);
  }

  /** Replacing the window `Add` just appended */
  lemma SetAdded(c: Conf, id: Xid, rep: AddReplies, w: Window)
    requires Valid(c) && Add(c.reg, id, rep).1.Some?
    requires w.handle == c.reg.next && w.id == id && w.rendering == None && !w.damaged && w.counter == 0
    ensures var s1 := Add(c.reg, id, rep).0;
      && |s1.windows| == |c.reg.windows| + 1
      && Inv(s1) && w.handle == s1.windows[|c.reg.windows|].handle && w.id == s1.windows[|c.reg.windows|].id
      && (w.damaged ==> w.geometry.Some?)
      && SetWindow(s1, |c.reg.windows|, w) == s1.(windows := c.reg.windows + [w])
      && Valid(c.(reg := SetWindow(s1, |c.reg.windows|, w)))
  {
    var s1 := Add(c.reg, id, rep).0;
    var n := |c.reg.windows|;
    var v := s1.windows[n];
    assert v.handle == c.reg.next && v.id == id && v.rendering == None;
    var s2 := SetWindow(s1, n, w);
    assert s2.windows == c.reg.windows + [w];
  }

  lemma WithoutUpdate<T>(s: seq<T>, i: nat, x: T)
    requires i < |s|
    ensures Without(s[i := x], i) == Without(s, i)
  {
    assert Without(s[i := x], i) == s[..i] + s[i + 1..];
  }

  lemma AllDamageOkWithout(ws: seq<Window>, i: nat)
    requires AllDamageOk(ws) && i < |ws|
    ensures AllDamageOk(Without(ws, i))
  {
    forall x | x in Without(ws, i)
      ensures DamageOk(x)
    {
      assert x in ws[..i] || x in ws[i + 1..];
    }
  }

  lemma AllDamageOkWith(ws: seq<Window>, i: nat)
    requires i < |ws| && AllDamageOk(Without(ws, i)) && DamageOk(ws[i])
    ensures AllDamageOk(ws)
  {
    forall x | x in ws
      ensures DamageOk(x)
    {
      var k :| 0 <= k < |ws| && ws[k] == x;
      if k < i { assert Without(ws, i)[k] == x; } else if k > i { assert Without(ws, i)[k - 1] == x; }
    }
  }

  lemma ValidRestack(c: Conf, h: Handle, above: Xid)
    requires Valid(c) && CanRestack(c.reg, h, above)
    ensures Valid(c.(reg := Restack(c.reg, h, above)))
  {
    var r := Restack(c.reg, h, above);
    var i := Position(c.reg.windows, h).value;
    var p := Position(r.windows, h).value;
    AllDamageOkWithout(c.reg.windows, i);
    AllDamageOkWith(r.windows, p);
  }

  lemma ValidRemove(c: Conf, h: Handle)
    requires Valid(c)
    ensures Valid(c.(reg := RemoveWindow(c.reg, h)))
  {
    if Position(c.reg.windows, h).Some? {
      AllDamageOkWithout(c.reg.windows, Position(c.reg.windows, h).value);
    }
  }

  lemma ValidAdd(c: Conf, id: Xid, rep: AddReplies)
    requires Valid(c)
    ensures Valid(c.(reg := Add(c.reg, id, rep).0))
  {
  }
}
