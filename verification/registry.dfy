/** The window list of src/window.c: windows ordered from the bottommost
    to the topmost, the id index kept beside it (src/util.c), and the
    rendering backend's alpha cache, which freeing a window updates. The
    list and the index refer to windows by handle, so the model can hold
    two windows with the same X id, as the source can. */
module Registry {
  import opened Wrappers
  import opened XTypes
  import ITree
  import opened Render
  import opened Window

  /** `globalconf.windows`, `globalconf.windows_itree`, the next object
      identity to hand out, and `_render_conf.alpha_pictures` */
  datatype State = State(windows: seq<Window>, index: ITree.Tree<Handle>, next: Handle, cache: Cache)

  /** The position of the window object with the given handle, if listed */
  function Position(ws: seq<Window>, h: Handle): (r: Option<nat>)
    ensures r.Some? ==> r.value < |ws| && ws[r.value].handle == h
    ensures r.Some? ==> forall j :: 0 <= j < r.value ==> ws[j].handle != h
    ensures r.None? <==> forall j :: 0 <= j < |ws| ==> ws[j].handle != h
  {
    if |ws| == 0 then None
    else if ws[0].handle == h then Some(0)
    else match Position(ws[1..], h)
      case None => None
      case Some(i) => Some(i + 1)
  }

  /** The backend records of the listed windows, in list order */
  function Renderings(ws: seq<Window>): (rs: seq<Option<RenderWindow>>)
    ensures |rs| == |ws| && forall i :: 0 <= i < |ws| ==> rs[i] == ws[i].rendering
  {
    seq(|ws|, i requires 0 <= i < |ws| => ws[i].rendering)
  }

  /** The list with position `i` unlinked */
  function Without<T>(s: seq<T>, i: nat): seq<T>
    requires i < |s|
  {
    s[..i] + s[i + 1..]
  }

  ghost predicate DistinctHandles(ws: seq<Window>) {
    forall i, j :: 0 <= i < |ws| && 0 <= j < |ws| && ws[i].handle == ws[j].handle ==> i == j
  }

  /** Every index entry names a listed window carrying that id */
  ghost predicate Indexed(ws: seq<Window>, index: ITree.Tree<Handle>) {
    forall id | id in ITree.ToMap(index) ::
      exists w :: w in ws && w.handle == ITree.ToMap(index)[id] && w.id == id
  }

  /** What the list, the index and the alpha cache keep between events:
      a valid AVL index whose entries all name listed windows, distinct
      object identities, reference counters that match the windows, and a
      geometry for every window that is due for painting */
  ghost predicate Inv(s: State) {
    && ITree.Valid(s.index)
    && DistinctHandles(s.windows)
    && (forall w | w in s.windows :: w.handle < s.next)
    && Indexed(s.windows, s.index)
    && Accounted(s.cache, Renderings(s.windows))
    && (forall w | w in s.windows :: w.damaged ==> w.geometry.Some?)
  }

  /** The state before any window is known */
  function Empty(): (s: State)
    ensures Inv(s) && s.windows == [] && ITree.ToMap(s.index) == map[]
  {
    State([], ITree.New(), 0, [])
  }

  /** `window_list_get`: the index lookup, as the position of the window
      it names */
  function ListGet(s: State, id: Xid): (r: Option<nat>)
    ensures Inv(s) ==> (r.Some? <==> id in ITree.ToMap(s.index))
    ensures Inv(s) && r.Some? ==>
      r.value < |s.windows| && s.windows[r.value].id == id && s.windows[r.value].handle == ITree.ToMap(s.index)[id]
  {
    IndexedPosition(s, id);
    match ITree.Get(s.index, id)
    case None => None
    case Some(h) => Position(s.windows, h)
  }

  /** `window_list_append`: a zeroed window object at the tail (the top of
      the stack), entered in the index unless the index already holds the
      id, in which case the older entry stays */
  function Append(s: State, id: Xid): (r: (State, Handle))
    requires ITree.Valid(s.index)
    ensures r.1 == s.next && r.0.next == s.next + 1 && r.0.cache == s.cache
    ensures r.0.windows == s.windows + [NewWindow(s.next, id)]
    ensures ITree.Valid(r.0.index)
    ensures id in ITree.ToMap(s.index) ==> r.0.index == s.index
    ensures id !in ITree.ToMap(s.index) ==> ITree.ToMap(r.0.index) == ITree.ToMap(s.index)[id := s.next]
    ensures Inv(s) ==> Inv(r.0)
  {
    var w := NewWindow(s.next, id);
    AppendKeepsInv(s, id);
    (State(s.windows + [w], ITree.Insert(s.index, id, s.next), s.next + 1, s.cache), s.next)
  }

  /** `window_list_remove_window` with `window_list_free_window`: a listed
      window is unlinked wherever it is, its id is removed from the index
      and its backend record is freed; a window that is not listed (in
      particular, any window when the list is empty) changes nothing */
  function RemoveWindow(s: State, h: Handle): (r: State)
    requires Inv(s)
    ensures Inv(r)
    ensures Position(s.windows, h).None? ==> r == s
    ensures Position(s.windows, h).Some? ==>
      var i := Position(s.windows, h).value;
      && r.windows == Without(s.windows, i)
      && ITree.ToMap(r.index) == ITree.ToMap(s.index) - {s.windows[i].id}
      && r.next == s.next
      && (forall o :: Count(r.cache, o) == Count(s.cache, o) - Referenced(s.windows[i].rendering, o))
      && (s.windows[i].rendering.None? ==> r.cache == s.cache)
  {
    match Position(s.windows, h)
    case None => s
    case Some(i) =>
      var w := FreePixmap(s.windows[i]);
      AccountedHolds(s.cache, Renderings(s.windows), i);
      var r := State(Without(s.windows, i), ITree.Remove(s.index, s.windows[i].id), s.next,
                     FreeWindow(s.cache, w.rendering));
      RemoveKeepsInv(s, i);
      r
  }

  /** The first position in the list holding a window with the given X
      id */
  function IdPosition(ws: seq<Window>, id: Xid): (r: Option<nat>)
    ensures r.Some? ==> r.value < |ws| && ws[r.value].id == id
    ensures r.Some? ==> forall j :: 0 <= j < r.value ==> ws[j].id != id
    ensures r.None? <==> forall j :: 0 <= j < |ws| ==> ws[j].id != id
  {
    if |ws| == 0 then None
    else if ws[0].id == id then Some(0)
    else match IdPosition(ws[1..], id)
      case None => None
      case Some(i) => Some(i + 1)
  }

  /** The list with `w` linked in at position `j` */
  function InsertAt(rest: seq<Window>, j: nat, w: Window): seq<Window>
    requires j <= |rest|
  {
    rest[..j] + [w] + rest[j..]
  }

  /** What `window_restack` needs to avoid a NULL dereference: the window
      is listed (the unlinking loop runs off the list otherwise), and when
      a sibling is named the list still holds a window once this one is
      unlinked (the insertion loop starts from the head) */
  predicate CanRestack(s: State, h: Handle, above: Xid) {
    Position(s.windows, h).Some? && (above != NONE ==> |s.windows| >= 2)
  }

  /** `window_restack`: the window is unlinked; with no sibling it becomes
      the head (the bottom of the stack), otherwise it is linked in right
      after the first window carrying the sibling's id, or after the tail
      when no window carries it. The index and the other windows' relative
      order are untouched. */
  function Restack(s: State, h: Handle, above: Xid): (r: State)
    requires Inv(s) && CanRestack(s, h, above)
    ensures Inv(r)
    ensures r.index == s.index && r.next == s.next && r.cache == s.cache
    ensures |r.windows| == |s.windows| && Position(r.windows, h).Some?
    ensures var i := Position(s.windows, h).value; var p := Position(r.windows, h).value;
      r.windows[p] == s.windows[i] && Without(r.windows, p) == Without(s.windows, i)
    ensures above == NONE ==> Position(r.windows, h) == Some(0)
    ensures above != NONE ==>
      var rest := Without(s.windows, Position(s.windows, h).value);
      var p := Position(r.windows, h).value;
      && (IdPosition(rest, above).Some? ==> p == IdPosition(rest, above).value + 1)
      && (IdPosition(rest, above).None? ==> p == |s.windows| - 1)
  {
    var i := Position(s.windows, h).value;
    var rest := Without(s.windows, i);
    var j := if above == NONE then 0 else match IdPosition(rest, above)
      case Some(k) => k + 1
      case None => |rest|;
    var ws := InsertAt(rest, j, s.windows[i]);
    RestackKeepsInv(s, i, j);
    s.(windows := ws)
  }

  /** Replaces the record of window `i` by one with the same identity,
      the same alpha reference and, if due for painting, a geometry */
  function SetWindow(s: State, i: nat, w: Window): (r: State)
    requires Inv(s) && i < |s.windows| && w.handle == s.windows[i].handle && w.id == s.windows[i].id
    requires forall o :: Referenced(w.rendering, o) == Referenced(s.windows[i].rendering, o)
    requires w.damaged ==> w.geometry.Some?
    ensures Inv(r)
    ensures r == s.(windows := s.windows[i := w])
  {
    SetKeepsInv(s, i, w);
    s.(windows := s.windows[i := w])
  }

  /** The replies to the GetWindowAttributes and GetGeometry requests
      `window_add_requests` sends, and the XID the connection would
      generate for the window's Damage object */
  datatype AddReplies = AddReplies(attributes: Option<Attributes>, geometry: Option<Geometry>, damage: Xid)

  /** `window_add`: the window is appended and then completed from the
      replies. GetGeometry is always requested, whatever the caller asks
      for, so both replies must be present; an InputOnly window gets no
      Damage object. When a reply is missing the new window is removed
      again, and with it the index entry for its id, even when that entry
      named an older window with the same id. (When only the geometry is
      missing, the attributes and the Damage object already stored on the
      window are freed with it, so the list ends as if the bare appended
      window had been removed.) */
  function Add(s: State, id: Xid, rep: AddReplies): (r: (State, Option<Handle>))
    requires Inv(s)
    ensures Inv(r.0) && r.0.next == s.next + 1
    ensures r.1.Some? <==> rep.attributes.Some? && rep.geometry.Some?
    ensures r.1.Some? ==>
      && r.1.value == s.next
      && r.0.windows == s.windows + [NewWindow(s.next, id).(attributes := rep.attributes, geometry := rep.geometry,
                                       damage := if rep.attributes.value.inputOnly then NONE else rep.damage)]
      && r.0.cache == s.cache
      && (id in ITree.ToMap(s.index) ==> ITree.ToMap(r.0.index) == ITree.ToMap(s.index))
      && (id !in ITree.ToMap(s.index) ==> ITree.ToMap(r.0.index) == ITree.ToMap(s.index)[id := s.next])
    ensures r.1.None? ==>
      r.0.windows == s.windows && r.0.cache == s.cache && ITree.ToMap(r.0.index) == ITree.ToMap(s.index) - {id}
  {
    var (s1, h) := Append(s, id);
    match (rep.attributes, rep.geometry)
    case (Some(a), Some(g)) =>
      var w := NewWindow(s.next, id).(attributes := rep.attributes, geometry := rep.geometry,
                                      damage := if a.inputOnly then NONE else rep.damage);
      UpdateLast(s.windows, NewWindow(s.next, id), w);
      (SetWindow(s1, |s.windows|, w), Some(h))
    case _ =>
      RemoveAppended(s, id, s1);
      (RemoveWindow(s1, h), None)
  }

  lemma UpdateLast(ws: seq<Window>, x: Window, w: Window)
    ensures (ws + [x])[|ws| := w] == ws + [w]
  {
  }

  // ---------------------------------------------------------------------
  // Invariant proofs
  // ---------------------------------------------------------------------

  /** With distinct handles, a listed window is found exactly where it is */
  lemma PositionAt(ws: seq<Window>, k: nat)
    requires DistinctHandles(ws) && k < |ws|
    ensures Position(ws, ws[k].handle) == Some(k)
  {
  }

  lemma PositionOfMember(ws: seq<Window>, h: Handle, id: Xid)
    requires DistinctHandles(ws)
    requires exists w :: w in ws && w.handle == h && w.id == id
    ensures Position(ws, h).Some? && ws[Position(ws, h).value].id == id
  {
    var w :| w in ws && w.handle == h && w.id == id;
    var k :| 0 <= k < |ws| && ws[k] == w;
    PositionAt(ws, k);
  }

  /** An indexed id leads to a listed window carrying it */
  lemma IndexedPosition(s: State, id: Xid)
    ensures Inv(s) && id in ITree.ToMap(s.index) ==>
      var h := ITree.ToMap(s.index)[id];
      Position(s.windows, h).Some? && s.windows[Position(s.windows, h).value].id == id
  {
    if Inv(s) && id in ITree.ToMap(s.index) {
      PositionOfMember(s.windows, ITree.ToMap(s.index)[id], id);
    }
  }

  lemma RenderingsConcat(a: seq<Window>, b: seq<Window>)
    ensures Renderings(a + b) == Renderings(a) + Renderings(b)
  {
  }

  lemma AppendKeepsInv(s: State, id: Xid)
    requires ITree.Valid(s.index)
    ensures var w := NewWindow(s.next, id);
      Inv(s) ==> Inv(State(s.windows + [w], ITree.Insert(s.index, id, s.next), s.next + 1, s.cache))
  {
    if Inv(s) {
      var w := NewWindow(s.next, id);
      var ws := s.windows + [w];
      assert forall x :: x in ws <==> x in s.windows || x == w;
      AppendDistinct(s.windows, w, s.next);
      AppendIndexed(s.windows, s.index, w);
      AppendAccounted(s.cache, s.windows, w);
    }
  }

  lemma AppendDistinct(ws: seq<Window>, w: Window, next: Handle)
    requires DistinctHandles(ws) && (forall x | x in ws :: x.handle < next) && w.handle == next
    ensures DistinctHandles(ws + [w])
  {
    var ws' := ws + [w];
    forall i, j | 0 <= i < |ws'| && 0 <= j < |ws'| && ws'[i].handle == ws'[j].handle
      ensures i == j
    {
      if i < |ws| {
        assert ws[i] in ws;
      }
      if j < |ws| {
        assert ws[j] in ws;
      }
    }
  }

  lemma AppendIndexed(ws: seq<Window>, index: ITree.Tree<Handle>, w: Window)
    requires ITree.Valid(index) && Indexed(ws, index)
    ensures Indexed(ws + [w], ITree.Insert(index, w.id, w.handle))
  {
    var ws' := ws + [w];
    var index' := ITree.Insert(index, w.id, w.handle);
    forall k | k in ITree.ToMap(index')
      ensures exists x :: x in ws' && x.handle == ITree.ToMap(index')[k] && x.id == k
    {
      if k in ITree.ToMap(index) {
        var x :| x in ws && x.handle == ITree.ToMap(index)[k] && x.id == k;
        assert x in ws';
      } else {
        assert w in ws';
      }
    }
  }

  lemma AppendAccounted(c: Cache, ws: seq<Window>, w: Window)
    requires Accounted(c, Renderings(ws)) && w.rendering.None?
    ensures Accounted(c, Renderings(ws + [w]))
  {
    RenderingsConcat(ws, [w]);
    var none: seq<Option<RenderWindow>> := [None];
    assert Renderings([w]) == none;
    forall o
      ensures Count(c, o) == RefCount(Renderings(ws + [w]), o)
    {
      RefCountConcat(Renderings(ws), none, o);
      assert none[1..] == [];
    }
  }

  lemma WithoutIndex(ws: seq<Window>, i: nat)
    requires i < |ws|
    ensures forall k :: 0 <= k < |Without(ws, i)| ==> Without(ws, i)[k] == if k < i then ws[k] else ws[k + 1]
    ensures forall x :: x in Without(ws, i) ==> x in ws
  {
    forall x | x in Without(ws, i)
      ensures x in ws
    {
      var k :| 0 <= k < |Without(ws, i)| && Without(ws, i)[k] == x;
      assert x == ws[if k < i then k else k + 1];
    }
  }

  lemma WithoutDistinct(ws: seq<Window>, i: nat)
    requires DistinctHandles(ws) && i < |ws|
    ensures DistinctHandles(Without(ws, i))
  {
    WithoutIndex(ws, i);
  }

  lemma WithoutIndexed(ws: seq<Window>, index: ITree.Tree<Handle>, i: nat)
    requires ITree.Valid(index) && Indexed(ws, index) && i < |ws|
    ensures Indexed(Without(ws, i), ITree.Remove(index, ws[i].id))
  {
    var ws' := Without(ws, i);
    var index' := ITree.Remove(index, ws[i].id);
    WithoutIndex(ws, i);
    assert ITree.ToMap(index') == ITree.ToMap(index) - {ws[i].id};
    forall k | k in ITree.ToMap(index')
      ensures exists x :: x in ws' && x.handle == ITree.ToMap(index')[k] && x.id == k
    {
      var x :| x in ws && x.handle == ITree.ToMap(index)[k] && x.id == k;
      var p :| 0 <= p < |ws| && ws[p] == x;
      assert p != i;
      assert x == ws'[if p < i then p else p - 1];
    }
  }

  lemma RemoveKeepsAccounting(s: State, i: nat)
    requires Inv(s) && i < |s.windows|
    ensures s.windows[i].rendering.Some? ==> Holds(s.cache, s.windows[i].rendering.value)
    ensures Accounted(FreeWindow(s.cache, s.windows[i].rendering), Renderings(Without(s.windows, i)))
  {
    AccountedHolds(s.cache, Renderings(s.windows), i);
    assert Renderings(Without(s.windows, i)) == Renderings(s.windows)[..i] + Renderings(s.windows)[i + 1..];
    FreeWindowKeepsAccounting(s.cache, Renderings(s.windows), i);
  }

  lemma RemoveKeepsInv(s: State, i: nat)
    requires Inv(s) && i < |s.windows|
    ensures s.windows[i].rendering.Some? ==> Holds(s.cache, s.windows[i].rendering.value)
    ensures Inv(State(Without(s.windows, i), ITree.Remove(s.index, s.windows[i].id), s.next,
                      FreeWindow(s.cache, FreePixmap(s.windows[i]).rendering)))
  {
    WithoutDistinct(s.windows, i);
    WithoutIndexed(s.windows, s.index, i);
    RemoveKeepsAccounting(s, i);
    WithoutIndex(s.windows, i);
    FreeAfterFreePixmap(s.cache, s.windows[i]);
  }

  /** Releasing the pixmap first does not change what freeing the
      backend record does to the cache */
  lemma FreeAfterFreePixmap(c: Cache, w: Window)
    requires WellFormed(c) && (w.rendering.Some? ==> Holds(c, w.rendering.value))
    ensures FreePixmap(w).rendering.Some? ==> Holds(c, FreePixmap(w).rendering.value)
    ensures FreeWindow(c, FreePixmap(w).rendering) == FreeWindow(c, w.rendering)
  {
    if w.pixmap != NONE && w.rendering.Some? {
      var rw := w.rendering.value;
      assert FreePixmap(w).rendering.value == rw.(picture := NONE);
      if rw.alpha.Some? {
        assert Unref(c, rw.(picture := NONE)).0 == Unref(c, rw).0;
      }
    }
  }

  lemma InsertAtIndex(rest: seq<Window>, j: nat, w: Window)
    requires j <= |rest|
    ensures |InsertAt(rest, j, w)| == |rest| + 1
    ensures forall k :: 0 <= k < |rest| + 1 ==>
      InsertAt(rest, j, w)[k] == if k < j then rest[k] else if k == j then w else rest[k - 1]
    ensures forall x :: x in InsertAt(rest, j, w) <==> x in rest || x == w
    ensures Without(InsertAt(rest, j, w), j) == rest
  {
    var ws := InsertAt(rest, j, w);
    forall x | x in rest
      ensures x in ws
    {
      var k :| 0 <= k < |rest| && rest[k] == x;
      assert ws[if k < j then k else k + 1] == x;
    }
    assert ws[j] == w;
    assert Without(ws, j) == rest;
  }

  lemma WithoutInsertAt(ws: seq<Window>, i: nat)
    requires i < |ws|
    ensures InsertAt(Without(ws, i), i, ws[i]) == ws
  {
  }

  lemma DistinctInsertAt(rest: seq<Window>, j: nat, w: Window)
    requires j <= |rest|
    ensures DistinctHandles(InsertAt(rest, j, w)) <==>
      DistinctHandles(rest) && forall x | x in rest :: x.handle != w.handle
  {
    InsertAtIndex(rest, j, w);
    if DistinctHandles(InsertAt(rest, j, w)) {
      DistinctFromInsertAt(rest, j, w);
    }
    if DistinctHandles(rest) && forall x | x in rest :: x.handle != w.handle {
      DistinctToInsertAt(rest, j, w);
    }
  }

  lemma DistinctFromInsertAt(rest: seq<Window>, j: nat, w: Window)
    requires j <= |rest| && DistinctHandles(InsertAt(rest, j, w))
    ensures DistinctHandles(rest) && forall x | x in rest :: x.handle != w.handle
  {
    var ws := InsertAt(rest, j, w);
    InsertAtIndex(rest, j, w);
    forall a, b | 0 <= a < |rest| && 0 <= b < |rest| && rest[a].handle == rest[b].handle
      ensures a == b
    {
      var a' := if a < j then a else a + 1;
      var b' := if b < j then b else b + 1;
      assert ws[a'] == rest[a] && ws[b'] == rest[b];
    }
    forall x | x in rest
      ensures x.handle != w.handle
    {
      var k :| 0 <= k < |rest| && rest[k] == x;
      var k' := if k < j then k else k + 1;
      assert ws[k'] == x && ws[j] == w && k' != j;
    }
  }

  lemma DistinctToInsertAt(rest: seq<Window>, j: nat, w: Window)
    requires j <= |rest| && DistinctHandles(rest) && forall x | x in rest :: x.handle != w.handle
    ensures DistinctHandles(InsertAt(rest, j, w))
  {
    var ws := InsertAt(rest, j, w);
    InsertAtIndex(rest, j, w);
    forall a, b | 0 <= a < |ws| && 0 <= b < |ws| && ws[a].handle == ws[b].handle
      ensures a == b
    {
      if a != j {
        assert rest[if a < j then a else a - 1] in rest;
      }
      if b != j {
        assert rest[if b < j then b else b - 1] in rest;
      }
    }
  }

  lemma {:induction false} RefCountInsertAt(rest: seq<Window>, j: nat, w: Window, o: Opacity)
    requires j <= |rest|
    ensures RefCount(Renderings(InsertAt(rest, j, w)), o) == RefCount(Renderings(rest), o) + Referenced(w.rendering, o)
  {
    assert rest == rest[..j] + rest[j..];
    RenderingsConcat(rest[..j], rest[j..]);
    RenderingsConcat(rest[..j] + [w], rest[j..]);
    RenderingsConcat(rest[..j], [w]);
    var a := Renderings(rest[..j]);
    var b := Renderings(rest[j..]);
    var m: seq<Option<RenderWindow>> := [w.rendering];
    assert Renderings([w]) == m;
    RefCountConcat(a + m, b, o);
    RefCountConcat(a, m, o);
    RefCountConcat(a, b, o);
    assert m[1..] == [];
  }

  lemma RestackKeepsInv(s: State, i: nat, j: nat)
    requires Inv(s) && i < |s.windows| && j < |s.windows|
    ensures var ws := InsertAt(Without(s.windows, i), j, s.windows[i]);
      Inv(s.(windows := ws)) && Position(ws, s.windows[i].handle) == Some(j)
    ensures var ws := InsertAt(Without(s.windows, i), j, s.windows[i]);
      |ws| == |s.windows| && ws[j] == s.windows[i] && Without(ws, j) == Without(s.windows, i)
  {
    var w := s.windows[i];
    var rest := Without(s.windows, i);
    var ws := InsertAt(rest, j, w);
    WithoutInsertAt(s.windows, i);
    InsertAtIndex(rest, i, w);
    InsertAtIndex(rest, j, w);
    DistinctInsertAt(rest, i, w);
    DistinctInsertAt(rest, j, w);
    PositionAt(ws, j);
    forall o
      ensures Count(s.cache, o) == RefCount(Renderings(ws), o)
    {
      RefCountInsertAt(rest, i, w, o);
      RefCountInsertAt(rest, j, w, o);
    }
  }

  /** Replacing a window record, and possibly the cache, keeps the
      invariant when the identity is kept and the counters match the new
      alpha reference */
  lemma ReplaceKeepsInv(s: State, i: nat, w: Window, c: Cache)
    requires Inv(s) && i < |s.windows| && w.handle == s.windows[i].handle && w.id == s.windows[i].id
    requires w.damaged ==> w.geometry.Some?
    requires Accounted(c, Renderings(s.windows)[i := w.rendering])
    ensures Inv(s.(windows := s.windows[i := w], cache := c))
  {
    var ws := s.windows[i := w];
    forall x | x in ws
      ensures x == w || x in s.windows
    {
      var k :| 0 <= k < |ws| && ws[k] == x;
      if k != i {
        assert s.windows[k] == x;
      }
    }
    forall k | k in ITree.ToMap(s.index)
      ensures exists x :: x in ws && x.handle == ITree.ToMap(s.index)[k] && x.id == k
    {
      var x :| x in s.windows && x.handle == ITree.ToMap(s.index)[k] && x.id == k;
      var p :| 0 <= p < |s.windows| && s.windows[p] == x;
      assert ws[p] in ws;
    }
    assert Renderings(ws) == Renderings(s.windows)[i := w.rendering];
  }

  /** Counters adjusted by one window's change of reference stay
      accounted */
  lemma AccountedReplace(c: Cache, rs: seq<Option<RenderWindow>>, i: nat, c': Cache, r: Option<RenderWindow>)
    requires Accounted(c, rs) && i < |rs| && WellFormed(c')
    requires forall o :: Count(c', o) == Count(c, o) - Referenced(rs[i], o) + Referenced(r, o)
    ensures Accounted(c', rs[i := r])
  {
    forall o
      ensures Count(c', o) == RefCount(rs[i := r], o)
    {
      RefCountUpdate(rs, i, r, o);
    }
  }

  lemma SetKeepsInv(s: State, i: nat, w: Window)
    requires Inv(s) && i < |s.windows| && w.handle == s.windows[i].handle && w.id == s.windows[i].id
    requires forall o :: Referenced(w.rendering, o) == Referenced(s.windows[i].rendering, o)
    requires w.damaged ==> w.geometry.Some?
    ensures Inv(s.(windows := s.windows[i := w]))
  {
    AccountedReplace(s.cache, Renderings(s.windows), i, s.cache, w.rendering);
    ReplaceKeepsInv(s, i, w, s.cache);
  }

  /** Removing the window just appended restores the list and drops the
      id from the index */
  lemma RemoveAppended(s: State, id: Xid, s1: State)
    requires ITree.Valid(s.index) && Inv(s1)
    requires |s1.windows| == |s.windows| + 1 && s1.windows[..|s.windows|] == s.windows
    requires s1.windows[|s.windows|].handle == s.next && s1.windows[|s.windows|].id == id
    requires s1.windows[|s.windows|].rendering.None?
    requires s1.index == Append(s, id).0.index && s1.cache == s.cache
    ensures var r := RemoveWindow(s1, s.next);
      r.windows == s.windows && r.cache == s.cache && ITree.ToMap(r.index) == ITree.ToMap(s.index) - {id}
  {
    var n := |s.windows|;
    PositionAt(s1.windows, n);
    assert Without(s1.windows, n) == s.windows;
    AppendedIndex(s, id);
  }

  lemma AppendedIndex(s: State, id: Xid)
    requires ITree.Valid(s.index)
    ensures ITree.ToMap(Append(s, id).0.index) - {id} == ITree.ToMap(s.index) - {id}
  {
  }

  // ---------------------------------------------------------------------
  // The paint pass
  // ---------------------------------------------------------------------

  /** What painting one window needs from outside the list: whether its
      visual is ARGB, the opacity the opacity plugin reports (`None`
      without such a plugin), the FetchRegion reply for a pending shape
      fetch, and the XIDs the connection would generate for a new window
      picture and a new alpha picture */
  datatype PaintInput = PaintInput(visualIsArgb: bool, opacity: Option<Opacity>, shapeReply: Option<nat>,
                                   freshPicture: Xid, freshAlpha: Xid)

  /** `render_paint_window` as seen from the window record: without a
      pixmap nothing happens; otherwise the backend record is created or
      updated, the alpha reference follows the opacity and the shape
      answer is fetched */
  function PaintOne(c: Cache, w: Window, inp: PaintInput): (r: (Cache, Window))
    requires WellFormed(c) && (w.rendering.Some? ==> Holds(c, w.rendering.value))
    requires w.geometry.Some? && inp.freshPicture != NONE && inp.freshAlpha != NONE
    ensures r.1 == w.(shapePending := r.1.shapePending, isRectangular := r.1.isRectangular, rendering := r.1.rendering)
    ensures w.pixmap == NONE ==> r == (c, w)
    ensures w.pixmap != NONE ==> r.1.rendering.Some? && r.1.rendering.value.picture != NONE && !r.1.shapePending
    ensures WellFormed(r.0)
    ensures forall o :: Count(r.0, o) == Count(c, o) - Referenced(w.rendering, o) + Referenced(r.1.rendering, o)
  {
    match PaintWindow(w.pixmap, w.rendering, w.geometry.value, inp.visualIsArgb, inp.opacity, c,
                      inp.freshPicture, inp.freshAlpha)
    case None => (c, w)
    case Some(p) => (p.cache, IsRectangular(w, inp.shapeReply).0.(rendering := Some(p.window)))
  }

  /** One iteration of `window_paint_all`, for the window at position
      `i` */
  method PaintAt(s: State, inp: PaintInput, i: nat) returns (r: State)
    requires Inv(s) && i < |s.windows| && inp.freshPicture != NONE && inp.freshAlpha != NONE
    ensures Inv(r) && r.index == s.index && r.next == s.next && |r.windows| == |s.windows|
    ensures forall k :: 0 <= k < |s.windows| && k != i ==> r.windows[k] == s.windows[k]
    ensures PaintedFrom(s.windows[i], r.windows[i])
    ensures !s.windows[i].damaged ==> r.cache == s.cache
  {
    var w0 := s.windows[i];
    assert w0 in s.windows;
    AccountedHolds(s.cache, Renderings(s.windows), i);
    var (c, w1) := if w0.damaged then PaintOne(s.cache, w0, inp) else (s.cache, w0);
    var w := if w1.ratio != 0.0 then w1.(ratio := 0.0, counter := 0) else w1;
    AccountedReplace(s.cache, Renderings(s.windows), i, c, w.rendering);
    ReplaceKeepsInv(s, i, w, c);
    r := s.(windows := s.windows[i := w], cache := c);
  }

  /** The handles of the damaged windows, in list order: the windows the
      paint pass hands to the backend */
  function DamagedHandles(ws: seq<Window>): seq<Handle> {
    if |ws| == 0 then []
    else DamagedHandles(ws[..|ws| - 1]) + (if ws[|ws| - 1].damaged then [ws[|ws| - 1].handle] else [])
  }

  /** How the paint pass leaves one window: its damage bookkeeping reset
      (the counter only when the ratio was not zero), and its backend
      record touched only if it was damaged and has a pixmap */
  ghost predicate PaintedFrom(w: Window, w': Window) {
    && w' == w.(ratio := 0.0, counter := if w.ratio != 0.0 then 0 else w.counter,
                shapePending := w'.shapePending, isRectangular := w'.isRectangular, rendering := w'.rendering)
    && (!w.damaged || w.pixmap == NONE ==>
          w'.rendering == w.rendering && w'.shapePending == w.shapePending && w'.isRectangular == w.isRectangular)
    && (w.damaged && w.pixmap != NONE ==> w'.rendering.Some? && w'.rendering.value.picture != NONE)
  }

  /** `window_paint_all` over the registry's list: every damaged window
      is painted, bottom to top, and every window with a non-zero damaged
      ratio gets its ratio and DamageNotify counter reset. Returns the
      painted handles. */
  method PaintAll(s: State, inputs: seq<PaintInput>) returns (r: State, painted: seq<Handle>)
    requires Inv(s) && |inputs| == |s.windows|
    requires forall k :: 0 <= k < |inputs| ==> inputs[k].freshPicture != NONE && inputs[k].freshAlpha != NONE
    ensures Inv(r) && r.index == s.index && r.next == s.next && |r.windows| == |s.windows|
    ensures painted == DamagedHandles(s.windows)
    ensures forall k :: 0 <= k < |s.windows| ==> PaintedFrom(s.windows[k], r.windows[k])
    ensures painted == [] ==> r.cache == s.cache
  {
    r := s;
    painted := [];
    var i := 0;
    assert s.windows[..0] == [];
    while i < |s.windows|
      invariant i <= |s.windows| && Painting(r, s, inputs, painted, i)
    {
      r, painted := PaintNext(r, s, inputs, painted, i);
      i := i + 1;
    }
    PaintingEnd(r, s, inputs, painted);
  }

  /** The invariant of the paint loop after the first `i` windows */
  ghost predicate Painting(r: State, s: State, inputs: seq<PaintInput>, painted: seq<Handle>, i: nat) {
    && i <= |s.windows| && |inputs| == |s.windows|
    && Inv(r) && r.index == s.index && r.next == s.next && |r.windows| == |s.windows|
    && (forall k :: i <= k < |s.windows| ==> r.windows[k] == s.windows[k])
    && (forall k :: 0 <= k < i ==> PaintedFrom(s.windows[k], r.windows[k]))
    && painted == DamagedHandles(s.windows[..i])
    && (painted == [] ==> r.cache == s.cache)
  }

  /** One iteration of the paint loop, in terms of its invariant */
  method PaintNext(r: State, s: State, inputs: seq<PaintInput>, painted: seq<Handle>, i: nat)
    returns (r': State, painted': seq<Handle>)
    requires Painting(r, s, inputs, painted, i) && i < |s.windows|
    requires inputs[i].freshPicture != NONE && inputs[i].freshAlpha != NONE
    ensures Painting(r', s, inputs, painted', i + 1)
  {
    PaintingPre(r, s, inputs, painted, i);
    r' := PaintAt(r, inputs[i], i);
    painted' := painted + (if s.windows[i].damaged then [s.windows[i].handle] else []);
    PaintingStep(r, r', s, inputs, painted, i);
  }

  lemma PaintingPre(r: State, s: State, inputs: seq<PaintInput>, painted: seq<Handle>, i: nat)
    requires Painting(r, s, inputs, painted, i) && i < |s.windows|
    ensures Inv(r) && i < |r.windows| && r.windows[i] == s.windows[i]
  {
  }

  lemma PaintingStep(r: State, r': State, s: State, inputs: seq<PaintInput>, painted: seq<Handle>, i: nat)
    requires Painting(r, s, inputs, painted, i) && i < |s.windows|
    requires Inv(r') && r'.index == r.index && r'.next == r.next && |r'.windows| == |r.windows|
    requires forall k :: 0 <= k < |r.windows| && k != i ==> r'.windows[k] == r.windows[k]
    requires PaintedFrom(r.windows[i], r'.windows[i])
    requires !r.windows[i].damaged ==> r'.cache == r.cache
    ensures Painting(r', s, inputs, painted + (if s.windows[i].damaged then [s.windows[i].handle] else []), i + 1)
  {
    DamagedHandlesSnoc(s.windows, i);
  }

  lemma PaintingEnd(r: State, s: State, inputs: seq<PaintInput>, painted: seq<Handle>)
    requires Painting(r, s, inputs, painted, |s.windows|)
    ensures Inv(r) && r.index == s.index && r.next == s.next && |r.windows| == |s.windows|
    ensures painted == DamagedHandles(s.windows)
    ensures forall k :: 0 <= k < |s.windows| ==> PaintedFrom(s.windows[k], r.windows[k])
    ensures painted == [] ==> r.cache == s.cache
  {
    assert s.windows[..|s.windows|] == s.windows;
  }

  lemma DamagedHandlesSnoc(ws: seq<Window>, i: nat)
    requires i < |ws|
    ensures DamagedHandles(ws[..i + 1]) == DamagedHandles(ws[..i]) + (if ws[i].damaged then [ws[i].handle] else [])
  {
    assert ws[..i + 1][..i] == ws[..i];
  }

  /** The painted handles are exactly those of the damaged windows */
  lemma {:induction false} DamagedHandlesMembers(ws: seq<Window>, h: Handle)
    ensures h in DamagedHandles(ws) <==> exists k :: 0 <= k < |ws| && ws[k].damaged && ws[k].handle == h
  {
    if |ws| > 0 {
      var ws' := ws[..|ws| - 1];
      DamagedHandlesMembers(ws', h);
      if exists k :: 0 <= k < |ws'| && ws'[k].damaged && ws'[k].handle == h {
        var k :| 0 <= k < |ws'| && ws'[k].damaged && ws'[k].handle == h;
        assert ws[k] == ws'[k];
      }
      if exists k :: 0 <= k < |ws| && ws[k].damaged && ws[k].handle == h {
        var k :| 0 <= k < |ws| && ws[k].damaged && ws[k].handle == h;
        if k < |ws| - 1 {
          assert ws'[k] == ws[k];
        }
      }
    }
  }

  // ---------------------------------------------------------------------
  // Managing the windows that exist at startup
  // ---------------------------------------------------------------------

  /** What `window_manage_existing` learns about one existing window: the
      replies to its requests, and the XIDs generated for its pixmap and
      region should it be viewable and visible */
  datatype ExistingInput = ExistingInput(replies: AddReplies, pixmap: Xid, region: Xid)

  ghost predicate Distinct(ids: seq<Xid>) {
    forall i, j :: 0 <= i < j < |ids| ==> ids[i] != ids[j]
  }

  /** The zeroed window objects appended for `ids`, with consecutive
      handles from `base` */
  function Fresh(base: Handle, ids: seq<Xid>): (r: seq<Window>)
    ensures |r| == |ids| && forall j :: 0 <= j < |ids| ==> r[j] == NewWindow(base + j, ids[j])
  {
    seq(|ids|, j requires 0 <= j < |ids| => NewWindow(base + j, ids[j]))
  }

  /** The record one existing window ends with, or `None` when it is
      dropped: the compositing manager's own window is kept as appended,
      with neither attributes nor geometry; another window needs both
      replies, and gets a pixmap and a region (with a shape fetch
      pending) when viewable and visible */
  function ManagedWindow(h: Handle, id: Xid, cm: Xid, inp: ExistingInput, screenWidth: U16, screenHeight: U16)
    : (r: Option<Window>)
    ensures id == cm ==> r == Some(NewWindow(h, id))
    ensures id != cm ==> (r.Some? <==> inp.replies.attributes.Some? && inp.replies.geometry.Some?)
    ensures r.Some? ==> r.value.handle == h && r.value.id == id && r.value.rendering.None? && !r.value.damaged
  {
    if id == cm then Some(NewWindow(h, id))
    else match (inp.replies.attributes, inp.replies.geometry)
      case (Some(a), Some(g)) =>
        var w := NewWindow(h, id).(attributes := Some(a), geometry := Some(g),
                                   damage := if a.inputOnly then NONE else inp.replies.damage);
        if a.mapState == Viewable && IsVisible(w, screenWidth, screenHeight) then
          Some(w.(pixmap := inp.pixmap, region := inp.region, shapePending := true))
        else Some(w)
      case _ => None
  }

  /** The records the existing windows end with, in the order given */
  function Managed(base: Handle, ids: seq<Xid>, cm: Xid, inputs: seq<ExistingInput>, screenWidth: U16, screenHeight: U16)
    : seq<Window>
    requires |inputs| == |ids|
  {
    if |ids| == 0 then []
    else
      var n := |ids| - 1;
      Managed(base, ids[..n], cm, inputs[..n], screenWidth, screenHeight) +
      AsSeq(ManagedWindow(base + n, ids[n], cm, inputs[n], screenWidth, screenHeight))
  }

  function AsSeq(o: Option<Window>): seq<Window> {
    match o
    case None => []
    case Some(w) => [w]
  }

  /** Which existing windows are kept, by position */
  function Kept(base: Handle, ids: seq<Xid>, cm: Xid, inputs: seq<ExistingInput>, screenWidth: U16, screenHeight: U16)
    : (r: seq<bool>)
    requires |inputs| == |ids|
    ensures |r| == |ids|
    ensures forall j :: 0 <= j < |ids| ==>
      (r[j] <==> ManagedWindow(base + j, ids[j], cm, inputs[j], screenWidth, screenHeight).Some?)
  {
    seq(|ids|, j requires 0 <= j < |ids| =>
      ManagedWindow(base + j, ids[j], cm, inputs[j], screenWidth, screenHeight).Some?)
  }

  /** The index holds `ids[j]` exactly when `lo <= j < hi` or the window
      at `j` is kept */
  ghost predicate Tracks(m: map<Xid, Handle>, ids: seq<Xid>, keep: seq<bool>, lo: nat, hi: nat)
    requires |keep| == |ids|
  {
    forall j :: 0 <= j < |ids| ==> (ids[j] in m <==> (lo <= j < hi || keep[j]))
  }

  /** `window_manage_existing`: the index is reset, every id (the
      compositing manager's window included) is appended in order, and
      every other window is completed from its replies or removed again */
  method ManageExisting(s: State, ids: seq<Xid>, cm: Xid, inputs: seq<ExistingInput>,
                        screenWidth: U16, screenHeight: U16) returns (r: State)
    requires Inv(s) && |inputs| == |ids|
    ensures Inv(r) && r.next == s.next + |ids| && r.cache == s.cache
    ensures r.windows == s.windows + Managed(s.next, ids, cm, inputs, screenWidth, screenHeight)
    ensures forall id :: id in ITree.ToMap(r.index) ==> id in ids
    ensures Distinct(ids) ==> forall k :: 0 <= k < |ids| ==>
      (ids[k] in ITree.ToMap(r.index) <==> ManagedWindow(s.next + k, ids[k], cm, inputs[k], screenWidth, screenHeight).Some?)
  {
    var keep := Kept(s.next, ids, cm, inputs, screenWidth, screenHeight);
    var r1 := AppendAll(s.(index := ITree.New()), ids);
    TracksAll(ITree.ToMap(r1.index), ids, keep);
    r := FinaliseAll(s.windows, r1, ids, cm, inputs, screenWidth, screenHeight);
  }

  /** The appending loop of `window_manage_existing` */
  method AppendAll(s: State, ids: seq<Xid>) returns (r: State)
    requires Inv(s) && ITree.ToMap(s.index) == map[]
    ensures Inv(r) && r.next == s.next + |ids| && r.cache == s.cache
    ensures r.windows == s.windows + Fresh(s.next, ids)
    ensures forall id :: id in ITree.ToMap(r.index) ==> id in ids
    ensures Distinct(ids) ==> forall j :: 0 <= j < |ids| ==> ids[j] in ITree.ToMap(r.index)
  {
    r := s;
    var k := 0;
    assert Fresh(s.next, ids)[..0] == [];
    while k < |ids|
      invariant k <= |ids| && Appending(r, s, ids, k)
    {
      r := AppendNext(r, s, ids, k);
      k := k + 1;
    }
    assert Fresh(s.next, ids)[..|ids|] == Fresh(s.next, ids);
  }

  /** The invariant of the appending loop after the first `k` ids */
  ghost predicate Appending(r: State, s: State, ids: seq<Xid>, k: nat) {
    && k <= |ids|
    && Inv(r) && r.next == s.next + k && r.cache == s.cache
    && r.windows == s.windows + Fresh(s.next, ids)[..k]
    && (forall id :: id in ITree.ToMap(r.index) ==> id in ids)
    && (Distinct(ids) ==> forall j :: 0 <= j < |ids| ==> (ids[j] in ITree.ToMap(r.index) <==> j < k))
  }

  /** One iteration of the appending loop, in terms of its invariant */
  method AppendNext(r: State, s: State, ids: seq<Xid>, k: nat) returns (r': State)
    requires Appending(r, s, ids, k) && k < |ids|
    ensures Appending(r', s, ids, k + 1)
  {
    var (r1, _) := Append(r, ids[k]);
    AppendingStep(r, r1, s, ids, k);
    r' := r1;
  }

  lemma AppendingStep(r: State, r': State, s: State, ids: seq<Xid>, k: nat)
    requires Appending(r, s, ids, k) && k < |ids|
    requires Inv(r') && r'.next == r.next + 1 && r'.cache == r.cache
    requires r'.windows == r.windows + [NewWindow(r.next, ids[k])]
    requires ids[k] in ITree.ToMap(r.index) ==> r'.index == r.index
    requires ids[k] !in ITree.ToMap(r.index) ==> ITree.ToMap(r'.index) == ITree.ToMap(r.index)[ids[k] := r.next]
    ensures Appending(r', s, ids, k + 1)
  {
    var all := Fresh(s.next, ids);
    assert NewWindow(r.next, ids[k]) == all[k];
    SnocPrefix(r.windows, s.windows, all, k);
    AppendingIndex(ITree.ToMap(r.index), ITree.ToMap(r'.index), ids, k, r.next);
  }

  lemma SnocPrefix(ws: seq<Window>, base: seq<Window>, all: seq<Window>, k: nat)
    requires k < |all| && ws == base + all[..k]
    ensures ws + [all[k]] == base + all[..k + 1]
  {
    assert all[..k + 1] == all[..k] + [all[k]];
  }

  lemma AppendingIndex(m: map<Xid, Handle>, m': map<Xid, Handle>, ids: seq<Xid>, k: nat, h: Handle)
    requires k < |ids| && forall id :: id in m ==> id in ids
    requires Distinct(ids) ==> forall j :: 0 <= j < |ids| ==> (ids[j] in m <==> j < k)
    requires ids[k] in m ==> m' == m
    requires ids[k] !in m ==> m' == m[ids[k] := h]
    ensures forall id :: id in m' ==> id in ids
    ensures Distinct(ids) ==> forall j :: 0 <= j < |ids| ==> (ids[j] in m' <==> j < k + 1)
  {
    TracksInsert(m, ids, k, h);
  }

  /** The finalising loop of `window_manage_existing`: the windows after
      the prefix `base` are those just appended for `ids` */
  method FinaliseAll(base: seq<Window>, s: State, ids: seq<Xid>, cm: Xid, inputs: seq<ExistingInput>,
                     screenWidth: U16, screenHeight: U16) returns (r: State)
    requires Inv(s) && |inputs| == |ids| && s.next >= |ids|
    requires s.windows == base + Fresh(s.next - |ids|, ids)
    ensures Inv(r) && r.next == s.next && r.cache == s.cache
    ensures r.windows == base + Managed(s.next - |ids|, ids, cm, inputs, screenWidth, screenHeight)
    ensures forall id :: id in ITree.ToMap(r.index) ==> id in ITree.ToMap(s.index)
    ensures Distinct(ids) && Tracks(ITree.ToMap(s.index), ids, Kept(s.next - |ids|, ids, cm, inputs, screenWidth, screenHeight), 0, |ids|) ==>
      Tracks(ITree.ToMap(r.index), ids, Kept(s.next - |ids|, ids, cm, inputs, screenWidth, screenHeight), |ids|, |ids|)
  {
    var h0 := s.next - |ids|;
    var keep := Kept(h0, ids, cm, inputs, screenWidth, screenHeight);
    var loop := FinaliseLoop(base, h0, ids, cm, inputs, screenWidth, screenHeight, keep);
    r := s;
    var k: nat := 0;
    FinalisingStart(loop, s);
    while k < |ids|
      invariant k <= |ids| && Finalising(loop, s, r, k)
    {
      r := FinaliseNext(loop, s, r, k);
      k := k + 1;
    }
    FinalisingEnd(loop, s, r);
  }

  /** What the finalising loop works through: the windows before the
      appended ones, the handle of the first appended one, the ids, the
      replies, and which windows are kept */
  datatype FinaliseLoop = FinaliseLoop(base: seq<Window>, h0: Handle, ids: seq<Xid>, cm: Xid, inputs: seq<ExistingInput>,
                                       screenWidth: U16, screenHeight: U16, keep: seq<bool>)
  {
    ghost predicate Valid() {
      |inputs| == |ids| && keep == Kept(h0, ids, cm, inputs, screenWidth, screenHeight)
    }

    /** The first `k` ids finalised, the rest as appended */
    function WindowsAfter(k: nat): seq<Window>
      requires Valid() && k <= |ids|
    {
      base + Managed(h0, ids[..k], cm, inputs[..k], screenWidth, screenHeight) + Fresh(h0, ids)[k..]
    }
  }

  /** The invariant of the finalising loop after `k` windows, `s` being
      the state it started from */
  ghost predicate Finalising(loop: FinaliseLoop, s: State, r: State, k: nat) {
    && loop.Valid() && k <= |loop.ids| && loop.h0 + |loop.ids| == s.next
    && Inv(r) && r.next == s.next && r.cache == s.cache
    && r.windows == loop.WindowsAfter(k)
    && (forall id :: id in ITree.ToMap(r.index) ==> id in ITree.ToMap(s.index))
    && (Distinct(loop.ids) && Tracks(ITree.ToMap(s.index), loop.ids, loop.keep, 0, |loop.ids|) ==>
        Tracks(ITree.ToMap(r.index), loop.ids, loop.keep, k, |loop.ids|))
  }

  lemma FinalisingStart(loop: FinaliseLoop, s: State)
    requires loop.Valid() && Inv(s) && loop.h0 + |loop.ids| == s.next
    requires s.windows == loop.base + Fresh(loop.h0, loop.ids)
    ensures Finalising(loop, s, s, 0)
  {
    assert Managed(loop.h0, loop.ids[..0], loop.cm, loop.inputs[..0], loop.screenWidth, loop.screenHeight) == [];
    assert Fresh(loop.h0, loop.ids)[0..] == Fresh(loop.h0, loop.ids);
  }

  /** One iteration of the finalising loop, in terms of its invariant */
  method FinaliseNext(loop: FinaliseLoop, s: State, r: State, k: nat) returns (r': State)
    requires Finalising(loop, s, r, k) && k < |loop.ids|
    ensures Finalising(loop, s, r', k + 1)
  {
    FinalisingPre(loop, s, r, k);
    r' := FinaliseAt(r, loop.base, loop.h0, loop.ids, loop.cm, loop.inputs, loop.screenWidth, loop.screenHeight, k);
    FinalisingStep(loop, s, r, r', k);
  }

  lemma FinalisingPre(loop: FinaliseLoop, s: State, r: State, k: nat)
    requires Finalising(loop, s, r, k) && k < |loop.ids|
    ensures Inv(r) && |loop.inputs| == |loop.ids|
    ensures r.windows == loop.base + Managed(loop.h0, loop.ids[..k], loop.cm, loop.inputs[..k], loop.screenWidth, loop.screenHeight) +
                         Fresh(loop.h0, loop.ids)[k..]
    ensures loop.keep[k] == ManagedWindow(loop.h0 + k, loop.ids[k], loop.cm, loop.inputs[k], loop.screenWidth, loop.screenHeight).Some?
  {
  }

  lemma FinalisingStep(loop: FinaliseLoop, s: State, r: State, r': State, k: nat)
    requires Finalising(loop, s, r, k) && k < |loop.ids|
    requires loop.keep[k] == ManagedWindow(loop.h0 + k, loop.ids[k], loop.cm, loop.inputs[k], loop.screenWidth, loop.screenHeight).Some?
    requires Inv(r') && r'.next == r.next && r'.cache == r.cache
    requires r'.windows == loop.base + Managed(loop.h0, loop.ids[..k + 1], loop.cm, loop.inputs[..k + 1], loop.screenWidth, loop.screenHeight) +
                           Fresh(loop.h0, loop.ids)[k + 1..]
    requires ManagedWindow(loop.h0 + k, loop.ids[k], loop.cm, loop.inputs[k], loop.screenWidth, loop.screenHeight).Some? ==>
      r'.index == r.index
    requires ManagedWindow(loop.h0 + k, loop.ids[k], loop.cm, loop.inputs[k], loop.screenWidth, loop.screenHeight).None? ==>
      ITree.ToMap(r'.index) == ITree.ToMap(r.index) - {loop.ids[k]}
    ensures Finalising(loop, s, r', k + 1)
  {
    TracksRemove(ITree.ToMap(r.index), loop.ids, loop.keep, k);
  }

  lemma FinalisingEnd(loop: FinaliseLoop, s: State, r: State)
    requires Finalising(loop, s, r, |loop.ids|)
    ensures Inv(r) && r.next == s.next && r.cache == s.cache
    ensures r.windows == loop.base + Managed(loop.h0, loop.ids, loop.cm, loop.inputs, loop.screenWidth, loop.screenHeight)
    ensures forall id :: id in ITree.ToMap(r.index) ==> id in ITree.ToMap(s.index)
    ensures Distinct(loop.ids) && Tracks(ITree.ToMap(s.index), loop.ids, loop.keep, 0, |loop.ids|) ==>
      Tracks(ITree.ToMap(r.index), loop.ids, loop.keep, |loop.ids|, |loop.ids|)
  {
    FinishedWindows(r.windows, loop.base, loop.h0, loop.ids, loop.cm, loop.inputs, loop.screenWidth, loop.screenHeight);
  }

  lemma FinishedWindows(ws: seq<Window>, base: seq<Window>, h0: Handle, ids: seq<Xid>, cm: Xid, inputs: seq<ExistingInput>,
                        screenWidth: U16, screenHeight: U16)
    requires |inputs| == |ids|
    requires ws == base + Managed(h0, ids[..|ids|], cm, inputs[..|ids|], screenWidth, screenHeight) + Fresh(h0, ids)[|ids|..]
    ensures ws == base + Managed(h0, ids, cm, inputs, screenWidth, screenHeight)
  {
    assert ids[..|ids|] == ids && inputs[..|ids|] == inputs;
    assert Fresh(h0, ids)[|ids|..] == [];
  }

  /** One iteration of the finalising loop, for `ids[k]`: the
      compositing manager's window is skipped */
  method FinaliseAt(s: State, base: seq<Window>, h0: Handle, ids: seq<Xid>, cm: Xid, inputs: seq<ExistingInput>,
                    screenWidth: U16, screenHeight: U16, k: nat) returns (r: State)
    requires Inv(s) && |inputs| == |ids| && k < |ids|
    requires s.windows == base + Managed(h0, ids[..k], cm, inputs[..k], screenWidth, screenHeight) + Fresh(h0, ids)[k..]
    ensures Inv(r) && r.next == s.next && r.cache == s.cache
    ensures r.windows == base + Managed(h0, ids[..k + 1], cm, inputs[..k + 1], screenWidth, screenHeight) + Fresh(h0, ids)[k + 1..]
    ensures ManagedWindow(h0 + k, ids[k], cm, inputs[k], screenWidth, screenHeight).Some? ==> r.index == s.index
    ensures ManagedWindow(h0 + k, ids[k], cm, inputs[k], screenWidth, screenHeight).None? ==>
      ITree.ToMap(r.index) == ITree.ToMap(s.index) - {ids[k]}
  {
    var done := Managed(h0, ids[..k], cm, inputs[..k], screenWidth, screenHeight);
    var mw := ManagedWindow(h0 + k, ids[k], cm, inputs[k], screenWidth, screenHeight);
    var rest := Fresh(h0, ids)[k..];
    ManagedStep(h0, ids, cm, inputs, screenWidth, screenHeight, k);
    assert rest[1..] == Fresh(h0, ids)[k + 1..];
    if ids[k] == cm {
      CmKept(base, done, h0, ids, cm, inputs, screenWidth, screenHeight, k);
      r := s;
    } else {
      r := FinaliseOne(s, base, done, rest, mw);
    }
  }

  /** One window of the finalising loop: the freshly appended window
      right after `base + done` is completed to `mw`, or removed when
      `mw` is `None` */
  method FinaliseOne(s: State, base: seq<Window>, done: seq<Window>, rest: seq<Window>, mw: Option<Window>)
    returns (r: State)
    requires Inv(s) && |rest| > 0 && s.windows == base + done + rest && rest[0].rendering.None?
    requires mw.Some? ==>
      mw.value.handle == rest[0].handle && mw.value.id == rest[0].id && mw.value.rendering.None? && !mw.value.damaged
    ensures Inv(r) && r.next == s.next && r.cache == s.cache
    ensures r.windows == base + (done + AsSeq(mw)) + rest[1..]
    ensures mw.Some? ==> r.index == s.index
    ensures mw.None? ==> ITree.ToMap(r.index) == ITree.ToMap(s.index) - {rest[0].id}
  {
    match mw
    case None =>
      r := DropFresh(s, base, done, rest);
      assert done + AsSeq(mw) == done;
    case Some(w) =>
      r := KeepFresh(s, base, done, rest, w);
      assert AsSeq(mw) == [w];
  }

  /** A window that did not answer is removed again */
  method DropFresh(s: State, base: seq<Window>, done: seq<Window>, rest: seq<Window>) returns (r: State)
    requires Inv(s) && |rest| > 0 && s.windows == base + done + rest && rest[0].rendering.None?
    ensures Inv(r) && r.next == s.next && r.cache == s.cache
    ensures r.windows == base + done + rest[1..]
    ensures ITree.ToMap(r.index) == ITree.ToMap(s.index) - {rest[0].id}
  {
    SpliceAt(base, done, rest, rest[0]);
    PositionAt(s.windows, |base| + |done|);
    r := RemoveWindow(s, rest[0].handle);
  }

  /** A window that answered is completed in place */
  method KeepFresh(s: State, base: seq<Window>, done: seq<Window>, rest: seq<Window>, w: Window) returns (r: State)
    requires Inv(s) && |rest| > 0 && s.windows == base + done + rest && rest[0].rendering.None?
    requires w.handle == rest[0].handle && w.id == rest[0].id && w.rendering.None? && !w.damaged
    ensures Inv(r) && r.next == s.next && r.cache == s.cache && r.index == s.index
    ensures r.windows == base + (done + [w]) + rest[1..]
  {
    SpliceAt(base, done, rest, w);
    r := SetWindow(s, |base| + |done|, w);
  }

  /** The compositing manager's window stays as appended */
  lemma CmKept(a: seq<Window>, d: seq<Window>, h0: Handle, ids: seq<Xid>, cm: Xid, inputs: seq<ExistingInput>,
               screenWidth: U16, screenHeight: U16, k: nat)
    requires |inputs| == |ids| && k < |ids| && ids[k] == cm
    ensures a + d + Fresh(h0, ids)[k..] ==
      a + (d + AsSeq(ManagedWindow(h0 + k, ids[k], cm, inputs[k], screenWidth, screenHeight))) + Fresh(h0, ids)[k + 1..]
  {
    var c := Fresh(h0, ids)[k..];
    SpliceAt(a, d, c, c[0]);
    assert c[1..] == Fresh(h0, ids)[k + 1..];
  }

  /** Editing the window right after a prefix of the list */
  lemma SpliceAt(a: seq<Window>, d: seq<Window>, c: seq<Window>, w: Window)
    requires |c| > 0
    ensures (a + d + c)[|a| + |d|] == c[0]
    ensures Without(a + d + c, |a| + |d|) == a + d + c[1..]
    ensures (a + d + c)[|a| + |d| := w] == a + (d + [w]) + c[1..]
    ensures a + d + c == a + (d + [c[0]]) + c[1..]
  {
    assert c == [c[0]] + c[1..];
  }

  /** Appending the next id to an index holding exactly the earlier ones */
  lemma TracksInsert(m: map<Xid, Handle>, ids: seq<Xid>, k: nat, h: Handle)
    requires k < |ids|
    ensures Distinct(ids) && (forall j :: 0 <= j < |ids| ==> (ids[j] in m <==> j < k)) ==>
      ids[k] !in m && forall j :: 0 <= j < |ids| ==> (ids[j] in m[ids[k] := h] <==> j < k + 1)
  {
  }

  lemma TracksAll(m: map<Xid, Handle>, ids: seq<Xid>, keep: seq<bool>)
    requires |keep| == |ids|
    ensures (forall j :: 0 <= j < |ids| ==> ids[j] in m) ==> Tracks(m, ids, keep, 0, |ids|)
  {
  }

  /** Finalising the next window: a dropped window's id leaves the index */
  lemma TracksRemove(m: map<Xid, Handle>, ids: seq<Xid>, keep: seq<bool>, k: nat)
    requires k < |ids| && |keep| == |ids|
    ensures Distinct(ids) && Tracks(m, ids, keep, k, |ids|) ==>
      if keep[k] then Tracks(m, ids, keep, k + 1, |ids|) else Tracks(m - {ids[k]}, ids, keep, k + 1, |ids|)
  {
  }

  /** One more id of `Managed` */
  lemma ManagedStep(base: Handle, ids: seq<Xid>, cm: Xid, inputs: seq<ExistingInput>, screenWidth: U16, screenHeight: U16, k: nat)
    requires |inputs| == |ids| && k < |ids|
    ensures Managed(base, ids[..k + 1], cm, inputs[..k + 1], screenWidth, screenHeight) ==
      Managed(base, ids[..k], cm, inputs[..k], screenWidth, screenHeight) +
      AsSeq(ManagedWindow(base + k, ids[k], cm, inputs[k], screenWidth, screenHeight))
  {
    assert ids[..k + 1][..k] == ids[..k];
    assert inputs[..k + 1][..k] == inputs[..k];
  }

  // ---------------------------------------------------------------------
  // Lookup after list operations
  // ---------------------------------------------------------------------

  /** After appending an id the index did not hold, looking it up finds
      the new window at the tail */
  lemma AppendThenGet(s: State, id: Xid)
    requires Inv(s) && id !in ITree.ToMap(s.index)
    ensures ListGet(Append(s, id).0, id) == Some(|s.windows|)
  {
    var r := Append(s, id).0;
    PositionAt(r.windows, |s.windows|);
  }

  /** Appending an id the index already holds lists a second window with
      that id, while looking the id up still finds the older one */
  lemma AppendDuplicateKeepsOlder(s: State, id: Xid)
    requires Inv(s) && id in ITree.ToMap(s.index)
    ensures var r := Append(s, id).0;
      ListGet(r, id) == ListGet(s, id) && ListGet(r, id).value < |s.windows| &&
      r.windows[|s.windows|].id == id
  {
    var r := Append(s, id).0;
    IndexedPosition(s, id);
    var h := ITree.ToMap(s.index)[id];
    var i := Position(s.windows, h).value;
    PositionAt(r.windows, i);
    PositionAt(s.windows, i);
  }

  /** Once a window is removed its id is no longer found */
  lemma RemoveThenGet(s: State, h: Handle)
    requires Inv(s) && Position(s.windows, h).Some?
    ensures ListGet(RemoveWindow(s, h), s.windows[Position(s.windows, h).value].id).None?
  {
  }

  /** A failed add of an id that was already managed leaves the older
      window listed but no longer found by id */
  lemma AddFailureUnindexesExisting(s: State, id: Xid, rep: AddReplies)
    requires Inv(s) && id in ITree.ToMap(s.index) && (rep.attributes.None? || rep.geometry.None?)
    ensures var r := Add(s, id, rep).0;
      ListGet(r, id).None? && r.windows == s.windows && ListGet(s, id).Some?
  {
  }
}
