/** The plugin records of include/plugin.h, the rule by which an event
    reaches the loaded plugins, and the file name `plugin_common_dlopen`
    builds for a plugin. Hooks are code the model cannot see: a plugin is
    described by which hooks it provides, and a dispatch by the positions
    of the plugins called, in call order. */
module Plugin {

  /** The members of `plugin_events_notify_t` */
  datatype Hook =
    | DamageHook | RandrScreenChangeHook | KeyPressHook | KeyReleaseHook | ButtonReleaseHook
    | CirculateHook | ConfigureHook | CreateHook | DestroyHook | MapHook | ReparentHook
    | UnmapHook | PropertyHook

  /** `plugin_vtable_t`: the name, the event hooks that are non-NULL, and
      whether each general hook is non-NULL */
  datatype Vtable = Vtable(name: string, events: set<Hook>, checkRequirements: bool,
                           manageExisting: bool, getOpacity: bool, renderWindows: bool)

  /** `plugin_t`, in the order of the `globalconf.plugins` list */
  datatype Plugin = Plugin(enable: bool, vtable: Vtable)

  /** Strictly increasing positions: each plugin called at most once, in
      list order */
  ghost predicate Increasing(r: seq<nat>) {
    forall a, b :: 0 <= a < b < |r| ==> r[a] < r[b]
  }

  /** The positions of the plugins satisfying `f`, in list order */
  function Select(ps: seq<Plugin>, f: Plugin -> bool): (r: seq<nat>)
    ensures forall k :: 0 <= k < |r| ==> r[k] < |ps| && f(ps[r[k]])
    ensures forall i :: 0 <= i < |ps| && f(ps[i]) ==> i in r
    ensures Increasing(r)
  {
    if |ps| == 0 then []
    else
      var n := |ps| - 1;
      var r := Select(ps[..n], f);
      assert forall k :: 0 <= k < |r| ==> ps[..n][r[k]] == ps[r[k]];
      r + (if f(ps[n]) then [n] else [])
  }

  /** Whether `PLUGINS_EVENT_HANDLE` calls this plugin for the event: it
      is enabled and provides the hook */
  predicate Handles(p: Plugin, e: Hook) {
    p.enable && e in p.vtable.events
  }

  /** `PLUGINS_EVENT_HANDLE`: every enabled plugin providing the hook is
      called, in list order, and no other; the loop does not stop at the
      first one */
  function EventHandle(ps: seq<Plugin>, e: Hook): (r: seq<nat>)
    ensures forall i :: 0 <= i < |ps| ==> (i in r <==> Handles(ps[i], e))
    ensures forall k :: 0 <= k < |r| ==> r[k] < |ps|
    ensures Increasing(r)
  {
    Select(ps, (p: Plugin) => Handles(p, e))
  }

  /** The `window_manage_existing` hook is called on every plugin that
      provides it, enabled or not (src/window.c) */
  function ManageExistingCalls(ps: seq<Plugin>): (r: seq<nat>)
    ensures forall i :: 0 <= i < |ps| ==> (i in r <==> ps[i].vtable.manageExisting)
    ensures forall k :: 0 <= k < |r| ==> r[k] < |ps|
    ensures Increasing(r)
  {
    Select(ps, (p: Plugin) => p.vtable.manageExisting)
  }

  /** Two increasing call sequences that call the same plugins are the
      same sequence: membership and order determine a dispatch */
  lemma {:induction false} IncreasingUnique(a: seq<nat>, b: seq<nat>)
    requires Increasing(a) && Increasing(b)
    requires forall i :: i in a <==> i in b
    ensures a == b
    decreases |a|
  {
    assert |a| > 0 ==> a[0] in b;
    assert |b| > 0 ==> b[0] in a;
    if |a| > 0 && |b| > 0 {
      var la, lb := a[|a| - 1], b[|b| - 1];
      LastIsGreatest(a);
      LastIsGreatest(b);
      assert la in b && lb in a;
      assert la == lb;
      var a', b' := a[..|a| - 1], b[..|b| - 1];
      DropLast(a);
      DropLast(b);
      forall i
        ensures i in a' <==> i in b'
      {
        assert i in a' <==> i in a && i != la;
        assert i in b' <==> i in b && i != lb;
      }
      IncreasingUnique(a', b');
      assert a == a' + [la] && b == b' + [lb];
    }
  }

  lemma LastIsGreatest(a: seq<nat>)
    requires Increasing(a) && |a| > 0
    ensures forall x :: x in a ==> x <= a[|a| - 1]
  {
    forall x | x in a
      ensures x <= a[|a| - 1]
    {
      var k :| 0 <= k < |a| && a[k] == x;
      if k < |a| - 1 {
        assert a[k] < a[|a| - 1];
      }
    }
  }

  /** Dropping the last element of an increasing sequence removes exactly
      that element */
  lemma DropLast(a: seq<nat>)
    requires Increasing(a) && |a| > 0
    ensures Increasing(a[..|a| - 1])
    ensures forall x :: x in a[..|a| - 1] <==> x in a && x != a[|a| - 1]
  {
    var n := |a| - 1;
    forall x
      ensures x in a[..n] <==> x in a && x != a[n]
    {
      if x in a[..n] {
        var k :| 0 <= k < n && a[..n][k] == x;
        assert a[k] < a[n];
      }
      if x in a && x != a[n] {
        var k :| 0 <= k < |a| && a[k] == x;
        assert a[..n][k] == x;
      }
    }
  }

  /** Any order of calls that visits exactly the enabled plugins with the
      hook, each once and in list order, is the dispatch */
  lemma EventHandleIsListOrder(ps: seq<Plugin>, e: Hook, calls: seq<nat>)
    requires Increasing(calls)
    requires forall k :: 0 <= k < |calls| ==> calls[k] < |ps|
    requires forall i :: 0 <= i < |ps| ==> (i in calls <==> Handles(ps[i], e))
    ensures calls == EventHandle(ps, e)
  {
    var r := EventHandle(ps, e);
    forall i
      ensures i in calls <==> i in r
    {
      if i in calls {
        var k :| 0 <= k < |calls| && calls[k] == i;
      }
      if i in r {
        var k :| 0 <= k < |r| && r[k] == i;
      }
    }
    IncreasingUnique(calls, r);
  }

  // ---------------------------------------------------------------------
  // Plugin file name
  // ---------------------------------------------------------------------

  const SoSuffix: string := ".so"

  /** `sizeof(".so")`: the suffix and its terminating NUL */
  const SizeofSo: nat := |SoSuffix| + 1

  /** `snprintf(buf, size, "%s", s)` as far as the characters stored go:
      at most `size - 1` characters, then the terminator */
  function Snprintf(size: nat, s: string): (r: string)
    ensures size >= 1 ==> |r| == if |s| < size then |s| else size - 1
    ensures size == 0 ==> r == []
    ensures r == s[..|r|]
  {
    if size == 0 then []
    else if |s| < size then s
    else s[..size - 1]
  }

  /** `path_len` in `plugin_common_dlopen` */
  function PathBufferSize(dir: string, name: string): nat {
    |name| + |dir| + SizeofSo
  }

  /** The path `plugin_common_dlopen` passes to `dlopen`: the buffer holds
      the whole concatenation, so the path is the directory, verbatim and
      with no separator added, then the name, then ".so"; the extra byte of
      `sizeof(".so")` is the terminator's, and without it the final 'o'
      would be lost */
  function DlopenPath(dir: string, name: string): (r: string)
    ensures r == dir + name + SoSuffix
    ensures |r| == |dir| + |name| + 3
    ensures r[..|dir|] == dir && r[|dir|..|dir| + |name|] == name
  {
    var full := dir + name + SoSuffix;
    assert |full| < PathBufferSize(dir, name);
    Snprintf(PathBufferSize(dir, name), full)
  }
}
