/** The id index of src/util.c: a self-balancing (AVL) binary search tree
    from 32-bit window ids to values.

    The source keeps parent pointers and rebalances bottom-up from the
    parent of the changed node; here the tree is an immutable datatype and
    the same rebalancing is applied to every node on the way back up the
    search path, which visits the same nodes in the same order. */
module ITree {
  import opened Wrappers

  /** `uint32_t` keys */
  type Key = k: int | 0 <= k < 0x1_0000_0000

  /** A node stores its key, its value, its height and its two subtrees;
      the empty tree is `Leaf` (the source's NULL). */
  datatype Tree<V> = Leaf | Node(key: Key, value: V, height: int, left: Tree<V>, right: Tree<V>)

  function Max(a: int, b: int): int { if a > b then a else b }

  // ---------------------------------------------------------------------
  // Abstraction and the invariants of the self-check `util_itree_check`
  // ---------------------------------------------------------------------

  /** The key/value mapping a tree represents */
  ghost function ToMap<V>(t: Tree<V>): map<Key, V> {
    match t
    case Leaf => map[]
    case Node(k, v, _, l, r) => (ToMap(l) + ToMap(r))[k := v]
  }

  /** The in-order sequence of keys */
  ghost function InorderKeys<V>(t: Tree<V>): seq<Key> {
    match t
    case Leaf => []
    case Node(k, _, _, l, r) => InorderKeys(l) + [k] + InorderKeys(r)
  }

  /** Stored height of a tree (0 for the empty tree) */
  function Height<V>(t: Tree<V>): int {
    if t.Leaf? then 0 else t.height
  }

  /** Every stored height is one more than the larger child height */
  ghost predicate HeightsOk<V>(t: Tree<V>) {
    match t
    case Leaf => true
    case Node(_, _, h, l, r) => HeightsOk(l) && HeightsOk(r) && h == Max(Height(l), Height(r)) + 1
  }

  /** Every node has a balance factor in -1..1 */
  ghost predicate Balanced<V>(t: Tree<V>) {
    match t
    case Leaf => true
    case Node(_, _, _, l, r) => Balanced(l) && Balanced(r) && -1 <= Height(l) - Height(r) <= 1
  }

  /** Keys of the left subtree are smaller and keys of the right subtree
      larger than the node key, at every node */
  ghost predicate Ordered<V>(t: Tree<V>) {
    match t
    case Leaf => true
    case Node(k, _, _, l, r) =>
      && Ordered(l) && Ordered(r)
      && (forall x :: x in ToMap(l) ==> x < k)
      && (forall x :: x in ToMap(r) ==> k < x)
  }

  ghost predicate Valid<V>(t: Tree<V>) {
    Ordered(t) && HeightsOk(t) && Balanced(t)
  }

  lemma HeightsOkPositive<V>(t: Tree<V>)
    requires HeightsOk(t)
    ensures Height(t) >= 0
    ensures t.Node? ==> Height(t) >= 1
  {
    if t.Node? {
      HeightsOkPositive(t.left);
      HeightsOkPositive(t.right);
    }
  }

  // ---------------------------------------------------------------------
  // Node surgery: heights, balance factor, rotations, rebalancing
  // ---------------------------------------------------------------------

  /** A node whose stored height is recomputed from its children
      (`util_itree_fix_height`) */
  function Mk<V>(k: Key, v: V, l: Tree<V>, r: Tree<V>): Tree<V> {
    Node(k, v, Max(Height(l), Height(r)) + 1, l, r)
  }

  function FixHeight<V>(t: Tree<V>): Tree<V>
    requires t.Node?
  {
    Mk(t.key, t.value, t.left, t.right)
  }

  /** `util_itree_balance` */
  function Balance<V>(t: Tree<V>): int
    requires t.Node?
  {
    Height(t.left) - Height(t.right)
  }

  /** `util_itree_rotate(.., ROTATE_RIGHT)`: the left child becomes the
      root; both moved nodes get their heights fixed, the lower one first */
  function RotateRight<V>(t: Tree<V>): Tree<V>
    requires t.Node? && t.left.Node?
  {
    Mk(t.left.key, t.left.value, t.left.left, Mk(t.key, t.value, t.left.right, t.right))
  }

  /** `util_itree_rotate(.., ROTATE_LEFT)` */
  function RotateLeft<V>(t: Tree<V>): Tree<V>
    requires t.Node? && t.right.Node?
  {
    Mk(t.right.key, t.right.value, Mk(t.key, t.value, t.left, t.right.left), t.right.right)
  }

  /** One step of `util_itree_rebalance`: fix the height, then a single or
      double rotation when the balance factor reached 2 in magnitude */
  function Rebalance<V>(t: Tree<V>): (r: Tree<V>)
    requires t.Node? && HeightsOk(t.left) && HeightsOk(t.right)
    ensures r.Node? && HeightsOk(r)
  {
    HeightsOkPositive(t.left);
    HeightsOkPositive(t.right);
    var n := FixHeight(t);
    var b := Balance(n);
    if b <= -2 then
      HeightsOkPositive(n.right.left);
      HeightsOkPositive(n.right.right);
      var right := if Balance(n.right) == 1 then RotateRight(n.right) else n.right;
      RotateLeft(n.(right := right))
    else if b >= 2 then
      HeightsOkPositive(n.left.left);
      HeightsOkPositive(n.left.right);
      var left := if Balance(n.left) == -1 then RotateLeft(n.left) else n.left;
      RotateRight(n.(left := left))
    else
      n
  }

  // ---------------------------------------------------------------------
  // Operations
  // ---------------------------------------------------------------------

  /** `util_itree_new`: the empty tree */
  function New<V>(): (t: Tree<V>)
    ensures Valid(t)
    ensures ToMap(t) == map[]
  {
    Leaf
  }

  /** `util_itree_get`: binary search from the root */
  function Get<V>(t: Tree<V>, k: Key): (r: Option<V>)
    ensures Ordered(t) ==> (r.Some? <==> k in ToMap(t))
    ensures Ordered(t) && r.Some? ==> r.value == ToMap(t)[k]
  {
    match t
    case Leaf => None
    case Node(key, value, _, l, r) =>
      if key == k then Some(value)
      else if key > k then Get(l, k)
      else Get(r, k)
  }

  /** `util_itree_size` */
  function Size<V>(t: Tree<V>): (n: nat)
    ensures Ordered(t) ==> n == |ToMap(t).Keys|
  {
    match t
    case Leaf => 0
    case Node(_, _, _, l, r) =>
      DisjointUnionSize(t);
      Size(l) + Size(r) + 1
  }

  /** Insertion of a key known to be absent: a new leaf node at the end of
      the search path, then rebalancing on the way back up */
  function InsertNew<V>(t: Tree<V>, k: Key, v: V): (r: Tree<V>)
    requires HeightsOk(t)
    ensures r.Node? && HeightsOk(r)
  {
    match t
    case Leaf => Node(k, v, 1, Leaf, Leaf)
    case Node(key, value, h, l, r) =>
      if key == k then t
      else if key > k then Rebalance(Node(key, value, h, InsertNew(l, k, v), r))
      else Rebalance(Node(key, value, h, l, InsertNew(r, k, v)))
  }

  /** `util_itree_insert`: a key already present leaves the tree (and the
      value stored under it) untouched */
  function Insert<V>(t: Tree<V>, k: Key, v: V): (r: Tree<V>)
    requires HeightsOk(t)
    ensures HeightsOk(r)
    ensures Valid(t) ==> Valid(r)
    ensures Valid(t) && k in ToMap(t) ==> r == t
    ensures Valid(t) && k !in ToMap(t) ==> ToMap(r) == ToMap(t)[k := v]
  {
    if Get(t, k).Some? then t
    else
      InsertNewWhenValid(t, k, v);
      InsertNew(t, k, v)
  }

  /** Detaches the largest node of a non-empty tree (the in-order
      predecessor search of `util_itree_remove`), rebalancing upwards */
  function RemoveMax<V>(t: Tree<V>): (r: (Tree<V>, Key, V))
    requires t.Node? && HeightsOk(t)
    ensures HeightsOk(r.0)
  {
    if t.right.Leaf? then (t.left, t.key, t.value)
    else
      var rest := RemoveMax(t.right);
      (Rebalance(Node(t.key, t.value, t.height, t.left, rest.0)), rest.1, rest.2)
  }

  /** Removal of a key along its search path: a node with at most one
      child is replaced by that child, a node with two children by its
      in-order predecessor */
  function Delete<V>(t: Tree<V>, k: Key): (r: Tree<V>)
    requires HeightsOk(t)
    ensures HeightsOk(r)
  {
    match t
    case Leaf => Leaf
    case Node(key, value, h, l, r) =>
      if key == k then
        if l.Leaf? || r.Leaf? then (if l.Node? then l else r)
        else
          var p := RemoveMax(l);
          Rebalance(Node(p.1, p.2, h, p.0, r))
      else if key > k then Rebalance(Node(key, value, h, Delete(l, k), r))
      else Rebalance(Node(key, value, h, l, Delete(r, k)))
  }

  /** `util_itree_remove`: an absent key leaves the tree untouched */
  function Remove<V>(t: Tree<V>, k: Key): (r: Tree<V>)
    requires HeightsOk(t)
    ensures HeightsOk(r)
    ensures Valid(t) ==> Valid(r)
    ensures Valid(t) && k !in ToMap(t) ==> r == t
    ensures Valid(t) ==> ToMap(r) == ToMap(t) - {k}
  {
    if Get(t, k).None? then t
    else
      DeleteWhenValid(t, k);
      Delete(t, k)
  }

  // ---------------------------------------------------------------------
  // Proofs
  // ---------------------------------------------------------------------

  /** The bindings of a node are its own and those of its subtrees */
  lemma Children<V>(t: Tree<V>)
    requires t.Node?
    ensures t.key in ToMap(t) && ToMap(t)[t.key] == t.value
    ensures forall x :: x in ToMap(t.left) ==> x in ToMap(t)
    ensures forall x :: x in ToMap(t.right) ==> x in ToMap(t)
    ensures forall x :: x in ToMap(t) ==> x == t.key || x in ToMap(t.left) || x in ToMap(t.right)
  {
  }

  /** The subtrees of a valid node are valid */
  lemma ValidChildren<V>(t: Tree<V>)
    requires t.Node? && Valid(t)
    ensures Valid(t.left) && Valid(t.right)
    ensures -1 <= Height(t.left) - Height(t.right) <= 1
    ensures Height(t) == Max(Height(t.left), Height(t.right)) + 1
  {
  }

  lemma DisjointUnionSize<V>(t: Tree<V>)
    requires t.Node?
    ensures Ordered(t) ==> |ToMap(t).Keys| == |ToMap(t.left).Keys| + |ToMap(t.right).Keys| + 1
  {
    if Ordered(t) {
      var l, r := ToMap(t.left).Keys, ToMap(t.right).Keys;
      assert l !! r by {
        forall x | x in l ensures x !in r {
          assert x < t.key;
        }
      }
      assert ToMap(t).Keys == l + r + {t.key};
      assert t.key !in l + r;
    }
  }

  /** A node built from valid, ordered children whose heights differ by at
      most one is valid */
  lemma MkValid<V>(k: Key, v: V, l: Tree<V>, r: Tree<V>)
    requires Valid(l) && Valid(r)
    requires forall x :: x in ToMap(l) ==> x < k
    requires forall x :: x in ToMap(r) ==> k < x
    requires -1 <= Height(l) - Height(r) <= 1
    ensures Valid(Mk(k, v, l, r))
  {
  }

  lemma MapRotate<V>(a: map<Key, V>, b: map<Key, V>, c: map<Key, V>, x: Key, xv: V, y: Key, yv: V)
    requires x != y && x !in c
    ensures ((a + b)[x := xv] + c)[y := yv] == (a + (b + c)[y := yv])[x := xv]
  {
  }

  lemma MapRotate2<V>(a: map<Key, V>, b: map<Key, V>, c: map<Key, V>, d: map<Key, V>,
                      x: Key, xv: V, y: Key, yv: V, z: Key, zv: V)
    requires x != y && y != z && x != z
    requires x !in c && x !in d && y !in b && y !in c && y !in d && z !in a && z !in b
    ensures ((a + (b + c)[y := yv])[x := xv] + d)[z := zv] == ((a + b)[x := xv] + (c + d)[z := zv])[y := yv]
  {
  }

  lemma MapInsertLeft<V>(a: map<Key, V>, b: map<Key, V>, x: Key, xv: V, k: Key, v: V)
    requires k != x && k !in b
    ensures (a[k := v] + b)[x := xv] == (a + b)[x := xv][k := v]
  {
  }

  lemma MapInsertRight<V>(a: map<Key, V>, b: map<Key, V>, x: Key, xv: V, k: Key, v: V)
    requires k != x
    ensures (a + b[k := v])[x := xv] == (a + b)[x := xv][k := v]
  {
  }

  lemma MapRemoveLeft<V>(a: map<Key, V>, b: map<Key, V>, x: Key, xv: V, k: Key)
    requires k != x && k !in b
    ensures ((a - {k}) + b)[x := xv] == (a + b)[x := xv] - {k}
  {
  }

  lemma MapRemoveRight<V>(a: map<Key, V>, b: map<Key, V>, x: Key, xv: V, k: Key)
    requires k != x && k !in a
    ensures (a + (b - {k}))[x := xv] == (a + b)[x := xv] - {k}
  {
  }

  lemma MapDropRoot<V>(a: map<Key, V>, b: map<Key, V>, x: Key, xv: V)
    requires x !in a && x !in b
    ensures a == map[] ==> (a + b)[x := xv] - {x} == b
    ensures b == map[] ==> (a + b)[x := xv] - {x} == a
  {
  }

  lemma MapReplaceRoot<V>(a: map<Key, V>, b: map<Key, V>, x: Key, xv: V, p: Key)
    requires x !in a && x !in b && p in a && p !in b
    ensures ((a - {p}) + b)[p := a[p]] == (a + b)[x := xv] - {x}
  {
  }

  /** Single right rotation of a left-heavy node whose left child is not
      right-heavy */
  lemma SingleRight<V>(k: Key, v: V, l: Tree<V>, r: Tree<V>)
    requires l.Node? && Valid(l) && Valid(r)
    requires forall x :: x in ToMap(l) ==> x < k
    requires forall x :: x in ToMap(r) ==> k < x
    requires Height(l) == Height(r) + 2 && Balance(l) != -1
    ensures Valid(Mk(l.key, l.value, l.left, Mk(k, v, l.right, r)))
    ensures ToMap(Mk(l.key, l.value, l.left, Mk(k, v, l.right, r))) == ToMap(Node(k, v, 0, l, r))
    ensures Height(l) <= Height(Mk(l.key, l.value, l.left, Mk(k, v, l.right, r))) <= Height(l) + 1
  {
    Children(l);
    ValidChildren(l);
    HeightsOkPositive(r);
    var b := Mk(k, v, l.right, r);
    MkValid(k, v, l.right, r);
    Children(b);
    MkValid(l.key, l.value, l.left, b);
    MapRotate(ToMap(l.left), ToMap(l.right), ToMap(r), l.key, l.value, k, v);
  }

  /** Single left rotation, the mirror image of SingleRight */
  lemma SingleLeft<V>(k: Key, v: V, l: Tree<V>, r: Tree<V>)
    requires r.Node? && Valid(l) && Valid(r)
    requires forall x :: x in ToMap(l) ==> x < k
    requires forall x :: x in ToMap(r) ==> k < x
    requires Height(r) == Height(l) + 2 && Balance(r) != 1
    ensures Valid(Mk(r.key, r.value, Mk(k, v, l, r.left), r.right))
    ensures ToMap(Mk(r.key, r.value, Mk(k, v, l, r.left), r.right)) == ToMap(Node(k, v, 0, l, r))
    ensures Height(r) <= Height(Mk(r.key, r.value, Mk(k, v, l, r.left), r.right)) <= Height(r) + 1
  {
    Children(r);
    ValidChildren(r);
    HeightsOkPositive(l);
    var a := Mk(k, v, l, r.left);
    MkValid(k, v, l, r.left);
    Children(a);
    MkValid(r.key, r.value, a, r.right);
    MapRotate(ToMap(l), ToMap(r.left), ToMap(r.right), k, v, r.key, r.value);
  }

  /** Double rotation (left, then right) of a left-heavy node whose left
      child is right-heavy */
  lemma DoubleRight<V>(k: Key, v: V, l: Tree<V>, r: Tree<V>)
    requires l.Node? && Valid(l) && Valid(r)
    requires forall x :: x in ToMap(l) ==> x < k
    requires forall x :: x in ToMap(r) ==> k < x
    requires Height(l) == Height(r) + 2 && Balance(l) == -1
    ensures l.right.Node?
    ensures var lr := l.right;
      var t' := Mk(lr.key, lr.value, Mk(l.key, l.value, l.left, lr.left), Mk(k, v, lr.right, r));
      Valid(t') && ToMap(t') == ToMap(Node(k, v, 0, l, r)) && Height(t') == Height(l)
  {
    DoubleRightHalves(k, v, l, r);
    var lr := l.right;
    MkValid(lr.key, lr.value, Mk(l.key, l.value, l.left, lr.left), Mk(k, v, lr.right, r));
    DoubleRightMap(k, v, l, r);
  }

  lemma DoubleRightMap<V>(k: Key, v: V, l: Tree<V>, r: Tree<V>)
    requires l.Node? && l.right.Node? && Ordered(l)
    requires forall x :: x in ToMap(l) ==> x < k
    requires forall x :: x in ToMap(r) ==> k < x
    ensures var lr := l.right;
      ToMap(Mk(lr.key, lr.value, Mk(l.key, l.value, l.left, lr.left), Mk(k, v, lr.right, r))) == ToMap(Node(k, v, 0, l, r))
  {
    Children(l);
    var lr := l.right;
    Children(lr);
    MapRotate2(ToMap(l.left), ToMap(lr.left), ToMap(lr.right), ToMap(r),
               l.key, l.value, lr.key, lr.value, k, v);
  }

  /** The two subtrees a double right rotation builds are valid, lie on
      either side of the new root and have the same height */
  lemma DoubleRightHalves<V>(k: Key, v: V, l: Tree<V>, r: Tree<V>)
    requires l.Node? && Valid(l) && Valid(r)
    requires forall x :: x in ToMap(l) ==> x < k
    requires forall x :: x in ToMap(r) ==> k < x
    requires Height(l) == Height(r) + 2 && Balance(l) == -1
    ensures l.right.Node?
    ensures var lr := l.right;
      var a := Mk(l.key, l.value, l.left, lr.left);
      var b := Mk(k, v, lr.right, r);
      && Valid(a) && Valid(b) && Height(a) == Height(b) == Height(r) + 1
      && (forall x :: x in ToMap(a) ==> x < lr.key)
      && (forall x :: x in ToMap(b) ==> lr.key < x)
  {
    Children(l);
    ValidChildren(l);
    HeightsOkPositive(l.left);
    HeightsOkPositive(r);
    var lr := l.right;
    Children(lr);
    ValidChildren(lr);
    HeightsOkPositive(lr.left);
    HeightsOkPositive(lr.right);
    assert l.key < lr.key < k;
    var a := Mk(l.key, l.value, l.left, lr.left);
    var b := Mk(k, v, lr.right, r);
    MkValid(l.key, l.value, l.left, lr.left);
    MkValid(k, v, lr.right, r);
    Children(a);
    Children(b);
  }

  /** Double rotation (right, then left), the mirror image of DoubleRight */
  lemma DoubleLeft<V>(k: Key, v: V, l: Tree<V>, r: Tree<V>)
    requires r.Node? && Valid(l) && Valid(r)
    requires forall x :: x in ToMap(l) ==> x < k
    requires forall x :: x in ToMap(r) ==> k < x
    requires Height(r) == Height(l) + 2 && Balance(r) == 1
    ensures r.left.Node?
    ensures var rl := r.left;
      var t' := Mk(rl.key, rl.value, Mk(k, v, l, rl.left), Mk(r.key, r.value, rl.right, r.right));
      Valid(t') && ToMap(t') == ToMap(Node(k, v, 0, l, r)) && Height(t') == Height(r)
  {
    DoubleLeftHalves(k, v, l, r);
    var rl := r.left;
    MkValid(rl.key, rl.value, Mk(k, v, l, rl.left), Mk(r.key, r.value, rl.right, r.right));
    DoubleLeftMap(k, v, l, r);
  }

  lemma DoubleLeftHalves<V>(k: Key, v: V, l: Tree<V>, r: Tree<V>)
    requires r.Node? && Valid(l) && Valid(r)
    requires forall x :: x in ToMap(l) ==> x < k
    requires forall x :: x in ToMap(r) ==> k < x
    requires Height(r) == Height(l) + 2 && Balance(r) == 1
    ensures r.left.Node?
    ensures var rl := r.left;
      var a := Mk(k, v, l, rl.left);
      var b := Mk(r.key, r.value, rl.right, r.right);
      && Valid(a) && Valid(b) && Height(a) == Height(b) == Height(l) + 1
      && (forall x :: x in ToMap(a) ==> x < rl.key)
      && (forall x :: x in ToMap(b) ==> rl.key < x)
  {
    Children(r);
    ValidChildren(r);
    HeightsOkPositive(r.right);
    HeightsOkPositive(l);
    var rl := r.left;
    Children(rl);
    ValidChildren(rl);
    HeightsOkPositive(rl.left);
    HeightsOkPositive(rl.right);
    assert k < rl.key < r.key;
    var a := Mk(k, v, l, rl.left);
    var b := Mk(r.key, r.value, rl.right, r.right);
    MkValid(k, v, l, rl.left);
    MkValid(r.key, r.value, rl.right, r.right);
    Children(a);
    Children(b);
  }

  lemma DoubleLeftMap<V>(k: Key, v: V, l: Tree<V>, r: Tree<V>)
    requires r.Node? && r.left.Node? && Ordered(r)
    requires forall x :: x in ToMap(l) ==> x < k
    requires forall x :: x in ToMap(r) ==> k < x
    ensures var rl := r.left;
      ToMap(Mk(rl.key, rl.value, Mk(k, v, l, rl.left), Mk(r.key, r.value, rl.right, r.right))) == ToMap(Node(k, v, 0, l, r))
  {
    Children(r);
    var rl := r.left;
    Children(rl);
    MapRotate2(ToMap(l), ToMap(rl.left), ToMap(rl.right), ToMap(r.right),
               k, v, rl.key, rl.value, r.key, r.value);
  }

  /** Rebalancing a node whose children are valid and differ in height by
      at most two yields a valid tree with the same contents, whose height
      is that of the taller child or one more (exactly one more when no
      rotation was needed) */
  lemma RebalanceValid<V>(t: Tree<V>)
    requires t.Node? && Valid(t.left) && Valid(t.right)
    requires forall x :: x in ToMap(t.left) ==> x < t.key
    requires forall x :: x in ToMap(t.right) ==> t.key < x
    requires -2 <= Height(t.left) - Height(t.right) <= 2
    ensures Valid(Rebalance(t))
    ensures ToMap(Rebalance(t)) == ToMap(t)
    ensures Max(Height(t.left), Height(t.right)) <= Height(Rebalance(t)) <= Max(Height(t.left), Height(t.right)) + 1
    ensures -1 <= Height(t.left) - Height(t.right) <= 1 ==> Height(Rebalance(t)) == Max(Height(t.left), Height(t.right)) + 1
  {
    var k, v, l, r := t.key, t.value, t.left, t.right;
    HeightsOkPositive(l);
    HeightsOkPositive(r);
    if Height(l) - Height(r) >= 2 {
      if Balance(l) == -1 {
        DoubleRight(k, v, l, r);
      } else {
        SingleRight(k, v, l, r);
      }
    } else if Height(l) - Height(r) <= -2 {
      if Balance(r) == 1 {
        DoubleLeft(k, v, l, r);
      } else {
        SingleLeft(k, v, l, r);
      }
    } else {
      MkValid(k, v, l, r);
    }
  }

  /** Inserting an absent key into a valid tree adds exactly that binding,
      keeps the tree valid and grows its height by at most one */
  lemma {:induction false} InsertNewValid<V>(t: Tree<V>, k: Key, v: V)
    requires Valid(t) && k !in ToMap(t)
    ensures Valid(InsertNew(t, k, v))
    ensures ToMap(InsertNew(t, k, v)) == ToMap(t)[k := v]
    ensures Height(t) <= Height(InsertNew(t, k, v)) <= Height(t) + 1
  {
    match t
    case Leaf =>
    case Node(key, value, h, l, r) =>
      Children(t);
      HeightsOkPositive(l);
      HeightsOkPositive(r);
      if key > k {
        InsertNewValid(l, k, v);
        var l' := InsertNew(l, k, v);
        var n := Node(key, value, h, l', r);
        assert forall x :: x in ToMap(l') ==> x < key;
        RebalanceValid(n);
        MapInsertLeft(ToMap(l), ToMap(r), key, value, k, v);
      } else {
        InsertNewValid(r, k, v);
        var r' := InsertNew(r, k, v);
        var n := Node(key, value, h, l, r');
        assert forall x :: x in ToMap(r') ==> key < x;
        RebalanceValid(n);
        MapInsertRight(ToMap(l), ToMap(r), key, value, k, v);
      }
  }

  /** Detaching the maximum removes exactly the largest binding and lowers
      the height by at most one */
  lemma {:induction false} RemoveMaxValid<V>(t: Tree<V>)
    requires t.Node? && Valid(t)
    ensures Valid(RemoveMax(t).0)
    ensures RemoveMax(t).1 in ToMap(t) && ToMap(t)[RemoveMax(t).1] == RemoveMax(t).2
    ensures ToMap(RemoveMax(t).0) == ToMap(t) - {RemoveMax(t).1}
    ensures forall x :: x in ToMap(RemoveMax(t).0) ==> x < RemoveMax(t).1
    ensures Height(t) - 1 <= Height(RemoveMax(t).0) <= Height(t)
  {
    Children(t);
    HeightsOkPositive(t.left);
    HeightsOkPositive(t.right);
    if t.right.Leaf? {
      assert ToMap(t) - {t.key} == ToMap(t.left);
    } else {
      var rest := RemoveMax(t.right);
      RemoveMaxValid(t.right);
      var n := Node(t.key, t.value, t.height, t.left, rest.0);
      assert t.key < rest.1;
      assert forall x :: x in ToMap(rest.0) ==> t.key < x;
      RebalanceValid(n);
      MapRemoveRight(ToMap(t.left), ToMap(t.right), t.key, t.value, rest.1);
    }
  }

  /** Deleting a present key removes exactly that binding and lowers the
      height by at most one */
  lemma {:induction false} DeleteValid<V>(t: Tree<V>, k: Key)
    requires Valid(t) && k in ToMap(t)
    ensures Valid(Delete(t, k))
    ensures ToMap(Delete(t, k)) == ToMap(t) - {k}
    ensures Height(t) - 1 <= Height(Delete(t, k)) <= Height(t)
  {
    Children(t);
    ValidChildren(t);
    if t.key == k {
      DeleteRootValid(t);
    } else if t.key > k {
      DeleteValid(t.left, k);
      DeleteLeftValid(t, k);
    } else {
      DeleteValid(t.right, k);
      DeleteRightValid(t, k);
    }
  }

  /** Deleting the key at the root: a missing child lets the other one
      take its place, otherwise the in-order predecessor does */
  lemma DeleteRootValid<V>(t: Tree<V>)
    requires Valid(t) && t.Node?
    ensures Valid(Delete(t, t.key))
    ensures ToMap(Delete(t, t.key)) == ToMap(t) - {t.key}
    ensures Height(t) - 1 <= Height(Delete(t, t.key)) <= Height(t)
  {
    Children(t);
    ValidChildren(t);
    HeightsOkPositive(t.left);
    HeightsOkPositive(t.right);
    if t.left.Leaf? {
      assert Delete(t, t.key) == t.right;
      MapDropRoot(ToMap(t.left), ToMap(t.right), t.key, t.value);
    } else if t.right.Leaf? {
      assert Delete(t, t.key) == t.left;
      MapDropRoot(ToMap(t.left), ToMap(t.right), t.key, t.value);
    } else {
      DeletePredecessor(t);
    }
  }

  lemma DeletePredecessor<V>(t: Tree<V>)
    requires Valid(t) && t.Node? && t.left.Node? && t.right.Node?
    ensures Valid(Delete(t, t.key))
    ensures ToMap(Delete(t, t.key)) == ToMap(t) - {t.key}
    ensures Height(t) - 1 <= Height(Delete(t, t.key)) <= Height(t)
  {
    var Node(key, value, h, l, r) := t;
    Children(t);
    ValidChildren(t);
    var p := RemoveMax(l);
    RemoveMaxValid(l);
    var n := Node(p.1, p.2, h, p.0, r);
    assert Delete(t, key) == Rebalance(n);
    assert forall x :: x in ToMap(r) ==> p.1 < x;
    RebalanceValid(n);
    MapReplaceRoot(ToMap(l), ToMap(r), key, value, p.1);
  }

  /** Deleting from the left subtree, given the result there */
  lemma DeleteLeftValid<V>(t: Tree<V>, k: Key)
    requires Valid(t) && t.Node? && k < t.key && k in ToMap(t.left)
    requires Valid(Delete(t.left, k)) && ToMap(Delete(t.left, k)) == ToMap(t.left) - {k}
    requires Height(t.left) - 1 <= Height(Delete(t.left, k)) <= Height(t.left)
    ensures Valid(Delete(t, k))
    ensures ToMap(Delete(t, k)) == ToMap(t) - {k}
    ensures Height(t) - 1 <= Height(Delete(t, k)) <= Height(t)
  {
    var Node(key, value, h, l, r) := t;
    Children(t);
    HeightsOkPositive(l);
    HeightsOkPositive(r);
    var l' := Delete(l, k);
    var n := Node(key, value, h, l', r);
    assert forall x :: x in ToMap(l') ==> x < key;
    RebalanceValid(n);
    MapRemoveLeft(ToMap(l), ToMap(r), key, value, k);
  }

  /** Deleting from the right subtree, given the result there */
  lemma DeleteRightValid<V>(t: Tree<V>, k: Key)
    requires Valid(t) && t.Node? && t.key < k && k in ToMap(t.right)
    requires Valid(Delete(t.right, k)) && ToMap(Delete(t.right, k)) == ToMap(t.right) - {k}
    requires Height(t.right) - 1 <= Height(Delete(t.right, k)) <= Height(t.right)
    ensures Valid(Delete(t, k))
    ensures ToMap(Delete(t, k)) == ToMap(t) - {k}
    ensures Height(t) - 1 <= Height(Delete(t, k)) <= Height(t)
  {
    var Node(key, value, h, l, r) := t;
    Children(t);
    HeightsOkPositive(l);
    HeightsOkPositive(r);
    var r' := Delete(r, k);
    var n := Node(key, value, h, l, r');
    assert forall x :: x in ToMap(r') ==> key < x;
    RebalanceValid(n);
    MapRemoveRight(ToMap(l), ToMap(r), key, value, k);
  }

  lemma InsertNewWhenValid<V>(t: Tree<V>, k: Key, v: V)
    requires HeightsOk(t)
    ensures Valid(t) && k !in ToMap(t) ==> Valid(InsertNew(t, k, v)) && ToMap(InsertNew(t, k, v)) == ToMap(t)[k := v]
  {
    if Valid(t) && k !in ToMap(t) {
      InsertNewValid(t, k, v);
    }
  }

  lemma DeleteWhenValid<V>(t: Tree<V>, k: Key)
    requires HeightsOk(t)
    ensures Valid(t) && k in ToMap(t) ==> Valid(Delete(t, k)) && ToMap(Delete(t, k)) == ToMap(t) - {k}
  {
    if Valid(t) && k in ToMap(t) {
      DeleteValid(t, k);
    }
  }

  /** A rotation keeps the in-order key sequence */
  lemma {:induction false} RotationsKeepInorder<V>(t: Tree<V>)
    requires t.Node?
    ensures t.left.Node? ==> InorderKeys(RotateRight(t)) == InorderKeys(t)
    ensures t.right.Node? ==> InorderKeys(RotateLeft(t)) == InorderKeys(t)
  {
    if t.left.Node? {
      var a, b, c := InorderKeys(t.left.left), InorderKeys(t.left.right), InorderKeys(t.right);
      var lower := Mk(t.key, t.value, t.left.right, t.right);
      assert InorderKeys(lower) == b + [t.key] + c;
      assert InorderKeys(t.left) == a + [t.left.key] + b;
      assert a + [t.left.key] + (b + [t.key] + c) == (a + [t.left.key] + b) + [t.key] + c;
    }
    if t.right.Node? {
      var a, b, c := InorderKeys(t.left), InorderKeys(t.right.left), InorderKeys(t.right.right);
      var lower := Mk(t.key, t.value, t.left, t.right.left);
      assert InorderKeys(lower) == a + [t.key] + b;
      assert InorderKeys(t.right) == b + [t.right.key] + c;
      assert (a + [t.key] + b) + [t.right.key] + c == a + [t.key] + (b + [t.right.key] + c);
    }
  }

  /** A rotation keeps the key/value mapping of an ordered tree */
  lemma RotationsKeepContents<V>(t: Tree<V>)
    requires t.Node? && Ordered(t)
    ensures t.left.Node? ==> ToMap(RotateRight(t)) == ToMap(t)
    ensures t.right.Node? ==> ToMap(RotateLeft(t)) == ToMap(t)
  {
    if t.left.Node? {
      Children(t.left);
      MapRotate(ToMap(t.left.left), ToMap(t.left.right), ToMap(t.right),
                t.left.key, t.left.value, t.key, t.value);
    }
    if t.right.Node? {
      Children(t.right);
      MapRotate(ToMap(t.left), ToMap(t.right.left), ToMap(t.right.right),
                t.key, t.value, t.right.key, t.right.value);
    }
  }

  // ---------------------------------------------------------------------
  // The properties the registry relies on
  // ---------------------------------------------------------------------

  /** Looking anything up in the new tree finds nothing */
  lemma GetOnNew<V>(k: Key)
    ensures Get(New<V>(), k) == None
    ensures Size(New<V>()) == 0
  {
  }

  /** After inserting a fresh key, the key is found with the inserted value,
      every other key keeps its value and the size has grown by one */
  lemma InsertFresh<V>(t: Tree<V>, k: Key, v: V)
    requires Valid(t) && Get(t, k).None?
    ensures Get(Insert(t, k, v), k) == Some(v)
    ensures forall j :: j != k ==> Get(Insert(t, k, v), j) == Get(t, j)
    ensures Size(Insert(t, k, v)) == Size(t) + 1
  {
    var r := Insert(t, k, v);
    assert k !in ToMap(t);
    assert Valid(r) && ToMap(r) == ToMap(t)[k := v];
    forall j | j != k
      ensures Get(r, j) == Get(t, j)
    {
      assert (j in ToMap(r)) == (j in ToMap(t));
    }
    assert ToMap(r).Keys == ToMap(t).Keys + {k};
  }

  /** Inserting a present key changes nothing: the old value stays */
  lemma InsertPresent<V>(t: Tree<V>, k: Key, v: V)
    requires Valid(t) && Get(t, k).Some?
    ensures Insert(t, k, v) == t
  {
  }

  /** Removing an absent key changes nothing */
  lemma RemoveAbsent<V>(t: Tree<V>, k: Key)
    requires Valid(t) && Get(t, k).None?
    ensures Remove(t, k) == t
  {
  }

  /** Removing a present key deletes exactly that key: size drops by one
      and every other key keeps its value */
  lemma RemovePresent<V>(t: Tree<V>, k: Key)
    requires Valid(t) && Get(t, k).Some?
    ensures Get(Remove(t, k), k) == None
    ensures forall j :: j != k ==> Get(Remove(t, k), j) == Get(t, j)
    ensures Size(Remove(t, k)) == Size(t) - 1
  {
    var r := Remove(t, k);
    assert ToMap(t).Keys == ToMap(r).Keys + {k};
    assert k !in ToMap(r).Keys;
  }
}
