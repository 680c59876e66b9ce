/** The parent-linked binary search tree of src/lib/commons/bst/bst.c.
    Nodes live in an arena: node `k` stores `data[k]` and its links
    `left[k]`, `right[k]` and `parent[k]` (`Null` for none). The ghost
    `Tree` of handles is the shape the links realize; the operations are
    specified by functions on that shape. The comparator, with the
    context the source passes to it, is a function value. */
module Bst {
  import opened Common

  /** The shape of a tree: each node is named by its arena handle. */
  datatype Tree = Leaf | Node(left: Tree, h: nat, right: Tree)

  function Root(t: Tree): int
  {
    if t.Leaf? then Null else t.h
  }

  ghost function Handles(t: Tree): set<nat>
  {
    match t
    case Leaf => {}
    case Node(l, x, r) => Handles(l) + {x} + Handles(r)
  }

  /** No handle names two nodes. */
  ghost predicate Distinct(t: Tree)
  {
    match t
    case Leaf => true
    case Node(l, x, r) =>
      Distinct(l) && Distinct(r) && x !in Handles(l) && x !in Handles(r) && Handles(l) !! Handles(r)
  }

  /** The links `L`, `R` and `P` realize `t` from the handle `h`, whose
      parent is `p`: every child link has the matching parent link back. */
  ghost predicate Realizes(t: Tree, h: int, p: int, L: seq<int>, R: seq<int>, P: seq<int>)
  {
    match t
    case Leaf => h == Null
    case Node(l, x, r) =>
      h == x && x < |L| && x < |R| && x < |P| && P[x] == p &&
      Realizes(l, L[x], x, L, R, P) && Realizes(r, R[x], x, L, R, P)
  }

  /** Every handle of `t` is below `n`. */
  ghost predicate Below(t: Tree, n: int)
  {
    match t
    case Leaf => true
    case Node(l, x, r) => x < n && Below(l, n) && Below(r, n)
  }

  /** The subtree whose root is `z`. */
  ghost function Sub(t: Tree, z: nat): (s: Tree)
    requires z in Handles(t)
    ensures s.Node? && s.h == z && Handles(s) <= Handles(t)
  {
    match t
    case Node(l, x, r) =>
      if x == z then t else if z in Handles(l) then Sub(l, z) else Sub(r, z)
  }

  /** `t` with the subtree whose root is `z` replaced by `s`. */
  ghost function Subst(t: Tree, z: nat, s: Tree): Tree
    requires z in Handles(t)
  {
    match t
    case Node(l, x, r) =>
      if x == z then s
      else if z in Handles(l) then Node(Subst(l, z, s), x, r)
      else Node(l, x, Subst(r, z, s))
  }

  /** The leftmost node, where find_min_node_internal stops. */
  ghost function MinHandle(t: Tree): (m: nat)
    requires t.Node?
    ensures m in Handles(t)
  {
    if t.left.Leaf? then t.h else MinHandle(t.left)
  }

  /** What bst_remove_node puts in place of the subtree `u` whose root it
      removes: the right subtree when there is no left one, the left
      subtree when there is no right one, and otherwise the successor `y`
      (the leftmost node on the right) with the old left subtree and the
      right subtree from which `y` was lifted out. */
  ghost function Spliced(u: Tree): Tree
    requires u.Node?
  {
    if u.left.Leaf? then u.right
    else if u.right.Leaf? then u.left
    else
      var y := MinHandle(u.right);
      Node(u.left, y, Subst(u.right, y, Sub(u.right, y).right))
  }

  /** The shape after bst_remove_node of the node `z`. */
  ghost function DeleteAt(t: Tree, z: nat): Tree
    requires z in Handles(t)
  {
    Subst(t, z, Spliced(Sub(t, z)))
  }

  /** The shape after bst_insert of `x` at the fresh node `n`: the search
      goes left when `cmp` is negative and right otherwise, so equal keys
      go right. */
  ghost function Inserted<T>(t: Tree, D: seq<T>, x: T, n: nat, cmp: (T, T) -> int): Tree
    requires Below(t, |D|)
  {
    match t
    case Leaf => Node(Leaf, n, Leaf)
    case Node(l, y, r) =>
      if cmp(x, D[y]) < 0 then Node(Inserted(l, D, x, n, cmp), y, r)
      else Node(l, y, Inserted(r, D, x, n, cmp))
  }

  /** The last node the insertion search visits (`p` when `t` is empty) and
      whether the new node hangs to its left. */
  ghost function InsertionPoint<T>(t: Tree, D: seq<T>, x: T, cmp: (T, T) -> int, p: int, toLeft: bool): (r: (int, bool))
    requires Below(t, |D|)
    ensures t.Node? ==> r.0 in Handles(t)
    ensures t.Leaf? ==> r == (p, toLeft)
  {
    match t
    case Leaf => (p, toLeft)
    case Node(l, y, r) =>
      if cmp(x, D[y]) < 0 then InsertionPoint(l, D, x, cmp, y, true)
      else InsertionPoint(r, D, x, cmp, y, false)
  }

  /** The node bst_remove finds: the first on the search path that compares
      equal to `x`. */
  ghost function Search<T>(t: Tree, D: seq<T>, x: T, cmp: (T, T) -> int): (r: Option<nat>)
    requires Below(t, |D|)
    ensures r.Some? ==> r.value in Handles(t) && r.value < |D| && cmp(x, D[r.value]) == 0
  {
    match t
    case Leaf => None
    case Node(l, y, r) =>
      if cmp(x, D[y]) == 0 then Some(y)
      else if cmp(x, D[y]) < 0 then Search(l, D, x, cmp)
      else Search(r, D, x, cmp)
  }

  // ---------------------------------------------------------------------
  // Handles, distinctness and elements of the operations' results
  // ---------------------------------------------------------------------

  lemma {:induction false} SubDistinct(t: Tree, z: nat)
    requires Distinct(t) && z in Handles(t)
    ensures Distinct(Sub(t, z))
  {
    if t.h != z {
      if z in Handles(t.left) {
        SubDistinct(t.left, z);
      } else {
        SubDistinct(t.right, z);
      }
    }
  }

  /** Replacing a subtree swaps its handles for those of the replacement. */
  lemma {:induction false} SubstHandles(t: Tree, z: nat, s: Tree)
    requires Distinct(t) && z in Handles(t) && Distinct(s) && Handles(s) <= Handles(Sub(t, z))
    ensures Handles(Subst(t, z, s)) == (Handles(t) - Handles(Sub(t, z))) + Handles(s)
    ensures Distinct(Subst(t, z, s))
  {
    match t
    case Node(l, x, r) =>
      if x != z {
        if z in Handles(l) {
          SubstHandles(l, z, s);
          assert Subst(t, z, s) == Node(Subst(l, z, s), x, r);
        } else {
          SubstHandles(r, z, s);
          assert Subst(t, z, s) == Node(l, x, Subst(r, z, s));
        }
      }
  }

  /** The leftmost node has no left child. */
  lemma {:induction false} MinHasNoLeft(t: Tree)
    requires t.Node? && Distinct(t)
    ensures Sub(t, MinHandle(t)).left.Leaf?
  {
    if t.left.Node? {
      MinHasNoLeft(t.left);
      assert MinHandle(t) in Handles(t.left);
    }
  }

  /** Splicing out the root of `u` loses exactly that node. */
  lemma SplicedHandles(u: Tree)
    requires u.Node? && Distinct(u)
    ensures Handles(Spliced(u)) == Handles(u) - {u.h}
    ensures Distinct(Spliced(u))
  {
    if u.left.Node? && u.right.Node? {
      var r := u.right;
      var y := MinHandle(r);
      var w := Sub(r, y);
      SubDistinct(r, y);
      MinHasNoLeft(r);
      assert Handles(w) == {y} + Handles(w.right);
      SubstHandles(r, y, w.right);
    }
  }

  /** Removing a node takes exactly that node away. */
  lemma DeleteAtHandles(t: Tree, z: nat)
    requires Distinct(t) && z in Handles(t)
    ensures Handles(DeleteAt(t, z)) == Handles(t) - {z}
    ensures Distinct(DeleteAt(t, z))
  {
    var u := Sub(t, z);
    SubDistinct(t, z);
    SplicedHandles(u);
    SubstHandles(t, z, Spliced(u));
  }

  /** Inserting adds exactly the fresh node. */
  lemma {:induction false} InsertedHandles<T>(t: Tree, D: seq<T>, x: T, n: nat, cmp: (T, T) -> int)
    requires Distinct(t) && Below(t, |D|) && n !in Handles(t)
    ensures Handles(Inserted(t, D, x, n, cmp)) == Handles(t) + {n}
    ensures Distinct(Inserted(t, D, x, n, cmp))
  {
    if t.Node? {
      InsertedHandles(t.left, D, x, n, cmp);
      InsertedHandles(t.right, D, x, n, cmp);
    }
  }

  // ---------------------------------------------------------------------
  // Links realizing a shape
  // ---------------------------------------------------------------------

  lemma {:induction false} RealizedBounds(t: Tree, h: int, p: int, L: seq<int>, R: seq<int>, P: seq<int>)
    requires Realizes(t, h, p, L, R, P)
    ensures forall x | x in Handles(t) :: x < |L| && x < |R| && x < |P|
  {
    if t.Node? {
      RealizedBounds(t.left, L[t.h], t.h, L, R, P);
      RealizedBounds(t.right, R[t.h], t.h, L, R, P);
    }
  }

  /** Links of nodes outside `t` do not matter, and the root's parent link
      may be redirected to `q`. */
  lemma {:induction false} Reroot(t: Tree, h: int, p: int, q: int, L: seq<int>, R: seq<int>, P: seq<int>,
                                  L': seq<int>, R': seq<int>, P': seq<int>)
    requires Realizes(t, h, p, L, R, P) && Distinct(t)
    requires forall x | x in Handles(t) ::
      x < |L| && x < |R| && x < |P| && x < |L'| && x < |R'| && x < |P'| &&
      L'[x] == L[x] && R'[x] == R[x] && (x != h ==> P'[x] == P[x])
    requires t.Node? ==> P'[t.h] == q
    ensures Realizes(t, h, q, L', R', P')
  {
    match t
    case Leaf =>
    case Node(l, x, r) =>
      Reroot(l, L[x], x, x, L, R, P, L', R', P');
      Reroot(r, R[x], x, x, L, R, P, L', R', P');
  }

  /** Where the subtree of `z` hangs: it is realized from `z`, and `P[z]` is
      `p` at the root and otherwise a node outside it whose left or right
      link is `z`. */
  lemma {:induction false} ParentIn(t: Tree, h: int, p: int, L: seq<int>, R: seq<int>, P: seq<int>, z: nat)
    requires Realizes(t, h, p, L, R, P) && Distinct(t) && z in Handles(t)
    ensures z < |P| && Realizes(Sub(t, z), z, P[z], L, R, P)
    ensures z == h ==> P[z] == p
    ensures z != h ==> P[z] in Handles(t) && P[z] !in Handles(Sub(t, z))
    ensures z != h ==> P[z] < |L| && P[z] < |R| && (L[P[z]] == z || R[P[z]] == z)
  {
    match t
    case Node(l, x, r) =>
      if x != z {
        if z in Handles(l) {
          ParentIn(l, L[x], x, L, R, P, z);
        } else {
          ParentIn(r, R[x], x, L, R, P, z);
        }
      }
  }

  /** Replacing the subtree of `z` by `s`: when `s` is realized from its
      root with `z`'s old parent, and that parent's link to `z` now leads
      to `s` while every other node outside the subtree keeps its links,
      the new links realize the new shape. */
  lemma {:induction false} SubstRealizes(t: Tree, h: int, p: int, L: seq<int>, R: seq<int>, P: seq<int>,
                                         z: nat, s: Tree, L': seq<int>, R': seq<int>, P': seq<int>)
    requires Realizes(t, h, p, L, R, P) && Distinct(t) && z in Handles(t) && z < |P|
    requires Realizes(s, Root(s), P[z], L', R', P')
    requires forall x | x in Handles(t) && x !in Handles(Sub(t, z)) ::
      x < |L| && x < |R| && x < |P| && x < |L'| && x < |R'| && x < |P'| && P'[x] == P[x] &&
      (if x != P[z] then L'[x] == L[x] && R'[x] == R[x]
       else if L[x] == z then L'[x] == Root(s) && R'[x] == R[x]
       else R'[x] == Root(s) && L'[x] == L[x])
    ensures Realizes(Subst(t, z, s), if h == z then Root(s) else h, p, L', R', P')
  {
    match t
    case Node(l, x, r) =>
      ParentIn(t, h, p, L, R, P, z);
      if x != z {
        if z in Handles(l) {
          ParentIn(l, L[x], x, L, R, P, z);
          SubstRealizes(l, L[x], x, L, R, P, z, s, L', R', P');
          Reroot(r, R[x], x, x, L, R, P, L', R', P');
        } else {
          ParentIn(r, R[x], x, L, R, P, z);
          SubstRealizes(r, R[x], x, L, R, P, z, s, L', R', P');
          Reroot(l, L[x], x, x, L, R, P, L', R', P');
        }
      }
  }

  /** Hanging the fresh node `n` below the insertion point `q`, on the
      side `toLeft`, realizes the shape after the insertion. */
  lemma {:induction false} InsertedRealizes<T>(t: Tree, h: int, p: int, L: seq<int>, R: seq<int>, P: seq<int>,
                                              D: seq<T>, x: T, cmp: (T, T) -> int, n: nat, p0: int, d0: bool,
                                              q: nat, toLeft: bool, L': seq<int>, R': seq<int>, P': seq<int>)
    requires Realizes(t, h, p, L, R, P) && Distinct(t) && t.Node? && Below(t, |D|)
    requires n == |L| == |R| == |P| && q < n
    requires (q, toLeft) == InsertionPoint(t, D, x, cmp, p0, d0)
    requires L' == if toLeft then (L + [Null])[q := n] else L + [Null]
    requires R' == if toLeft then R + [Null] else (R + [Null])[q := n]
    requires P' == P + [q]
    ensures Realizes(Inserted(t, D, x, n, cmp), h, p, L', R', P')
  {
    RealizedBounds(t, h, p, L, R, P);
    match t
    case Node(l, y, r) =>
      if cmp(x, D[y]) < 0 {
        if l.Node? {
          InsertedRealizes(l, L[y], y, L, R, P, D, x, cmp, n, y, true, q, toLeft, L', R', P');
        } else {
          assert Realizes(Node(Leaf, n, Leaf), L'[y], y, L', R', P');
        }
        Reroot(r, R[y], y, y, L, R, P, L', R', P');
      } else {
        if r.Node? {
          InsertedRealizes(r, R[y], y, L, R, P, D, x, cmp, n, y, false, q, toLeft, L', R', P');
        } else {
          assert Realizes(Node(Leaf, n, Leaf), R'[y], y, L', R', P');
        }
        Reroot(l, L[y], y, y, L, R, P, L', R', P');
      }
  }

  // ---------------------------------------------------------------------
  // The link updates of bst_remove_node
  // ---------------------------------------------------------------------

  /** The link fields of the arena and the root pointer. */
  datatype Links = Links(left: seq<int>, right: seq<int>, parent: seq<int>, root: int)

  ghost predicate Shaped(t: Tree, k: Links)
  {
    |k.left| == |k.right| == |k.parent| &&
    Realizes(t, k.root, Null, k.left, k.right, k.parent) && Distinct(t)
  }

  ghost predicate Link(k: Links, v: int)
  {
    v == Null || 0 <= v < |k.parent|
  }

  /** `s` with position `i` set to `v`, when there is such a position. */
  function Update(s: seq<int>, i: int, v: int): (r: seq<int>)
    ensures |r| == |s|
    ensures forall j :: 0 <= j < |s| ==> r[j] == if j == i then v else s[j]
  {
    if 0 <= i < |s| then s[i := v] else s
  }

  /** transplant: the parent of `u` (or the root pointer, when `u` has no
      parent) now leads to `v`, and `v` takes `u`'s parent. */
  function Transplanted(k: Links, u: nat, v: int): (r: Links)
    requires u < |k.parent|
    ensures |r.left| == |k.left| && |r.right| == |k.right| && |r.parent| == |k.parent|
  {
    var p := k.parent[u];
    var k1 :=
      if p == Null then k.(root := v)
      else if 0 <= p < |k.left| && u == k.left[p] then k.(left := Update(k.left, p, v))
      else k.(right := Update(k.right, p, v));
    if v != Null then k1.(parent := Update(k1.parent, v, p)) else k1
  }

  /** `y->left = c; y->left->parent = y`. */
  function AdoptLeft(k: Links, y: nat, c: int): Links
  {
    k.(left := Update(k.left, y, c), parent := Update(k.parent, c, y))
  }

  /** `y->right = c; y->right->parent = y`. */
  function AdoptRight(k: Links, y: nat, c: int): Links
  {
    k.(right := Update(k.right, y, c), parent := Update(k.parent, c, y))
  }

  /** The links after bst_insert hangs the fresh node `n` under `q`. */
  function Hung(k: Links, n: nat, q: nat, toLeft: bool): (r: Links)
    requires q < |k.left| && q < |k.right|
    ensures |r.left| == |k.left| + 1 && |r.right| == |k.right| + 1 && |r.parent| == |k.parent| + 1
    ensures r.parent[|k.parent|] == q && r.root == k.root
    ensures (if toLeft then r.left[q] else r.right[q]) == n
  {
    Links(if toLeft then (k.left + [Null])[q := n] else k.left + [Null],
          if toLeft then k.right + [Null] else (k.right + [Null])[q := n],
          k.parent + [q], k.root)
  }

  /** Hanging the fresh node where the insertion search ends realizes the
      inserted shape. */
  lemma HungShaped<T>(t: Tree, k: Links, D: seq<T>, x: T, cmp: (T, T) -> int)
    requires Shaped(t, k) && t.Node? && Below(t, |D|)
    ensures InsertionPoint(t, D, x, cmp, Null, false).0 < |k.left|
    ensures var (q, toLeft) := InsertionPoint(t, D, x, cmp, Null, false);
            Shaped(Inserted(t, D, x, |k.left|, cmp), Hung(k, |k.left|, q, toLeft))
  {
    var n := |k.left|;
    var (q, toLeft) := InsertionPoint(t, D, x, cmp, Null, false);
    RealizedBounds(t, k.root, Null, k.left, k.right, k.parent);
    BelowLive(t, n, n);
    InsertedHandles(t, D, x, n, cmp);
    var k' := Hung(k, n, q, toLeft);
    InsertedRealizes(t, k.root, Null, k.left, k.right, k.parent, D, x, cmp, n, Null, false,
                     q, toLeft, k'.left, k'.right, k'.parent);
  }

  /** Case 3 of bst_remove_node, for `z` with two children and its
      successor `y`: unless `y` is `z`'s right child, `y` is first replaced
      by its right child and takes over `z`'s right subtree; then `y`
      replaces `z` and takes over `z`'s left subtree. */
  function SuccessorLinks(k: Links, z: nat, y: nat): (r: Links)
    requires |k.left| == |k.right| == |k.parent| && z < |k.parent| && y < |k.parent|
    ensures |r.left| == |k.left| && |r.right| == |k.right| && |r.parent| == |k.parent|
  {
    var k1 := if k.parent[y] != z then Transplanted(k, y, k.right[y]) else k;
    var k2 := if k.parent[y] != z then AdoptRight(k1, y, k1.right[z]) else k1;
    var k3 := Transplanted(k2, z, y);
    AdoptLeft(k3, y, k3.left[z])
  }

  /** Cases 1 and 2 of bst_remove_node: a node with at most one child is
      replaced by that child. */
  lemma ChildRealizes(t: Tree, k: Links, z: nat, v: int)
    requires Shaped(t, k) && z in Handles(t) && z < |k.parent|
    requires (k.left[z] == Null && v == k.right[z]) || (k.right[z] == Null && v == k.left[z])
    ensures Shaped(DeleteAt(t, z), Transplanted(k, z, v))
  {
    var L, R, P := k.left, k.right, k.parent;
    RealizedBounds(t, k.root, Null, L, R, P);
    ParentIn(t, k.root, Null, L, R, P, z);
    var u := Sub(t, z);
    RealizedBounds(u, z, P[z], L, R, P);
    var s := Spliced(u);
    assert Root(s) == v;
    var k' := Transplanted(k, z, v);
    SubDistinct(t, z);
    Reroot(s, v, z, P[z], L, R, P, k'.left, k'.right, k'.parent);
    SubstRealizes(t, k.root, Null, L, R, P, z, s, k'.left, k'.right, k'.parent);
    DeleteAtHandles(t, z);
  }

  /** The first step of case 3 when the successor `y` lies deeper than
      `ru`'s root: replacing `y` by its right child realizes `ru` with `y`
      lifted out. */
  lemma LiftSuccessor(ru: Tree, z: nat, k: Links, y: nat, k1: Links)
    requires |k.left| == |k.right| == |k.parent| && Distinct(ru) && ru.Node?
    requires Realizes(ru, ru.h, z, k.left, k.right, k.parent)
    requires y == MinHandle(ru) && y != ru.h && y < |k.parent|
    requires k1 == Transplanted(k, y, k.right[y])
    ensures var ru' := Subst(ru, y, Sub(ru, y).right);
      Realizes(ru', ru.h, z, k1.left, k1.right, k1.parent) && Distinct(ru') &&
      Handles(ru') == Handles(ru) - {y}
    ensures k.parent[y] in Handles(ru) && (k.right[y] == Null || k.right[y] in Handles(ru))
    ensures forall x :: 0 <= x < |k.parent| && x != k.parent[y] ==> k1.left[x] == k.left[x] && k1.right[x] == k.right[x]
    ensures forall x :: 0 <= x < |k.parent| && x != k.right[y] ==> k1.parent[x] == k.parent[x]
    ensures k1.root == k.root && |k1.left| == |k1.right| == |k1.parent| == |k.parent|
  {
    var L, R, P := k.left, k.right, k.parent;
    RealizedBounds(ru, ru.h, z, L, R, P);
    ParentIn(ru, ru.h, z, L, R, P, y);
    var w := Sub(ru, y);
    SubDistinct(ru, y);
    MinHasNoLeft(ru);
    RealizedBounds(w, y, P[y], L, R, P);
    Reroot(w.right, R[y], y, P[y], L, R, P, k1.left, k1.right, k1.parent);
    SubstRealizes(ru, ru.h, z, L, R, P, y, w.right, k1.left, k1.right, k1.parent);
    SubstHandles(ru, y, w.right);
  }

  /** Case 3 of bst_remove_node realizes the shape without `z`. */
  lemma SuccessorRealizes(t: Tree, k: Links, z: nat, y: nat)
    requires Shaped(t, k) && z in Handles(t) && z < |k.parent| && y < |k.parent|
    requires Sub(t, z).left.Node? && Sub(t, z).right.Node? && y == MinHandle(Sub(t, z).right)
    ensures Shaped(DeleteAt(t, z), SuccessorLinks(k, z, y))
  {
    var L, R, P := k.left, k.right, k.parent;
    RealizedBounds(t, k.root, Null, L, R, P);
    ParentIn(t, k.root, Null, L, R, P, z);
    var u := Sub(t, z);
    SubDistinct(t, z);
    RealizedBounds(u, z, P[z], L, R, P);
    var lz, ru := u.left, u.right;
    ParentIn(ru, R[z], z, L, R, P, y);
    MinHasNoLeft(ru);
    var ru' := Subst(ru, y, Sub(ru, y).right);
    if P[y] != z {
      var k1 := Transplanted(k, y, R[y]);
      LiftSuccessor(ru, z, k, y, k1);
      var k2 := AdoptRight(k1, y, k1.right[z]);
      Reroot(ru', R[z], z, y, k1.left, k1.right, k1.parent, k2.left, k2.right, k2.parent);
      SuccessorFinish(t, k, z, y, k2, ru');
    } else {
      assert y == ru.h && ru' == ru.right;
      SubDistinct(ru, y);
      SplicedHandles(ru);
      SuccessorFinish(t, k, z, y, k, ru');
    }
  }

  /** The last two steps of case 3: once the right part `ru'` hangs from
      `y` (and nothing outside `z`'s right subtree has changed), `y`
      replaces `z` and takes over `z`'s left subtree. */
  lemma SuccessorFinish(t: Tree, k: Links, z: nat, y: nat, k2: Links, ru': Tree)
    requires Shaped(t, k) && z in Handles(t) && z < |k.parent| && y < |k.parent|
    requires Sub(t, z).left.Node? && Sub(t, z).right.Node? && y == MinHandle(Sub(t, z).right)
    requires |k2.left| == |k2.right| == |k2.parent| == |k.parent| && k2.root == k.root
    requires ru' == Subst(Sub(t, z).right, y, Sub(Sub(t, z).right, y).right)
    requires Handles(ru') == Handles(Sub(t, z).right) - {y} && Distinct(ru')
    requires Realizes(ru', Root(ru'), y, k2.left, k2.right, k2.parent) && k2.right[y] == Root(ru')
    requires forall x :: 0 <= x < |k.parent| && x !in Handles(Sub(t, z).right) ==>
      k2.left[x] == k.left[x] && k2.right[x] == k.right[x] && k2.parent[x] == k.parent[x]
    ensures var k3 := Transplanted(k2, z, y);
      Shaped(DeleteAt(t, z), AdoptLeft(k3, y, k3.left[z]))
  {
    var L, R, P := k.left, k.right, k.parent;
    RealizedBounds(t, k.root, Null, L, R, P);
    ParentIn(t, k.root, Null, L, R, P, z);
    var u := Sub(t, z);
    SubDistinct(t, z);
    RealizedBounds(u, z, P[z], L, R, P);
    var k3 := Transplanted(k2, z, y);
    var k4 := AdoptLeft(k3, y, k3.left[z]);
    var s := Node(u.left, y, ru');
    SuccessorSubtree(t, k, z, y, k2, ru', k4);
    SubstRealizes(t, k.root, Null, L, R, P, z, s, k4.left, k4.right, k4.parent);
    DeleteAtHandles(t, z);
  }

  /** What the last two steps of case 3 change: the child links of `y` and
      of `z`'s parent, and the parent links of `y` and of `z`'s left child. */
  lemma FinishFrame(k2: Links, z: nat, y: nat, k4: Links)
    requires |k2.left| == |k2.right| == |k2.parent| && z < |k2.parent| && y < |k2.parent|
    requires k4 == var k3 := Transplanted(k2, z, y); AdoptLeft(k3, y, k3.left[z])
    ensures |k4.left| == |k4.right| == |k4.parent| == |k2.parent|
    ensures forall x :: 0 <= x < |k2.parent| && x != y && x != k2.parent[z] ==>
      k4.left[x] == k2.left[x] && k4.right[x] == k2.right[x]
    ensures forall x :: 0 <= x < |k2.parent| && x != y && x != k2.left[z] ==> k4.parent[x] == k2.parent[x]
  {
  }

  /** In the last step of case 3, `y` with `z`'s old left subtree and the
      right part `ru'` is realized from `y` with `z`'s old parent. */
  lemma SuccessorSubtree(t: Tree, k: Links, z: nat, y: nat, k2: Links, ru': Tree, k4: Links)
    requires Shaped(t, k) && z in Handles(t) && z < |k.parent| && y < |k.parent|
    requires Sub(t, z).left.Node? && Sub(t, z).right.Node? && y == MinHandle(Sub(t, z).right)
    requires |k2.left| == |k2.right| == |k2.parent| == |k.parent| && k2.root == k.root
    requires ru' == Subst(Sub(t, z).right, y, Sub(Sub(t, z).right, y).right)
    requires Handles(ru') == Handles(Sub(t, z).right) - {y} && Distinct(ru')
    requires Realizes(ru', Root(ru'), y, k2.left, k2.right, k2.parent) && k2.right[y] == Root(ru')
    requires forall x :: 0 <= x < |k.parent| && x !in Handles(Sub(t, z).right) ==>
      k2.left[x] == k.left[x] && k2.right[x] == k.right[x] && k2.parent[x] == k.parent[x]
    requires k4 == var k3 := Transplanted(k2, z, y); AdoptLeft(k3, y, k3.left[z])
    ensures z < |k.parent| && Realizes(Node(Sub(t, z).left, y, ru'), y, k.parent[z], k4.left, k4.right, k4.parent)
  {
    var L, R, P := k.left, k.right, k.parent;
    RealizedBounds(t, k.root, Null, L, R, P);
    ParentIn(t, k.root, Null, L, R, P, z);
    var u := Sub(t, z);
    SubDistinct(t, z);
    RealizedBounds(u, z, P[z], L, R, P);
    FinishFrame(k2, z, y, k4);
    Reroot(u.left, L[z], z, y, L, R, P, k4.left, k4.right, k4.parent);
    Reroot(ru', Root(ru'), y, y, k2.left, k2.right, k2.parent, k4.left, k4.right, k4.parent);
  }

  // ---------------------------------------------------------------------
  // The tree
  // ---------------------------------------------------------------------

  class BST<T> {
    var data: seq<T>
    /** The links of every arena node (`left`, `right`, `parent`) and the root. */
    var links: Links
    var size: int
    /** The comparator together with its context. */
    const compare: (T, T) -> int
    /** The shape of the live nodes. */
    ghost var shape: Tree

    ghost predicate Valid()
      reads this
    {
      Stored(shape, links, |data|, size)
    }

    /** bst_create with a comparator: an empty tree. */
    constructor (cmp: (T, T) -> int)
      ensures Valid() && shape == Leaf && size == 0 && compare == cmp && data == []
    {
      data, links := [], Links([], [], [], Null);
      size := 0;
      compare := cmp;
      shape := Leaf;
    }

    /** The nodes in the tree. */
    ghost function Live(): set<nat>
      reads this
    {
      Handles(shape)
    }

    /** bst_insert: a fresh node holding `x` becomes a leaf where the search
        (left on a negative comparison, right otherwise) ends. */
    method Insert(x: T) returns (node: int)
      requires Valid()
      modifies this
      ensures Valid()
      ensures node == |old(data)| && data == old(data) + [x]
      ensures Below(old(shape), |data|)
      ensures shape == Inserted(old(shape), data, x, node, compare)
      ensures Live() == old(Live()) + {node} && node !in old(Live())
      ensures size == old(size) + 1
    {
      var n := |data|;
      var D := data + [x];
      var k := InsertLinks(shape, links, D, x, compare, n, size);
      data, links := D, k;
      shape, size := Inserted(shape, D, x, n, compare), size + 1;
      node := n;
    }

    /** transplant: the parent of `u` (or the root pointer) now leads to
        `v`, and `v` takes `u`'s parent. */
    method Transplant(u: nat, v: int)
      requires u < |links.parent|
      modifies this
      ensures links == Transplanted(old(links), u, v)
      ensures data == old(data) && shape == old(shape) && size == old(size)
    {
      var p := links.parent[u];
      if p == Null {
        links := links.(root := v);
      } else if 0 <= p < |links.left| && u == links.left[p] {
        links := links.(left := Update(links.left, p, v));
      } else {
        links := links.(right := Update(links.right, p, v));
      }
      if v != Null {
        links := links.(parent := Update(links.parent, v, p));
      }
    }

    /** find_min_node_internal: from the root `h` of the subtree `t`, follow
        left links to the leftmost node. */
    method MinNode(h: int, ghost t: Tree, ghost p: int) returns (m: int)
      requires Realizes(t, h, p, links.left, links.right, links.parent)
      ensures t.Leaf? ==> m == Null
      ensures t.Node? ==> m == MinHandle(t) && m < |links.left| && m < |links.right| && m < |links.parent|
    {
      if h == Null {
        return Null;
      }
      m := h;
      ghost var sub, q := t, p;
      while links.left[m] != Null
        invariant sub.Node? && Realizes(sub, m, q, links.left, links.right, links.parent)
        invariant MinHandle(sub) == MinHandle(t)
        decreases sub
      {
        q := m;
        m := links.left[m];
        sub := sub.left;
      }
    }

    /** bst_remove_node: the node `z` (none when `z` is `Null`) leaves the
        tree, replaced by its only child or by its successor. */
    method RemoveNode(z: int)
      requires Valid() && (z == Null || z in Live())
      modifies this
      ensures Valid() && data == old(data)
      ensures z == Null ==> shape == old(shape) && size == old(size) && links == old(links)
      ensures z != Null ==> z in old(Live()) && shape == DeleteAt(old(shape), z)
      ensures z != Null ==> Live() == old(Live()) - {z} && size == old(size) - 1
    {
      if z == Null {
        return;
      }
      ghost var t0, k0 := shape, links;
      RealizedBounds(t0, k0.root, Null, k0.left, k0.right, k0.parent);
      if links.left[z] == Null {
        ChildRealizes(t0, k0, z, links.right[z]);
        Transplant(z, links.right[z]);
      } else if links.right[z] == Null {
        ChildRealizes(t0, k0, z, links.left[z]);
        Transplant(z, links.left[z]);
      } else {
        ParentIn(t0, k0.root, Null, k0.left, k0.right, k0.parent, z);
        var y := MinNode(links.right[z], Sub(t0, z).right, z);
        SuccessorRealizes(t0, k0, z, y);
        ReplaceBySuccessor(z, y);
      }
      assert Shaped(DeleteAt(t0, z), links) && |links.left| == |data|;
      DeleteAtHandles(t0, z);
      shape := DeleteAt(t0, z);
      size := size - 1;
    }

    /** bst_remove: search for a node whose element compares equal to `x`
        (left on a negative comparison, right on a positive one) and remove
        the first one met. */
    method Remove(x: T) returns (found: bool)
      requires Valid()
      modifies this
      ensures Valid() && data == old(data) && Below(old(shape), |data|)
      ensures found == Search(old(shape), data, x, compare).Some?
      ensures found ==> shape == DeleteAt(old(shape), Search(old(shape), data, x, compare).value)
      ensures found ==> size == old(size) - 1
      ensures !found ==> shape == old(shape) && size == old(size) && links == old(links)
    {
      StoredBelow(shape, links, |data|, size);
      var current := links.root;
      ghost var sub, p := shape, Null;
      while current != Null
        invariant Realizes(sub, current, p, links.left, links.right, links.parent) && Below(sub, |data|)
        invariant Handles(sub) <= Handles(shape)
        invariant Search(shape, data, x, compare) == Search(sub, data, x, compare)
        decreases sub
      {
        var c := compare(x, data[current]);
        if c == 0 {
          RemoveNode(current);
          return true;
        } else if c < 0 {
          current, p, sub := links.left[current], current, sub.left;
        } else {
          current, p, sub := links.right[current], current, sub.right;
        }
      }
      return false;
    }

    /** bst_find_min_node: the leftmost node, `Null` for an empty tree. */
    method FindMinNode() returns (m: int)
      requires Valid()
      ensures shape.Leaf? ==> m == Null
      ensures shape.Node? ==> m == MinHandle(shape) && m < |data|
    {
      m := MinNode(links.root, shape, Null);
    }

    /** bst_find_min: the element of the leftmost node, none for an empty tree. */
    method FindMin() returns (d: Option<T>)
      requires Valid()
      ensures shape.Leaf? ==> d == None
      ensures shape.Node? ==> MinHandle(shape) < |data| && d == Some(data[MinHandle(shape)])
    {
      var m := FindMinNode();
      d := NodeData(m);
    }

    /** bst_node_get_data: the element stored at `node`, none for `Null`. */
    function NodeData(node: int): (d: Option<T>)
      requires Valid() && (node == Null || node in Live())
      reads this
      ensures d.None? <==> node == Null
      ensures d.Some? ==> node < |data| && d.value == data[node]
    {
      StoredBelow(shape, links, |data|, size);
      BelowIn(shape, |data|, node);
      if node == Null then None else Some(data[node])
    }

    /** bst_is_empty: the root pointer is `Null` exactly when there are no nodes. */
    function IsEmpty(): (b: bool)
      requires Valid()
      reads this
      ensures b <==> Live() == {}
    {
      links.root == Null
    }

    /** bst_size: the counter equals the number of nodes in the tree. */
    function Size(): (n: int)
      requires Valid()
      reads this
      ensures n == |Live()|
    {
      size
    }

    /** bst_clear: the tree forgets all its nodes. */
    method Clear()
      requires Valid()
      modifies this
      ensures Valid() && shape == Leaf && size == 0 && data == old(data)
    {
      links := links.(root := Null);
      shape := Leaf;
      size := 0;
    }

    /** Case 3 of bst_remove_node: `y`, the successor of `z`, takes `z`'s place. */
    method ReplaceBySuccessor(z: nat, y: nat)
      requires |links.left| == |links.right| == |links.parent| && z < |links.parent| && y < |links.parent|
      modifies this
      ensures links == SuccessorLinks(old(links), z, y)
      ensures data == old(data) && shape == old(shape) && size == old(size)
    {
      if links.parent[y] != z {
        Transplant(y, links.right[y]);
        var c := links.right[z];
        links := links.(right := Update(links.right, y, c));
        links := links.(parent := Update(links.parent, c, y));
      }
      Transplant(z, y);
      var c := links.left[z];
      links := links.(left := Update(links.left, y, c));
      links := links.(parent := Update(links.parent, c, y));
    }
  }

  /** The links after bst_insert: the fresh node `|k.left|` is planted as
      the root of an empty tree and otherwise hung where the search ends. */
  method InsertLinks<T>(ghost t: Tree, k: Links, D: seq<T>, x: T, cmp: (T, T) -> int, n: nat, ghost size: int)
    returns (k': Links)
    requires |D| == n + 1 && Stored(t, k, n, size)
    ensures Below(t, |D|) && n !in Handles(t)
    ensures Handles(Inserted(t, D, x, n, cmp)) == Handles(t) + {n}
    ensures Stored(Inserted(t, D, x, n, cmp), k', |D|, size + 1)
  {
    FreshHandle(t, k, D, x, cmp);
    if k.root == Null {
      k' := Links(k.left + [Null], k.right + [Null], k.parent + [Null], n);
    } else {
      var par := Descend(t, k, D, x, cmp);
      k' := Hung(k, n, par, cmp(x, D[par]) < 0);
    }
    InsertStored(t, k, D, x, cmp, size, k');
  }

  /** The search loop of bst_insert: the node under which `x` is hung. */
  method Descend<T>(ghost t: Tree, k: Links, D: seq<T>, x: T, cmp: (T, T) -> int) returns (par: int)
    requires Shaped(t, k) && Below(t, |D|) && t.Node?
    ensures par in Handles(t) && par < |D| && par < |k.left| && par < |k.right|
    ensures InsertionPoint(t, D, x, cmp, Null, false) == (par, cmp(x, D[par]) < 0)
  {
    var current := k.root;
    par := Null;
    ghost var sub := t;
    ghost var toLeft := false;
    while current != Null
      invariant Realizes(sub, current, par, k.left, k.right, k.parent) && Below(sub, |D|)
      invariant Handles(sub) <= Handles(t)
      invariant InsertionPoint(t, D, x, cmp, Null, false) == InsertionPoint(sub, D, x, cmp, par, toLeft)
      invariant par == Null ==> current == k.root
      invariant par != Null ==> par in Handles(t) && par < |D| && toLeft == (cmp(x, D[par]) < 0)
      decreases sub
    {
      par := current;
      var c := cmp(x, D[current]);
      if c < 0 {
        current := k.left[current];
        sub, toLeft := sub.left, true;
      } else {
        current := k.right[current];
        sub, toLeft := sub.right, false;
      }
    }
    RealizedBounds(t, k.root, Null, k.left, k.right, k.parent);
  }

  /** A tree of `size` nodes over an arena of `n` nodes, shaped by the links `k`. */
  ghost predicate Stored(t: Tree, k: Links, n: nat, size: int)
  {
    n == |k.left| && Shaped(t, k) && size == |Handles(t)|
  }

  /** bst_insert on the values: the fresh node is planted as the root of an
      empty tree and otherwise hung where the insertion search ends. */
  lemma InsertStored<T>(t: Tree, k: Links, D: seq<T>, x: T, cmp: (T, T) -> int, size: int, k': Links)
    requires |D| == |k.left| + 1 && Stored(t, k, |k.left|, size) && Below(t, |D|)
    requires t.Leaf? ==> k' == Links(k.left + [Null], k.right + [Null], k.parent + [Null], |k.left|)
    requires t.Node? ==>
               InsertionPoint(t, D, x, cmp, Null, false).0 < |k.left| &&
               var (q, toLeft) := InsertionPoint(t, D, x, cmp, Null, false);
               k' == Hung(k, |k.left|, q, toLeft)
    ensures |k.left| !in Handles(t)
    ensures Handles(Inserted(t, D, x, |k.left|, cmp)) == Handles(t) + {|k.left|}
    ensures Stored(Inserted(t, D, x, |k.left|, cmp), k', |D|, size + 1)
  {
    FreshHandle(t, k, D, x, cmp);
    if t.Node? {
      HungShaped(t, k, D, x, cmp);
    }
  }

  /** The node bst_insert creates is fresh, and inserting it adds it alone. */
  lemma FreshHandle<T>(t: Tree, k: Links, D: seq<T>, x: T, cmp: (T, T) -> int)
    requires Shaped(t, k) && |D| == |k.left| + 1
    ensures Below(t, |D|) && |k.left| !in Handles(t)
    ensures Handles(Inserted(t, D, x, |k.left|, cmp)) == Handles(t) + {|k.left|}
    ensures Distinct(Inserted(t, D, x, |k.left|, cmp))
  {
    RealizedBounds(t, k.root, Null, k.left, k.right, k.parent);
    BelowLive(t, |k.left|, |D|);
    InsertedHandles(t, D, x, |k.left|, cmp);
  }

  /** A stored tree lies below the arena's size. */
  lemma StoredBelow(t: Tree, k: Links, n: nat, size: int)
    requires Stored(t, k, n, size)
    ensures Below(t, n)
  {
    RealizedBounds(t, k.root, Null, k.left, k.right, k.parent);
    BelowLive(t, n, n);
  }

  /** A node of a tree below `n` is below `n`. */
  lemma {:induction false} BelowIn(t: Tree, n: int, x: int)
    requires Below(t, n)
    ensures x in Handles(t) ==> x < n
  {
    if t.Node? {
      BelowIn(t.left, n, x);
      BelowIn(t.right, n, x);
    }
  }

  /** Handles below `n` make `t` lie below every `m >= n`, and leave `n` fresh. */
  lemma {:induction false} BelowLive(t: Tree, n: nat, m: int)
    requires forall x | x in Handles(t) :: x < n
    requires n <= m
    ensures Below(t, m) && n !in Handles(t)
  {
    if t.Node? {
      assert t.h in Handles(t);
      assert Handles(t.left) <= Handles(t) && Handles(t.right) <= Handles(t);
      BelowLive(t.left, n, m);
      BelowLive(t.right, n, m);
    }
  }

  /** bst_create: no tree without a comparator; otherwise an empty tree. */
  method Create<T>(cmp: Option<(T, T) -> int>) returns (tree: BST?<T>)
    ensures cmp.None? ==> tree == null
    ensures cmp.Some? ==> tree != null && fresh(tree) && tree.Valid() && tree.shape == Leaf &&
                          tree.size == 0 && tree.compare == cmp.value
  {
    if cmp.None? {
      return null;
    }
    tree := new BST(cmp.value);
  }

  // ---------------------------------------------------------------------
  // Search-tree order
  // ---------------------------------------------------------------------

  /** `cmp` compares elements by the integer `key`. */
  ghost predicate ByKey<T(!new)>(cmp: (T, T) -> int, key: T -> int)
  {
    forall a, b :: (cmp(a, b) < 0 <==> key(a) < key(b)) && (cmp(a, b) == 0 <==> key(a) == key(b))
  }

  /** Keys on the left of a node are smaller than its key, keys on the
      right are not. */
  ghost predicate Ordered<T>(t: Tree, D: seq<T>, key: T -> int)
  {
    match t
    case Leaf => true
    case Node(l, y, r) =>
      y < |D| && Ordered(l, D, key) && Ordered(r, D, key) &&
      (forall a | a in Handles(l) :: a < |D| && key(D[a]) < key(D[y])) &&
      (forall b | b in Handles(r) :: b < |D| && key(D[y]) <= key(D[b]))
  }

  /** The nodes of a subtree and of its replacement stay within the tree. */
  lemma {:induction false} SubstSubset(t: Tree, z: nat, s: Tree)
    requires z in Handles(t)
    ensures Handles(Subst(t, z, s)) <= Handles(t) + Handles(s)
  {
    match t
    case Node(l, x, r) =>
      if x != z {
        if z in Handles(l) {
          SubstSubset(l, z, s);
        } else {
          SubstSubset(r, z, s);
        }
      }
  }

  /** Replacing a subtree by an ordered tree with some of its nodes keeps
      the order. */
  lemma {:induction false} SubstOrdered<T>(t: Tree, z: nat, s: Tree, D: seq<T>, key: T -> int)
    requires z in Handles(t) && Ordered(t, D, key) && Ordered(s, D, key)
    requires Handles(s) <= Handles(Sub(t, z))
    ensures Ordered(Subst(t, z, s), D, key)
  {
    match t
    case Node(l, x, r) =>
      if x != z {
        if z in Handles(l) {
          SubstOrdered(l, z, s, D, key);
          SubstSubset(l, z, s);
        } else {
          SubstOrdered(r, z, s, D, key);
          SubstSubset(r, z, s);
        }
      }
  }

  /** The leftmost node holds a least key. */
  lemma {:induction false} MinLeast<T>(t: Tree, D: seq<T>, key: T -> int)
    requires t.Node? && Ordered(t, D, key)
    ensures MinHandle(t) < |D|
    ensures forall a | a in Handles(t) :: a < |D| && key(D[MinHandle(t)]) <= key(D[a])
  {
    if t.left.Node? {
      MinLeast(t.left, D, key);
    }
  }

  /** Removing the root of an ordered tree keeps the order. */
  lemma SplicedOrdered<T>(u: Tree, D: seq<T>, key: T -> int)
    requires u.Node? && Ordered(u, D, key)
    ensures Ordered(Spliced(u), D, key)
    ensures Handles(Spliced(u)) <= Handles(u)
  {
    if u.left.Node? && u.right.Node? {
      var y := MinHandle(u.right);
      var w := Sub(u.right, y);
      MinLeast(u.right, D, key);
      OrderedSub(u.right, y, D, key);
      SubstSubset(u.right, y, w.right);
      SubstOrdered(u.right, y, w.right, D, key);
    }
  }

  /** The subtree of an ordered tree is ordered. */
  lemma {:induction false} OrderedSub<T>(t: Tree, z: nat, D: seq<T>, key: T -> int)
    requires z in Handles(t) && Ordered(t, D, key)
    ensures Ordered(Sub(t, z), D, key)
  {
    match t
    case Node(l, x, r) =>
      if x != z {
        if z in Handles(l) {
          OrderedSub(l, z, D, key);
        } else {
          OrderedSub(r, z, D, key);
        }
      }
  }

  /** bst_remove_node keeps a search tree ordered. */
  lemma DeleteOrdered<T>(t: Tree, z: nat, D: seq<T>, key: T -> int)
    requires z in Handles(t) && Ordered(t, D, key)
    ensures Ordered(DeleteAt(t, z), D, key)
  {
    OrderedSub(t, z, D, key);
    SplicedOrdered(Sub(t, z), D, key);
    SubstOrdered(t, z, Spliced(Sub(t, z)), D, key);
  }

  /** bst_insert keeps a search tree ordered when `cmp` compares by keys. */
  lemma {:induction false} InsertedOrdered<T(!new)>(t: Tree, D: seq<T>, x: T, n: nat, cmp: (T, T) -> int, key: T -> int)
    requires ByKey(cmp, key) && Ordered(t, D, key) && Below(t, |D|) && Distinct(t)
    requires n < |D| && D[n] == x && n !in Handles(t)
    ensures Ordered(Inserted(t, D, x, n, cmp), D, key)
  {
    if t.Node? {
      InsertedOrdered(t.left, D, x, n, cmp, key);
      InsertedOrdered(t.right, D, x, n, cmp, key);
      InsertedHandles(t.left, D, x, n, cmp);
      InsertedHandles(t.right, D, x, n, cmp);
    }
  }

  /** In an ordered tree the search of bst_remove finds a node exactly when
      some node holds a key equal to that of `x`. */
  lemma {:induction false} SearchComplete<T(!new)>(t: Tree, D: seq<T>, x: T, cmp: (T, T) -> int, key: T -> int)
    requires ByKey(cmp, key) && Ordered(t, D, key) && Below(t, |D|)
    ensures Search(t, D, x, cmp).Some? <==> exists a :: a in Handles(t) && a < |D| && key(D[a]) == key(x)
  {
    if t.Node? {
      SearchComplete(t.left, D, x, cmp, key);
      SearchComplete(t.right, D, x, cmp, key);
    }
  }

  /** After the leftmost node of an ordered tree is removed, the new
      leftmost node holds a least key among the remaining nodes. */
  lemma MinAfterRemoval<T>(t: Tree, D: seq<T>, key: T -> int)
    requires t.Node? && Ordered(t, D, key) && Distinct(t) && |Handles(t)| > 1
    ensures DeleteAt(t, MinHandle(t)).Node?
    ensures var t' := DeleteAt(t, MinHandle(t));
      Handles(t') == Handles(t) - {MinHandle(t)} && MinHandle(t') < |D| &&
      forall a | a in Handles(t') :: a < |D| && key(D[MinHandle(t')]) <= key(D[a])
  {
    var m := MinHandle(t);
    DeleteAtHandles(t, m);
    var t' := DeleteAt(t, m);
    assert Handles(t') != {};
    DeleteOrdered(t, m, D, key);
    MinLeast(t', D, key);
  }
}
