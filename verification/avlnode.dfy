/**
 * The height-balanced node trees behind avltree.c and btree.c.  The two files
 * carry the same node code (`_AVN_*` and `_BN_*`): stored heights, left and
 * right rotations, the balance rule, minimum, search, insert, delete.  Nodes
 * are exclusively owned by their parent, so a subtree is modelled as a value
 * and a pointer rewrite as building the rewritten value.
 *
 * The stored `height` field is kept apart from the true height of a subtree,
 * because delete leaves the heights of the ancestors of the deleted node as
 * they were.
 *
 * Where the two files differ, a `deep` flag selects the variant: `deep` is
 * `_AVL_balance`/`_BT_balance`, which rebalances a whole subtree bottom-up,
 * and `!deep` is `_AVN_balance`/`_BN_balance`, which rebalances one node.
 */
module AvlNode {
  import opened Common

  /** `struct _AVLNode` / `struct _BTNode`; `Nil` is a NULL child. */
  datatype Tree = Nil | Node(key: int, height: nat, data: Ptr, left: Tree, right: Tree)

  /** What a walker sees of a visited node. */
  datatype Entry = Entry(key: int, data: Ptr)

  // ---------------------------------------------------------------------
  // Views: in-order walk, keys, contents, size
  // ---------------------------------------------------------------------

  /**
   * `_AVL_walk_asc`: left subtree, node, right subtree; nothing for an
   * empty tree.
   */
  function InOrder(t: Tree): (r: seq<Entry>)
    ensures r == [] <==> t.Nil?
  {
    match t
    case Nil => []
    case Node(k, _, d, l, r) => InOrder(l) + [Entry(k, d)] + InOrder(r)
  }

  /** `_AVL_walk_desc`: right subtree, node, left subtree. */
  function WalkDesc(t: Tree): seq<Entry>
  {
    match t
    case Nil => []
    case Node(k, _, d, l, r) => WalkDesc(r) + [Entry(k, d)] + WalkDesc(l)
  }

  function Reverse<T>(s: seq<T>): (r: seq<T>)
    ensures |r| == |s|
  {
    if s == [] then [] else Reverse(s[1..]) + [s[0]]
  }

  lemma {:induction false} ReverseAppend<T>(a: seq<T>, b: seq<T>)
    ensures Reverse(a + b) == Reverse(b) + Reverse(a)
  {
    if a == [] {
      assert a + b == b;
    } else {
      assert (a + b)[1..] == a[1..] + b;
      ReverseAppend(a[1..], b);
    }
  }

  /** The descending walk visits exactly the ascending walk's nodes, backwards. */
  lemma {:induction false} WalkDescIsReverse(t: Tree)
    ensures WalkDesc(t) == Reverse(InOrder(t))
  {
    match t
    case Nil =>
    case Node(k, _, d, l, r) =>
      WalkDescIsReverse(l);
      WalkDescIsReverse(r);
      ReverseAppend(InOrder(l) + [Entry(k, d)], InOrder(r));
      ReverseAppend(InOrder(l), [Entry(k, d)]);
      assert Reverse([Entry(k, d)]) == [Entry(k, d)];
  }

  function Keys(t: Tree): set<int>
  {
    match t
    case Nil => {}
    case Node(k, _, _, l, r) => Keys(l) + {k} + Keys(r)
  }

  /** The map from key to data that a tree stores (a later entry of the walk wins). */
  function Contents(t: Tree): map<int, Ptr>
  {
    match t
    case Nil => map[]
    case Node(k, _, d, l, r) => Contents(l)[k := d] + Contents(r)
  }

  /** The entries of a walk, folded into a map; a later entry wins. */
  function ToMap(s: seq<Entry>): map<int, Ptr>
  {
    if s == [] then map[] else ToMap(s[..|s| - 1])[s[|s| - 1].key := s[|s| - 1].data]
  }

  lemma {:induction false} ToMapAppend(a: seq<Entry>, b: seq<Entry>)
    ensures ToMap(a + b) == ToMap(a) + ToMap(b)
    decreases |b|
  {
    if b == [] {
      assert a + b == a;
    } else {
      var b' := b[..|b| - 1];
      assert (a + b)[..|a + b| - 1] == a + b';
      ToMapAppend(a, b');
    }
  }

  /** A tree's contents are determined by its in-order walk alone. */
  lemma {:induction false} ContentsIsWalk(t: Tree)
    ensures Contents(t) == ToMap(InOrder(t))
  {
    match t
    case Nil =>
    case Node(k, _, d, l, r) =>
      ContentsIsWalk(l);
      ContentsIsWalk(r);
      ToMapAppend(InOrder(l) + [Entry(k, d)], InOrder(r));
      ToMapAppend(InOrder(l), [Entry(k, d)]);
      assert ToMap([Entry(k, d)]) == map[k := d];
  }

  lemma {:induction false} ContentsKeys(t: Tree)
    ensures Contents(t).Keys == Keys(t)
  {
    match t
    case Nil =>
    case Node(k, _, d, l, r) =>
      ContentsKeys(l);
      ContentsKeys(r);
  }

  /** Every key of the walk is a key of the tree, and the other way round. */
  lemma {:induction false} KeysAreWalkKeys(t: Tree)
    ensures forall i :: 0 <= i < |InOrder(t)| ==> InOrder(t)[i].key in Keys(t)
    ensures forall x :: x in Keys(t) ==> exists i :: 0 <= i < |InOrder(t)| && InOrder(t)[i].key == x
  {
    WalkKeysStored(t);
    forall x | x in Keys(t)
      ensures exists i :: 0 <= i < |InOrder(t)| && InOrder(t)[i].key == x
    {
      var i := WalkIndex(t, x);
    }
  }

  /** Every key the walk visits is stored in the tree. */
  lemma {:induction false} WalkKeysStored(t: Tree)
    ensures forall i :: 0 <= i < |InOrder(t)| ==> InOrder(t)[i].key in Keys(t)
  {
    match t
    case Nil =>
    case Node(k, _, d, l, r) =>
      WalkKeysStored(l);
      WalkKeysStored(r);
      var s := InOrder(t);
      var nl := |InOrder(l)|;
      assert s == InOrder(l) + [Entry(k, d)] + InOrder(r);
      forall i | 0 <= i < |s|
        ensures s[i].key in Keys(t)
      {
        if i < nl {
          assert s[i] == InOrder(l)[i];
        } else if nl < i {
          assert s[i] == InOrder(r)[i - nl - 1];
        }
      }
  }

  /** The position in the in-order walk at which a stored key is visited. */
  function WalkIndex(t: Tree, x: int): (i: nat)
    requires x in Keys(t)
    ensures i < |InOrder(t)| && InOrder(t)[i].key == x
  {
    match t
    case Node(k, _, d, l, r) =>
      if x in Keys(l) then
        var i := WalkIndex(l, x);
        assert InOrder(t)[i] == InOrder(l)[i];
        i
      else if x == k then
        assert InOrder(t)[|InOrder(l)|] == Entry(k, d);
        |InOrder(l)|
      else
        var i := WalkIndex(r, x);
        assert InOrder(t)[|InOrder(l)| + 1 + i] == InOrder(r)[i];
        |InOrder(l)| + 1 + i
  }

  // ---------------------------------------------------------------------
  // Search-tree order
  // ---------------------------------------------------------------------

  /** Every key of a left subtree is below its node's key, every key of a right subtree above. */
  predicate Bst(t: Tree)
  {
    match t
    case Nil => true
    case Node(k, _, _, l, r) =>
      Bst(l) && Bst(r) && (forall x :: x in Keys(l) ==> x < k) && (forall x :: x in Keys(r) ==> k < x)
  }

  predicate Ascending(s: seq<Entry>)
  {
    forall i, j :: 0 <= i < j < |s| ==> s[i].key < s[j].key
  }

  lemma AscendingSplit(a: seq<Entry>, e: Entry, b: seq<Entry>)
    ensures Ascending(a + [e] + b) <==>
            Ascending(a) && Ascending(b) &&
            (forall i :: 0 <= i < |a| ==> a[i].key < e.key) &&
            (forall j :: 0 <= j < |b| ==> e.key < b[j].key)
  {
    var s := a + [e] + b;
    assert forall i :: 0 <= i < |a| ==> s[i] == a[i];
    assert s[|a|] == e;
    assert forall j :: 0 <= j < |b| ==> s[|a| + 1 + j] == b[j];
    if Ascending(a) && Ascending(b) &&
       (forall i :: 0 <= i < |a| ==> a[i].key < e.key) &&
       (forall j :: 0 <= j < |b| ==> e.key < b[j].key)
    {
      forall i, j | 0 <= i < j < |s| ensures s[i].key < s[j].key {
        if j < |a| {
        } else if j == |a| {
        } else if i < |a| {
          assert a[i].key < e.key < b[j - |a| - 1].key;
        } else if i == |a| {
          assert e.key < b[j - |a| - 1].key;
        } else {
          assert s[i] == b[i - |a| - 1];
        }
      }
    }
  }

  /** The ascending walk of a search tree visits keys in strictly increasing order, and only a search tree's walk does. */
  lemma {:induction false} BstIffAscending(t: Tree)
    ensures Bst(t) <==> Ascending(InOrder(t))
  {
    match t
    case Nil =>
    case Node(k, _, d, l, r) =>
      BstIffAscending(l);
      BstIffAscending(r);
      KeysAreWalkKeys(l);
      KeysAreWalkKeys(r);
      AscendingSplit(InOrder(l), Entry(k, d), InOrder(r));
  }

  /**
   * Rewiring that keeps the in-order walk keeps the search-tree order, the
   * keys, the contents and the number of nodes.
   */
  lemma SameWalk(a: Tree, b: Tree)
    requires InOrder(a) == InOrder(b)
    ensures Bst(a) <==> Bst(b)
    ensures Contents(a) == Contents(b)
    ensures Keys(a) == Keys(b)
  {
    BstIffAscending(a);
    BstIffAscending(b);
    ContentsIsWalk(a);
    ContentsIsWalk(b);
    ContentsKeys(a);
    ContentsKeys(b);
  }

  // ---------------------------------------------------------------------
  // Heights, rotations and the balance rule
  // ---------------------------------------------------------------------

  /** `_AVN_height`: the stored height of a node, 0 for NULL. */
  function Height(t: Tree): nat
  {
    if t.Nil? then 0 else t.height
  }

  /** The number of nodes on the longest path down from the root. */
  function TrueHeight(t: Tree): nat
  {
    match t
    case Nil => 0
    case Node(_, _, _, l, r) => 1 + Max(TrueHeight(l), TrueHeight(r))
  }

  /** Every stored height is one more than the larger stored height of the children. */
  predicate HeightsCorrect(t: Tree)
  {
    match t
    case Nil => true
    case Node(_, h, _, l, r) => HeightsCorrect(l) && HeightsCorrect(r) && h == 1 + Max(Height(l), Height(r))
  }

  /** Where every stored height is correct, the root's stored height is the true height. */
  lemma {:induction false} CorrectHeightIsTrue(t: Tree)
    requires HeightsCorrect(t)
    ensures Height(t) == TrueHeight(t)
  {
    match t
    case Nil =>
    case Node(_, _, _, l, r) =>
      CorrectHeightIsTrue(l);
      CorrectHeightIsTrue(r);
  }

  /** `AVN_bf`: right height minus left height. */
  function Factor(t: Tree): int
    requires t.Node?
  {
    Height(t.right) - Height(t.left)
  }

  /** Stored heights are correct and no node's factor exceeds 1 in size. */
  predicate Avl(t: Tree)
  {
    match t
    case Nil => true
    case Node(_, h, _, l, r) =>
      Avl(l) && Avl(r) && h == 1 + Max(Height(l), Height(r)) && -1 <= Height(r) - Height(l) <= 1
  }

  lemma {:induction false} AvlHeightsCorrect(t: Tree)
    requires Avl(t)
    ensures HeightsCorrect(t)
  {
    match t
    case Nil =>
    case Node(_, _, _, l, r) =>
      AvlHeightsCorrect(l);
      AvlHeightsCorrect(r);
  }

  /** `_AVN_seth`: recompute a node's height from its children's. */
  function SetHeight(t: Tree): (r: Tree)
    requires t.Node?
    ensures r.Node? && InOrder(r) == InOrder(t)
    ensures HeightsCorrect(t.left) && HeightsCorrect(t.right) ==> HeightsCorrect(r) && Height(r) == TrueHeight(r)
  {
    var r := t.(height := 1 + Max(Height(t.left), Height(t.right)));
    if HeightsCorrect(t.left) && HeightsCorrect(t.right) then CorrectHeightIsTrue(r); r else r
  }

  /** `_AVN_rotr`: the left child `y` of `x` becomes the root, `x` its right child. */
  function RotateRight(x: Tree): (r: Tree)
    requires x.Node? && x.left.Node?
    ensures r.Node? && r.right.Node?
    ensures InOrder(r) == InOrder(x)
    ensures r.key == x.left.key && r.left == x.left.left
    ensures r.right.key == x.key && r.right.left == x.left.right && r.right.right == x.right
    ensures r.right.height == 1 + Max(Height(r.right.left), Height(r.right.right))
    ensures r.height == 1 + Max(Height(r.left), Height(r.right))
  {
    var y := x.left;
    var x' := SetHeight(x.(left := y.right));
    SetHeight(y.(right := x'))
  }

  /** `_AVN_rotl`: the right child `x` of `y` becomes the root, `y` its left child. */
  function RotateLeft(y: Tree): (r: Tree)
    requires y.Node? && y.right.Node?
    ensures r.Node? && r.left.Node?
    ensures InOrder(r) == InOrder(y)
    ensures r.key == y.right.key && r.right == y.right.right
    ensures r.left.key == y.key && r.left.left == y.left && r.left.right == y.right.left
    ensures r.left.height == 1 + Max(Height(r.left.left), Height(r.left.right))
    ensures r.height == 1 + Max(Height(r.left), Height(r.right))
  {
    var x := y.right;
    var y' := SetHeight(y.(right := x.left));
    SetHeight(x.(left := y'))
  }

  /**
   * `_AVN_balance`: recompute the height; at a factor of 2 or more rotate
   * left, first rotating a left-leaning right child right; at -2 or less the
   * mirror image.
   */
  function BalanceNode(t: Tree): (r: Tree)
    requires t.Node?
    ensures r.Node? && InOrder(r) == InOrder(t)
  {
    var n := SetHeight(t);
    if Factor(n) >= 2 then
      var n' := if Factor(n.right) < 0 then n.(right := RotateRight(n.right)) else n;
      RotateLeft(n')
    else if Factor(n) <= -2 then
      var n' := if Factor(n.left) > 0 then n.(left := RotateLeft(n.left)) else n;
      RotateRight(n')
    else
      n
  }

  /** `_AVL_balance`: balance both subtrees bottom-up, then the node itself. */
  function BalanceAll(t: Tree): (r: Tree)
    requires t.Node?
    ensures r.Node? && InOrder(r) == InOrder(t)
  {
    var l := if t.left.Node? then BalanceAll(t.left) else t.left;
    var r := if t.right.Node? then BalanceAll(t.right) else t.right;
    BalanceNode(t.(left := l, right := r))
  }

  /** The rebalancing step a variant applies after changing a node's subtree. */
  function Rebalance(deep: bool, t: Tree): (r: Tree)
    requires t.Node?
    ensures r.Node? && InOrder(r) == InOrder(t)
  {
    if deep then BalanceAll(t) else BalanceNode(t)
  }

  // ---------------------------------------------------------------------
  // The balance rule restores AVL balance
  // ---------------------------------------------------------------------

  /** Right side two higher: a single or double left rotation gives an AVL tree. */
  lemma RightHeavyBalanced(t: Tree)
    requires t.Node? && Avl(t.left) && Avl(t.right) && Factor(t) == 2
    ensures Avl(BalanceNode(t))
    ensures Height(BalanceNode(t)) == Height(t.right) || Height(BalanceNode(t)) == Height(t.right) + 1
  {
    var n := SetHeight(t);
    var hl := Height(t.left);
    var R := n.right;
    if Factor(R) < 0 {
      var RL := R.left;
      assert Height(RL) == hl + 1 && Height(R.right) == hl;
      var r := RotateLeft(n.(right := RotateRight(R)));
      assert r == BalanceNode(t);
      assert r.left == SetHeight(Node(t.key, 0, t.data, t.left, RL.left));
      assert r.right == SetHeight(Node(R.key, 0, R.data, RL.right, R.right));
      assert Avl(r.left) && Avl(r.right);
    } else {
      assert Height(R.right) == hl + 1;
      var r := RotateLeft(n);
      assert r == BalanceNode(t);
      assert r.left == SetHeight(Node(t.key, 0, t.data, t.left, R.left));
      assert Avl(r.left);
    }
  }

  /** Left side two higher: the mirror image of `RightHeavyBalanced`. */
  lemma LeftHeavyBalanced(t: Tree)
    requires t.Node? && Avl(t.left) && Avl(t.right) && Factor(t) == -2
    ensures Avl(BalanceNode(t))
    ensures Height(BalanceNode(t)) == Height(t.left) || Height(BalanceNode(t)) == Height(t.left) + 1
  {
    var n := SetHeight(t);
    var hr := Height(t.right);
    var L := n.left;
    if Factor(L) > 0 {
      var LR := L.right;
      assert Height(LR) == hr + 1 && Height(L.left) == hr;
      var r := RotateRight(n.(left := RotateLeft(L)));
      assert r == BalanceNode(t);
      assert r.right == SetHeight(Node(t.key, 0, t.data, LR.right, t.right));
      assert r.left == SetHeight(Node(L.key, 0, L.data, L.left, LR.left));
      assert Avl(r.left) && Avl(r.right);
    } else {
      assert Height(L.left) == hr + 1;
      var r := RotateRight(n);
      assert r == BalanceNode(t);
      assert r.right == SetHeight(Node(t.key, 0, t.data, L.right, t.right));
      assert Avl(r.right);
    }
  }

  /**
   * `_AVN_balance` on a node whose subtrees are AVL trees with heights at
   * most 2 apart gives an AVL tree.  Its height is one more than the higher
   * subtree's, or, after a rotation, possibly equal to it; when the subtrees
   * were already within 1 nothing but the node's height changes.
   */
  lemma BalanceNodeAvl(t: Tree)
    requires t.Node? && Avl(t.left) && Avl(t.right) && -2 <= Factor(t) <= 2
    ensures Avl(BalanceNode(t))
    ensures var m := Max(Height(t.left), Height(t.right));
            Height(BalanceNode(t)) == m + 1 || ((Factor(t) == 2 || Factor(t) == -2) && Height(BalanceNode(t)) == m)
    ensures -1 <= Factor(t) <= 1 ==> BalanceNode(t) == SetHeight(t)
  {
    if Factor(t) == 2 {
      RightHeavyBalanced(t);
    } else if Factor(t) == -2 {
      LeftHeavyBalanced(t);
    }
  }

  /** `_AVL_balance` leaves an AVL tree exactly as it is. */
  lemma {:induction false} BalanceAllKeepsAvl(t: Tree)
    requires t.Node? && Avl(t)
    ensures BalanceAll(t) == t
  {
    if t.left.Node? { BalanceAllKeepsAvl(t.left); }
    if t.right.Node? { BalanceAllKeepsAvl(t.right); }
    BalanceNodeAvl(t);
  }

  /** Over AVL subtrees both variants rebalance exactly like `_AVN_balance`. */
  lemma RebalanceOverAvl(deep: bool, t: Tree)
    requires t.Node? && Avl(t.left) && Avl(t.right)
    ensures Rebalance(deep, t) == BalanceNode(t)
  {
    if t.left.Node? { BalanceAllKeepsAvl(t.left); }
    if t.right.Node? { BalanceAllKeepsAvl(t.right); }
  }

  // ---------------------------------------------------------------------
  // Search
  // ---------------------------------------------------------------------

  /**
   * `_AVL_search` / `_BT_search` from a non-NULL root: the node holding the
   * key, or NULL once the missing child on the search path is reached.
   */
  function Search(t: Tree, key: int): (r: Option<Tree>)
    requires t.Node?
    ensures r.Some? ==> r.value.Node? && r.value.key == key
  {
    if key < t.key then (if t.left.Node? then Search(t.left, key) else None)
    else if key > t.key then (if t.right.Node? then Search(t.right, key) else None)
    else Some(t)
  }

  /** In a search tree, search finds a node exactly for the stored keys, and that node holds the key's data. */
  lemma {:induction false} SearchFinds(t: Tree, key: int)
    requires t.Node? && Bst(t)
    ensures Search(t, key).Some? <==> key in Keys(t)
    ensures Search(t, key).Some? ==> key in Contents(t) && Search(t, key).value.data == Contents(t)[key]
  {
    ContentsKeys(t);
    if key < t.key {
      if t.left.Node? {
        SearchFinds(t.left, key);
        ContentsKeys(t.left);
        ContentsKeys(t.right);
      }
    } else if key > t.key {
      if t.right.Node? {
        SearchFinds(t.right, key);
        ContentsKeys(t.right);
      }
    } else {
      ContentsKeys(t.right);
    }
  }

  // ---------------------------------------------------------------------
  // Minimum and deletion
  // ---------------------------------------------------------------------

  /** `_AVL_min` / `_BN_min`: the leftmost node. */
  function Min(t: Tree): (m: Tree)
    requires t.Node?
    ensures m.Node? && InOrder(t) != [] && Entry(m.key, m.data) == InOrder(t)[0]
  {
    if t.left.Nil? then t else Min(t.left)
  }

  /**
   * `_AVL_del_min` (`deep`) / `_BN_del_min` (`!deep`): unlink the leftmost
   * node, rebalancing each node on the way back up.
   */
  function DelMin(deep: bool, t: Tree): (r: Tree)
    requires t.Node?
    ensures InOrder(t) != [] && InOrder(r) == InOrder(t)[1..]
  {
    if t.left.Nil? then t.right
    else
      var l := DelMin(deep, t.left);
      assert InOrder(t.(left := l)) == InOrder(t)[1..];
      Rebalance(deep, t.(left := l))
  }

  /**
   * `_AVL_delete` / `_BN_delete` applied to a found node: without a right
   * subtree the left one takes its place; otherwise the minimum of the right
   * subtree takes it, over the remaining right subtree, and `_AVL_balance`
   * rebalances the result.
   */
  function DeleteNode(deep: bool, t: Tree): (r: Tree)
    requires t.Node?
    ensures InOrder(r) == InOrder(t.left) + InOrder(t.right)
  {
    if t.right.Nil? then t.left
    else
      var m := Min(t.right);
      var r := BalanceAll(m.(left := t.left, right := DelMin(deep, t.right)));
      assert InOrder(t.right) == [Entry(m.key, m.data)] + InOrder(t.right)[1..];
      r
  }

  /**
   * The slot rewrite `*node = _AVL_delete(...)` at the node search found:
   * only the child pointers on the search path change, and every ancestor
   * keeps the height it had.
   */
  function Detach(deep: bool, t: Tree, key: int): (r: Tree)
    requires t.Node?
    ensures key != t.key ==> r.Node? && r.key == t.key && r.data == t.data && r.height == t.height
  {
    if key < t.key then (if t.left.Node? then t.(left := Detach(deep, t.left, key)) else t)
    else if key > t.key then (if t.right.Node? then t.(right := Detach(deep, t.right, key)) else t)
    else DeleteNode(deep, t)
  }

  lemma MapWithout<K, V>(a: map<K, V>, b: map<K, V>, k: K, v: V)
    requires k !in a && k !in b
    ensures (a[k := v] + b) - {k} == a + b
  {
  }

  lemma AscendingWithout(a: seq<Entry>, e: Entry, b: seq<Entry>)
    requires Ascending(a + [e] + b)
    ensures Ascending(a + b)
  {
    var w := a + [e] + b;
    var s := a + b;
    forall i, j | 0 <= i < j < |s| ensures s[i].key < s[j].key {
      assert s[i] == if i < |a| then w[i] else w[i + 1];
      assert s[j] == if j < |a| then w[j] else w[j + 1];
    }
  }

  /** Deleting a search tree's root leaves exactly the other keys, still in order. */
  lemma DeleteNodeContents(deep: bool, t: Tree)
    requires t.Node? && Bst(t)
    ensures Bst(DeleteNode(deep, t))
    ensures Contents(DeleteNode(deep, t)) == Contents(t) - {t.key}
    ensures |InOrder(DeleteNode(deep, t))| == |InOrder(t)| - 1
  {
    var r := DeleteNode(deep, t);
    var l, rt := t.left, t.right;
    BstIffAscending(t);
    BstIffAscending(r);
    AscendingWithout(InOrder(l), Entry(t.key, t.data), InOrder(rt));
    ContentsIsWalk(r);
    ToMapAppend(InOrder(l), InOrder(rt));
    ContentsIsWalk(l);
    ContentsIsWalk(rt);
    ContentsKeys(l);
    ContentsKeys(rt);
    MapWithout(Contents(l), Contents(rt), t.key, t.data);
  }

  lemma MapWithoutLeft<K, V>(a: map<K, V>, b: map<K, V>, k: K, v: V, x: K)
    requires x != k && x !in b
    ensures (a - {x})[k := v] + b == (a[k := v] + b) - {x}
  {
  }

  lemma MapWithoutRight<K, V>(a: map<K, V>, b: map<K, V>, k: K, v: V, x: K)
    requires x != k && x !in a
    ensures a[k := v] + (b - {x}) == (a[k := v] + b) - {x}
  {
  }

  /**
   * Detaching a stored key from a search tree removes exactly that key and
   * keeps the order; a key that is not stored leaves the tree as it is.
   */
  lemma {:induction false} DetachContents(deep: bool, t: Tree, key: int)
    requires t.Node? && Bst(t)
    ensures Bst(Detach(deep, t, key))
    ensures Contents(Detach(deep, t, key)) == Contents(t) - {key}
    ensures |InOrder(Detach(deep, t, key))| == |InOrder(t)| - (if key in Keys(t) then 1 else 0)
    ensures key !in Keys(t) ==> Detach(deep, t, key) == t
  {
    ContentsKeys(t);
    ContentsKeys(t.left);
    ContentsKeys(t.right);
    if key < t.key {
      if t.left.Node? {
        var d := Detach(deep, t.left, key);
        DetachContents(deep, t.left, key);
        ContentsKeys(d);
        assert Keys(d) == Keys(t.left) - {key};
        MapWithoutLeft(Contents(t.left), Contents(t.right), t.key, t.data, key);
      }
    } else if key > t.key {
      if t.right.Node? {
        var d := Detach(deep, t.right, key);
        DetachContents(deep, t.right, key);
        ContentsKeys(d);
        assert Keys(d) == Keys(t.right) - {key};
        MapWithoutRight(Contents(t.left), Contents(t.right), t.key, t.data, key);
      }
    } else {
      DeleteNodeContents(deep, t);
    }
  }

  // ---------------------------------------------------------------------
  // Insertion
  // ---------------------------------------------------------------------

  /**
   * The outcome of `_AVL_insert` / `_BT_insert`: the new subtree root,
   * whether a node was added (rather than a stored key's data replaced) and
   * what was passed to the destructor; or NULL with the error recorded.
   */
  datatype Insertion =
    | Inserted(tree: Tree, added: bool, released: seq<Data>)
    | Rejected(error: TreeError)

  /**
   * `_AVL_insert` (`deep`) / `_BT_insert` (`!deep`): a new key goes into a
   * fresh node of height 1 if the allocation succeeds; a stored key gets the
   * new data (the old data passed to the destructor) if `replace` is set, and
   * is refused otherwise; every node on the way back up is rebalanced, and
   * a refusal below leaves the nodes above as they were.
   */
  function Insert(deep: bool, t: Tree, key: int, data: Ptr, replace: bool, hasDestructor: bool, allocOk: bool): (r: Insertion)
    ensures r.Inserted? ==> r.tree.Node?
  {
    match t
    case Nil =>
      if allocOk then Inserted(Node(key, 1, data, Nil, Nil), true, []) else Rejected(Memory)
    case Node(k, _, d, l, rt) =>
      if key < k then
        match Insert(deep, l, key, data, replace, hasDestructor, allocOk)
        case Rejected(e) => Rejected(e)
        case Inserted(n, added, rel) => Inserted(Rebalance(deep, t.(left := n)), added, rel)
      else if key > k then
        match Insert(deep, rt, key, data, replace, hasDestructor, allocOk)
        case Rejected(e) => Rejected(e)
        case Inserted(n, added, rel) => Inserted(Rebalance(deep, t.(right := n)), added, rel)
      else if replace then
        Inserted(Rebalance(deep, t.(data := data)), false, Released(hasDestructor, d))
      else
        Rejected(KeyFound)
  }

  lemma MapInsertLeft<K, V>(a: map<K, V>, b: map<K, V>, k: K, v: V, x: K, w: V)
    requires x != k && x !in b
    ensures a[x := w][k := v] + b == (a[k := v] + b)[x := w]
  {
  }

  lemma MapInsertRight<K, V>(a: map<K, V>, b: map<K, V>, k: K, v: V, x: K, w: V)
    requires x != k
    ensures a[k := v] + b[x := w] == (a[k := v] + b)[x := w]
  {
  }

  /**
   * What insertion into a search tree promises: it fails exactly when the
   * key is stored and replacing is off (`TE_FOUND`) or the key is new and the
   * allocation fails (`TE_MEMORY`).  Otherwise the tree stays a search tree,
   * maps the key to the new data and keeps every other key; a node is added
   * exactly for a new key; only a replaced key's old data goes to the
   * destructor.
   */
  predicate InsertSpec(t: Tree, key: int, data: Ptr, replace: bool, hasDestructor: bool, allocOk: bool, r: Insertion)
  {
    && (r.Rejected? <==> if key in Keys(t) then !replace else !allocOk)
    && (r.Rejected? ==> r.error == if key in Keys(t) then KeyFound else Memory)
    && (r.Inserted? ==>
          && Bst(r.tree)
          && Contents(r.tree) == Contents(t)[key := data]
          && r.added == (key !in Keys(t))
          && |InOrder(r.tree)| == |InOrder(t)| + (if r.added then 1 else 0)
          && r.released == if key in Contents(t) then Released(hasDestructor, Contents(t)[key]) else [])
  }

  lemma InsertLeftStep(deep: bool, t: Tree, key: int, data: Ptr, replace: bool, hasDestructor: bool, allocOk: bool)
    requires t.Node? && Bst(t) && key < t.key
    requires InsertSpec(t.left, key, data, replace, hasDestructor, allocOk, Insert(deep, t.left, key, data, replace, hasDestructor, allocOk))
    ensures InsertSpec(t, key, data, replace, hasDestructor, allocOk, Insert(deep, t, key, data, replace, hasDestructor, allocOk))
  {
    ContentsKeys(t);
    ContentsKeys(t.left);
    ContentsKeys(t.right);
    var r := Insert(deep, t, key, data, replace, hasDestructor, allocOk);
    var c := Insert(deep, t.left, key, data, replace, hasDestructor, allocOk);
    if c.Inserted? {
      ContentsKeys(c.tree);
      var t' := t.(left := c.tree);
      assert Bst(t');
      SameWalk(t', r.tree);
      MapInsertLeft(Contents(t.left), Contents(t.right), t.key, t.data, key, data);
    }
  }

  lemma InsertRightStep(deep: bool, t: Tree, key: int, data: Ptr, replace: bool, hasDestructor: bool, allocOk: bool)
    requires t.Node? && Bst(t) && key > t.key
    requires InsertSpec(t.right, key, data, replace, hasDestructor, allocOk, Insert(deep, t.right, key, data, replace, hasDestructor, allocOk))
    ensures InsertSpec(t, key, data, replace, hasDestructor, allocOk, Insert(deep, t, key, data, replace, hasDestructor, allocOk))
  {
    ContentsKeys(t);
    ContentsKeys(t.left);
    ContentsKeys(t.right);
    var r := Insert(deep, t, key, data, replace, hasDestructor, allocOk);
    var c := Insert(deep, t.right, key, data, replace, hasDestructor, allocOk);
    if c.Inserted? {
      ContentsKeys(c.tree);
      var t' := t.(right := c.tree);
      assert Bst(t');
      SameWalk(t', r.tree);
      MapInsertRight(Contents(t.left), Contents(t.right), t.key, t.data, key, data);
    }
  }

  /** Insertion into a search tree keeps `InsertSpec`. */
  lemma {:induction false} InsertContents(deep: bool, t: Tree, key: int, data: Ptr, replace: bool, hasDestructor: bool, allocOk: bool)
    requires Bst(t)
    ensures InsertSpec(t, key, data, replace, hasDestructor, allocOk, Insert(deep, t, key, data, replace, hasDestructor, allocOk))
  {
    match t
    case Nil =>
    case Node(k, _, d, l, rt) =>
      if key < k {
        InsertContents(deep, l, key, data, replace, hasDestructor, allocOk);
        InsertLeftStep(deep, t, key, data, replace, hasDestructor, allocOk);
      } else if key > k {
        InsertContents(deep, rt, key, data, replace, hasDestructor, allocOk);
        InsertRightStep(deep, t, key, data, replace, hasDestructor, allocOk);
      } else {
        InsertHereStep(deep, t, key, data, replace, hasDestructor, allocOk);
      }
  }

  lemma InsertHereStep(deep: bool, t: Tree, key: int, data: Ptr, replace: bool, hasDestructor: bool, allocOk: bool)
    requires t.Node? && Bst(t) && key == t.key
    ensures InsertSpec(t, key, data, replace, hasDestructor, allocOk, Insert(deep, t, key, data, replace, hasDestructor, allocOk))
  {
    ContentsKeys(t);
    ContentsKeys(t.right);
    assert Contents(t)[key] == t.data;
    if replace {
      var t' := t.(data := data);
      assert Bst(t') && |InOrder(t')| == |InOrder(t)|;
      SameWalk(t', Insert(deep, t, key, data, replace, hasDestructor, allocOk).tree);
      MapReplace(Contents(t.left), Contents(t.right), key, t.data, data);
    }
  }

  lemma MapReplace<K, V>(a: map<K, V>, b: map<K, V>, x: K, v: V, w: V)
    requires x !in b
    ensures a[x := w] + b == (a[x := v] + b)[x := w]
  {
  }

  /**
   * Insertion into an AVL tree gives an AVL tree whose height grew by at
   * most one.
   */
  lemma {:induction false} InsertAvl(deep: bool, t: Tree, key: int, data: Ptr, replace: bool, hasDestructor: bool, allocOk: bool)
    requires Avl(t)
    ensures var r := Insert(deep, t, key, data, replace, hasDestructor, allocOk);
            r.Inserted? ==> Avl(r.tree) && Height(t) <= Height(r.tree) <= Height(t) + 1
  {
    match t
    case Nil =>
    case Node(k, _, d, l, rt) =>
      if key < k {
        InsertAvl(deep, l, key, data, replace, hasDestructor, allocOk);
        var c := Insert(deep, l, key, data, replace, hasDestructor, allocOk);
        if c.Inserted? {
          RebalanceOverAvl(deep, t.(left := c.tree));
          BalanceNodeAvl(t.(left := c.tree));
        }
      } else if key > k {
        InsertAvl(deep, rt, key, data, replace, hasDestructor, allocOk);
        var c := Insert(deep, rt, key, data, replace, hasDestructor, allocOk);
        if c.Inserted? {
          RebalanceOverAvl(deep, t.(right := c.tree));
          BalanceNodeAvl(t.(right := c.tree));
        }
      } else if replace {
        RebalanceOverAvl(deep, t.(data := data));
        BalanceNodeAvl(t.(data := data));
      }
  }

  /** On an AVL tree the avltree.c and btree.c insertions produce the same tree. */
  lemma {:induction false} InsertVariantsAgree(t: Tree, key: int, data: Ptr, replace: bool, hasDestructor: bool, allocOk: bool)
    requires Avl(t)
    ensures Insert(true, t, key, data, replace, hasDestructor, allocOk) == Insert(false, t, key, data, replace, hasDestructor, allocOk)
  {
    match t
    case Nil =>
    case Node(k, _, d, l, rt) =>
      if key < k {
        InsertVariantsAgree(l, key, data, replace, hasDestructor, allocOk);
        InsertAvl(true, l, key, data, replace, hasDestructor, allocOk);
        var c := Insert(true, l, key, data, replace, hasDestructor, allocOk);
        if c.Inserted? {
          RebalanceOverAvl(true, t.(left := c.tree));
        }
      } else if key > k {
        InsertVariantsAgree(rt, key, data, replace, hasDestructor, allocOk);
        InsertAvl(true, rt, key, data, replace, hasDestructor, allocOk);
        var c := Insert(true, rt, key, data, replace, hasDestructor, allocOk);
        if c.Inserted? {
          RebalanceOverAvl(true, t.(right := c.tree));
        }
      } else if replace {
        RebalanceOverAvl(true, t.(data := data));
      }
  }

  // ---------------------------------------------------------------------
  // Deletion and AVL balance
  // ---------------------------------------------------------------------

  /** Unlinking the minimum of an AVL tree gives an AVL tree at most one lower. */
  lemma {:induction false} DelMinAvl(deep: bool, t: Tree)
    requires t.Node? && Avl(t)
    ensures Avl(DelMin(deep, t))
    ensures Height(t) - 1 <= Height(DelMin(deep, t)) <= Height(t)
  {
    if t.left.Node? {
      DelMinAvl(deep, t.left);
      var t' := t.(left := DelMin(deep, t.left));
      RebalanceOverAvl(deep, t');
      BalanceNodeAvl(t');
    }
  }

  /** Deleting the root of an AVL tree gives an AVL tree at most one lower. */
  lemma DeleteNodeAvl(deep: bool, t: Tree)
    requires t.Node? && Avl(t)
    ensures Avl(DeleteNode(deep, t))
    ensures Height(t) - 1 <= Height(DeleteNode(deep, t)) <= Height(t)
  {
    if t.right.Node? {
      DelMinAvl(deep, t.right);
      var m := Min(t.right);
      var m' := m.(left := t.left, right := DelMin(deep, t.right));
      RebalanceOverAvl(true, m');
      BalanceNodeAvl(m');
    }
  }

  /**
   * The slot rewrite leaves stale heights above the deleted node: deleting
   * the only child of a two-node AVL tree leaves a root that still records
   * height 2, so the result is no longer an AVL tree.
   */
  lemma DetachLeavesStaleHeight(deep: bool, x: int, y: int, dx: Ptr, dy: Ptr)
    requires x < y
    ensures var t := Node(y, 2, dy, Node(x, 1, dx, Nil, Nil), Nil);
            && Avl(t)
            && Detach(deep, t, x) == Node(y, 2, dy, Nil, Nil)
            && !HeightsCorrect(Detach(deep, t, x))
            && !Avl(Detach(deep, t, x))
  {
    var leaf := Node(x, 1, dx, Nil, Nil);
    assert Avl(Nil) && Height(Nil) == 0 && Max(0, 0) == 0;
    assert Avl(leaf) && Height(leaf) == 1;
    assert Max(1, 0) == 1 && Max(0, 0) == 0;
    assert Detach(deep, leaf, x) == DeleteNode(deep, leaf) == Nil;
  }

  /**
   * Deletion with every node on the search path rebalanced on the way back
   * up, the usual AVL deletion: the nodes a delete passes through get their
   * heights recomputed and their balance restored.
   */
  function DeleteBalanced(deep: bool, t: Tree, key: int): (r: Tree)
    requires t.Node?
    ensures InOrder(r) == InOrder(Detach(deep, t, key))
  {
    if key < t.key then (if t.left.Node? then BalanceNode(t.(left := DeleteBalanced(deep, t.left, key))) else t)
    else if key > t.key then (if t.right.Node? then BalanceNode(t.(right := DeleteBalanced(deep, t.right, key))) else t)
    else DeleteNode(deep, t)
  }

  /**
   * The rebalancing deletion removes exactly the key from a search tree and
   * keeps an AVL tree an AVL tree, at most one lower.
   */
  lemma {:induction false} DeleteBalancedAvl(deep: bool, t: Tree, key: int)
    requires t.Node? && Avl(t) && Bst(t)
    ensures Bst(DeleteBalanced(deep, t, key))
    ensures Contents(DeleteBalanced(deep, t, key)) == Contents(t) - {key}
    ensures Avl(DeleteBalanced(deep, t, key))
    ensures Height(t) - 1 <= Height(DeleteBalanced(deep, t, key)) <= Height(t)
  {
    DetachContents(deep, t, key);
    SameWalk(Detach(deep, t, key), DeleteBalanced(deep, t, key));
    if key < t.key {
      if t.left.Node? {
        DeleteBalancedAvl(deep, t.left, key);
        BalanceNodeAvl(t.(left := DeleteBalanced(deep, t.left, key)));
      }
    } else if key > t.key {
      if t.right.Node? {
        DeleteBalancedAvl(deep, t.right, key);
        BalanceNodeAvl(t.(right := DeleteBalanced(deep, t.right, key)));
      }
    } else {
      DeleteNodeAvl(deep, t);
    }
  }

  // ---------------------------------------------------------------------
  // Depth and clearing
  // ---------------------------------------------------------------------

  /** `_AVL_depth` / `_BT_depth`: the deepest level below `depth` a path reaches. */
  function Depth(t: Tree, depth: nat): (r: nat)
    ensures r == depth + TrueHeight(t)
  {
    match t
    case Nil => depth
    case Node(_, _, _, l, r) => Max(Depth(l, depth + 1), Depth(r, depth + 1))
  }

  /** In an AVL tree the depth from the root is the stored height of the root. */
  lemma AvlDepthIsHeight(t: Tree)
    requires Avl(t)
    ensures Depth(t, 0) == Height(t)
  {
    AvlHeightsCorrect(t);
    CorrectHeightIsTrue(t);
  }

  /** `_AVL_clear` / `_BT_clear`: the destructor calls of a post-order release. */
  function ClearLog(hasDestructor: bool, t: Tree): (r: seq<Data>)
    ensures |r| <= |InOrder(t)|
    ensures !hasDestructor ==> r == []
  {
    match t
    case Nil => []
    case Node(_, _, d, l, r) => ClearLog(hasDestructor, l) + ClearLog(hasDestructor, r) + Released(hasDestructor, d)
  }

  /** The non-NULL data of a walk, in order. */
  function StoredData(s: seq<Entry>): (r: seq<Data>)
    ensures |r| <= |s|
  {
    if s == [] then []
    else (if s[0].data.Some? then [s[0].data.value] else []) + StoredData(s[1..])
  }

  lemma {:induction false} StoredDataAppend(a: seq<Entry>, b: seq<Entry>)
    ensures StoredData(a + b) == StoredData(a) + StoredData(b)
  {
    if a == [] {
      assert a + b == b;
    } else {
      var h := if a[0].data.Some? then [a[0].data.value] else [];
      assert (a + b)[0] == a[0] && (a + b)[1..] == a[1..] + b;
      StoredDataAppend(a[1..], b);
      assert StoredData(a + b) == h + StoredData(a[1..] + b);
    }
  }

  /**
   * Clearing passes every stored non-NULL data to the destructor exactly
   * once, and nothing when there is no destructor.
   */
  lemma {:induction false} ClearReleasesEachOnce(hasDestructor: bool, t: Tree)
    ensures !hasDestructor ==> ClearLog(hasDestructor, t) == []
    ensures hasDestructor ==> multiset(ClearLog(hasDestructor, t)) == multiset(StoredData(InOrder(t)))
  {
    match t
    case Nil =>
    case Node(k, _, d, l, r) =>
      ClearReleasesEachOnce(hasDestructor, l);
      ClearReleasesEachOnce(hasDestructor, r);
      StoredDataAppend(InOrder(l) + [Entry(k, d)], InOrder(r));
      StoredDataAppend(InOrder(l), [Entry(k, d)]);
      assert StoredData([Entry(k, d)]) == if d.Some? then [d.value] else [];
  }
}
