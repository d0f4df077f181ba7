/**
 * stree.c: a splay tree keyed by C `int`s.  Insert is a plain search-tree
 * insert, search splays the key (or the last node on its path) to the root,
 * and delete releases the splayed root.
 */
module SplayNode {
  import opened Common
  import N = AvlNode

  /** `struct _STNode`; `Nil` is a NULL child. */
  datatype STNode = Nil | Node(key: int, data: Ptr, left: STNode, right: STNode)

  /** `ST_INSERT_IGNORE`: a stored key keeps its data. */
  const InsertIgnore: Flags := 1

  // ---------------------------------------------------------------------
  // Views
  // ---------------------------------------------------------------------

  /** `_ST_walk`: left subtree, node, right subtree. */
  function InOrder(t: STNode): seq<N.Entry>
  {
    match t
    case Nil => []
    case Node(k, d, l, r) => InOrder(l) + [N.Entry(k, d)] + InOrder(r)
  }

  function Keys(t: STNode): (r: set<int>)
    ensures r == {} <==> t.Nil?
  {
    match t
    case Nil => {}
    case Node(k, _, l, r) => Keys(l) + {k} + Keys(r)
  }

  function Contents(t: STNode): map<int, Ptr>
  {
    match t
    case Nil => map[]
    case Node(k, d, l, r) => Contents(l)[k := d] + Contents(r)
  }

  predicate Bst(t: STNode)
  {
    match t
    case Nil => true
    case Node(k, _, l, r) =>
      Bst(l) && Bst(r) && (forall x :: x in Keys(l) ==> x < k) && (forall x :: x in Keys(r) ==> k < x)
  }

  lemma {:induction false} ContentsIsWalk(t: STNode)
    ensures Contents(t) == N.ToMap(InOrder(t))
  {
    match t
    case Nil =>
    case Node(k, d, l, r) =>
      ContentsIsWalk(l);
      ContentsIsWalk(r);
      N.ToMapAppend(InOrder(l) + [N.Entry(k, d)], InOrder(r));
      N.ToMapAppend(InOrder(l), [N.Entry(k, d)]);
      assert N.ToMap([N.Entry(k, d)]) == map[k := d];
  }

  lemma {:induction false} ContentsKeys(t: STNode)
    ensures Contents(t).Keys == Keys(t)
  {
    match t
    case Nil =>
    case Node(_, _, l, r) =>
      ContentsKeys(l);
      ContentsKeys(r);
  }

  lemma {:induction false} KeysAreWalkKeys(t: STNode)
    ensures forall i :: 0 <= i < |InOrder(t)| ==> InOrder(t)[i].key in Keys(t)
    ensures forall x :: x in Keys(t) ==> exists i :: 0 <= i < |InOrder(t)| && InOrder(t)[i].key == x
  {
    WalkKeysStored(t);
    forall x | x in Keys(t)
      ensures exists i :: 0 <= i < |InOrder(t)| && InOrder(t)[i].key == x
    {
      var i := WalkIndex(t, x);
    }
  }

  /** Every key the walk visits is stored in the tree. */
  lemma {:induction false} WalkKeysStored(t: STNode)
    ensures forall i :: 0 <= i < |InOrder(t)| ==> InOrder(t)[i].key in Keys(t)
  {
    match t
    case Nil =>
    case Node(k, d, l, r) =>
      WalkKeysStored(l);
      WalkKeysStored(r);
      var s := InOrder(t);
      var nl := |InOrder(l)|;
      assert s == InOrder(l) + [N.Entry(k, d)] + InOrder(r);
      forall i | 0 <= i < |s|
        ensures s[i].key in Keys(t)
      {
        if i < nl {
          assert s[i] == InOrder(l)[i];
        } else if nl < i {
          assert s[i] == InOrder(r)[i - nl - 1];
        }
      }
  }

  /** The position in the in-order walk at which a stored key is visited. */
  function WalkIndex(t: STNode, x: int): (i: nat)
    requires x in Keys(t)
    ensures i < |InOrder(t)| && InOrder(t)[i].key == x
  {
    match t
    case Node(k, d, l, r) =>
      if x in Keys(l) then
        var i := WalkIndex(l, x);
        assert InOrder(t)[i] == InOrder(l)[i];
        i
      else if x == k then
        assert InOrder(t)[|InOrder(l)|] == N.Entry(k, d);
        |InOrder(l)|
      else
        var i := WalkIndex(r, x);
        assert InOrder(t)[|InOrder(l)| + 1 + i] == InOrder(r)[i];
        |InOrder(l)| + 1 + i
  }

  /** The walk of a splay tree visits keys in strictly increasing order exactly when it is a search tree. */
  lemma {:induction false} BstIffAscending(t: STNode)
    ensures Bst(t) <==> N.Ascending(InOrder(t))
  {
    match t
    case Nil =>
    case Node(k, d, l, r) =>
      BstIffAscending(l);
      BstIffAscending(r);
      KeysAreWalkKeys(l);
      KeysAreWalkKeys(r);
      N.AscendingSplit(InOrder(l), N.Entry(k, d), InOrder(r));
  }

  /** Rewiring that keeps the walk keeps the order, the keys and the contents. */
  lemma SameWalk(a: STNode, b: STNode)
    requires InOrder(a) == InOrder(b)
    ensures Bst(a) <==> Bst(b)
    ensures Contents(a) == Contents(b)
    ensures Keys(a) == Keys(b)
  {
    BstIffAscending(a);
    BstIffAscending(b);
    ContentsIsWalk(a);
    ContentsIsWalk(b);
    ContentsKeys(a);
    ContentsKeys(b);
  }

  // ---------------------------------------------------------------------
  // Rotations and splaying
  // ---------------------------------------------------------------------

  /** `_rotr`: the left child becomes the root. */
  function RotateRight(x: STNode): (r: STNode)
    requires x.Node? && x.left.Node?
    ensures r.Node? && InOrder(r) == InOrder(x)
    ensures r.key == x.left.key && r.left == x.left.left
    ensures r.right == Node(x.key, x.data, x.left.right, x.right)
  {
    var y := x.left;
    y.(right := x.(left := y.right))
  }

  /** `_rotl`: the right child becomes the root. */
  function RotateLeft(x: STNode): (r: STNode)
    requires x.Node? && x.right.Node?
    ensures r.Node? && InOrder(r) == InOrder(x)
    ensures r.key == x.right.key && r.right == x.right.right
    ensures r.left == Node(x.key, x.data, x.left, x.right.left)
  {
    var y := x.right;
    y.(left := x.(right := y.left))
  }

  /**
   * `_ST_search`: the top-down-described, bottom-up splay.  Every return of
   * the C function hands back the slot it was given, so the assignments
   * through `workhorse` store a subtree into its own slot; what remains is
   * the zig-zig, zig-zag and zig steps below.
   */
  function Splay(t: STNode, key: int): (r: STNode)
    ensures InOrder(r) == InOrder(t)
    ensures r.Nil? <==> t.Nil?
    decreases t, 1
  {
    if t.Nil? || t.key == key then t
    else if t.key > key then
      if t.left.Nil? then t
      else
        var n := SplayLeftGrandchild(t, key);
        if n.left.Nil? then n else RotateRight(n)
    else
      if t.right.Nil? then t
      else
        var n := SplayRightGrandchild(t, key);
        if n.right.Nil? then n else RotateLeft(n)
  }

  /**
   * The zig-zig or zig-zag half of a splay step towards a key left of the
   * root: the grandchild on the key's side is splayed and rotated up into
   * the left child's place.
   */
  function SplayLeftGrandchild(t: STNode, key: int): (n: STNode)
    requires t.Node? && t.left.Node?
    ensures n.Node? && InOrder(n) == InOrder(t)
    decreases t, 0
  {
    var c := t.left;
    if c.key > key then
      var s := Splay(c.left, key);
      assert InOrder(c.(left := s)) == InOrder(c);
      RotateRight(t.(left := c.(left := s)))
    else if c.key < key then
      var s := Splay(c.right, key);
      var l := c.(right := s);
      assert InOrder(l) == InOrder(c);
      t.(left := if s.Node? then RotateLeft(l) else l)
    else t
  }

  /** The mirror image of `SplayLeftGrandchild`, for a key right of the root. */
  function SplayRightGrandchild(t: STNode, key: int): (n: STNode)
    requires t.Node? && t.right.Node?
    ensures n.Node? && InOrder(n) == InOrder(t)
    decreases t, 0
  {
    var c := t.right;
    if c.key > key then
      var s := Splay(c.left, key);
      var r := c.(left := s);
      assert InOrder(r) == InOrder(c);
      t.(right := if s.Node? then RotateRight(r) else r)
    else if c.key < key then
      var s := Splay(c.right, key);
      assert InOrder(c.(right := s)) == InOrder(c);
      RotateLeft(t.(right := c.(right := s)))
    else t
  }

  /**
   * Splaying a search tree for a stored key brings that key to the root;
   * for a missing key the root holds another key.  The order and contents
   * never change.
   */
  lemma {:induction false} SplayBringsKeyToRoot(t: STNode, key: int)
    requires Bst(t)
    ensures Bst(Splay(t, key)) && Contents(Splay(t, key)) == Contents(t)
    ensures key in Keys(t) <==> Splay(t, key).Node? && Splay(t, key).key == key
  {
    var r := Splay(t, key);
    SameWalk(t, r);
    if t.Node? && t.key != key && key in Keys(t) {
      if t.key > key {
        var c := t.left;
        assert key in Keys(c);
        if c.key > key {
          assert key in Keys(c.left);
          SplayBringsKeyToRoot(c.left, key);
          assert SplayLeftGrandchild(t, key).left == Splay(c.left, key);
        } else if c.key < key {
          assert key in Keys(c.right);
          SplayBringsKeyToRoot(c.right, key);
          assert SplayLeftGrandchild(t, key).left.key == key;
        }
      } else {
        var c := t.right;
        assert key in Keys(c);
        if c.key > key {
          assert key in Keys(c.left);
          SplayBringsKeyToRoot(c.left, key);
          assert SplayRightGrandchild(t, key).right.key == key;
        } else if c.key < key {
          assert key in Keys(c.right);
          SplayBringsKeyToRoot(c.right, key);
          assert SplayRightGrandchild(t, key).right == Splay(c.right, key);
        }
      }
    }
  }

  // ---------------------------------------------------------------------
  // Insertion
  // ---------------------------------------------------------------------

  /**
   * The outcome of `_ST_insert`: the tree, the node inserted or updated, and
   * what went to the destructor; or NULL.
   */
  datatype Insertion =
    | Placed(tree: STNode, node: STNode, added: bool, released: seq<Data>)
    | Refused

  /**
   * `_ST_insert`: walk down to the key's slot without splaying; a NULL slot
   * gets a fresh leaf if the allocation succeeds; a stored key gets the new
   * data (the old data to the destructor) unless `ST_INSERT_IGNORE` is set.
   */
  function Insert(t: STNode, key: int, data: Ptr, ignore: bool, hasDestructor: bool, allocOk: bool): (r: Insertion)
    ensures r.Placed? ==> r.node.Node? && r.node.key == key && r.node.data == data
    ensures r.Placed? && t.Node? ==> r.tree.Node? && r.tree.key == t.key
  {
    match t
    case Nil =>
      if allocOk then
        var n := Node(key, data, Nil, Nil);
        Placed(n, n, true, [])
      else Refused
    case Node(k, d, l, rt) =>
      if key < k then
        match Insert(l, key, data, ignore, hasDestructor, allocOk)
        case Refused => Refused
        case Placed(l', n, a, rel) => Placed(t.(left := l'), n, a, rel)
      else if key > k then
        match Insert(rt, key, data, ignore, hasDestructor, allocOk)
        case Refused => Refused
        case Placed(r', n, a, rel) => Placed(t.(right := r'), n, a, rel)
      else if !ignore then
        var n := t.(data := data);
        Placed(n, n, false, Released(hasDestructor, d))
      else
        Refused
  }

  /**
   * What an insertion into a search tree promises: it is refused exactly
   * when the key is stored and `ST_INSERT_IGNORE` is set, or the key is new
   * and the allocation fails.  Otherwise the key maps to the new data and
   * every other key is kept; a new key is a leaf, a stored key's old data
   * goes to the destructor.
   */
  predicate InsertSpec(t: STNode, key: int, data: Ptr, ignore: bool, hasDestructor: bool, allocOk: bool, r: Insertion)
  {
    && (r.Refused? <==> if key in Keys(t) then ignore else !allocOk)
    && (r.Placed? ==>
          && Bst(r.tree)
          && Contents(r.tree) == Contents(t)[key := data]
          && r.added == (key !in Keys(t))
          && (r.added ==> r.node == Node(key, data, Nil, Nil))
          && |InOrder(r.tree)| == |InOrder(t)| + (if r.added then 1 else 0)
          && r.released == if key in Contents(t) then Released(hasDestructor, Contents(t)[key]) else [])
  }

  lemma InsertLeftStep(t: STNode, key: int, data: Ptr, ignore: bool, hasDestructor: bool, allocOk: bool)
    requires t.Node? && Bst(t) && key < t.key
    requires InsertSpec(t.left, key, data, ignore, hasDestructor, allocOk, Insert(t.left, key, data, ignore, hasDestructor, allocOk))
    ensures InsertSpec(t, key, data, ignore, hasDestructor, allocOk, Insert(t, key, data, ignore, hasDestructor, allocOk))
  {
    ContentsKeys(t);
    ContentsKeys(t.left);
    ContentsKeys(t.right);
    var c := Insert(t.left, key, data, ignore, hasDestructor, allocOk);
    if c.Placed? {
      ContentsKeys(c.tree);
      assert Bst(t.(left := c.tree));
      N.MapInsertLeft(Contents(t.left), Contents(t.right), t.key, t.data, key, data);
    }
  }

  lemma InsertRightStep(t: STNode, key: int, data: Ptr, ignore: bool, hasDestructor: bool, allocOk: bool)
    requires t.Node? && Bst(t) && key > t.key
    requires InsertSpec(t.right, key, data, ignore, hasDestructor, allocOk, Insert(t.right, key, data, ignore, hasDestructor, allocOk))
    ensures InsertSpec(t, key, data, ignore, hasDestructor, allocOk, Insert(t, key, data, ignore, hasDestructor, allocOk))
  {
    ContentsKeys(t);
    ContentsKeys(t.left);
    ContentsKeys(t.right);
    var c := Insert(t.right, key, data, ignore, hasDestructor, allocOk);
    if c.Placed? {
      ContentsKeys(c.tree);
      assert Bst(t.(right := c.tree));
      N.MapInsertRight(Contents(t.left), Contents(t.right), t.key, t.data, key, data);
    }
  }

  lemma InsertHereStep(t: STNode, key: int, data: Ptr, ignore: bool, hasDestructor: bool, allocOk: bool)
    requires t.Node? && Bst(t) && key == t.key
    ensures InsertSpec(t, key, data, ignore, hasDestructor, allocOk, Insert(t, key, data, ignore, hasDestructor, allocOk))
  {
    ContentsKeys(t);
    ContentsKeys(t.left);
    ContentsKeys(t.right);
    N.MapReplace(Contents(t.left), Contents(t.right), key, t.data, data);
  }

  /** Insertion into a search tree keeps `InsertSpec`. */
  lemma {:induction false} InsertContents(t: STNode, key: int, data: Ptr, ignore: bool, hasDestructor: bool, allocOk: bool)
    requires Bst(t)
    ensures InsertSpec(t, key, data, ignore, hasDestructor, allocOk, Insert(t, key, data, ignore, hasDestructor, allocOk))
  {
    match t
    case Nil =>
    case Node(k, _, l, rt) =>
      if key < k {
        InsertContents(l, key, data, ignore, hasDestructor, allocOk);
        InsertLeftStep(t, key, data, ignore, hasDestructor, allocOk);
      } else if key > k {
        InsertContents(rt, key, data, ignore, hasDestructor, allocOk);
        InsertRightStep(t, key, data, ignore, hasDestructor, allocOk);
      } else {
        InsertHereStep(t, key, data, ignore, hasDestructor, allocOk);
      }
  }

  // ---------------------------------------------------------------------
  // Deletion
  // ---------------------------------------------------------------------

  /**
   * `ST_delete` on a non-empty tree as written: splay, then release the
   * node left in the head slot (its data to the destructor) and store NULL
   * in that slot.  Whatever key was splayed up, every other node is
   * unlinked with it.  The answer is the new head and the data released.
   */
  function DeleteAsWritten(t: STNode, key: int, hasDestructor: bool): (r: (STNode, seq<Data>))
    requires t.Node?
    ensures r.0.Nil?
    ensures Bst(t) && key in Contents(t) ==> r.1 == Released(hasDestructor, Contents(t)[key])
  {
    SplayRootData(t, key);
    (Nil, Released(hasDestructor, Splay(t, key).data))
  }

  /** After splaying a search tree for a stored key, the root holds that key's data. */
  lemma SplayRootData(t: STNode, key: int)
    ensures Bst(t) && key in Contents(t) ==> Splay(t, key).Node? && Splay(t, key).data == Contents(t)[key]
  {
    ContentsKeys(t);
    if Bst(t) && key in Keys(t) {
      var s := Splay(t, key);
      SplayBringsKeyToRoot(t, key);
      ContentsKeys(s.left);
      ContentsKeys(s.right);
    }
  }

  /**
   * Deleting 2 from the tree that inserting 1 and then 2 builds leaves an
   * empty tree, losing key 1; deleting the missing key 3 loses both.
   */
  lemma DeleteAsWrittenLosesKeys(d: Ptr, hasDestructor: bool)
    ensures var t := Node(1, d, Nil, Node(2, d, Nil, Nil));
            && Bst(t)
            && Contents(t) - {2} == map[1 := d]
            && Contents(DeleteAsWritten(t, 2, hasDestructor).0) != Contents(t) - {2}
            && Contents(DeleteAsWritten(t, 3, hasDestructor).0) != Contents(t) - {3}
  {
    var t := Node(1, d, Nil, Node(2, d, Nil, Nil));
    assert 1 in Contents(t) - {2};
    assert 1 in Contents(t) - {3};
  }

  /** The largest key of a non-empty tree: the end of its right spine. */
  function MaxKey(t: STNode): (m: int)
    requires t.Node?
    ensures m in Keys(t)
    ensures Bst(t) ==> forall x :: x in Keys(t) ==> x <= m
  {
    if t.right.Nil? then t.key else MaxKey(t.right)
  }

  /**
   * Joins two trees by splaying the left tree's maximum to its root and
   * hanging the right tree there.
   */
  function Join(l: STNode, r: STNode): (j: STNode)
    ensures l.Nil? ==> j == r
    ensures l.Node? ==> j.Node? && j.right == r
  {
    if l.Nil? then r
    else
      var s := Splay(l, MaxKey(l));
      assert s.Node?;
      s.(right := r)
  }

  /**
   * Joining two search trees whose keys are all ordered left before right
   * gives a search tree holding both: the splayed maximum has no right
   * child, so nothing is dropped.
   */
  lemma JoinContents(l: STNode, r: STNode)
    requires Bst(l) && Bst(r)
    requires forall x, y :: x in Keys(l) && y in Keys(r) ==> x < y
    ensures Bst(Join(l, r)) && Contents(Join(l, r)) == Contents(l) + Contents(r)
    ensures |InOrder(Join(l, r))| == |InOrder(l)| + |InOrder(r)|
  {
    if l.Node? {
      var m := MaxKey(l);
      var s := Splay(l, m);
      SplayBringsKeyToRoot(l, m);
      SameWalk(l, s);
      assert s.right.Nil? by {
        assert forall x :: x in Keys(s.right) ==> x in Keys(s) && m < x;
      }
      JoinAtMax(s, r);
    }
  }

  /** Hanging a tree of larger keys as the right child of a root without one. */
  lemma JoinAtMax(s: STNode, r: STNode)
    requires Bst(s) && s.Node? && s.right.Nil? && Bst(r)
    requires forall y :: y in Keys(r) ==> s.key < y
    ensures Bst(s.(right := r)) && Contents(s.(right := r)) == Contents(s) + Contents(r)
    ensures |InOrder(s.(right := r))| == |InOrder(s)| + |InOrder(r)|
  {
  }

  /**
   * The delete `ST_delete` evidently intends: splay the key to the root; if
   * it is there, release its data and join the two subtrees; otherwise
   * leave the (splayed) tree as it is.
   */
  function DeleteJoined(t: STNode, key: int, hasDestructor: bool): (r: (STNode, seq<Data>))
    ensures |r.1| <= 1 && (!hasDestructor ==> r.1 == [])
    ensures t.Nil? ==> r.0.Nil?
  {
    if t.Nil? then (t, [])
    else
      var s := Splay(t, key);
      if s.key != key then (s, [])
      else (Join(s.left, s.right), Released(hasDestructor, s.data))
  }

  /**
   * The intended delete removes exactly the key, keeps every other entry and
   * the search-tree order, and releases the deleted data and nothing else.
   */
  lemma DeleteJoinedContents(t: STNode, key: int, hasDestructor: bool)
    requires Bst(t)
    ensures DeleteJoinedSpec(t, key, hasDestructor, DeleteJoined(t, key, hasDestructor))
  {
    if t.Node? {
      if Splay(t, key).key == key {
        DeleteJoinedFound(t, key, hasDestructor);
      } else {
        DeleteJoinedMissing(t, key, hasDestructor);
      }
    }
  }

  /**
   * What deleting a key from a search tree should achieve: a search tree
   * without that key and with every other entry, one node fewer when the
   * key was stored, and the deleted data released.
   */
  predicate DeleteJoinedSpec(t: STNode, key: int, hasDestructor: bool, d: (STNode, seq<Data>))
  {
    && Bst(d.0)
    && Contents(d.0) == Contents(t) - {key}
    && |InOrder(d.0)| == |InOrder(t)| - (if key in Contents(t) then 1 else 0)
    && d.1 == if key in Contents(t) then Released(hasDestructor, Contents(t)[key]) else []
  }

  lemma DeleteJoinedFound(t: STNode, key: int, hasDestructor: bool)
    requires Bst(t) && t.Node? && Splay(t, key).key == key
    ensures DeleteJoinedSpec(t, key, hasDestructor, DeleteJoined(t, key, hasDestructor))
  {
    var s := Splay(t, key);
    SplayBringsKeyToRoot(t, key);
    SplayRootData(t, key);
    ContentsKeys(t);
    JoinAtRoot(s);
  }

  lemma DeleteJoinedMissing(t: STNode, key: int, hasDestructor: bool)
    requires Bst(t) && t.Node? && Splay(t, key).key != key
    ensures DeleteJoinedSpec(t, key, hasDestructor, DeleteJoined(t, key, hasDestructor))
  {
    var s := Splay(t, key);
    SplayBringsKeyToRoot(t, key);
    ContentsKeys(t);
    assert key !in Contents(t);
    assert Contents(t) - {key} == Contents(t);
  }

  /** Joining the subtrees of a search tree's root removes exactly the root's key. */
  lemma JoinAtRoot(s: STNode)
    requires Bst(s) && s.Node?
    ensures Bst(Join(s.left, s.right))
    ensures Contents(Join(s.left, s.right)) == Contents(s) - {s.key}
    ensures |InOrder(Join(s.left, s.right))| == |InOrder(s)| - 1
  {
    ContentsKeys(s.left);
    ContentsKeys(s.right);
    JoinContents(s.left, s.right);
    N.MapWithout(Contents(s.left), Contents(s.right), s.key, s.data);
  }

  /** The walk visits every node once, so `_ST_clear` releases the stored data in post-order. */
  function ClearLog(hasDestructor: bool, t: STNode): seq<Data>
  {
    match t
    case Nil => []
    case Node(_, d, l, r) => ClearLog(hasDestructor, l) + ClearLog(hasDestructor, r) + Released(hasDestructor, d)
  }

  /** The number of levels of a tree: 0 for an empty one. */
  function Levels(t: STNode): nat
  {
    match t
    case Nil => 0
    case Node(_, _, l, r) => 1 + Max(Levels(l), Levels(r))
  }

  /** `_ST_depth`: the depth argument plus the number of levels below it. */
  function Depth(t: STNode, depth: nat): (r: nat)
    ensures r == depth + Levels(t)
  {
    match t
    case Nil => depth
    case Node(_, _, l, r) => Max(Depth(l, depth + 1), Depth(r, depth + 1))
  }
}

/** stree.c's tree object: the node count, the flags and the destructor around a splay tree. */
module SplayTree {
  import opened Common
  import N = AvlNode
  import S = SplayNode

  /** `struct _STree`. */
  class STree {
    const flags: Flags
    const hasDestructor: bool
    var nodes: nat
    var head: S.STNode
    /** Every value passed to the destructor, in call order. */
    ghost var destroyed: seq<Data>

    /**
     * The nodes form a search tree and `nodes` is at least their number:
     * `ST_delete` counts one node down but unlinks the rest of the tree.
     */
    ghost predicate Valid()
      reads this
    {
      S.Bst(head) && |S.InOrder(head)| <= nodes
    }

    ghost function Contents(): map<int, Ptr>
      reads this
    {
      S.Contents(head)
    }

    /** The zero-filled tree `ST_create` allocates; only a given destructor is used. */
    constructor (flags: Flags, destructor: bool)
      ensures Valid() && Contents() == map[]
      ensures this.flags == flags && hasDestructor == destructor
      ensures head == S.Nil && nodes == 0 && destroyed == []
    {
      this.flags := flags;
      hasDestructor := destructor;
      nodes := 0;
      head := S.Nil;
      destroyed := [];
    }

    /**
     * `ST_insert`: NULL when the key is stored and `ST_INSERT_IGNORE` is set,
     * or the key is new and no node can be allocated, and nothing changes;
     * otherwise the node now holding the key and data, with `nodes` grown
     * for a new key and the old data released for a stored one.  The tree
     * is not splayed.
     */
    method Insert(key: int, data: Ptr, allocOk: bool) returns (r: Option<S.STNode>)
      requires Valid()
      modifies this`head, this`nodes, this`destroyed
      ensures Valid()
      ensures r.None? <==> if key in old(Contents()) then Has(flags, S.InsertIgnore) else !allocOk
      ensures r.None? ==> head == old(head) && nodes == old(nodes) && destroyed == old(destroyed)
      ensures r.Some? ==> r.value.Node? && r.value.key == key && r.value.data == data
      ensures r.Some? ==> Contents() == old(Contents())[key := data]
      ensures r.Some? ==> nodes == old(nodes) + (if key in old(Contents()) then 0 else 1)
      ensures r.Some? ==> destroyed == old(destroyed) + (if key in old(Contents()) then Released(hasDestructor, old(Contents())[key]) else [])
      ensures r.Some? && old(head).Node? ==> head.Node? && head.key == old(head).key
    {
      S.ContentsKeys(head);
      var res := S.Insert(head, key, data, Has(flags, S.InsertIgnore), hasDestructor, allocOk);
      S.InsertContents(head, key, data, Has(flags, S.InsertIgnore), hasDestructor, allocOk);
      match res
      case Refused =>
        r := None;
      case Placed(t, n, added, released) =>
        destroyed := destroyed + released;
        if !added {
          nodes := nodes - 1;
        }
        nodes := nodes + 1;
        head := t;
        r := Some(n);
    }

    /**
     * `ST_search`: the tree is splayed for the key and the new root is the
     * answer: the key's node when it is stored, another node otherwise, NULL
     * for an empty tree.  The contents do not change.
     */
    method Search(key: int) returns (r: Option<S.STNode>)
      requires Valid()
      modifies this`head
      ensures Valid() && Contents() == old(Contents())
      ensures S.InOrder(head) == S.InOrder(old(head))
      ensures r.None? <==> head.Nil?
      ensures r.Some? ==> r.value == head && (head.key == key <==> key in Contents())
      ensures key in Contents() ==> r.Some? && r.value.data == Contents()[key]
    {
      if head.Nil? {
        return None;
      }
      S.SplayBringsKeyToRoot(head, key);
      S.SplayRootData(head, key);
      S.ContentsKeys(head);
      head := S.Splay(head, key);
      r := Some(head);
    }

    /**
     * `ST_delete` as written: a non-empty tree is splayed, the node then at
     * the root is released (its data to the destructor), the head becomes
     * NULL, `nodes` drops by one and the answer is 1; an empty tree answers 0.
     */
    method Delete(key: int) returns (rc: int)
      requires Valid()
      modifies this`head, this`nodes, this`destroyed
      ensures Valid()
      ensures rc == (if old(head).Nil? then 0 else 1)
      ensures head == S.Nil && nodes == old(nodes) - rc
      ensures rc == 1 ==> destroyed == old(destroyed) + S.DeleteAsWritten(old(head), key, hasDestructor).1
      ensures rc == 0 ==> destroyed == old(destroyed)
      ensures key in old(Contents()) ==> destroyed == old(destroyed) + Released(hasDestructor, old(Contents())[key])
    {
      S.ContentsKeys(head);
      if head.Nil? {
        return 0;
      }
      var (h, released) := S.DeleteAsWritten(head, key, hasDestructor);
      destroyed := destroyed + released;
      head := h;
      nodes := nodes - 1;
      rc := 1;
    }

    /**
     * `ST_clear`: every linked node is released in post-order, each counted
     * down from `nodes`, and the head is NULL.
     */
    method Clear()
      requires Valid()
      modifies this`head, this`nodes, this`destroyed
      ensures Valid() && head == S.Nil
      ensures nodes == old(nodes) - |S.InOrder(old(head))|
      ensures destroyed == old(destroyed) + S.ClearLog(hasDestructor, old(head))
    {
      destroyed := destroyed + S.ClearLog(hasDestructor, head);
      nodes := nodes - |S.InOrder(head)|;
      head := S.Nil;
    }

    /** `ST_walk`: the visits of an in-order walk, in strictly increasing key order. */
    function Walk(): (r: seq<N.Entry>)
      reads this
      requires Valid()
      ensures N.Ascending(r) && |r| <= nodes
      ensures N.ToMap(r) == Contents()
    {
      S.BstIffAscending(head);
      S.ContentsIsWalk(head);
      S.InOrder(head)
    }

    /** `ST_depth`: 0 for an empty tree, else the number of levels. */
    function Depth(): (r: nat)
      reads this
      ensures r == 0 <==> head.Nil?
      ensures r == S.Levels(head)
    {
      S.Depth(head, 0)
    }
  }

  /** `ST_create`: NULL when the allocation fails, otherwise an empty tree. */
  method Create(flags: Flags, destructor: bool, allocOk: bool) returns (t: STree?)
    ensures allocOk <==> t != null
    ensures t != null ==> fresh(t) && t.Valid() && t.head == S.Nil && t.nodes == 0
    ensures t != null ==> t.flags == flags && t.hasDestructor == destructor && t.destroyed == []
  {
    if !allocOk {
      return null;
    }
    t := new STree(flags, destructor);
  }
}
