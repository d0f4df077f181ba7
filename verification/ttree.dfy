/**
 * ttree.c, the tree object: `struct _TernaryTree` with its flags,
 * destructor, `keys` and `nodes` counters and head node, and the operations
 * on it.  The head node has no splitter; the stored strings hang from its
 * `mid`, which is kept here as `root`.
 */
module TernaryTree {
  import opened Common
  import opened TernaryNode
  import opened TernaryWalk
  import N = AvlNode

  /** The head node `TT_create` allocates with `splitter` 0, with the tree's root as `mid`. */
  function HeadNode(root: TNode): (r: TNode)
    ensures Blank(r) && r.mid == root && r.left.Nil? && r.right.Nil?
  {
    Node(0, None, None, 0, Nil, root, Nil)
  }

  /** The loop of `_TT_search`, from `node`: the keyed node the string leads to, or NULL. */
  method SearchFrom(node: TNode, s: seq<Char>, flags: Flags) returns (r: TNode)
    ensures r == Found(node, s, flags)
    ensures r.Nil? || Keyed(r)
  {
    var ptr := node;
    var i := 0;
    while i < |s| && !Stops(ptr, false)
      invariant 0 <= i <= |s|
      invariant Reach(ptr, s, i, flags, false) == Reach(node, s, 0, flags, false)
      decreases |s| - i, ptr
    {
      var c := Fold(flags, s[i]);
      if c < ptr.splitter {
        ptr := ptr.left;
      } else if c > ptr.splitter {
        ptr := ptr.right;
      } else {
        i := i + 1;
        if i < |s| {
          ptr := ptr.mid;
        }
      }
    }
    r := if Keyed(ptr) then ptr else Nil;
  }

  /**
   * `__TT_lookup`: the same loop, stopping only at NULL or at a node
   * without splitter; the node where the prefix ends, or where it stopped.
   */
  method LookupFrom(node: TNode, s: seq<Char>, flags: Flags) returns (r: TNode)
    ensures r == Reach(node, s, 0, flags, true)
  {
    var ptr := node;
    var i := 0;
    while i < |s| && !Stops(ptr, true)
      invariant 0 <= i <= |s|
      invariant Reach(ptr, s, i, flags, true) == Reach(node, s, 0, flags, true)
      decreases |s| - i, ptr
    {
      var c := Fold(flags, s[i]);
      if c < ptr.splitter {
        ptr := ptr.left;
      } else if c > ptr.splitter {
        ptr := ptr.right;
      } else {
        i := i + 1;
        if i < |s| {
          ptr := ptr.mid;
        }
      }
    }
    r := ptr;
  }

  /** The entry `_TT_data` copies for a keyed node. */
  function Entry(n: TNode): (e: TTData)
    ensures n.Node? ==> e.key == n.key && e.data == n.data
  {
    if n.Nil? then TTData(None, None) else TTData(n.key, n.data)
  }

  /** The value `_TS_data` copies for a keyed node: its key. */
  function KeyOf(n: TNode): (k: Option<seq<Char>>)
    ensures n.Node? ==> k == n.key
  {
    if n.Nil? then None else n.key
  }

  /** Every keyed node the ascending walk meets carries a non-empty C string. */
  lemma {:induction false} WellKeyedAsc(t: TNode)
    requires WellKeyed(t)
    ensures forall n :: n in KeyedNodes(Asc(t)) ==> |n.key.value| > 0 && CString(n.key.value)
  {
    if t.Node? {
      WellKeyedAsc(t.left);
      WellKeyedAsc(t.mid);
      WellKeyedAsc(t.right);
      KeyedNodesAppend(Asc(t.left) + [t] + Asc(t.mid), Asc(t.right));
      KeyedNodesAppend(Asc(t.left) + [t], Asc(t.mid));
      KeyedNodesAppend(Asc(t.left), [t]);
      assert [t][..0] == [];
    }
  }

  /** Sorted texts of keyed nodes: their folded keys strictly increase. */
  lemma KeyedSorted(visits: seq<TNode>, flags: Flags)
    requires Sorted(Texts(KeyedNodes(visits), flags))
    ensures var ks := KeyedNodes(visits);
            forall i, j :: 0 <= i < j < |ks| ==> Less(FoldAll(flags, ks[i].key.value), FoldAll(flags, ks[j].key.value))
  {
    var ks := KeyedNodes(visits);
    forall i, j | 0 <= i < j < |ks|
      ensures Less(FoldAll(flags, ks[i].key.value), FoldAll(flags, ks[j].key.value))
    {
      assert Texts(ks, flags)[i] == FoldAll(flags, ks[i].key.value);
      assert Texts(ks, flags)[j] == FoldAll(flags, ks[j].key.value);
    }
  }

  /** A text strictly longer than `p` that starts with `p`. */
  predicate StrictlyExtends(x: seq<Char>, p: seq<Char>)
  {
    |x| > |p| && x[..|p|] == p
  }

  /**
   * The keyed nodes `_TT_lookup` and `_TS_lookup` copy, those of the `mid`
   * of the node where the prefix ends, hold non-empty C strings; when every
   * key lies on its own path, each folded key strictly extends the folded
   * prefix, and they come in strictly increasing order.
   */
  lemma LookupKeys(t: TNode, prefix: seq<Char>, flags: Flags)
    requires Ordered(t) && WellKeyed(t) && |prefix| > 0
    requires Reach(t, prefix, 0, flags, true).Node? && Reach(t, prefix, 0, flags, true).mid.Node?
    ensures var ks := KeyedNodes(Asc(Reach(t, prefix, 0, flags, true).mid));
            forall k :: 0 <= k < |ks| ==> |ks[k].key.value| > 0 && CString(ks[k].key.value)
    ensures var ks := KeyedNodes(Asc(Reach(t, prefix, 0, flags, true).mid));
            KeysMatch(t, [], flags) ==>
              forall k :: 0 <= k < |ks| ==> StrictlyExtends(FoldAll(flags, ks[k].key.value), FoldAll(flags, prefix))
    ensures var ks := KeyedNodes(Asc(Reach(t, prefix, 0, flags, true).mid));
            KeysMatch(t, [], flags) ==>
              forall i, j :: 0 <= i < j < |ks| ==> Less(FoldAll(flags, ks[i].key.value), FoldAll(flags, ks[j].key.value))
  {
    var node := Reach(t, prefix, 0, flags, true);
    var ks := KeyedNodes(Asc(node.mid));
    WellKeyedReach(t, prefix, 0, flags, true);
    WellKeyedAsc(node.mid);
    forall k | 0 <= k < |ks|
      ensures |ks[k].key.value| > 0 && CString(ks[k].key.value)
    {
      assert ks[k] in ks;
    }
    if KeysMatch(t, [], flags) {
      assert prefix[..0] == [];
      LookupReach(t, prefix, 0, flags);
      AscSorted(node.mid, FoldAll(flags, prefix), flags);
      KeyedSorted(Asc(node.mid), flags);
      AscShape(node.mid, FoldAll(flags, prefix), flags);
      forall k | 0 <= k < |ks|
        ensures StrictlyExtends(FoldAll(flags, ks[k].key.value), FoldAll(flags, prefix))
      {
        assert Texts(ks, flags)[k] == FoldAll(flags, ks[k].key.value);
        assert Texts(ks, flags)[k] in Texts(ks, flags);
      }
    }
  }

  /** Every entry holds a key that `_TT_insert` accepts. */
  predicate Insertable(es: seq<TTData>)
  {
    forall k :: 0 <= k < |es| ==> es[k].key.Some? && |es[k].key.value| > 0 && CString(es[k].key.value)
  }

  /** The first `n` insertions get every allocation they ask for. */
  predicate AllGranted(allocs: nat -> Alloc, n: nat)
  {
    forall k :: 0 <= k < n ==> allocs(k).Unlimited?
  }

  /**
   * The loop of `TT_lookup_tree`: every entry inserted in turn with
   * `_TT_insert` into an empty tree, the `k`-th insertion's allocations
   * given by `allocs(k)`; the root, the `nodes` and `keys` counters as the
   * insertions raise them, and what they passed to the destructor.
   */
  datatype Filled = Filled(node: TNode, nodes: Size, keys: Size, released: seq<Data>)

  /** The tree the loop of `TT_lookup_tree` builds from `es`. */
  function Fill(es: seq<TTData>, flags: Flags, hasDestructor: bool, allocs: nat -> Alloc): (r: Filled)
    requires Insertable(es)
    ensures es == [] ==> r == Filled(Nil, 0, 0, [])
    decreases |es|
  {
    if es == [] then Filled(Nil, 0, 0, [])
    else
      var prev := Fill(es[..|es| - 1], flags, hasDestructor, allocs);
      var e := es[|es| - 1];
      var ins := Ins(prev.node, e.key.value, 0, e.data, flags, hasDestructor, 1, allocs(|es| - 1), true);
      Filled(ins.node, SizeAdd(prev.nodes, ins.nodesAdded), SizeAdd(prev.keys, ins.keysAdded), prev.released + ins.released)
  }

  /**
   * Each insertion of the loop passes at most one data to the destructor,
   * and with every allocation granted the loop leaves a tree behind
   * whenever it inserted anything.
   */
  lemma {:induction false} FillShape(es: seq<TTData>, flags: Flags, hasDestructor: bool, allocs: nat -> Alloc)
    requires Insertable(es)
    ensures |Fill(es, flags, hasDestructor, allocs).released| <= |es|
    ensures es != [] && AllGranted(allocs, |es|) ==> Fill(es, flags, hasDestructor, allocs).node.Node?
    decreases |es|
  {
    if es != [] {
      var init := es[..|es| - 1];
      assert Insertable(init) by {
        forall k | 0 <= k < |init| ensures init[k] == es[k] { }
      }
      FillShape(init, flags, hasDestructor, allocs);
      var e := es[|es| - 1];
      InsBounds(Fill(init, flags, hasDestructor, allocs).node, e.key.value, 0, e.data, flags, hasDestructor, 1, allocs(|es| - 1), true);
    }
  }

  /** One more turn of the `TT_lookup_tree` loop inserts the next entry into the tree built so far. */
  lemma FillStep(es: seq<TTData>, i: nat, flags: Flags, hasDestructor: bool, allocs: nat -> Alloc)
    requires i < |es| && Insertable(es)
    ensures Insertable(es[..i]) && Insertable(es[..i + 1])
    ensures es[i].key.Some? && 0 < |es[i].key.value| && CString(es[i].key.value)
    ensures var prev := Fill(es[..i], flags, hasDestructor, allocs);
            var ins := Ins(prev.node, es[i].key.value, 0, es[i].data, flags, hasDestructor, 1, allocs(i), true);
            Fill(es[..i + 1], flags, hasDestructor, allocs)
              == Filled(ins.node, SizeAdd(prev.nodes, ins.nodesAdded), SizeAdd(prev.keys, ins.keysAdded), prev.released + ins.released)
  {
    assert es[..i + 1][..i] == es[..i];
  }

  /**
   * With every allocation granted, each plain-ASCII key the loop of
   * `TT_lookup_tree` inserts can be found in the new tree.
   */
  lemma {:induction false} FillFinds(es: seq<TTData>, flags: Flags, hasDestructor: bool, allocs: nat -> Alloc)
    requires Insertable(es) && forall k :: 0 <= k < |es| ==> Positive(es[k].key.value)
    requires forall k :: 0 <= k < |es| ==> allocs(k) == Unlimited
    ensures forall k :: 0 <= k < |es| ==> Keyed(Found(Fill(es, flags, hasDestructor, allocs).node, es[k].key.value, flags))
    decreases |es|
  {
    if es != [] {
      var init := es[..|es| - 1];
      var prev := Fill(init, flags, hasDestructor, allocs);
      var e := es[|es| - 1];
      assert Insertable(init) && forall k :: 0 <= k < |init| ==> init[k] == es[k];
      FillFinds(init, flags, hasDestructor, allocs);
      InsFinds(prev.node, e.key.value, 0, e.data, flags, hasDestructor, 1, true);
      forall k | 0 <= k < |init|
        ensures Keyed(Found(Fill(es, flags, hasDestructor, allocs).node, es[k].key.value, flags))
      {
        InsKeepsFound(prev.node, e.key.value, es[k].key.value, e.data, flags, hasDestructor, 1, true);
      }
    }
  }

  /**
   * With every allocation granted, `TT_insert` of a plain-ASCII string
   * leaves it findable: a new key exactly when it was not found before,
   * the new data under `T_INSERT_REPLACE` (the old data going to the
   * destructor), else the data already stored.
   */
  lemma InsertFinds(t: TNode, s: seq<Char>, data: Ptr, flags: Flags, hasDestructor: bool)
    requires 0 < |s| && CString(s) && Positive(s) && WellKeyed(t)
    ensures var ins := Ins(t, s, 0, data, flags, hasDestructor, 1, Unlimited, true);
            var F := Found(t, s, flags);
            var R := Found(ins.node, s, flags);
            && Keyed(R)
            && ins.keysAdded == (if F.Nil? then 1 else 0)
            && R.data == (if Has(flags, InsertReplace) then data else if F.Nil? then None else F.data)
            && ins.released == (if Has(flags, InsertReplace) && F.Node? then Released(hasDestructor, F.data) else [])
            && (KeysMatch(t, [], flags) ==> FoldAll(flags, R.key.value) == FoldAll(flags, s))
  {
    var before := Reach(t, s, 0, flags, false);
    InsFinds(t, s, 0, data, flags, hasDestructor, 1, true);
    WellKeyedReach(t, s, 0, flags, false);
    if KeysMatch(t, [], flags) && Keyed(before) {
      FoundKeyMatches(t, s, 0, flags);
    }
  }

  /**
   * Clearing the key of the node a search finds keeps the tree ordered and
   * well keyed, removes exactly one key and no node, forgets the string and
   * changes what no other string finds.
   */
  lemma DelKeyKeeps(t: TNode, s: seq<Char>, flags: Flags)
    requires Ordered(t) && WellKeyed(t) && 0 < |s| && CString(s) && Keyed(Found(t, s, flags))
    ensures var t' := Replace(t, s, 0, flags, Unkeyed(Found(t, s, flags)));
            && Ordered(t') && WellKeyed(t')
            && KeyCount(t') == KeyCount(t) - 1 && Count(t') == Count(t)
            && Found(t', s, flags) == Nil
            && (KeysMatch(t, [], flags) ==> KeysMatch(t', [], flags))
            && forall u :: 0 < |u| && !SameFolded(s, u, 0, flags) ==> Get(t', u, 0, flags) == Get(t, u, 0, flags)
  {
    var n := Unkeyed(Found(t, s, flags));
    OrderedReach(t, s, 0, flags, false);
    OrderedReplace(t, s, 0, flags, n);
    ReplaceForgets(t, s, flags, n);
    WellKeyedReplace(t, s, 0, flags, n);
    if KeysMatch(t, [], flags) {
      KeysMatchReplace(t, s, 0, flags, [], n);
    }
    forall u | 0 < |u| && !SameFolded(s, u, 0, flags)
      ensures Get(Replace(t, s, 0, flags, n), u, 0, flags) == Get(t, u, 0, flags)
    {
      ReplaceKeepsOthers(t, s, u, 0, flags, n);
    }
  }

  /** `struct _TernaryTree`; `root` is `head->mid`. */
  class TTree {
    const flags: Flags
    const hasDestructor: bool
    var keys: Size
    var nodes: Size
    var root: TNode
    /** Every value passed to the destructor, in call order. */
    ghost var destroyed: seq<Data>

    /** The root slot, the two counters and the destructor log, as one value. */
    ghost function State(): Filled
      reads this
    {
      Filled(root, nodes, keys, destroyed)
    }

    /** The nodes are ordered, every key is a non-empty C string, and unkeyed nodes hold no data. */
    ghost predicate Valid()
      reads this
    {
      Ordered(root) && WellKeyed(root)
    }

    /** The zero-filled tree and head node `TT_create` allocates, with its flags and destructor set. */
    constructor (flags: Flags, destructorGiven: bool)
      ensures Valid() && this.flags == flags && hasDestructor == HasDestructor(flags, destructorGiven)
      ensures keys == 0 && nodes == 0 && root == Nil && destroyed == []
    {
      this.flags := flags;
      hasDestructor := HasDestructor(flags, destructorGiven);
      keys := 0;
      nodes := 0;
      root := Nil;
      destroyed := [];
    }

    /**
     * `TT_search`: NULL for an empty string, else the node holding the key
     * the string leads to, compared character by character after folding.
     */
    method Search(s: seq<Char>) returns (r: TNode)
      requires Valid()
      ensures r == if |s| == 0 then Nil else Found(root, s, flags)
      ensures r.Node? ==> Keyed(r) && |s| > 0
      ensures r.Node? && KeysMatch(root, [], flags) ==> FoldAll(flags, r.key.value) == FoldAll(flags, s)
    {
      if |s| == 0 {
        return Nil;
      }
      r := SearchFrom(root, s, flags);
      if r.Node? && KeysMatch(root, [], flags) {
        FoundKeyMatches(root, s, 0, flags);
      }
    }

    /**
     * The statement `tree->head->mid = _TT_insert(tree->head->mid, s, 0,
     * data, tree, 1)`: the new root, with `nodes` and `keys` raised by the
     * nodes and keys the insertion added, and the replaced data passed to
     * the destructor.
     */
    method InsertKey(s: seq<Char>, data: Ptr, a: Alloc)
      requires Valid() && 0 < |s| && CString(s)
      modifies this`root, this`keys, this`nodes, this`destroyed
      ensures Valid()
      ensures var ins := Ins(old(root), s, 0, data, flags, hasDestructor, 1, a, true);
              && root == ins.node && nodes == SizeAdd(old(nodes), ins.nodesAdded)
              && keys == SizeAdd(old(keys), ins.keysAdded) && destroyed == old(destroyed) + ins.released
      ensures Positive(s) && KeysMatch(old(root), [], flags) ==> KeysMatch(root, [], flags)
    {
      var ins := Ins(root, s, 0, data, flags, hasDestructor, 1, a, true);
      OrderedIns(root, s, 0, data, flags, hasDestructor, 1, a, true);
      InsWellKeyed(root, s, 0, data, flags, hasDestructor, 1, a, true);
      if Positive(s) && KeysMatch(root, [], flags) {
        assert s[..0] == [];
        InsKeysMatch(root, s, 0, data, flags, hasDestructor, 1, a, true);
      }
      root := ins.node;
      nodes := SizeAdd(nodes, ins.nodesAdded);
      keys := SizeAdd(keys, ins.keysAdded);
      destroyed := destroyed + ins.released;
    }

    /**
     * `TT_insert`: NULL for an empty string; otherwise the insertion, then
     * NULL if the root slot came back NULL, else the head node under
     * `T_INSERT_FAST` or the node a search for the string finds.
     */
    method Insert(s: seq<Char>, data: Ptr, a: Alloc) returns (r: TNode)
      requires Valid() && CString(s)
      modifies this`root, this`keys, this`nodes, this`destroyed
      ensures Valid()
      ensures |s| == 0 ==> r == Nil && root == old(root) && keys == old(keys) && nodes == old(nodes) && destroyed == old(destroyed)
      ensures |s| > 0 ==>
                var ins := Ins(old(root), s, 0, data, flags, hasDestructor, 1, a, true);
                && root == ins.node && nodes == SizeAdd(old(nodes), ins.nodesAdded)
                && keys == SizeAdd(old(keys), ins.keysAdded) && destroyed == old(destroyed) + ins.released
                && r == (if root.Nil? then Nil else if Has(flags, InsertFast) then HeadNode(root) else Found(root, s, flags))
      ensures |s| > 0 && a.Unlimited? ==>
                && Count(root) == Count(old(root)) + Ins(old(root), s, 0, data, flags, hasDestructor, 1, a, true).nodesAdded
                && KeyCount(root) == KeyCount(old(root)) + Ins(old(root), s, 0, data, flags, hasDestructor, 1, a, true).keysAdded
      ensures |s| > 0 && a.Unlimited? && Positive(s) ==>
                && keys == SizeAdd(old(keys), if Found(old(root), s, flags).Nil? then 1 else 0)
                && (Has(flags, InsertFast) || Keyed(r))
      ensures |s| > 0 && a.Unlimited? && Positive(s) && !Has(flags, InsertFast) ==>
                var F := Found(old(root), s, flags);
                && r.data == (if Has(flags, InsertReplace) then data else if F.Nil? then None else F.data)
                && destroyed == old(destroyed) + (if Has(flags, InsertReplace) && F.Node? then Released(hasDestructor, F.data) else [])
      ensures |s| > 0 && a.Unlimited? && Positive(s) && !Has(flags, InsertFast) && KeysMatch(old(root), [], flags) ==>
                FoldAll(flags, r.key.value) == FoldAll(flags, s)
      ensures |s| > 0 && Positive(s) && KeysMatch(old(root), [], flags) ==> KeysMatch(root, [], flags)
    {
      if |s| == 0 {
        return Nil;
      }
      if a.Unlimited? {
        InsCounts(root, s, 0, data, flags, hasDestructor, 1, true);
        if Positive(s) {
          InsertFinds(root, s, data, flags, hasDestructor);
        }
      }
      InsertKey(s, data, a);
      if root.Nil? {
        return Nil;
      }
      if Has(flags, InsertFast) {
        return HeadNode(root);
      }
      r := SearchFrom(root, s, flags);
    }

    /**
     * `TT_del_key`: when the string is found, its data goes to the
     * destructor, the node loses key and data (it stays in the tree),
     * `keys` drops by one and the answer is 1; otherwise 0 and no change.
     */
    method DelKey(s: seq<Char>) returns (rc: int)
      requires Valid() && CString(s)
      modifies this`root, this`keys, this`destroyed
      ensures Valid()
      ensures var R := if |s| == 0 then Nil else Found(old(root), s, flags);
              && rc == (if R.Node? then 1 else 0)
              && (R.Nil? ==> root == old(root) && keys == old(keys) && destroyed == old(destroyed))
              && (R.Node? ==> && root == Replace(old(root), s, 0, flags, Unkeyed(R))
                              && keys == SizeDec(old(keys))
                              && destroyed == old(destroyed) + Released(hasDestructor, R.data)
                              && KeyCount(root) == KeyCount(old(root)) - 1
                              && Count(root) == Count(old(root)))
      ensures |s| > 0 ==> Found(root, s, flags) == Nil
      ensures forall u :: 0 < |u| && !SameFolded(s, u, 0, flags) ==> Get(root, u, 0, flags) == Get(old(root), u, 0, flags)
      ensures KeysMatch(old(root), [], flags) ==> KeysMatch(root, [], flags)
    {
      if |s| == 0 {
        return 0;
      }
      var node := SearchFrom(root, s, flags);
      if node.Nil? {
        return 0;
      }
      var n := Unkeyed(node);
      DelKeyKeeps(root, s, flags);
      destroyed := destroyed + Released(hasDestructor, node.data);
      root := Replace(root, s, 0, flags, n);
      keys := SizeDec(keys);
      rc := 1;
    }

    /**
     * `TT_del_node`: when the string is found, `_TT_destroy` runs on its
     * node without freeing it: the subtree below is released in post-order,
     * each data going to the destructor, both counters drop once per node
     * of the subtree, and the node itself is zero-filled in place.  1 when
     * found, else 0 and no change.
     */
    method DelNode(s: seq<Char>) returns (rc: int)
      requires Valid() && CString(s)
      modifies this`root, this`keys, this`nodes, this`destroyed
      ensures Valid()
      ensures var R := if |s| == 0 then Nil else Found(old(root), s, flags);
              && rc == (if R.Node? then 1 else 0)
              && (R.Nil? ==> root == old(root) && keys == old(keys) && nodes == old(nodes) && destroyed == old(destroyed))
              && (R.Node? ==> && root == Replace(old(root), s, 0, flags, Zeroed)
                              && keys == SizeSub(old(keys), Count(R))
                              && nodes == SizeSub(old(nodes), Count(R))
                              && destroyed == old(destroyed) + DestroyLog(hasDestructor, R)
                              && Count(root) + Count(R) == Count(old(root)) + 1
                              && KeyCount(root) + KeyCount(R) == KeyCount(old(root)))
      ensures |s| > 0 ==> Found(root, s, flags) == Nil
      ensures KeysMatch(old(root), [], flags) ==> KeysMatch(root, [], flags)
    {
      if |s| == 0 {
        return 0;
      }
      var node := SearchFrom(root, s, flags);
      if node.Nil? {
        return 0;
      }
      OrderedReplace(root, s, 0, flags, Zeroed);
      ReplaceForgets(root, s, flags, Zeroed);
      WellKeyedReplace(root, s, 0, flags, Zeroed);
      if KeysMatch(root, [], flags) {
        KeysMatchReplace(root, s, 0, flags, [], Zeroed);
      }
      destroyed := destroyed + DestroyLog(hasDestructor, node);
      keys := SizeSub(keys, Count(node));
      nodes := SizeSub(nodes, Count(node));
      root := Replace(root, s, 0, flags, Zeroed);
      rc := 1;
    }

    /**
     * `TT_clear`: `_TT_destroy` releases every node under the head, each
     * data going to the destructor, both counters dropping once per node,
     * and the head's `mid` becomes NULL.  The source reads `head->mid`
     * without a test, so the tree must not be empty.
     */
    method Clear()
      requires Valid() && root.Node?
      modifies this`root, this`keys, this`nodes, this`destroyed
      ensures Valid() && root == Nil
      ensures keys == SizeSub(old(keys), Count(old(root))) && nodes == SizeSub(old(nodes), Count(old(root)))
      ensures destroyed == old(destroyed) + DestroyLog(hasDestructor, old(root))
      ensures old(nodes) == Count(old(root)) ==> nodes == 0
    {
      destroyed := destroyed + DestroyLog(hasDestructor, root);
      keys := SizeSub(keys, Count(root));
      nodes := SizeSub(nodes, Count(root));
      root := Nil;
    }

    /**
     * `TT_destroy`: `_TT_destroy` from the head releases every node, each
     * data going to the destructor, and the zero-filled tree is freed.
     */
    method Destroy()
      requires Valid()
      modifies this`root, this`keys, this`nodes, this`destroyed
      ensures root == Nil && keys == 0 && nodes == 0
      ensures destroyed == old(destroyed) + DestroyLog(hasDestructor, HeadNode(old(root)))
      ensures destroyed == old(destroyed) + DestroyLog(hasDestructor, old(root))
    {
      destroyed := destroyed + DestroyLog(hasDestructor, HeadNode(root));
      keys := 0;
      nodes := 0;
      root := Nil;
    }

    /** `TT_walk`: every node under the head and then the head, each once. */
    function Walk(): (r: seq<TNode>)
      reads this
      ensures |r| == Count(root) + 1 && r[|r| - 1] == HeadNode(root)
      ensures forall k :: 0 <= k < |r| ==> r[k].Node?
      ensures multiset(r) == multiset([HeadNode(root)] + Asc(root))
    {
      WalksVisitSameNodes(root);
      PostOrder(root) + [HeadNode(root)]
    }

    /**
     * `TT_walk_asc`: the head first, then the nodes under it; the keys met
     * are the stored keys, in strictly increasing order of their folded
     * text, when every key lies on its own path.
     */
    function WalkAsc(): (r: seq<TNode>)
      reads this
      requires Valid()
      ensures |r| == Count(root) + 1 && r[0] == HeadNode(root)
      ensures |KeyedNodes(r)| == KeyCount(root)
      ensures KeysMatch(root, [], flags) ==> Sorted(Texts(KeyedNodes(r), flags))
    {
      var r := [HeadNode(root)] + Asc(root);
      KeyedNodesAppend([HeadNode(root)], Asc(root));
      assert KeyedNodes([HeadNode(root)]) == [] by {
        assert [HeadNode(root)][..0] == [];
      }
      KeyedAscCount(root);
      if KeysMatch(root, [], flags) then AscSorted(root, [], flags); r else r
    }

    /** `TT_walk_desc`: the ascending walk backwards. */
    function WalkDesc(): (r: seq<TNode>)
      reads this
      requires Valid()
      ensures r == N.Reverse(WalkAsc())
    {
      DescIsReverse(root);
      N.ReverseAppend([HeadNode(root)], Asc(root));
      assert N.Reverse([HeadNode(root)]) == [HeadNode(root)] by {
        assert [HeadNode(root)][1..] == [];
      }
      Desc(root) + [HeadNode(root)]
    }

    /**
     * `TT_depth`: the largest `depth` among the walked nodes, 0 if none is
     * larger; the depth `_TT_insert` gave a node is the number of nodes on
     * its path from the head, counting `left` and `right` steps as well as
     * `mid` ones.
     */
    method Depth() returns (max: Size)
      ensures forall k :: 0 <= k < |Walk()| ==> Walk()[k].depth <= max
      ensures max == 0 || exists k :: 0 <= k < |Walk()| && Walk()[k].depth == max
    {
      var visits := Walk();
      max := 0;
      var j := 0;
      while j < |visits|
        invariant 0 <= j <= |visits|
        invariant forall k :: 0 <= k < j ==> visits[k].depth <= max
        invariant max == 0 || exists k :: 0 <= k < j && visits[k].depth == max
      {
        if visits[j].depth > max {
          max := visits[j].depth;
        }
        j := j + 1;
      }
    }

    /**
     * `TT_data`: an array of `keys + 1` zero-filled entries, NULL when it
     * cannot be allocated; the ascending walk copies key and data of every
     * keyed node into it, unbounded, and the count is the number copied.
     * The walk writes within the array only while `keys + 1` covers the
     * keys stored.
     */
    method Data(allocOk: bool) returns (r: Option<array<TTData>>, count: Size)
      requires Valid() && KeyCount(root) <= SizeInc(keys)
      ensures r.Some? <==> allocOk
      ensures r.None? ==> count == 0
      ensures r.Some? ==> fresh(r.value) && r.value.Length == SizeInc(keys) && count == KeyCount(root)
      ensures r.Some? ==> forall k :: 0 <= k < count ==> r.value[k] == Entry(KeyedNodes(WalkAsc())[k])
      ensures r.Some? ==> forall k :: count <= k < r.value.Length ==> r.value[k] == TTData(None, None)
      ensures r.Some? && KeysMatch(root, [], flags) ==>
                forall i, j :: 0 <= i < j < count ==>
                  r.value[i].key.Some? && r.value[j].key.Some? && Less(FoldAll(flags, r.value[i].key.value), FoldAll(flags, r.value[j].key.value))
    {
      if !allocOk {
        return None, 0;
      }
      var buf := new TTData[SizeInc(keys)](_ => TTData(None, None));
      var visits := WalkAsc();
      var n := Collect(visits, SizeModulus - 1, buf, Entry);
      count := n;
      r := Some(buf);
      if KeysMatch(root, [], flags) {
        KeyedSorted(visits, flags);
      }
    }

    /**
     * `TS_data`: as `TT_data`, an array of `keys + 1` entries holding the
     * keys alone.
     */
    method KeyData(allocOk: bool) returns (r: Option<array<Option<seq<Char>>>>, count: Size)
      requires Valid() && KeyCount(root) <= SizeInc(keys)
      ensures r.Some? <==> allocOk
      ensures r.None? ==> count == 0
      ensures r.Some? ==> fresh(r.value) && r.value.Length == SizeInc(keys) && count == KeyCount(root)
      ensures r.Some? ==> forall k :: 0 <= k < count ==> r.value[k] == KeyedNodes(WalkAsc())[k].key
      ensures r.Some? ==> forall k :: count <= k < r.value.Length ==> r.value[k] == None
    {
      if !allocOk {
        return None, 0;
      }
      var buf := new Option<seq<Char>>[SizeInc(keys)](_ => None);
      var visits := WalkAsc();
      var n := Collect(visits, SizeModulus - 1, buf, KeyOf);
      count := n;
      r := Some(buf);
    }

    /**
     * `_TT_lookup`: NULL for an empty prefix, or when `__TT_lookup` finds
     * no node for it or a node with no `mid`; otherwise an array of
     * `max + 1` zero-filled entries (`keys + 1` when `max` is 0), NULL when
     * it cannot be allocated, holding key and data of the first `max`
     * keyed nodes of the ascending walk of that `mid`.  A key equal to the
     * prefix itself is not among them.
     */
    method Lookup(prefix: seq<Char>, max: Size, allocOk: bool) returns (r: Option<array<TTData>>, count: Size)
      requires Valid() && CString(prefix)
      requires (if max == 0 then keys else max) < SizeModulus - 1
      ensures var R := Reach(root, prefix, 0, flags, true);
              r.Some? <==> |prefix| > 0 && R.Node? && R.mid.Node? && allocOk
      ensures r.None? ==> count == 0
      ensures r.Some? ==>
                var R := Reach(root, prefix, 0, flags, true);
                var limit := if max == 0 then keys else max;
                && fresh(r.value) && r.value.Length == limit + 1
                && |KeyedNodes(Asc(R.mid))| == KeyCount(R.mid) && count == Min(limit, KeyCount(R.mid))
                && (forall k :: 0 <= k < count ==> r.value[k] == Entry(KeyedNodes(Asc(R.mid))[k]))
                && (forall k :: count <= k < r.value.Length ==> r.value[k] == TTData(None, None))
      ensures r.Some? ==> forall k :: 0 <= k < count ==>
                r.value[k].key.Some? && |r.value[k].key.value| > 0 && CString(r.value[k].key.value)
      ensures r.Some? && KeysMatch(root, [], flags) ==>
                forall k :: 0 <= k < count ==>
                  r.value[k].key.Some? && StrictlyExtends(FoldAll(flags, r.value[k].key.value), FoldAll(flags, prefix))
      ensures r.Some? && KeysMatch(root, [], flags) ==>
                forall i, j :: 0 <= i < j < count ==>
                  r.value[i].key.Some? && r.value[j].key.Some? && Less(FoldAll(flags, r.value[i].key.value), FoldAll(flags, r.value[j].key.value))
    {
      if |prefix| == 0 {
        return None, 0;
      }
      var node := LookupFrom(root, prefix, flags);
      if node.Nil? || node.mid.Nil? {
        return None, 0;
      }
      var limit := if max == 0 then keys else max;
      if !allocOk {
        return None, 0;
      }
      var buf := new TTData[limit + 1](_ => TTData(None, None));
      var visits := Asc(node.mid);
      KeyedAscCount(node.mid);
      count := Collect(visits, limit, buf, Entry);
      r := Some(buf);
      LookupKeys(root, prefix, flags);
    }

    /**
     * `TT_lookup_tree`: a new tree created with this tree's flags and a
     * NULL destructor argument (so `T_Free` under `T_FREE_DEFAULT`), NULL
     * when that fails; into it every entry `_TT_lookup`
     * returns for the prefix (with `max` 0) is inserted in turn with
     * `_TT_insert`, up to the first entry without a key.  With every
     * allocation granted and plain-ASCII keys, each entry's key can be
     * found in the new tree.
     */
    method LookupTree(prefix: seq<Char>, treeOk: bool, headOk: bool, lookupAllocOk: bool, allocs: nat -> Alloc)
      returns (rc: TTree?, ghost entries: seq<TTData>)
      requires Valid() && CString(prefix) && keys < SizeModulus - 1
      ensures rc != null <==> treeOk && headOk
      ensures rc != null ==> fresh(rc) && rc.Valid() && rc.flags == flags && rc.hasDestructor == Has(flags, FreeDefault)
      ensures rc != null ==> Insertable(entries) && |entries| <= keys
      ensures rc != null ==>
                var R := Reach(root, prefix, 0, flags, true);
                if |prefix| > 0 && R.Node? && R.mid.Node? && lookupAllocOk then
                  && |KeyedNodes(Asc(R.mid))| == KeyCount(R.mid)
                  && |entries| == Min(keys, KeyCount(R.mid))
                  && forall k :: 0 <= k < |entries| ==> entries[k] == Entry(KeyedNodes(Asc(R.mid))[k])
                else entries == []
      ensures rc != null ==>
                var f := Fill(entries, flags, rc.hasDestructor, allocs);
                && rc.root == f.node && rc.keys == f.keys
                && rc.nodes == f.nodes && rc.destroyed == f.released
      ensures rc != null && (forall k :: 0 <= k < |entries| ==> allocs(k) == Unlimited && Positive(entries[k].key.value)) ==>
                forall k :: 0 <= k < |entries| ==> Keyed(Found(rc.root, entries[k].key.value, flags))
    {
      entries := [];
      rc := Create(flags, false, treeOk, headOk);
      if rc == null {
        return;
      }
      entries := LookupInto(rc, prefix, lookupAllocOk, allocs);
      if forall k :: 0 <= k < |entries| ==> allocs(k) == Unlimited && Positive(entries[k].key.value) {
        FillFinds(entries, flags, rc.hasDestructor, allocs);
      }
    }

    /**
     * The body of `TT_lookup_tree` once the new tree exists: the entries
     * `_TT_lookup` returns for the prefix (with `max` 0), inserted in turn
     * into `rc`.  NULL from `_TT_lookup` inserts nothing.
     */
    method LookupInto(rc: TTree, prefix: seq<Char>, lookupAllocOk: bool, allocs: nat -> Alloc)
      returns (ghost entries: seq<TTData>)
      requires Valid() && CString(prefix) && keys < SizeModulus - 1
      requires rc != this && rc.Valid() && rc.State() == Filled(Nil, 0, 0, [])
      modifies rc`root, rc`keys, rc`nodes, rc`destroyed
      ensures Insertable(entries) && |entries| <= keys
      ensures var R := Reach(root, prefix, 0, flags, true);
              if |prefix| > 0 && R.Node? && R.mid.Node? && lookupAllocOk then
                && |KeyedNodes(Asc(R.mid))| == KeyCount(R.mid)
                && |entries| == Min(keys, KeyCount(R.mid))
                && forall k :: 0 <= k < |entries| ==> entries[k] == Entry(KeyedNodes(Asc(R.mid))[k])
              else entries == []
      ensures rc.Valid() && rc.State() == Fill(entries, rc.flags, rc.hasDestructor, allocs)
    {
      entries := [];
      var r, count := Lookup(prefix, 0, lookupAllocOk);
      if r.Some? {
        entries := r.value[..count];
        InsertEntries(rc, r.value, count, allocs);
      }
    }
  }

  /**
   * `TT_create`: NULL when the tree or its head node cannot be allocated;
   * otherwise an empty tree with the flags, whose destructor is the one
   * given or, under `T_FREE_DEFAULT`, `T_Free`.
   */
  method Create(flags: Flags, destructorGiven: bool, treeOk: bool, headOk: bool) returns (t: TTree?)
    ensures t != null <==> treeOk && headOk
    ensures t != null ==> fresh(t) && t.Valid() && t.root == Nil && t.keys == 0 && t.nodes == 0 && t.destroyed == []
    ensures t != null ==> t.flags == flags && t.hasDestructor == HasDestructor(flags, destructorGiven)
  {
    if !treeOk || !headOk {
      return null;
    }
    t := new TTree(flags, destructorGiven);
  }

  /**
   * The loop of `TT_lookup_tree`: the entries, up to the first without a
   * key, inserted in turn into the tree with `_TT_insert`.
   */
  method InsertEntries(rc: TTree, buf: array<TTData>, count: nat, allocs: nat -> Alloc)
    requires rc.Valid() && rc.State() == Filled(Nil, 0, 0, [])
    requires count < buf.Length && Insertable(buf[..count]) && buf[count].key.None?
    modifies rc`root, rc`keys, rc`nodes, rc`destroyed
    ensures rc.Valid() && rc.State() == Fill(buf[..count], rc.flags, rc.hasDestructor, allocs)
  {
    ghost var es := buf[..count];
    assert es[..0] == [];
    var i := 0;
    while i < buf.Length && buf[i].key.Some?
      invariant 0 <= i <= count && (i < count ==> buf[i] == es[i])
      invariant rc.Valid() && rc.State() == Fill(es[..i], rc.flags, rc.hasDestructor, allocs)
      decreases buf.Length - i
    {
      var e := buf[i];
      assert i < count && e == es[i];
      FillStep(es, i, rc.flags, rc.hasDestructor, allocs);
      rc.InsertKey(e.key.value, e.data, allocs(i));
      i := i + 1;
    }
    assert es[..count] == es;
  }
}
