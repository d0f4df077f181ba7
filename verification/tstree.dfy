/**
 * tstree.c and tstree.h: the string tree, a ternary tree used with NULL
 * data (`TS_create`, `TS_insert`), and the lookups by prefix that return
 * entries (`TT_lookup`, `TT_nlookup`) or keys alone (`TS_lookup`,
 * `TS_nlookup`).
 */
module StringTree {
  import opened Common
  import opened TernaryNode
  import opened TernaryWalk
  import opened TernaryTree

  /** No node holds data, as in a tree filled only through `TS_insert`. */
  predicate NoData(t: TNode)
  {
    t.Nil? || (t.data.None? && NoData(t.left) && NoData(t.mid) && NoData(t.right))
  }

  /** Inserting NULL data into a tree without data leaves it without data and calls no destructor. */
  lemma {:induction false} InsNoData(t: TNode, s: seq<Char>, pos: nat, flags: Flags, hasDestructor: bool,
                                     depth: Size, a: Alloc, signedEnd: bool)
    requires pos < |s| && CString(s) && NoData(t)
    ensures NoData(Ins(t, s, pos, None, flags, hasDestructor, depth, a, signedEnd).node)
    ensures Ins(t, s, pos, None, flags, hasDestructor, depth, a, signedEnd).released == []
    decreases |s| - pos, t
  {
    if !(t.Nil? && !Granted(a)) {
      InsShape(t, s, pos, None, flags, hasDestructor, depth, a, signedEnd);
      var c := Fold(flags, s[pos]);
      var n := Prepared(t, c, depth);
      var a1 := if t.Nil? then Next(a) else a;
      var d := SizeInc(depth);
      if c < n.splitter {
        InsNoData(n.left, s, pos, flags, hasDestructor, d, a1, signedEnd);
      } else if c > n.splitter {
        InsNoData(n.right, s, pos, flags, hasDestructor, d, a1, signedEnd);
      } else if Continues(s, pos, signedEnd) {
        InsNoData(n.mid, s, pos + 1, flags, hasDestructor, d, a1, signedEnd);
      }
    }
  }

  /** Every node a search passes in a tree without data holds none. */
  lemma {:induction false} ReachNoData(t: TNode, s: seq<Char>, i: nat, flags: Flags, prefix: bool)
    requires NoData(t)
    ensures NoData(Reach(t, s, i, flags, prefix))
    decreases |s| - i, t
  {
    if i < |s| && !Stops(t, prefix) {
      var c := Fold(flags, s[i]);
      if c < t.splitter {
        ReachNoData(t.left, s, i, flags, prefix);
      } else if c > t.splitter {
        ReachNoData(t.right, s, i, flags, prefix);
      } else if i + 1 < |s| {
        ReachNoData(t.mid, s, i + 1, flags, prefix);
      }
    }
  }

  /**
   * `TS_create`: `TT_create` with no destructor; the tree frees its data
   * only under `T_FREE_DEFAULT`.
   */
  method TSCreate(flags: Flags, treeOk: bool, headOk: bool) returns (t: TTree?)
    ensures t != null <==> treeOk && headOk
    ensures t != null ==> fresh(t) && t.Valid() && t.root == Nil && t.keys == 0 && t.nodes == 0
    ensures t != null ==> t.flags == flags && t.hasDestructor == Has(flags, FreeDefault) && NoData(t.root)
  {
    t := Create(flags, false, treeOk, headOk);
  }

  /**
   * `TS_insert`: `TT_insert` with NULL data, so everything `TT_insert`
   * promises with the data NULL.  A tree without data stays without data,
   * no destructor is called, and the node answered holds no data.
   */
  method TSInsert(tree: TTree, s: seq<Char>, a: Alloc) returns (r: TNode)
    requires tree.Valid() && CString(s) && NoData(tree.root)
    modifies tree`root, tree`keys, tree`nodes, tree`destroyed
    ensures tree.Valid() && NoData(tree.root) && tree.destroyed == old(tree.destroyed)
    ensures r.Node? ==> r.data.None?
    ensures |s| == 0 ==> r == Nil && tree.root == old(tree.root) && tree.keys == old(tree.keys) && tree.nodes == old(tree.nodes)
    ensures |s| > 0 ==>
              var ins := Ins(old(tree.root), s, 0, None, tree.flags, tree.hasDestructor, 1, a, true);
              && tree.root == ins.node && tree.nodes == SizeAdd(old(tree.nodes), ins.nodesAdded)
              && tree.keys == SizeAdd(old(tree.keys), ins.keysAdded)
              && r == (if tree.root.Nil? then Nil else if Has(tree.flags, InsertFast) then HeadNode(tree.root) else Found(tree.root, s, tree.flags))
    ensures |s| > 0 && a.Unlimited? ==>
              && Count(tree.root) == Count(old(tree.root)) + Ins(old(tree.root), s, 0, None, tree.flags, tree.hasDestructor, 1, a, true).nodesAdded
              && KeyCount(tree.root) == KeyCount(old(tree.root)) + Ins(old(tree.root), s, 0, None, tree.flags, tree.hasDestructor, 1, a, true).keysAdded
    ensures |s| > 0 && a.Unlimited? && Positive(s) ==>
              && tree.keys == SizeAdd(old(tree.keys), if Found(old(tree.root), s, tree.flags).Nil? then 1 else 0)
              && (Has(tree.flags, InsertFast) || Keyed(r))
    ensures |s| > 0 && a.Unlimited? && Positive(s) && !Has(tree.flags, InsertFast) && KeysMatch(old(tree.root), [], tree.flags) ==>
              FoldAll(tree.flags, r.key.value) == FoldAll(tree.flags, s)
    ensures |s| > 0 && Positive(s) && KeysMatch(old(tree.root), [], tree.flags) ==> KeysMatch(tree.root, [], tree.flags)
  {
    if |s| > 0 {
      InsNoData(tree.root, s, 0, tree.flags, tree.hasDestructor, 1, a, true);
    }
    r := tree.Insert(s, None, a);
    if |s| > 0 && r.Node? && !Has(tree.flags, InsertFast) {
      ReachNoData(tree.root, s, 0, tree.flags, false);
    }
  }

  /**
   * `_TS_lookup`: as `_TT_lookup`, an array of `max + 1` entries (`keys +
   * 1` when `max` is 0) holding the keys alone of the first `max` keyed
   * nodes under the node where the prefix ends.
   */
  method KeyLookup(tree: TTree, prefix: seq<Char>, max: Size, allocOk: bool) returns (r: Option<array<Option<seq<Char>>>>, count: Size)
    requires tree.Valid() && CString(prefix)
    requires (if max == 0 then tree.keys else max) < SizeModulus - 1
    ensures var R := Reach(tree.root, prefix, 0, tree.flags, true);
            r.Some? <==> |prefix| > 0 && R.Node? && R.mid.Node? && allocOk
    ensures r.None? ==> count == 0
    ensures r.Some? ==>
              var R := Reach(tree.root, prefix, 0, tree.flags, true);
              var limit := if max == 0 then tree.keys else max;
              && fresh(r.value) && r.value.Length == limit + 1
              && |KeyedNodes(Asc(R.mid))| == KeyCount(R.mid) && count == Min(limit, KeyCount(R.mid))
              && (forall k :: 0 <= k < count ==> r.value[k] == KeyedNodes(Asc(R.mid))[k].key)
              && (forall k :: count <= k < r.value.Length ==> r.value[k] == None)
    ensures r.Some? && KeysMatch(tree.root, [], tree.flags) ==>
              forall k :: 0 <= k < count ==>
                r.value[k].Some? && StrictlyExtends(FoldAll(tree.flags, r.value[k].value), FoldAll(tree.flags, prefix))
    ensures r.Some? && KeysMatch(tree.root, [], tree.flags) ==>
              forall i, j :: 0 <= i < j < count ==>
                r.value[i].Some? && r.value[j].Some? && Less(FoldAll(tree.flags, r.value[i].value), FoldAll(tree.flags, r.value[j].value))
  {
    if |prefix| == 0 {
      return None, 0;
    }
    var node := LookupFrom(tree.root, prefix, tree.flags);
    if node.Nil? || node.mid.Nil? {
      return None, 0;
    }
    var limit := if max == 0 then tree.keys else max;
    if !allocOk {
      return None, 0;
    }
    var buf := new Option<seq<Char>>[limit + 1](_ => None);
    var visits := Asc(node.mid);
    KeyedAscCount(node.mid);
    count := Collect(visits, limit, buf, KeyOf);
    r := Some(buf);
    LookupKeys(tree.root, prefix, tree.flags);
  }

  /**
   * `TT_lookup`: `_TT_lookup` with no bound, that is `keys` entries at
   * most, in ascending order of their folded keys, each strictly extending
   * the prefix, and `{NULL, NULL}` after the last.
   */
  method TTLookup(tree: TTree, prefix: seq<Char>, allocOk: bool) returns (r: Option<array<TTData>>, count: Size)
    requires tree.Valid() && CString(prefix) && tree.keys < SizeModulus - 1
    ensures var R := Reach(tree.root, prefix, 0, tree.flags, true);
            r.Some? <==> |prefix| > 0 && R.Node? && R.mid.Node? && allocOk
    ensures r.None? ==> count == 0
    ensures r.Some? ==>
              var R := Reach(tree.root, prefix, 0, tree.flags, true);
              && fresh(r.value) && r.value.Length == tree.keys + 1
              && |KeyedNodes(Asc(R.mid))| == KeyCount(R.mid) && count == Min(tree.keys, KeyCount(R.mid))
              && (forall k :: 0 <= k < count ==> r.value[k] == Entry(KeyedNodes(Asc(R.mid))[k]))
              && (forall k :: count <= k < r.value.Length ==> r.value[k] == TTData(None, None))
    ensures r.Some? ==> forall k :: 0 <= k < count ==>
              r.value[k].key.Some? && |r.value[k].key.value| > 0 && CString(r.value[k].key.value)
    ensures r.Some? && KeysMatch(tree.root, [], tree.flags) ==>
              forall k :: 0 <= k < count ==>
                r.value[k].key.Some? && StrictlyExtends(FoldAll(tree.flags, r.value[k].key.value), FoldAll(tree.flags, prefix))
    ensures r.Some? && KeysMatch(tree.root, [], tree.flags) ==>
              forall i, j :: 0 <= i < j < count ==>
                r.value[i].key.Some? && r.value[j].key.Some? && Less(FoldAll(tree.flags, r.value[i].key.value), FoldAll(tree.flags, r.value[j].key.value))
  {
    r, count := tree.Lookup(prefix, 0, allocOk);
  }

  /** `TT_nlookup`: `_TT_lookup` with the caller's bound, `keys` when it is 0; otherwise as `TT_lookup`. */
  method TTNLookup(tree: TTree, prefix: seq<Char>, max: Size, allocOk: bool) returns (r: Option<array<TTData>>, count: Size)
    requires tree.Valid() && CString(prefix) && (if max == 0 then tree.keys else max) < SizeModulus - 1
    ensures var R := Reach(tree.root, prefix, 0, tree.flags, true);
            r.Some? <==> |prefix| > 0 && R.Node? && R.mid.Node? && allocOk
    ensures r.None? ==> count == 0
    ensures r.Some? ==>
              var R := Reach(tree.root, prefix, 0, tree.flags, true);
              var limit := if max == 0 then tree.keys else max;
              && fresh(r.value) && r.value.Length == limit + 1
              && |KeyedNodes(Asc(R.mid))| == KeyCount(R.mid) && count == Min(limit, KeyCount(R.mid))
              && (forall k :: 0 <= k < count ==> r.value[k] == Entry(KeyedNodes(Asc(R.mid))[k]))
              && (forall k :: count <= k < r.value.Length ==> r.value[k] == TTData(None, None))
    ensures r.Some? ==> forall k :: 0 <= k < count ==>
              r.value[k].key.Some? && |r.value[k].key.value| > 0 && CString(r.value[k].key.value)
    ensures r.Some? && KeysMatch(tree.root, [], tree.flags) ==>
              forall k :: 0 <= k < count ==>
                r.value[k].key.Some? && StrictlyExtends(FoldAll(tree.flags, r.value[k].key.value), FoldAll(tree.flags, prefix))
    ensures r.Some? && KeysMatch(tree.root, [], tree.flags) ==>
              forall i, j :: 0 <= i < j < count ==>
                r.value[i].key.Some? && r.value[j].key.Some? && Less(FoldAll(tree.flags, r.value[i].key.value), FoldAll(tree.flags, r.value[j].key.value))
  {
    r, count := tree.Lookup(prefix, max, allocOk);
  }

  /**
   * `TS_lookup`: `_TS_lookup` with no bound, that is `keys` keys at most,
   * NULL with a count of 0 when there is nothing to return, the keys in
   * ascending order, each strictly extending the prefix, and NULL after the
   * last.
   */
  method TSLookup(tree: TTree, prefix: seq<Char>, allocOk: bool) returns (r: Option<array<Option<seq<Char>>>>, count: Size)
    requires tree.Valid() && CString(prefix) && tree.keys < SizeModulus - 1
    ensures var R := Reach(tree.root, prefix, 0, tree.flags, true);
            r.Some? <==> |prefix| > 0 && R.Node? && R.mid.Node? && allocOk
    ensures r.None? ==> count == 0
    ensures r.Some? ==>
              var R := Reach(tree.root, prefix, 0, tree.flags, true);
              && fresh(r.value) && r.value.Length == tree.keys + 1
              && |KeyedNodes(Asc(R.mid))| == KeyCount(R.mid) && count == Min(tree.keys, KeyCount(R.mid))
              && (forall k :: 0 <= k < count ==> r.value[k] == KeyedNodes(Asc(R.mid))[k].key)
              && (forall k :: count <= k < r.value.Length ==> r.value[k] == None)
    ensures r.Some? && KeysMatch(tree.root, [], tree.flags) ==>
              forall k :: 0 <= k < count ==>
                r.value[k].Some? && StrictlyExtends(FoldAll(tree.flags, r.value[k].value), FoldAll(tree.flags, prefix))
    ensures r.Some? && KeysMatch(tree.root, [], tree.flags) ==>
              forall i, j :: 0 <= i < j < count ==>
                r.value[i].Some? && r.value[j].Some? && Less(FoldAll(tree.flags, r.value[i].value), FoldAll(tree.flags, r.value[j].value))
  {
    r, count := KeyLookup(tree, prefix, 0, allocOk);
  }

  /** `TS_nlookup`: `_TS_lookup` with the caller's bound, `keys` when it is 0; otherwise as `TS_lookup`. */
  method TSNLookup(tree: TTree, prefix: seq<Char>, max: Size, allocOk: bool) returns (r: Option<array<Option<seq<Char>>>>, count: Size)
    requires tree.Valid() && CString(prefix) && (if max == 0 then tree.keys else max) < SizeModulus - 1
    ensures var R := Reach(tree.root, prefix, 0, tree.flags, true);
            r.Some? <==> |prefix| > 0 && R.Node? && R.mid.Node? && allocOk
    ensures r.None? ==> count == 0
    ensures r.Some? ==>
              var R := Reach(tree.root, prefix, 0, tree.flags, true);
              var limit := if max == 0 then tree.keys else max;
              && fresh(r.value) && r.value.Length == limit + 1
              && |KeyedNodes(Asc(R.mid))| == KeyCount(R.mid) && count == Min(limit, KeyCount(R.mid))
              && (forall k :: 0 <= k < count ==> r.value[k] == KeyedNodes(Asc(R.mid))[k].key)
              && (forall k :: count <= k < r.value.Length ==> r.value[k] == None)
    ensures r.Some? && KeysMatch(tree.root, [], tree.flags) ==>
              forall k :: 0 <= k < count ==>
                r.value[k].Some? && StrictlyExtends(FoldAll(tree.flags, r.value[k].value), FoldAll(tree.flags, prefix))
    ensures r.Some? && KeysMatch(tree.root, [], tree.flags) ==>
              forall i, j :: 0 <= i < j < count ==>
                r.value[i].Some? && r.value[j].Some? && Less(FoldAll(tree.flags, r.value[i].value), FoldAll(tree.flags, r.value[j].value))
  {
    r, count := KeyLookup(tree, prefix, max, allocOk);
  }
}
