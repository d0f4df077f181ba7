/**
 * btree.c: the same AVL node code as avltree.c, with `int` node keys, no
 * status field, a single-node rebalance after insert and after unlinking a
 * minimum, and a delete that answers 1 for any non-empty tree.
 */
module BTree {
  import opened Common
  import N = AvlNode

  /** `struct _BTree`; node keys are C `int`s. */
  class BTree {
    const flags: Flags
    const hasDestructor: bool
    var nodes: nat
    var head: N.Tree
    /** Every value passed to the destructor, in call order. */
    ghost var destroyed: seq<Data>

    /** The nodes form a search tree over `int` keys and `nodes` counts them. */
    ghost predicate Valid()
      reads this
    {
      N.Bst(head) && nodes == |N.InOrder(head)| && forall k :: k in N.Keys(head) ==> k is Int32
    }

    /** The key-to-data map the tree stores. */
    ghost function Contents(): map<int, Ptr>
      reads this
    {
      N.Contents(head)
    }

    /** The zero-filled tree `BT_create` allocates, with its flags and destructor set. */
    constructor (flags: Flags, destructorGiven: bool)
      ensures Valid() && Contents() == map[]
      ensures this.flags == flags && hasDestructor == HasDestructor(flags, destructorGiven)
      ensures head == N.Nil && nodes == 0 && destroyed == []
    {
      this.flags := flags;
      hasDestructor := HasDestructor(flags, destructorGiven);
      nodes := 0;
      head := N.Nil;
      destroyed := [];
    }

    /**
     * `BT_search`: the key is converted to `int`; the answer is the node
     * holding the converted key, or NULL.
     */
    method Search(key: int) returns (r: Option<N.Tree>)
      requires Valid()
      ensures r.Some? <==> Int32Of(key) in Contents()
      ensures r.Some? ==> r.value.Node? && r.value.key == Int32Of(key) && r.value.data == Contents()[Int32Of(key)]
    {
      N.ContentsKeys(head);
      if head.Nil? {
        return None;
      }
      N.SearchFinds(head, Int32Of(key));
      r := N.Search(head, Int32Of(key));
    }

    /**
     * `BT_insert`: on success the new root is stored and returned and
     * `nodes` grows for a new key; under `T_INSERT_REPLACE` a stored key gets
     * the new data and its old data goes to the destructor.  A refused
     * insertion returns NULL and changes nothing.  An AVL tree stays one.
     */
    method Insert(key: int, data: Ptr, allocOk: bool) returns (r: Option<N.Tree>)
      requires Valid()
      modifies this`head, this`nodes, this`destroyed
      ensures Valid()
      ensures var k := Int32Of(key);
              r.None? <==> if k in old(Contents()) then !Has(flags, InsertReplace) else !allocOk
      ensures r.None? ==> head == old(head) && nodes == old(nodes) && destroyed == old(destroyed)
      ensures r.Some? ==> r.value == head && head.Node?
      ensures r.Some? ==> Contents() == old(Contents())[Int32Of(key) := data]
      ensures var k := Int32Of(key);
              r.Some? ==> nodes == old(nodes) + (if k in old(Contents()) then 0 else 1)
      ensures var k := Int32Of(key);
              r.Some? ==> destroyed == old(destroyed) + (if k in old(Contents()) then Released(hasDestructor, old(Contents())[k]) else [])
      ensures N.Avl(old(head)) ==> N.Avl(head)
    {
      var k := Int32Of(key);
      N.ContentsKeys(head);
      var res := N.Insert(false, head, k, data, Has(flags, InsertReplace), hasDestructor, allocOk);
      N.InsertContents(false, head, k, data, Has(flags, InsertReplace), hasDestructor, allocOk);
      if N.Avl(head) {
        N.InsertAvl(false, head, k, data, Has(flags, InsertReplace), hasDestructor, allocOk);
      }
      match res
      case Rejected(_) =>
        r := None;
      case Inserted(t, added, released) =>
        N.ContentsKeys(t);
        destroyed := destroyed + released;
        if !added {
          nodes := nodes - 1;
        }
        nodes := nodes + 1;
        head := t;
        r := Some(t);
    }

    /**
     * `BT_delete`: a stored key is removed, its data goes to the destructor
     * and `nodes` drops by one.  The answer is 1 for every non-empty tree,
     * whether or not the key was stored, and 0 for an empty tree.
     */
    method Delete(key: int) returns (rc: int)
      requires Valid()
      modifies this`head, this`nodes, this`destroyed
      ensures Valid()
      ensures rc == (if old(head).Nil? then 0 else 1)
      ensures Contents() == old(Contents()) - {Int32Of(key)}
      ensures var k := Int32Of(key);
              nodes == old(nodes) - (if k in old(Contents()) then 1 else 0)
      ensures var k := Int32Of(key);
              destroyed == old(destroyed) + (if k in old(Contents()) then Released(hasDestructor, old(Contents())[k]) else [])
      ensures Int32Of(key) in old(Contents()) ==> head == N.Detach(false, old(head), Int32Of(key))
      ensures Int32Of(key) !in old(Contents()) ==> head == old(head)
    {
      var k := Int32Of(key);
      N.ContentsKeys(head);
      if head.Nil? {
        return 0;
      }
      N.SearchFinds(head, k);
      N.DetachContents(false, head, k);
      var found := N.Search(head, k);
      if found.Some? {
        destroyed := destroyed + Released(hasDestructor, found.value.data);
        nodes := nodes - 1;
        head := N.Detach(false, head, k);
        N.ContentsKeys(head);
      }
      rc := 1;
    }

    /**
     * `BT_clear`: every node is released in post-order, each stored data
     * going to the destructor once, and the tree is empty.
     */
    method Clear()
      requires Valid()
      modifies this`head, this`nodes, this`destroyed
      ensures Valid() && head == N.Nil && nodes == 0
      ensures destroyed == old(destroyed) + N.ClearLog(hasDestructor, old(head))
    {
      destroyed := destroyed + N.ClearLog(hasDestructor, head);
      nodes := nodes - |N.InOrder(head)|;
      head := N.Nil;
    }

    /** `BT_walk`: the visits of an ascending walk, in strictly increasing key order, one per node. */
    function Walk(): (r: seq<N.Entry>)
      reads this
      requires Valid()
      ensures N.Ascending(r) && |r| == nodes
      ensures N.ToMap(r) == N.Contents(head)
    {
      N.BstIffAscending(head);
      N.ContentsIsWalk(head);
      N.InOrder(head)
    }

    /** `BT_walk_desc`: the ascending walk's visits, backwards. */
    function WalkDesc(): (r: seq<N.Entry>)
      reads this
      requires Valid()
      ensures r == N.Reverse(Walk())
    {
      N.WalkDescIsReverse(head);
      N.WalkDesc(head)
    }

    /** `BT_depth`: 0 for an empty tree, else the number of levels; the root's stored height for an AVL tree. */
    function Depth(): (r: nat)
      reads this
      ensures r == 0 <==> head.Nil?
      ensures head.Node? ==> r == 1 + Max(N.Depth(head.left, 0), N.Depth(head.right, 0))
      ensures N.Avl(head) ==> r == N.Height(head)
    {
      if N.Avl(head) then N.AvlDepthIsHeight(head); N.Depth(head, 0) else N.Depth(head, 0)
    }
  }

  /** `BT_create`: NULL when the allocation fails, otherwise an empty tree. */
  method Create(flags: Flags, destructorGiven: bool, allocOk: bool) returns (t: BTree?)
    ensures allocOk <==> t != null
    ensures t != null ==> fresh(t) && t.Valid() && t.head == N.Nil && t.nodes == 0
    ensures t != null ==> t.flags == flags && t.hasDestructor == HasDestructor(flags, destructorGiven) && t.destroyed == []
  {
    if !allocOk {
      return null;
    }
    t := new BTree(flags, destructorGiven);
  }

  /** Converting keys to `int` merges no two unsigned 32-bit values, such as the hashes a hash table stores. */
  lemma Int32OfInjective(a: UInt32, b: UInt32)
    requires Int32Of(a) == Int32Of(b)
    ensures a == b
  {
  }
}
