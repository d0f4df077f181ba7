/**
 * avltree.c: an AVL tree keyed by `TREE_KEY_TYPE`, with a node count, the
 * status of the last operation, and a destructor applied to data that is
 * replaced, deleted or cleared.
 */
module AvlTree {
  import opened Common
  import N = AvlNode

  /** `struct _AVLTree`. */
  class AVLTree {
    const flags: Flags
    const hasDestructor: bool
    var nodes: nat
    var head: N.Tree
    var error: TreeError
    /** Every value passed to the destructor, in call order. */
    ghost var destroyed: seq<Data>

    /** The nodes form a search tree and `nodes` counts them. */
    ghost predicate Valid()
      reads this
    {
      N.Bst(head) && nodes == |N.InOrder(head)|
    }

    /** The key-to-data map the tree stores. */
    ghost function Contents(): map<int, Ptr>
      reads this
    {
      N.Contents(head)
    }

    /** The zero-filled tree `AVL_create` allocates, with its flags and destructor set. */
    constructor (flags: Flags, destructorGiven: bool)
      ensures Valid() && Contents() == map[]
      ensures this.flags == flags && hasDestructor == HasDestructor(flags, destructorGiven)
      ensures head == N.Nil && nodes == 0 && error == NoError && destroyed == []
    {
      this.flags := flags;
      hasDestructor := HasDestructor(flags, destructorGiven);
      nodes := 0;
      head := N.Nil;
      error := NoError;
      destroyed := [];
    }

    /**
     * `AVL_search`: the node holding the key with `TE_NO_ERROR`, or NULL with
     * `TE_NOT_FOUND`; an empty tree answers NULL and keeps its status.
     */
    method Search(key: int) returns (r: Option<N.Tree>)
      requires Valid()
      modifies this`error
      ensures Valid() && head == old(head)
      ensures r.Some? <==> key in Contents()
      ensures r.Some? ==> r.value.Node? && r.value.key == key && r.value.data == Contents()[key]
      ensures error == (if head.Nil? then old(error) else if r.Some? then NoError else NotFound)
    {
      N.ContentsKeys(head);
      if head.Nil? {
        return None;
      }
      N.SearchFinds(head, key);
      r := N.Search(head, key);
      if r.Some? {
        error := NoError;
      } else {
        error := NotFound;
      }
    }

    /**
     * `AVL_insert`: on success the new root is stored and returned, the
     * status is `TE_NO_ERROR` and `nodes` grows for a new key; a stored key
     * gets the new data and its old data goes to the destructor, under
     * `T_INSERT_REPLACE`.  A refused insertion (stored key without replace,
     * or a failed allocation) returns NULL, records `TE_FOUND` or
     * `TE_MEMORY`, and changes nothing else.  An AVL tree stays one.
     */
    method Insert(key: int, data: Ptr, allocOk: bool) returns (r: Option<N.Tree>)
      requires Valid()
      modifies this`head, this`nodes, this`error, this`destroyed
      ensures Valid()
      ensures r.None? <==> if key in old(Contents()) then !Has(flags, InsertReplace) else !allocOk
      ensures r.None? ==> head == old(head) && nodes == old(nodes) && destroyed == old(destroyed)
      ensures r.None? ==> error == if key in old(Contents()) then KeyFound else Memory
      ensures r.Some? ==> r.value == head && head.Node? && error == NoError
      ensures r.Some? ==> Contents() == old(Contents())[key := data]
      ensures r.Some? ==> nodes == old(nodes) + (if key in old(Contents()) then 0 else 1)
      ensures r.Some? ==> destroyed == old(destroyed) + (if key in old(Contents()) then Released(hasDestructor, old(Contents())[key]) else [])
      ensures N.Avl(old(head)) ==> N.Avl(head)
    {
      N.ContentsKeys(head);
      var res := N.Insert(true, head, key, data, Has(flags, InsertReplace), hasDestructor, allocOk);
      N.InsertContents(true, head, key, data, Has(flags, InsertReplace), hasDestructor, allocOk);
      if N.Avl(head) {
        N.InsertAvl(true, head, key, data, Has(flags, InsertReplace), hasDestructor, allocOk);
      }
      match res
      case Rejected(e) =>
        error := e;
        r := None;
      case Inserted(t, added, released) =>
        destroyed := destroyed + released;
        if !added {
          nodes := nodes - 1;
        }
        error := NoError;
        nodes := nodes + 1;
        head := t;
        r := Some(t);
    }

    /**
     * `AVL_delete`: a stored key is removed, its data goes to the destructor,
     * `nodes` drops by one and the answer is 1; a missing key answers 0 with
     * `TE_NOT_FOUND`, an empty tree 0 with the status kept.  The status is
     * not reset after a successful delete, and the ancestors of the deleted
     * node keep their stored heights.
     */
    method Delete(key: int) returns (rc: int)
      requires Valid()
      modifies this`head, this`nodes, this`error, this`destroyed
      ensures Valid()
      ensures rc == 1 <==> key in old(Contents())
      ensures rc == 0 || rc == 1
      ensures Contents() == old(Contents()) - {key}
      ensures nodes == old(nodes) - rc
      ensures destroyed == old(destroyed) + (if rc == 1 then Released(hasDestructor, old(Contents())[key]) else [])
      ensures error == if rc == 0 && old(head).Node? then NotFound else old(error)
      ensures rc == 1 ==> head == N.Detach(true, old(head), key)
      ensures rc == 0 ==> head == old(head)
    {
      N.ContentsKeys(head);
      if head.Nil? {
        return 0;
      }
      N.SearchFinds(head, key);
      N.DetachContents(true, head, key);
      var found := N.Search(head, key);
      if found.Some? {
        destroyed := destroyed + Released(hasDestructor, found.value.data);
        nodes := nodes - 1;
        head := N.Detach(true, head, key);
        rc := 1;
      } else {
        error := NotFound;
        rc := 0;
      }
    }

    /**
     * `AVL_clear`: every node is released in post-order, each stored data
     * going to the destructor once; the tree is empty and the status
     * `TE_NO_ERROR`.
     */
    method Clear()
      requires Valid()
      modifies this`head, this`nodes, this`error, this`destroyed
      ensures Valid() && head == N.Nil && nodes == 0 && error == NoError
      ensures destroyed == old(destroyed) + N.ClearLog(hasDestructor, old(head))
    {
      destroyed := destroyed + N.ClearLog(hasDestructor, head);
      nodes := nodes - |N.InOrder(head)|;
      head := N.Nil;
      error := NoError;
    }

    /** `AVL_walk`: the visits of an ascending walk, in strictly increasing key order, one per node. */
    function Walk(): (r: seq<N.Entry>)
      reads this
      requires Valid()
      ensures N.Ascending(r) && |r| == nodes
      ensures N.ToMap(r) == N.Contents(head)
    {
      N.BstIffAscending(head);
      N.ContentsIsWalk(head);
      N.InOrder(head)
    }

    /** `AVL_walk_desc`: the ascending walk's visits, backwards. */
    function WalkDesc(): (r: seq<N.Entry>)
      reads this
      requires Valid()
      ensures r == N.Reverse(Walk())
    {
      N.WalkDescIsReverse(head);
      N.WalkDesc(head)
    }

    /** `AVL_depth`: 0 for an empty tree, else the number of levels; the root's stored height for an AVL tree. */
    function Depth(): (r: nat)
      reads this
      ensures r == 0 <==> head.Nil?
      ensures head.Node? ==> r == 1 + Max(N.Depth(head.left, 0), N.Depth(head.right, 0))
      ensures N.Avl(head) ==> r == N.Height(head)
    {
      if N.Avl(head) then N.AvlDepthIsHeight(head); N.Depth(head, 0) else N.Depth(head, 0)
    }
  }

  /** `AVL_create`: NULL when the allocation fails, otherwise an empty tree. */
  method Create(flags: Flags, destructorGiven: bool, allocOk: bool) returns (t: AVLTree?)
    ensures allocOk <==> t != null
    ensures t != null ==> fresh(t) && t.Valid() && t.head == N.Nil && t.nodes == 0 && t.error == NoError
    ensures t != null ==> t.flags == flags && t.hasDestructor == HasDestructor(flags, destructorGiven) && t.destroyed == []
  {
    if !allocOk {
      return null;
    }
    t := new AVLTree(flags, destructorGiven);
  }
}
