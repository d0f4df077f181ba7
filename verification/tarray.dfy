/**
 * tarray.c: an array indexed by `size_t`, stored sparsely in an avltree.c
 * tree that always replaces, with a `length` bound checked on reads and an
 * `errno`-style status.
 */
module TArray {
  import opened Common
  import N = AvlNode
  import AT = AvlTree

  /** `ENOENT` and `ERANGE` as Linux numbers them. */
  const ENOENT: int := 2
  const ERANGE: int := 34

  /** `struct _TArray`. */
  class TArray {
    const tree: AT.AVLTree
    var error: int
    var length: Size

    ghost predicate Valid()
      reads this, tree
    {
      tree.Valid() && Has(tree.flags, InsertReplace)
    }

    constructor (tree: AT.AVLTree)
      ensures this.tree == tree && error == 0 && length == 0
    {
      this.tree := tree;
      error := 0;
      length := 0;
    }

    /**
     * `TA_clear`: the status is reset to 0, the tree is cleared (each stored
     * data going to the destructor once) and `length` is 0.
     */
    method Clear()
      requires Valid()
      modifies this, tree
      ensures Valid() && error == 0 && length == 0
      ensures tree.head == N.Nil && tree.nodes == 0 && tree.error == NoError
      ensures tree.destroyed == old(tree.destroyed) + N.ClearLog(tree.hasDestructor, old(tree.head))
    {
      error := 0;
      tree.Clear();
      length := 0;
    }

    /**
     * `TA_set`: `AVL_insert` of the data under the index, which replaces any
     * data stored there and fails only when a new node cannot be allocated;
     * the answer is the tree's new root, or NULL.  `length` is not changed.
     */
    method Set(idx: Size, data: Ptr, allocOk: bool) returns (r: Option<N.Tree>)
      requires Valid()
      modifies tree
      ensures Valid() && length == old(length) && error == old(error)
      ensures r.None? <==> idx !in old(tree.Contents()) && !allocOk
      ensures r.Some? ==> r.value == tree.head && tree.error == NoError
      ensures r.Some? ==> tree.Contents() == old(tree.Contents())[idx := data]
      ensures r.Some? ==> tree.nodes == old(tree.nodes) + (if idx in old(tree.Contents()) then 0 else 1)
      ensures r.None? ==> tree.Contents() == old(tree.Contents()) && tree.error == Memory
      ensures tree.destroyed == old(tree.destroyed) + (if idx in old(tree.Contents()) then Released(tree.hasDestructor, old(tree.Contents())[idx]) else [])
      ensures N.Avl(old(tree.head)) ==> N.Avl(tree.head)
    {
      r := tree.Insert(idx, data, allocOk);
    }

    /**
     * `TA_get`: below `length`, the data stored under the index, or NULL with
     * status `ENOENT` when nothing is stored there; at or beyond `length`,
     * NULL with status `ERANGE`.  Below `length` the tree's own status is
     * the one `AVL_search` leaves.
     */
    method Get(idx: Size) returns (r: Ptr)
      requires Valid()
      modifies this`error, tree`error
      ensures Valid() && length == old(length) && tree.head == old(tree.head)
      ensures r == if idx < length && idx in tree.Contents() then tree.Contents()[idx] else None
      ensures error == if length <= idx then ERANGE else if idx in tree.Contents() then old(error) else ENOENT
      ensures tree.error == if length <= idx || tree.head.Nil? then old(tree.error)
                            else if idx in tree.Contents() then NoError else NotFound
    {
      if idx < length {
        var node := tree.Search(idx);
        if node.Some? {
          return node.value.data;
        }
        error := ENOENT;
      } else {
        error := ERANGE;
      }
      return None;
    }
  }

  /**
   * `TA_create`: NULL when the array or its tree cannot be allocated;
   * otherwise an empty array, `length` and status 0, over a tree with
   * `T_INSERT_REPLACE` added to the flags.
   */
  method Create(flags: Flags, destructorGiven: bool, arrayOk: bool, treeOk: bool) returns (a: TArray?)
    ensures a != null <==> arrayOk && treeOk
    ensures a != null ==> fresh(a) && fresh(a.tree) && a.Valid() && a.length == 0 && a.error == 0
    ensures a != null ==> a.tree.flags == flags | InsertReplace && a.tree.head == N.Nil
    ensures a != null ==> a.tree.hasDestructor == HasDestructor(flags | InsertReplace, destructorGiven)
  {
    if !arrayOk {
      return null;
    }
    var tree := AT.Create(flags | InsertReplace, destructorGiven, treeOk);
    if tree == null {
      return null;
    }
    a := new TArray(tree);
  }
}
