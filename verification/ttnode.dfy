/**
 * ttree.c: a ternary search tree over C strings.  Each node splits on one
 * character; `left` and `right` hold nodes for smaller and larger characters
 * at the same position, `mid` the nodes for the next position.  A node that
 * ends a stored string carries a copy of it as its key, and the data.
 */
module TernaryNode {
  import opened Common
  import N = AvlNode

  /** `struct _TTNode`; `Nil` is a NULL child. */
  datatype TNode =
    | Nil
    | Node(splitter: Char, key: Option<seq<Char>>, data: Ptr, depth: Size, left: TNode, mid: TNode, right: TNode)

  /** A node as `memset(node, 0, ...)` leaves it. */
  const Zeroed: TNode := Node(0, None, None, 0, Nil, Nil, Nil)

  /** A node with no splitter and no key: what `_TT_search` stops at and `_TT_insert` reuses. */
  predicate Blank(t: TNode)
  {
    t.Node? && t.splitter == 0 && t.key.None?
  }

  /** A node that ends a stored string. */
  predicate Keyed(t: TNode)
  {
    t.Node? && t.key.Some?
  }

  /** The character compared at a node: lower-cased under `T_NOCASE`. */
  function Fold(flags: Flags, c: Char): (r: Char)
    ensures !Has(flags, NoCase) ==> r == c
    ensures r != 0 <==> c != 0
    ensures c > 0 ==> r > 0
  {
    if Has(flags, NoCase) then ToLower(c) else c
  }

  function FoldAll(flags: Flags, s: seq<Char>): (r: seq<Char>)
    ensures |r| == |s| && forall i :: 0 <= i < |s| ==> r[i] == Fold(flags, s[i])
  {
    if s == [] then [] else [Fold(flags, s[0])] + FoldAll(flags, s[1..])
  }

  /** Every character of the string is positive as a signed `char` (plain ASCII). */
  predicate Positive(s: seq<Char>)
  {
    forall i :: 0 <= i < |s| ==> s[i] > 0
  }

  // ---------------------------------------------------------------------
  // Following a string down the tree
  // ---------------------------------------------------------------------

  /**
   * Where the loops of `_TT_search` (`prefix` false) and `__TT_lookup`
   * (`prefix` true) stop: at NULL, at a node with no splitter (for the
   * search, also no key), or at the node that matches the last character.
   */
  predicate Stops(t: TNode, prefix: bool)
  {
    t.Nil? || (t.splitter == 0 && (prefix || t.key.None?))
  }

  /** The node `ptr` holds when the loop ends, started at `t` on character `i` of `s`. */
  function Reach(t: TNode, s: seq<Char>, i: nat, flags: Flags, prefix: bool): (r: TNode)
    decreases |s| - i, t
  {
    if i >= |s| || Stops(t, prefix) then t
    else
      var c := Fold(flags, s[i]);
      if c < t.splitter then Reach(t.left, s, i, flags, prefix)
      else if c > t.splitter then Reach(t.right, s, i, flags, prefix)
      else if i + 1 < |s| then Reach(t.mid, s, i + 1, flags, prefix)
      else t
  }

  /**
   * A live node the search does not stop at carries the last character of
   * the string: `_TT_search` leaves the loop there on a match at the end.
   */
  lemma {:induction false} ReachLastChar(t: TNode, s: seq<Char>, i: nat, flags: Flags, prefix: bool)
    requires i < |s|
    ensures !Stops(Reach(t, s, i, flags, prefix), prefix) ==> Reach(t, s, i, flags, prefix).splitter == Fold(flags, s[|s| - 1])
    decreases |s| - i, t
  {
    if !Stops(t, prefix) {
      var c := Fold(flags, s[i]);
      if c < t.splitter {
        ReachLastChar(t.left, s, i, flags, prefix);
      } else if c > t.splitter {
        ReachLastChar(t.right, s, i, flags, prefix);
      } else if i + 1 < |s| {
        ReachLastChar(t.mid, s, i + 1, flags, prefix);
      }
    }
  }

  /** `_TT_search`: the node the loop stops at if it holds a key, NULL otherwise. */
  function Found(t: TNode, s: seq<Char>, flags: Flags): (r: TNode)
    ensures r.Nil? || Keyed(r)
  {
    var p := Reach(t, s, 0, flags, false);
    if Keyed(p) then p else Nil
  }

  /** The two strings agree from character `i` on, once folded. */
  predicate SameFolded(s: seq<Char>, u: seq<Char>, i: nat, flags: Flags)
  {
    |s| == |u| && forall j :: i <= j < |s| ==> Fold(flags, s[j]) == Fold(flags, u[j])
  }

  /** Two strings that agree once folded are followed down the same path. */
  lemma {:induction false} ReachFolded(t: TNode, s: seq<Char>, u: seq<Char>, i: nat, flags: Flags, prefix: bool)
    requires SameFolded(s, u, i, flags) && i <= |s|
    ensures Reach(t, s, i, flags, prefix) == Reach(t, u, i, flags, prefix)
    decreases |s| - i, t
  {
    if i < |s| && !Stops(t, prefix) {
      var c := Fold(flags, s[i]);
      if c < t.splitter {
        ReachFolded(t.left, s, u, i, flags, prefix);
      } else if c > t.splitter {
        ReachFolded(t.right, s, u, i, flags, prefix);
      } else if i + 1 < |s| {
        ReachFolded(t.mid, s, u, i + 1, flags, prefix);
      }
    }
  }

  /**
   * The tree with the node `Reach` stops at replaced by `n`: how a change
   * made through the node address a search returned shows in the tree.
   */
  function Replace(t: TNode, s: seq<Char>, i: nat, flags: Flags, n: TNode): (r: TNode)
    ensures Count(r) + Count(Reach(t, s, i, flags, false)) == Count(t) + Count(n)
    ensures KeyCount(r) + KeyCount(Reach(t, s, i, flags, false)) == KeyCount(t) + KeyCount(n)
    decreases |s| - i, t
  {
    if i >= |s| || Stops(t, false) then n
    else
      var c := Fold(flags, s[i]);
      if c < t.splitter then t.(left := Replace(t.left, s, i, flags, n))
      else if c > t.splitter then t.(right := Replace(t.right, s, i, flags, n))
      else if i + 1 < |s| then t.(mid := Replace(t.mid, s, i + 1, flags, n))
      else n
  }

  /** After the replacement the same search stops at the new node. */
  lemma {:induction false} ReachReplaced(t: TNode, s: seq<Char>, i: nat, flags: Flags, n: TNode)
    requires Keyed(Reach(t, s, i, flags, false)) && n.Node? && n.splitter == Reach(t, s, i, flags, false).splitter
    ensures Reach(Replace(t, s, i, flags, n), s, i, flags, false) == n
    decreases |s| - i, t
  {
    if i < |s| && !Stops(t, false) {
      var c := Fold(flags, s[i]);
      if c < t.splitter {
        ReachReplaced(t.left, s, i, flags, n);
      } else if c > t.splitter {
        ReachReplaced(t.right, s, i, flags, n);
      } else if i + 1 < |s| {
        ReachReplaced(t.mid, s, i + 1, flags, n);
      }
    }
  }

  // ---------------------------------------------------------------------
  // Insertion
  // ---------------------------------------------------------------------

  /**
   * Which allocations succeed during one insertion: all of them, or the
   * first `n` (node allocations and the key's `Strdup` counted together).
   */
  datatype Alloc = Unlimited | FailAfter(n: nat)

  predicate Granted(a: Alloc)
  {
    a.Unlimited? || a.n > 0
  }

  function Next(a: Alloc): Alloc
  {
    if a.Unlimited? || a.n == 0 then a else FailAfter(a.n - 1)
  }

  /**
   * What `_TT_insert` hands back: the node to store in the slot (NULL on
   * failure), and how it moved `tree->nodes`, `tree->keys` and the
   * destructor.
   */
  datatype Insertion = Insertion(node: TNode, nodesAdded: nat, keysAdded: nat, released: seq<Data>)

  /**
   * Whether `_TT_insert` goes on to the next character after matching
   * character `pos`.  As written (`signedEnd`) the test is
   * `*(s + pos + 1) > 0` on a signed `char`, so a negative character ends
   * the string; the intended test is `!= 0`.
   */
  predicate Continues(s: seq<Char>, pos: nat, signedEnd: bool)
  {
    pos + 1 < |s| && (!signedEnd || s[pos + 1] > 0)
  }

  /**
   * The node `_TT_insert` works on: a live node as it is; for a NULL slot or
   * a blank node, a bare node for the character at the given depth, holding
   * no key, no data and no children.  Unless the character is NUL the
   * result is never blank, and it keeps the order, the key count and the
   * key/data invariant of an ordered slot.
   */
  function Prepared(t: TNode, c: Char, depth: Size): (n: TNode)
    ensures n.Node?
    ensures t.Node? && !Blank(t) ==> n == t
    ensures t.Nil? || Blank(t) ==> n.splitter == c && n.depth == depth && n.data.None? && Count(n) == 1 && KeyCount(n) == 0
    ensures c != 0 ==> !Blank(n)
    ensures Ordered(t) ==> Ordered(n) && KeyCount(n) == KeyCount(t)
    ensures WellKeyed(t) ==> WellKeyed(n)
  {
    if t.Nil? || Blank(t) then Node(c, None, None, depth, Nil, Nil, Nil) else t
  }

  /**
   * `_TT_insert`: a NULL slot gets a fresh node (failing if it cannot be
   * allocated) and a blank node is reused; then the insertion goes left,
   * right or, on a match, to `mid` for the next character.  At the last
   * character the node gets a copy of the whole string as its key unless
   * it has one (failing, and answering NULL, if the copy cannot be
   * allocated) and, under `T_INSERT_REPLACE`, the data, the old data going
   * to the destructor.  A failed child insertion stores NULL in the child.
   */
  function Ins(t: TNode, s: seq<Char>, pos: nat, data: Ptr, flags: Flags, hasDestructor: bool,
               depth: Size, a: Alloc, signedEnd: bool): (r: Insertion)
    requires pos < |s|
    decreases |s| - pos, t
  {
    var c := Fold(flags, s[pos]);
    if t.Nil? && !Granted(a) then Insertion(Nil, 0, 0, [])
    else
      var n := Prepared(t, c, depth);
      var created := if t.Nil? then 1 else 0;
      var a1 := if t.Nil? then Next(a) else a;
      if c < n.splitter then
        var sub := Ins(n.left, s, pos, data, flags, hasDestructor, SizeInc(depth), a1, signedEnd);
        Insertion(n.(left := sub.node), created + sub.nodesAdded, sub.keysAdded, sub.released)
      else if c > n.splitter then
        var sub := Ins(n.right, s, pos, data, flags, hasDestructor, SizeInc(depth), a1, signedEnd);
        Insertion(n.(right := sub.node), created + sub.nodesAdded, sub.keysAdded, sub.released)
      else if Continues(s, pos, signedEnd) then
        var sub := Ins(n.mid, s, pos + 1, data, flags, hasDestructor, SizeInc(depth), a1, signedEnd);
        Insertion(n.(mid := sub.node), created + sub.nodesAdded, sub.keysAdded, sub.released)
      else if n.key.None? && !Granted(a1) then
        Insertion(Nil, created, 0, [])
      else
        var keyed := if n.key.None? then n.(key := Some(s)) else n;
        var added := if n.key.None? then 1 else 0;
        if Has(flags, InsertReplace) then
          Insertion(keyed.(data := data), created, added, Released(hasDestructor, n.data))
        else
          Insertion(keyed, created, added, [])
  }

  /**
   * One insertion allocates at most one node per remaining character and
   * adds at most one key; it passes at most one data to the destructor, and
   * none without `T_INSERT_REPLACE`.  With every allocation granted it
   * never hands back NULL.
   */
  lemma {:induction false} InsBounds(t: TNode, s: seq<Char>, pos: nat, data: Ptr, flags: Flags, hasDestructor: bool,
                                     depth: Size, a: Alloc, signedEnd: bool)
    requires pos < |s|
    ensures var r := Ins(t, s, pos, data, flags, hasDestructor, depth, a, signedEnd);
            && (a.Unlimited? ==> r.node.Node?)
            && r.nodesAdded <= |s| - pos && r.keysAdded <= 1
            && |r.released| <= 1 && (!Has(flags, InsertReplace) ==> r.released == [])
    decreases |s| - pos, t
  {
    var c := Fold(flags, s[pos]);
    if !(t.Nil? && !Granted(a)) {
      var n := Prepared(t, c, depth);
      var a1 := if t.Nil? then Next(a) else a;
      var d := SizeInc(depth);
      if c < n.splitter {
        InsBounds(n.left, s, pos, data, flags, hasDestructor, d, a1, signedEnd);
      } else if c > n.splitter {
        InsBounds(n.right, s, pos, data, flags, hasDestructor, d, a1, signedEnd);
      } else if Continues(s, pos, signedEnd) {
        InsBounds(n.mid, s, pos + 1, data, flags, hasDestructor, d, a1, signedEnd);
      }
    }
  }

  /**
   * With every allocation granted, the string can be found where it was
   * inserted: the search stops at a keyed node, holding the new data under
   * `T_INSERT_REPLACE`.  The key count grows exactly when the search did
   * not find the string before, and then the key is the inserted string;
   * the destructor gets the data the node held before, under replace.  As
   * written this needs plain-ASCII strings.
   */
  lemma {:induction false} InsFinds(t: TNode, s: seq<Char>, pos: nat, data: Ptr, flags: Flags, hasDestructor: bool,
                                    depth: Size, signedEnd: bool)
    requires pos < |s| && CString(s) && (!signedEnd || Positive(s))
    ensures var r := Ins(t, s, pos, data, flags, hasDestructor, depth, Unlimited, signedEnd);
            var before := Reach(t, s, pos, flags, false);
            var after := Reach(r.node, s, pos, flags, false);
            && Keyed(after)
            && (Has(flags, InsertReplace) ==> after.data == data)
            && (!Has(flags, InsertReplace) && Keyed(before) ==> after.data == before.data)
            && r.keysAdded == (if Keyed(before) then 0 else 1)
            && after.key == (if Keyed(before) then before.key else Some(s))
            && r.released == (if Has(flags, InsertReplace) && before.Node? && !Blank(before) then Released(hasDestructor, before.data) else [])
            && (!Has(flags, InsertReplace) && !Keyed(before) ==> after.data == (if before.Node? && !Blank(before) then before.data else None))
    decreases |s| - pos, t
  {
    var c := Fold(flags, s[pos]);
    var n := Prepared(t, c, depth);
    var r := Ins(t, s, pos, data, flags, hasDestructor, depth, Unlimited, signedEnd);
    var d := SizeInc(depth);
    InsShape(t, s, pos, data, flags, hasDestructor, depth, Unlimited, signedEnd);
    ReachStep(r.node, s, pos, flags);
    ReachStep(n, s, pos, flags);
    if c < n.splitter {
      InsFinds(n.left, s, pos, data, flags, hasDestructor, d, signedEnd);
    } else if c > n.splitter {
      InsFinds(n.right, s, pos, data, flags, hasDestructor, d, signedEnd);
    } else if Continues(s, pos, signedEnd) {
      InsFinds(n.mid, s, pos + 1, data, flags, hasDestructor, d, signedEnd);
    } else {
      assert pos + 1 == |s|;
    }
  }

  /** `struct _TT_Data`: a key and its data; `{ NULL, NULL }` ends an array of them. */
  datatype TTData = TTData(key: Option<seq<Char>>, data: Ptr)

  /** What a search for `u` from character `i` yields: the key and data found, or `{ NULL, NULL }`. */
  function Get(t: TNode, u: seq<Char>, i: nat, flags: Flags): (r: TTData)
    ensures r.key.Some? <==> Keyed(Reach(t, u, i, flags, false))
  {
    var p := Reach(t, u, i, flags, false);
    if Keyed(p) then TTData(p.key, p.data) else TTData(None, None)
  }

  /**
   * With every allocation granted, inserting `s` changes what no other
   * string finds: a string that differs from `s` once folded gets the same
   * key and data as before.
   */
  lemma {:induction false} InsKeepsOthers(t: TNode, s: seq<Char>, u: seq<Char>, pos: nat, data: Ptr, flags: Flags,
                                          hasDestructor: bool, depth: Size, signedEnd: bool)
    requires pos < |s| && CString(s) && (!signedEnd || Positive(s))
    requires pos < |u| && !SameFolded(s, u, pos, flags)
    ensures Get(Ins(t, s, pos, data, flags, hasDestructor, depth, Unlimited, signedEnd).node, u, pos, flags) == Get(t, u, pos, flags)
    decreases |s| - pos, t
  {
    var c := Fold(flags, s[pos]);
    var n := Prepared(t, c, depth);
    var r := Ins(t, s, pos, data, flags, hasDestructor, depth, Unlimited, signedEnd).node;
    var cu := Fold(flags, u[pos]);
    InsShape(t, s, pos, data, flags, hasDestructor, depth, Unlimited, signedEnd);
    GetStep(r, u, pos, flags);
    GetStep(n, u, pos, flags);
    if n != t {
      GetUnchanged(t, n, u, pos, flags);
    }
    if c < n.splitter {
      if cu < n.splitter {
        InsKeepsOthers(n.left, s, u, pos, data, flags, hasDestructor, SizeInc(depth), signedEnd);
      }
    } else if c > n.splitter {
      if cu > n.splitter {
        InsKeepsOthers(n.right, s, u, pos, data, flags, hasDestructor, SizeInc(depth), signedEnd);
      }
    } else if Continues(s, pos, signedEnd) {
      if cu == c && pos + 1 < |u| {
        InsKeepsOthers(n.mid, s, u, pos + 1, data, flags, hasDestructor, SizeInc(depth), signedEnd);
      }
    } else {
      assert pos + 1 == |s|;
    }
  }

  /**
   * What `_TT_insert` stores in the slot once it has a node to work on (the
   * old one, or a fresh one for NULL or a blank node): that node with the
   * one child it recursed into replaced, or at the last character that node
   * with only key and data changed, or NULL when the key cannot be copied.
   */
  lemma InsShape(t: TNode, s: seq<Char>, pos: nat, data: Ptr, flags: Flags, hasDestructor: bool,
                 depth: Size, a: Alloc, signedEnd: bool)
    requires pos < |s| && CString(s) && !(t.Nil? && !Granted(a))
    ensures var c := Fold(flags, s[pos]);
            var n := Prepared(t, c, depth);
            var a1 := if t.Nil? then Next(a) else a;
            var created := if t.Nil? then 1 else 0;
            var d := SizeInc(depth);
            var r := Ins(t, s, pos, data, flags, hasDestructor, depth, a, signedEnd);
            && !Blank(n) && n.Node?
            && (c < n.splitter ==>
                  var sub := Ins(n.left, s, pos, data, flags, hasDestructor, d, a1, signedEnd);
                  r == Insertion(n.(left := sub.node), created + sub.nodesAdded, sub.keysAdded, sub.released))
            && (c > n.splitter ==>
                  var sub := Ins(n.right, s, pos, data, flags, hasDestructor, d, a1, signedEnd);
                  r == Insertion(n.(right := sub.node), created + sub.nodesAdded, sub.keysAdded, sub.released))
            && (c == n.splitter && Continues(s, pos, signedEnd) ==>
                  var sub := Ins(n.mid, s, pos + 1, data, flags, hasDestructor, d, a1, signedEnd);
                  r == Insertion(n.(mid := sub.node), created + sub.nodesAdded, sub.keysAdded, sub.released))
            && (c == n.splitter && !Continues(s, pos, signedEnd) && (n.key.Some? || Granted(a1)) ==>
                  && r.node.Node? && r.node.key.Some? && r.node.splitter == n.splitter
                  && r.node.left == n.left && r.node.mid == n.mid && r.node.right == n.right
                  && r.nodesAdded == created && r.keysAdded == (if n.key.None? then 1 else 0)
                  && r.node.key == (if n.key.None? then Some(s) else n.key)
                  && r.node.data == (if Has(flags, InsertReplace) then data else n.data)
                  && r.released == (if Has(flags, InsertReplace) then Released(hasDestructor, n.data) else []))
            && (c == n.splitter && !Continues(s, pos, signedEnd) && !(n.key.Some? || Granted(a1)) ==>
                  r == Insertion(Nil, created, 0, []))
  {
  }

  /** One step of `_TT_search` at a node it does not stop at. */
  lemma ReachStep(t: TNode, s: seq<Char>, i: nat, flags: Flags)
    requires i < |s| && t.Node? && !Blank(t)
    ensures Reach(t, s, i, flags, false) ==
              var c := Fold(flags, s[i]);
              if c < t.splitter then Reach(t.left, s, i, flags, false)
              else if c > t.splitter then Reach(t.right, s, i, flags, false)
              else if i + 1 < |s| then Reach(t.mid, s, i + 1, flags, false)
              else t
  {
  }

  /** A blank node or NULL finds nothing, like the fresh node that replaces it. */
  lemma GetUnchanged(t: TNode, n: TNode, u: seq<Char>, i: nat, flags: Flags)
    requires i < |u|
    requires n.Node? && n.splitter != 0 && n.key.None? && n.left.Nil? && n.mid.Nil? && n.right.Nil?
    requires t.Nil? || Blank(t)
    ensures Get(t, u, i, flags) == Get(n, u, i, flags) == TTData(None, None)
  {
    GetStep(n, u, i, flags);
    GetStep(Nil, u, i, flags);
    if i + 1 < |u| {
      GetStep(Nil, u, i + 1, flags);
    }
  }

  /** One step of a search at a node it does not stop at. */
  lemma GetStep(t: TNode, u: seq<Char>, i: nat, flags: Flags)
    requires i < |u|
    ensures t.Nil? ==> Get(t, u, i, flags) == TTData(None, None)
    ensures t.Node? && !Blank(t) ==>
              (Get(t, u, i, flags) ==
                 var cu := Fold(flags, u[i]);
                 if cu < t.splitter then Get(t.left, u, i, flags)
                 else if cu > t.splitter then Get(t.right, u, i, flags)
                 else if i + 1 < |u| then Get(t.mid, u, i + 1, flags)
                 else if Keyed(t) then TTData(t.key, t.data)
                 else TTData(None, None))
  {
  }

  /** With every allocation granted, a string found before an insertion is found after it. */
  lemma InsKeepsFound(t: TNode, s: seq<Char>, u: seq<Char>, data: Ptr, flags: Flags, hasDestructor: bool,
                      depth: Size, signedEnd: bool)
    requires 0 < |s| && CString(s) && (!signedEnd || Positive(s)) && 0 < |u|
    requires Keyed(Reach(t, u, 0, flags, false))
    ensures Keyed(Reach(Ins(t, s, 0, data, flags, hasDestructor, depth, Unlimited, signedEnd).node, u, 0, flags, false))
  {
    var r := Ins(t, s, 0, data, flags, hasDestructor, depth, Unlimited, signedEnd);
    if SameFolded(s, u, 0, flags) {
      ReachFolded(r.node, s, u, 0, flags, false);
      InsFinds(t, s, 0, data, flags, hasDestructor, depth, signedEnd);
    } else {
      InsKeepsOthers(t, s, u, 0, data, flags, hasDestructor, depth, signedEnd);
    }
  }

  // ---------------------------------------------------------------------
  // Counting, and what `_TT_destroy` hands to the destructor
  // ---------------------------------------------------------------------

  /** The nodes of a subtree, every one that `_TT_destroy` would visit. */
  function Count(t: TNode): (r: nat)
    ensures r == 0 <==> t.Nil?
  {
    if t.Nil? then 0 else 1 + Count(t.left) + Count(t.mid) + Count(t.right)
  }

  /** The nodes of a subtree that carry a key. */
  function KeyCount(t: TNode): (r: nat)
    ensures r <= Count(t)
  {
    if t.Nil? then 0 else (if Keyed(t) then 1 else 0) + KeyCount(t.left) + KeyCount(t.mid) + KeyCount(t.right)
  }

  /**
   * `_TT_destroy`'s calls of the destructor: the subtrees left, mid and right
   * first, then the node's own data if it has any.
   */
  function DestroyLog(hasDestructor: bool, t: TNode): (r: seq<Data>)
    ensures |r| <= Count(t)
    ensures !hasDestructor ==> r == []
  {
    if t.Nil? then []
    else DestroyLog(hasDestructor, t.left) + DestroyLog(hasDestructor, t.mid) + DestroyLog(hasDestructor, t.right)
         + Released(hasDestructor, t.data)
  }

  // ---------------------------------------------------------------------
  // The ordering invariant
  // ---------------------------------------------------------------------

  /**
   * The characters a search compares at one position: the nonzero
   * splitters of a node and of the nodes reached from it by `left` and
   * `right`.
   */
  function Level(t: TNode): (r: set<Char>)
    ensures 0 !in r
    ensures t.Nil? ==> r == {}
  {
    if t.Nil? then {}
    else (if t.splitter == 0 then {} else {t.splitter}) + Level(t.left) + Level(t.right)
  }

  /**
   * What `_TT_insert` and the deletions keep: at every node, the `left`
   * side compares below the splitter and the `right` side above it; a
   * node without splitter is a bare, childless node.
   */
  predicate Ordered(t: TNode)
  {
    t.Nil? ||
    (&& (t.splitter == 0 ==> t.key.None? && t.left.Nil? && t.mid.Nil? && t.right.Nil?)
     && (forall c :: c in Level(t.left) ==> c < t.splitter)
     && (forall c :: c in Level(t.right) ==> c > t.splitter)
     && Ordered(t.left) && Ordered(t.mid) && Ordered(t.right))
  }

  /**
   * Insertion keeps the order whatever allocations fail, and at the
   * position it starts from adds at most the inserted character.
   */
  lemma {:induction false} OrderedIns(t: TNode, s: seq<Char>, pos: nat, data: Ptr, flags: Flags, hasDestructor: bool,
                                      depth: Size, a: Alloc, signedEnd: bool)
    requires pos < |s| && CString(s) && Ordered(t)
    ensures var r := Ins(t, s, pos, data, flags, hasDestructor, depth, a, signedEnd).node;
            Ordered(r) && Level(r) <= Level(t) + {Fold(flags, s[pos])}
    decreases |s| - pos, t
  {
    var c := Fold(flags, s[pos]);
    if !(t.Nil? && !Granted(a)) {
      var n := Prepared(t, c, depth);
      var a1 := if t.Nil? then Next(a) else a;
      var d := SizeInc(depth);
      InsShape(t, s, pos, data, flags, hasDestructor, depth, a, signedEnd);
      assert Ordered(n) && Level(n) <= Level(t) + {c};
      if c < n.splitter {
        OrderedIns(n.left, s, pos, data, flags, hasDestructor, d, a1, signedEnd);
        OrderedChild(n, Ins(n.left, s, pos, data, flags, hasDestructor, d, a1, signedEnd).node, n.mid, n.right, c);
      } else if c > n.splitter {
        OrderedIns(n.right, s, pos, data, flags, hasDestructor, d, a1, signedEnd);
        OrderedChild(n, n.left, n.mid, Ins(n.right, s, pos, data, flags, hasDestructor, d, a1, signedEnd).node, c);
      } else if Continues(s, pos, signedEnd) {
        OrderedIns(n.mid, s, pos + 1, data, flags, hasDestructor, d, a1, signedEnd);
        OrderedChild(n, n.left, Ins(n.mid, s, pos + 1, data, flags, hasDestructor, d, a1, signedEnd).node, n.right, c);
      }
    }
  }

  /** A node whose children are replaced by ordered ones that add at most `c` on the side `c` lies on stays ordered. */
  lemma OrderedChild(n: TNode, l: TNode, m: TNode, r: TNode, c: Char)
    requires Ordered(n) && n.Node? && n.splitter != 0 && Ordered(l) && Ordered(m) && Ordered(r)
    requires Level(l) <= Level(n.left) + (if c < n.splitter then {c} else {})
    requires Level(r) <= Level(n.right) + (if c > n.splitter then {c} else {})
    ensures Ordered(n.(left := l, mid := m, right := r))
    ensures Level(n.(left := l, mid := m, right := r)) <= Level(n) + {c}
  {
  }

  /**
   * With every allocation granted, insertion adds exactly the nodes and
   * keys it reports, the counts `tree->nodes` and `tree->keys` grow by.
   */
  lemma InsCounts(t: TNode, s: seq<Char>, pos: nat, data: Ptr, flags: Flags, hasDestructor: bool,
                  depth: Size, signedEnd: bool)
    requires pos < |s| && CString(s) && Ordered(t)
    ensures var r := Ins(t, s, pos, data, flags, hasDestructor, depth, Unlimited, signedEnd);
            && Count(r.node) == Count(t) + r.nodesAdded
            && KeyCount(r.node) == KeyCount(t) + r.keysAdded
  {
    InsNodeCount(t, s, pos, data, flags, hasDestructor, depth, signedEnd);
    InsKeyCount(t, s, pos, data, flags, hasDestructor, depth, signedEnd);
  }

  lemma {:induction false} InsNodeCount(t: TNode, s: seq<Char>, pos: nat, data: Ptr, flags: Flags, hasDestructor: bool,
                                        depth: Size, signedEnd: bool)
    requires pos < |s| && CString(s) && Ordered(t)
    ensures var r := Ins(t, s, pos, data, flags, hasDestructor, depth, Unlimited, signedEnd);
            Count(r.node) == Count(t) + r.nodesAdded
    decreases |s| - pos, t
  {
    var c := Fold(flags, s[pos]);
    var n := Prepared(t, c, depth);
    var d := SizeInc(depth);
    InsShape(t, s, pos, data, flags, hasDestructor, depth, Unlimited, signedEnd);
    assert Count(n) == Count(t) + (if t.Nil? then 1 else 0);
    if c < n.splitter {
      InsNodeCount(n.left, s, pos, data, flags, hasDestructor, d, signedEnd);
    } else if c > n.splitter {
      InsNodeCount(n.right, s, pos, data, flags, hasDestructor, d, signedEnd);
    } else if Continues(s, pos, signedEnd) {
      InsNodeCount(n.mid, s, pos + 1, data, flags, hasDestructor, d, signedEnd);
    }
  }

  lemma {:induction false} InsKeyCount(t: TNode, s: seq<Char>, pos: nat, data: Ptr, flags: Flags, hasDestructor: bool,
                                       depth: Size, signedEnd: bool)
    requires pos < |s| && CString(s) && Ordered(t)
    ensures var r := Ins(t, s, pos, data, flags, hasDestructor, depth, Unlimited, signedEnd);
            KeyCount(r.node) == KeyCount(t) + r.keysAdded
    decreases |s| - pos, t
  {
    var c := Fold(flags, s[pos]);
    var n := Prepared(t, c, depth);
    var d := SizeInc(depth);
    InsShape(t, s, pos, data, flags, hasDestructor, depth, Unlimited, signedEnd);
    assert KeyCount(n) == KeyCount(t);
    if c < n.splitter {
      InsKeyCount(n.left, s, pos, data, flags, hasDestructor, d, signedEnd);
    } else if c > n.splitter {
      InsKeyCount(n.right, s, pos, data, flags, hasDestructor, d, signedEnd);
    } else if Continues(s, pos, signedEnd) {
      InsKeyCount(n.mid, s, pos + 1, data, flags, hasDestructor, d, signedEnd);
    }
  }

  /**
   * Replacing the node a search stops at by one with the same order and
   * no more characters at its position keeps the whole tree ordered.
   */
  lemma {:induction false} OrderedReplace(t: TNode, s: seq<Char>, i: nat, flags: Flags, n: TNode)
    requires Ordered(t) && Ordered(n)
    requires Level(n) <= Level(Reach(t, s, i, flags, false))
    ensures Ordered(Replace(t, s, i, flags, n))
    ensures Level(Replace(t, s, i, flags, n)) <= Level(t)
    decreases |s| - i, t
  {
    if i < |s| && !Stops(t, false) {
      var c := Fold(flags, s[i]);
      if c < t.splitter {
        OrderedReplace(t.left, s, i, flags, n);
      } else if c > t.splitter {
        OrderedReplace(t.right, s, i, flags, n);
      } else if i + 1 < |s| {
        OrderedReplace(t.mid, s, i + 1, flags, n);
      }
    }
  }

  // ---------------------------------------------------------------------
  // Keys and the paths that lead to them
  // ---------------------------------------------------------------------

  /**
   * Every key stored in the subtree reached after the folded characters `p`
   * spells, once folded, the path to its node: `p`, the characters matched
   * below, and the node's splitter.
   */
  predicate KeysMatch(t: TNode, p: seq<Char>, flags: Flags)
  {
    t.Nil? ||
    (&& (t.key.Some? ==> FoldAll(flags, t.key.value) == p + [t.splitter])
     && KeysMatch(t.left, p, flags) && KeysMatch(t.right, p, flags)
     && KeysMatch(t.mid, p + [t.splitter], flags))
  }

  /**
   * Every stored key is a non-empty C string, as `TT_insert` accepts them,
   * and a node without a key holds no data.
   */
  predicate WellKeyed(t: TNode)
  {
    t.Nil? ||
    (&& (t.key.Some? ==> |t.key.value| > 0 && CString(t.key.value))
     && (t.key.None? ==> t.data.None?)
     && WellKeyed(t.left) && WellKeyed(t.mid) && WellKeyed(t.right))
  }

  /** Every node a search passes is well keyed. */
  lemma {:induction false} WellKeyedReach(t: TNode, s: seq<Char>, i: nat, flags: Flags, prefix: bool)
    requires WellKeyed(t)
    ensures WellKeyed(Reach(t, s, i, flags, prefix))
    decreases |s| - i, t
  {
    if i < |s| && !Stops(t, prefix) {
      var c := Fold(flags, s[i]);
      if c < t.splitter {
        WellKeyedReach(t.left, s, i, flags, prefix);
      } else if c > t.splitter {
        WellKeyedReach(t.right, s, i, flags, prefix);
      } else if i + 1 < |s| {
        WellKeyedReach(t.mid, s, i + 1, flags, prefix);
      }
    }
  }

  /**
   * Where `__TT_lookup` stops for a prefix, the `mid` subtree holds keys on
   * paths that extend the whole prefix.
   */
  lemma LookupReach(t: TNode, s: seq<Char>, i: nat, flags: Flags)
    requires i < |s| && Ordered(t) && KeysMatch(t, FoldAll(flags, s[..i]), flags)
    ensures var r := Reach(t, s, i, flags, true);
            r.Node? && r.mid.Node? ==> Ordered(r.mid) && KeysMatch(r.mid, FoldAll(flags, s), flags)
  {
    OrderedReach(t, s, i, flags, true);
    MatchReach(t, s, i, flags);
  }

  /**
   * A prefix search that does not stop at a terminal node ends on the last
   * character, and the `mid` subtree there extends the whole folded prefix.
   */
  lemma {:induction false} MatchReach(t: TNode, s: seq<Char>, i: nat, flags: Flags)
    requires i < |s| && KeysMatch(t, FoldAll(flags, s[..i]), flags)
    ensures var r := Reach(t, s, i, flags, true);
            !Stops(r, true) ==> KeysMatch(r.mid, FoldAll(flags, s), flags)
    decreases |s| - i, t
  {
    if !Stops(t, true) {
      var c := Fold(flags, s[i]);
      if c < t.splitter {
        MatchReach(t.left, s, i, flags);
      } else if c > t.splitter {
        MatchReach(t.right, s, i, flags);
      } else {
        FoldAllSnoc(flags, s, i);
        if i + 1 < |s| {
          MatchReach(t.mid, s, i + 1, flags);
        } else {
          assert s[..i + 1] == s;
        }
      }
    }
  }

  /**
   * Under `T_NOCASE` two strings that differ only in the case of ASCII
   * letters find the same node; without it only equal strings do.
   */
  lemma CaseInsensitive(t: TNode, s: seq<Char>, u: seq<Char>, flags: Flags)
    requires |s| == |u|
    requires Has(flags, NoCase) ==> forall j :: 0 <= j < |s| ==> ToLower(s[j]) == ToLower(u[j])
    requires !Has(flags, NoCase) ==> s == u
    ensures Found(t, s, flags) == Found(t, u, flags)
  {
    ReachFolded(t, s, u, 0, flags, false);
  }

  lemma FoldAllSnoc(flags: Flags, s: seq<Char>, i: nat)
    requires i < |s|
    ensures FoldAll(flags, s[..i + 1]) == FoldAll(flags, s[..i]) + [Fold(flags, s[i])]
  {
    var a := FoldAll(flags, s[..i + 1]);
    var b := FoldAll(flags, s[..i]) + [Fold(flags, s[i])];
    assert |a| == |b|;
    forall j | 0 <= j < |a|
      ensures a[j] == b[j]
    {
      if j < i {
        assert s[..i + 1][j] == s[..i][j];
      }
    }
  }

  /**
   * Insertion keeps keys on their paths whatever allocations fail, provided
   * the string is plain ASCII or the end test is the intended `!= 0`.
   */
  lemma {:induction false} InsKeysMatch(t: TNode, s: seq<Char>, pos: nat, data: Ptr, flags: Flags, hasDestructor: bool,
                                        depth: Size, a: Alloc, signedEnd: bool)
    requires pos < |s| && CString(s) && (!signedEnd || Positive(s))
    requires KeysMatch(t, FoldAll(flags, s[..pos]), flags)
    ensures KeysMatch(Ins(t, s, pos, data, flags, hasDestructor, depth, a, signedEnd).node, FoldAll(flags, s[..pos]), flags)
    decreases |s| - pos, t
  {
    var c := Fold(flags, s[pos]);
    if !(t.Nil? && !Granted(a)) {
      var n := Prepared(t, c, depth);
      var a1 := if t.Nil? then Next(a) else a;
      var d := SizeInc(depth);
      InsShape(t, s, pos, data, flags, hasDestructor, depth, a, signedEnd);
      FoldAllSnoc(flags, s, pos);
      var p := FoldAll(flags, s[..pos]);
      var r := Ins(t, s, pos, data, flags, hasDestructor, depth, a, signedEnd);
      KeysMatchReused(t, c, depth, p, flags);
      if c < n.splitter {
        InsKeysMatch(n.left, s, pos, data, flags, hasDestructor, d, a1, signedEnd);
        KeysMatchNode(n.(left := Ins(n.left, s, pos, data, flags, hasDestructor, d, a1, signedEnd).node), p, flags);
      } else if c > n.splitter {
        InsKeysMatch(n.right, s, pos, data, flags, hasDestructor, d, a1, signedEnd);
        KeysMatchNode(n.(right := Ins(n.right, s, pos, data, flags, hasDestructor, d, a1, signedEnd).node), p, flags);
      } else if Continues(s, pos, signedEnd) {
        InsKeysMatch(n.mid, s, pos + 1, data, flags, hasDestructor, d, a1, signedEnd);
        KeysMatchNode(n.(mid := Ins(n.mid, s, pos + 1, data, flags, hasDestructor, d, a1, signedEnd).node), p, flags);
      } else {
        assert pos + 1 == |s| && s[..pos + 1] == s;
        if r.node.Node? {
          KeysMatchNode(r.node, p, flags);
        }
      }
    }
  }

  /** A node whose children and key are on their paths is itself on its path. */
  lemma KeysMatchNode(m: TNode, p: seq<Char>, flags: Flags)
    requires m.Node? && KeysMatch(m.left, p, flags) && KeysMatch(m.right, p, flags)
    requires KeysMatch(m.mid, p + [m.splitter], flags)
    requires m.key.Some? ==> FoldAll(flags, m.key.value) == p + [m.splitter]
    ensures KeysMatch(m, p, flags)
  {
  }

  /** The node `_TT_insert` works on, fresh, reused or found, keeps its keys on their paths. */
  lemma KeysMatchReused(t: TNode, c: Char, depth: Size, p: seq<Char>, flags: Flags)
    requires KeysMatch(t, p, flags)
    ensures var n := Prepared(t, c, depth);
            && KeysMatch(n.left, p, flags) && KeysMatch(n.right, p, flags)
            && KeysMatch(n.mid, p + [n.splitter], flags)
            && (n.key.Some? ==> FoldAll(flags, n.key.value) == p + [n.splitter])
  {
  }

  /** Insertion stores only the string itself as a new key. */
  lemma {:induction false} InsWellKeyed(t: TNode, s: seq<Char>, pos: nat, data: Ptr, flags: Flags, hasDestructor: bool,
                                        depth: Size, a: Alloc, signedEnd: bool)
    requires pos < |s| && CString(s) && WellKeyed(t)
    ensures WellKeyed(Ins(t, s, pos, data, flags, hasDestructor, depth, a, signedEnd).node)
    decreases |s| - pos, t
  {
    var c := Fold(flags, s[pos]);
    if !(t.Nil? && !Granted(a)) {
      var n := Prepared(t, c, depth);
      var a1 := if t.Nil? then Next(a) else a;
      var d := SizeInc(depth);
      InsShape(t, s, pos, data, flags, hasDestructor, depth, a, signedEnd);
      if c < n.splitter {
        InsWellKeyed(n.left, s, pos, data, flags, hasDestructor, d, a1, signedEnd);
      } else if c > n.splitter {
        InsWellKeyed(n.right, s, pos, data, flags, hasDestructor, d, a1, signedEnd);
      } else if Continues(s, pos, signedEnd) {
        InsWellKeyed(n.mid, s, pos + 1, data, flags, hasDestructor, d, a1, signedEnd);
      }
    }
  }

  /** A key a search finds spells, once folded, the string searched for. */
  lemma {:induction false} FoundKeyMatches(t: TNode, s: seq<Char>, i: nat, flags: Flags)
    requires i < |s| && KeysMatch(t, FoldAll(flags, s[..i]), flags)
    requires Keyed(Reach(t, s, i, flags, false))
    ensures FoldAll(flags, Reach(t, s, i, flags, false).key.value) == FoldAll(flags, s)
    decreases |s| - i, t
  {
    var c := Fold(flags, s[i]);
    FoldAllSnoc(flags, s, i);
    if c < t.splitter {
      FoundKeyMatches(t.left, s, i, flags);
    } else if c > t.splitter {
      FoundKeyMatches(t.right, s, i, flags);
    } else if i + 1 < |s| {
      FoundKeyMatches(t.mid, s, i + 1, flags);
    } else {
      assert s[..i + 1] == s;
    }
  }

  // ---------------------------------------------------------------------
  // Deletion through the node a search returns
  // ---------------------------------------------------------------------

  /** The node as `TT_del_key` leaves it: key and data cleared. */
  function Unkeyed(t: TNode): (r: TNode)
    requires t.Node?
    ensures r.Node? && !Keyed(r) && r.splitter == t.splitter && Level(r) == Level(t)
    ensures r.left == t.left && r.mid == t.mid && r.right == t.right && r.depth == t.depth
  {
    t.(key := None, data := None)
  }

  /** Every node a search passes keeps the order. */
  lemma {:induction false} OrderedReach(t: TNode, s: seq<Char>, i: nat, flags: Flags, prefix: bool)
    requires Ordered(t)
    ensures Ordered(Reach(t, s, i, flags, prefix))
    decreases |s| - i, t
  {
    if i < |s| && !Stops(t, prefix) {
      var c := Fold(flags, s[i]);
      if c < t.splitter {
        OrderedReach(t.left, s, i, flags, prefix);
      } else if c > t.splitter {
        OrderedReach(t.right, s, i, flags, prefix);
      } else if i + 1 < |s| {
        OrderedReach(t.mid, s, i + 1, flags, prefix);
      }
    }
  }

  /** Clearing the found node's key, or zeroing it, keeps every remaining key on its path. */
  lemma {:induction false} KeysMatchReplace(t: TNode, s: seq<Char>, i: nat, flags: Flags, p: seq<Char>, n: TNode)
    requires Keyed(Reach(t, s, i, flags, false)) && KeysMatch(t, p, flags)
    requires n == Zeroed || n == Unkeyed(Reach(t, s, i, flags, false))
    ensures KeysMatch(Replace(t, s, i, flags, n), p, flags)
    decreases |s| - i, t
  {
    if i < |s| && !Stops(t, false) {
      var c := Fold(flags, s[i]);
      if c < t.splitter {
        KeysMatchReplace(t.left, s, i, flags, p, n);
      } else if c > t.splitter {
        KeysMatchReplace(t.right, s, i, flags, p, n);
      } else if i + 1 < |s| {
        KeysMatchReplace(t.mid, s, i + 1, flags, p + [t.splitter], n);
      }
    }
  }

  /** Clearing the found node's key, or zeroing it, keeps every key a non-empty C string. */
  lemma {:induction false} WellKeyedReplace(t: TNode, s: seq<Char>, i: nat, flags: Flags, n: TNode)
    requires Keyed(Reach(t, s, i, flags, false)) && WellKeyed(t)
    requires n == Zeroed || n == Unkeyed(Reach(t, s, i, flags, false))
    ensures WellKeyed(Replace(t, s, i, flags, n))
    decreases |s| - i, t
  {
    if i < |s| && !Stops(t, false) {
      var c := Fold(flags, s[i]);
      if c < t.splitter {
        WellKeyedReplace(t.left, s, i, flags, n);
      } else if c > t.splitter {
        WellKeyedReplace(t.right, s, i, flags, n);
      } else if i + 1 < |s| {
        WellKeyedReplace(t.mid, s, i + 1, flags, n);
      }
    }
  }

  /**
   * Clearing the key of the node a search for `s` finds changes what no
   * other string finds.
   */
  lemma {:induction false} ReplaceKeepsOthers(t: TNode, s: seq<Char>, u: seq<Char>, i: nat, flags: Flags, n: TNode)
    requires i < |s| && CString(s) && Keyed(Reach(t, s, i, flags, false))
    requires n == Unkeyed(Reach(t, s, i, flags, false))
    requires i < |u| && !SameFolded(s, u, i, flags)
    ensures Get(Replace(t, s, i, flags, n), u, i, flags) == Get(t, u, i, flags)
    decreases |s| - i, t
  {
    var c := Fold(flags, s[i]);
    var cu := Fold(flags, u[i]);
    var r := Replace(t, s, i, flags, n);
    GetStep(t, u, i, flags);
    GetStep(r, u, i, flags);
    if c < t.splitter {
      if cu < t.splitter {
        ReplaceKeepsOthers(t.left, s, u, i, flags, n);
      }
    } else if c > t.splitter {
      if cu > t.splitter {
        ReplaceKeepsOthers(t.right, s, u, i, flags, n);
      }
    } else if i + 1 < |s| {
      if cu == c && i + 1 < |u| {
        ReplaceKeepsOthers(t.mid, s, u, i + 1, flags, n);
      }
    } else {
      assert r == n;
      GetStep(n, u, i, flags);
    }
  }

  /**
   * After the found node's key is cleared, or the node zeroed, searching
   * for the same string finds nothing.
   */
  lemma ReplaceForgets(t: TNode, s: seq<Char>, flags: Flags, n: TNode)
    requires Keyed(Reach(t, s, 0, flags, false))
    requires n == Zeroed || n == Unkeyed(Reach(t, s, 0, flags, false))
    ensures Found(Replace(t, s, 0, flags, n), s, flags) == Nil
  {
    var R := Reach(t, s, 0, flags, false);
    if n == Zeroed {
      ZeroedStops(t, s, 0, flags);
    } else {
      ReachReplaced(t, s, 0, flags, n);
    }
  }

  /** A search that reaches the zeroed node stops there. */
  lemma {:induction false} ZeroedStops(t: TNode, s: seq<Char>, i: nat, flags: Flags)
    requires Keyed(Reach(t, s, i, flags, false))
    ensures Reach(Replace(t, s, i, flags, Zeroed), s, i, flags, false) == Zeroed
    decreases |s| - i, t
  {
    if i < |s| && !Stops(t, false) {
      var c := Fold(flags, s[i]);
      if c < t.splitter {
        ZeroedStops(t.left, s, i, flags);
      } else if c > t.splitter {
        ZeroedStops(t.right, s, i, flags);
      } else if i + 1 < |s| {
        ZeroedStops(t.mid, s, i + 1, flags);
      }
    }
  }

  /**
   * `_TT_destroy` lowers `tree->keys` once per destroyed node.  Deleting the
   * node of "a" from a tree holding "a" and "abc" (three nodes, two keys)
   * takes `keys` from 2 below zero, to 2^64 - 1, while no key is left.
   */
  lemma DelNodeMiscountsKeys(flags: Flags)
    ensures var c := Node(99, Some([97, 98, 99]), None, 3, Nil, Nil, Nil);
            var t := Node(97, Some([97]), None, 1, Nil, Node(98, None, None, 2, Nil, c, Nil), Nil);
            var R := Found(t, [97], flags);
            && R == t && KeyCount(t) == 2 && Count(R) == 3
            && SizeSub(KeyCount(t), Count(R)) == SizeModulus - 1
            && KeyCount(Replace(t, [97], 0, flags, Zeroed)) == 0
  {
  }

  /**
   * Lowering the key count by the keys of the destroyed subtree, rather
   * than by its nodes, keeps `tree->keys` equal to the keys stored.
   */
  lemma DestroyCountsKeys(t: TNode, s: seq<Char>, flags: Flags, keys: Size)
    requires Keyed(Reach(t, s, 0, flags, false)) && keys == KeyCount(t)
    ensures SizeSub(keys, KeyCount(Reach(t, s, 0, flags, false))) == KeyCount(Replace(t, s, 0, flags, Zeroed))
  {
  }

  /**
   * `_TT_destroy` also follows `left` and `right`, so deleting the node of
   * "a" also removes "b", stored to its right, which shares no prefix with
   * it.
   */
  lemma DelNodeDropsSiblings(flags: Flags)
    ensures var t := Node(97, Some([97]), None, 1, Nil, Nil, Node(98, Some([98]), None, 1, Nil, Nil, Nil));
            && Keyed(Found(t, [98], flags))
            && Found(Replace(t, [97], 0, flags, Zeroed), [98], flags) == Nil
  {
  }

  /**
   * The node `TT_del_node` evidently means to delete: the found node loses
   * its key, its data and the strings that continue it (`mid`), and keeps
   * the siblings it only links to through `left` and `right`.
   */
  function Pruned(t: TNode): (r: TNode)
    requires t.Node?
    ensures r.Node? && !Keyed(r) && r.mid.Nil? && r.splitter == t.splitter
    ensures r.left == t.left && r.right == t.right && Level(r) == Level(t)
  {
    t.(key := None, data := None, mid := Nil)
  }

  /** `u` is `s` or continues it, once folded, from character `i` on. */
  predicate FoldedExtends(u: seq<Char>, s: seq<Char>, i: nat, flags: Flags)
  {
    |s| <= |u| && forall j :: i <= j < |s| ==> Fold(flags, u[j]) == Fold(flags, s[j])
  }

  /**
   * Deleting the found node by pruning it changes what no string finds
   * except `s` and the strings continuing it: the siblings stay found.
   */
  lemma {:induction false} PrunedKeepsSiblings(t: TNode, s: seq<Char>, u: seq<Char>, i: nat, flags: Flags, n: TNode)
    requires i < |s| && CString(s) && Keyed(Reach(t, s, i, flags, false))
    requires n == Pruned(Reach(t, s, i, flags, false))
    requires i < |u| && !FoldedExtends(u, s, i, flags)
    ensures Get(Replace(t, s, i, flags, n), u, i, flags) == Get(t, u, i, flags)
    decreases |s| - i, t
  {
    var c := Fold(flags, s[i]);
    var cu := Fold(flags, u[i]);
    var r := Replace(t, s, i, flags, n);
    GetStep(t, u, i, flags);
    GetStep(r, u, i, flags);
    if c < t.splitter {
      if cu < t.splitter {
        PrunedKeepsSiblings(t.left, s, u, i, flags, n);
      }
    } else if c > t.splitter {
      if cu > t.splitter {
        PrunedKeepsSiblings(t.right, s, u, i, flags, n);
      }
    } else if i + 1 < |s| {
      if cu == c && i + 1 < |u| {
        PrunedKeepsSiblings(t.mid, s, u, i + 1, flags, n);
      }
    } else {
      assert r == n;
      GetStep(n, u, i, flags);
    }
  }

  /** After pruning, the deleted string is not found. */
  lemma PrunedForgets(t: TNode, s: seq<Char>, flags: Flags)
    requires Keyed(Reach(t, s, 0, flags, false))
    ensures Found(Replace(t, s, 0, flags, Pruned(Reach(t, s, 0, flags, false))), s, flags) == Nil
  {
    ReachReplaced(t, s, 0, flags, Pruned(Reach(t, s, 0, flags, false)));
  }

  /** On the tree where the code loses "b", pruning the node of "a" keeps "b". */
  lemma PrunedKeepsB(flags: Flags)
    ensures var t := Node(97, Some([97]), None, 1, Nil, Nil, Node(98, Some([98]), None, 1, Nil, Nil, Nil));
            Found(Replace(t, [97], 0, flags, Pruned(Found(t, [97], flags))), [98], flags) == Found(t, [98], flags)
  {
    var t := Node(97, Some([97]), None, 1, Nil, Nil, Node(98, Some([98]), None, 1, Nil, Nil, Nil));
    PrunedKeepsSiblings(t, [97], [98], 0, flags, Pruned(t));
  }

  /**
   * As written the end test `*(s + pos + 1) > 0` reads a negative `char`
   * as the end of the string: inserting "a" followed by byte 0xC3 stores
   * it on the node for "a", where searching for it does not look.
   */
  lemma SignedEndLosesKey(data: Ptr, flags: Flags, hasDestructor: bool)
    ensures var s: seq<Char> := [97, -61];
            var r := Ins(Nil, s, 0, data, flags, hasDestructor, 1, Unlimited, true);
            && CString(s) && r.keysAdded == 1
            && Found(r.node, s, flags) == Nil
            && Found(r.node, [97], flags).key == Some(s)
  {
    var s: seq<Char> := [97, -61];
    var r := Ins(Nil, s, 0, data, flags, hasDestructor, 1, Unlimited, true);
    assert Fold(flags, 97) == 97 && Fold(flags, -61) == -61;
    assert !Continues(s, 0, true);
    assert r.node.Node? && r.node.splitter == 97 && r.node.key == Some(s) && r.node.mid == Nil;
    assert Reach(r.node, s, 0, flags, false) == Reach(Nil, s, 1, flags, false) == Nil;
    assert Reach(r.node, [97], 0, flags, false) == r.node;
  }

  /**
   * With the end test `!= 0`, every C string can be found once inserted,
   * and the key count grows exactly when it could not be found before.
   */
  lemma InsFindsCString(t: TNode, s: seq<Char>, data: Ptr, flags: Flags, hasDestructor: bool)
    requires 0 < |s| && CString(s)
    ensures var r := Ins(t, s, 0, data, flags, hasDestructor, 1, Unlimited, false);
            && Keyed(Found(r.node, s, flags))
            && r.keysAdded == (if Keyed(Found(t, s, flags)) then 0 else 1)
  {
    InsFinds(t, s, 0, data, flags, hasDestructor, 1, false);
  }
}
