/**
 * ttree.c, walks: the three orders `_TT_walk`, `_TT_walk_asc` and
 * `_TT_walk_desc` visit the nodes in, the ordering of the keys the ascending
 * walk meets, and `_TT_data`/`_TS_data`, which copy the keyed nodes a walk
 * visits into a bounded array.
 */
module TernaryWalk {
  import opened Common
  import opened TernaryNode
  import N = AvlNode

  /** `_TT_walk`: left, mid and right subtrees, then the node. */
  function PostOrder(t: TNode): (r: seq<TNode>)
    ensures |r| == Count(t)
    ensures forall k :: 0 <= k < |r| ==> r[k].Node?
  {
    if t.Nil? then [] else PostOrder(t.left) + PostOrder(t.mid) + PostOrder(t.right) + [t]
  }

  /** `_TT_walk_asc`: left subtree, the node, mid and right subtrees. */
  function Asc(t: TNode): (r: seq<TNode>)
    ensures |r| == Count(t)
    ensures forall k :: 0 <= k < |r| ==> r[k].Node?
  {
    if t.Nil? then [] else Asc(t.left) + [t] + Asc(t.mid) + Asc(t.right)
  }

  /** `_TT_walk_desc`: right and mid subtrees, the node, left subtree. */
  function Desc(t: TNode): (r: seq<TNode>)
    ensures |r| == Count(t)
  {
    if t.Nil? then [] else Desc(t.right) + Desc(t.mid) + [t] + Desc(t.left)
  }

  /** The descending walk is the ascending walk backwards. */
  lemma {:induction false} DescIsReverse(t: TNode)
    ensures Desc(t) == N.Reverse(Asc(t))
  {
    if t.Node? {
      var l, m, r := Asc(t.left), Asc(t.mid), Asc(t.right);
      DescIsReverse(t.left);
      DescIsReverse(t.mid);
      DescIsReverse(t.right);
      assert Asc(t) == (l + [t] + m) + r;
      assert Desc(t) == Desc(t.right) + Desc(t.mid) + [t] + Desc(t.left);
      ReverseOfFour(l, t, m, r);
    }
  }

  lemma ReverseOfFour(l: seq<TNode>, t: TNode, m: seq<TNode>, r: seq<TNode>)
    ensures N.Reverse(l + [t] + m + r) == N.Reverse(r) + N.Reverse(m) + [t] + N.Reverse(l)
  {
    N.ReverseAppend(l + [t] + m, r);
    N.ReverseAppend(l + [t], m);
    N.ReverseAppend(l, [t]);
    assert N.Reverse([t]) == [t] by {
      assert [t][1..] == [];
    }
  }

  /** The post-order walk and the ascending walk visit the same nodes. */
  lemma {:induction false} WalksVisitSameNodes(t: TNode)
    ensures multiset(PostOrder(t)) == multiset(Asc(t))
  {
    if t.Node? {
      WalksVisitSameNodes(t.left);
      WalksVisitSameNodes(t.mid);
      WalksVisitSameNodes(t.right);
    }
  }

  // ---------------------------------------------------------------------
  // The keyed nodes a walk meets
  // ---------------------------------------------------------------------

  /** The visits on which `_TT_data` and `_TS_data` copy something: those of keyed nodes, in order. */
  function KeyedNodes(v: seq<TNode>): (r: seq<TNode>)
    ensures |r| <= |v|
    ensures forall k :: 0 <= k < |r| ==> Keyed(r[k])
  {
    if v == [] then []
    else KeyedNodes(v[..|v| - 1]) + (if Keyed(v[|v| - 1]) then [v[|v| - 1]] else [])
  }

  lemma {:induction false} KeyedNodesAppend(a: seq<TNode>, b: seq<TNode>)
    ensures KeyedNodes(a + b) == KeyedNodes(a) + KeyedNodes(b)
    decreases |b|
  {
    if b == [] {
      assert a + b == a;
    } else {
      assert (a + b)[..|a + b| - 1] == a + b[..|b| - 1];
      KeyedNodesAppend(a, b[..|b| - 1]);
    }
  }

  /** The ascending walk meets every keyed node of the subtree once. */
  lemma {:induction false} KeyedAscCount(t: TNode)
    ensures |KeyedNodes(Asc(t))| == KeyCount(t)
  {
    if t.Node? {
      KeyedAscCount(t.left);
      KeyedAscCount(t.mid);
      KeyedAscCount(t.right);
      KeyedNodesAppend(Asc(t.left) + [t] + Asc(t.mid), Asc(t.right));
      KeyedNodesAppend(Asc(t.left) + [t], Asc(t.mid));
      KeyedNodesAppend(Asc(t.left), [t]);
      assert KeyedNodes([t]) == (if Keyed(t) then [t] else []) by {
        assert [t][..0] == [];
      }
    }
  }

  /** The folded texts of the keys of keyed nodes. */
  function Texts(ks: seq<TNode>, flags: Flags): (r: seq<seq<Char>>)
    ensures |r| == |ks|
    ensures forall k :: 0 <= k < |ks| ==> Keyed(ks[k]) ==> r[k] == FoldAll(flags, ks[k].key.value)
  {
    seq(|ks|, k requires 0 <= k < |ks| => if Keyed(ks[k]) then FoldAll(flags, ks[k].key.value) else [])
  }

  lemma TextsAppend(a: seq<TNode>, b: seq<TNode>, flags: Flags)
    ensures Texts(a + b, flags) == Texts(a, flags) + Texts(b, flags)
  {
  }

  // ---------------------------------------------------------------------
  // Lexicographic order
  // ---------------------------------------------------------------------

  /** `a` comes strictly before `b`: a smaller character where they first differ, or a proper prefix. */
  predicate Less(a: seq<Char>, b: seq<Char>)
    decreases |a|
  {
    |b| > 0 && (|a| == 0 || a[0] < b[0] || (a[0] == b[0] && Less(a[1..], b[1..])))
  }

  lemma {:induction false} LessAt(a: seq<Char>, b: seq<Char>, k: nat)
    requires k < |a| && k < |b| && a[..k] == b[..k] && a[k] < b[k]
    ensures Less(a, b)
    decreases k
  {
    if k > 0 {
      assert a[0] == a[..k][0] == b[..k][0] == b[0];
      assert a[1..][..k - 1] == a[1..k] == a[..k][1..];
      assert b[1..][..k - 1] == b[1..k] == b[..k][1..];
      LessAt(a[1..], b[1..], k - 1);
    }
  }

  lemma {:induction false} LessPrefix(a: seq<Char>, b: seq<Char>)
    requires |a| < |b| && b[..|a|] == a
    ensures Less(a, b)
    decreases |a|
  {
    if |a| > 0 {
      assert a[0] == b[..|a|][0] == b[0];
      assert b[1..][..|a| - 1] == b[1..|a|] == b[..|a|][1..];
      LessPrefix(a[1..], b[1..]);
    }
  }

  /** Strictly increasing in the lexicographic order. */
  predicate Sorted(xs: seq<seq<Char>>)
  {
    forall i, j :: 0 <= i < j < |xs| ==> Less(xs[i], xs[j])
  }

  lemma SortedAppend(a: seq<seq<Char>>, b: seq<seq<Char>>)
    requires Sorted(a) && Sorted(b)
    requires forall x, y :: x in a && y in b ==> Less(x, y)
    ensures Sorted(a + b)
  {
    var c := a + b;
    forall i, j | 0 <= i < j < |c|
      ensures Less(c[i], c[j])
    {
      if j < |a| {
        assert c[i] == a[i] && c[j] == a[j];
      } else if i >= |a| {
        assert c[i] == b[i - |a|] && c[j] == b[j - |a|];
      } else {
        assert c[i] in a && c[j] in b;
      }
    }
  }

  /** Every text extends `p` by one of the characters `lv`, and possibly more. */
  predicate Extends(xs: seq<seq<Char>>, p: seq<Char>, lv: set<Char>)
  {
    forall x :: x in xs ==> |x| > |p| && x[..|p|] == p && x[|p|] in lv
  }

  lemma ExtendsAppend(a: seq<seq<Char>>, b: seq<seq<Char>>, p: seq<Char>, la: set<Char>, lb: set<Char>)
    requires Extends(a, p, la) && Extends(b, p, lb)
    ensures Extends(a + b, p, la + lb)
  {
  }

  lemma ExtendsWiden(a: seq<seq<Char>>, p: seq<Char>, la: set<Char>, lb: set<Char>)
    requires Extends(a, p, la) && la <= lb
    ensures Extends(a, p, lb)
  {
  }

  /** Texts that extend `p + [c]` extend `p` by `c`. */
  lemma ExtendsMid(m: seq<seq<Char>>, p: seq<Char>, c: Char, lv: set<Char>)
    requires Extends(m, p + [c], lv)
    ensures Extends(m, p, {c})
    ensures forall x :: x in m ==> |x| > |p| + 1 && x[..|p| + 1] == p + [c]
  {
    forall x | x in m
      ensures |x| > |p| && x[..|p|] == p && x[|p|] == c
    {
      assert x[..|p|] == x[..|p| + 1][..|p|];
      assert x[|p|] == x[..|p| + 1][|p|];
    }
  }

  /** The node's own key, if any, is `p` extended by its splitter. */
  lemma ExtendsSelf(t: TNode, p: seq<Char>, flags: Flags)
    requires t.Node? && (t.key.Some? ==> FoldAll(flags, t.key.value) == p + [t.splitter])
    ensures Extends(Texts(KeyedNodes([t]), flags), p, {t.splitter})
    ensures forall x :: x in Texts(KeyedNodes([t]), flags) ==> x == p + [t.splitter]
  {
    assert [t][..0] == [];
    assert (p + [t.splitter])[..|p|] == p;
  }

  /** Every text of `a` is below every text of `b` when they part at position `|p|`. */
  lemma LessAcross(a: seq<seq<Char>>, b: seq<seq<Char>>, p: seq<Char>, la: set<Char>, lb: set<Char>)
    requires Extends(a, p, la) && Extends(b, p, lb)
    requires forall ca, cb :: ca in la && cb in lb ==> ca < cb
    ensures forall x, y :: x in a && y in b ==> Less(x, y)
  {
    forall x, y | x in a && y in b
      ensures Less(x, y)
    {
      LessAt(x, y, |p|);
    }
  }

  /**
   * The folded keys the ascending walk of a subtree meets, when the keys
   * match their paths: each extends the path `p` by a character the
   * subtree compares at that position.
   */
  lemma {:induction false} AscShape(t: TNode, p: seq<Char>, flags: Flags)
    requires Ordered(t) && KeysMatch(t, p, flags)
    ensures Extends(Texts(KeyedNodes(Asc(t)), flags), p, Level(t))
  {
    if t.Node? {
      var c := t.splitter;
      var L := Texts(KeyedNodes(Asc(t.left)), flags);
      var S := Texts(KeyedNodes([t]), flags);
      var M := Texts(KeyedNodes(Asc(t.mid)), flags);
      var R := Texts(KeyedNodes(Asc(t.right)), flags);
      AscShape(t.left, p, flags);
      AscShape(t.mid, p + [c], flags);
      AscShape(t.right, p, flags);
      AscTexts(t, flags);
      ExtendsSelf(t, p, flags);
      ExtendsMid(M, p, c, Level(t.mid));
      if c == 0 {
        assert S == [] && M == [] && L == [] && R == [];
      } else {
        ExtendsAppend(L, S, p, Level(t.left), {c});
        ExtendsAppend(L + S, M, p, Level(t.left) + {c}, {c});
        ExtendsAppend(L + S + M, R, p, Level(t.left) + {c} + {c}, Level(t.right));
        ExtendsWiden(L + S + M + R, p, Level(t.left) + {c} + {c} + Level(t.right), Level(t));
      }
    }
  }

  /** The folded keys the ascending walk of a node meets, part by part. */
  lemma AscTexts(t: TNode, flags: Flags)
    requires t.Node?
    ensures Texts(KeyedNodes(Asc(t)), flags)
            == Texts(KeyedNodes(Asc(t.left)), flags) + Texts(KeyedNodes([t]), flags)
               + Texts(KeyedNodes(Asc(t.mid)), flags) + Texts(KeyedNodes(Asc(t.right)), flags)
  {
    KeyedNodesAppend(Asc(t.left) + [t] + Asc(t.mid), Asc(t.right));
    KeyedNodesAppend(Asc(t.left) + [t], Asc(t.mid));
    KeyedNodesAppend(Asc(t.left), [t]);
    var l, m, r := KeyedNodes(Asc(t.left)), KeyedNodes(Asc(t.mid)), KeyedNodes(Asc(t.right));
    TextsAppend(l + KeyedNodes([t]) + m, r, flags);
    TextsAppend(l + KeyedNodes([t]), m, flags);
    TextsAppend(l, KeyedNodes([t]), flags);
  }

  /**
   * `TT_data`'s order: in a subtree whose keys match their paths, the
   * ascending walk meets the keys in strictly increasing lexicographic
   * order of their folded characters.
   */
  lemma {:induction false} AscSorted(t: TNode, p: seq<Char>, flags: Flags)
    requires Ordered(t) && KeysMatch(t, p, flags)
    ensures Sorted(Texts(KeyedNodes(Asc(t)), flags))
  {
    if t.Node? {
      var c := t.splitter;
      var L := Texts(KeyedNodes(Asc(t.left)), flags);
      var S := Texts(KeyedNodes([t]), flags);
      var M := Texts(KeyedNodes(Asc(t.mid)), flags);
      var R := Texts(KeyedNodes(Asc(t.right)), flags);
      AscSorted(t.left, p, flags);
      AscSorted(t.mid, p + [c], flags);
      AscSorted(t.right, p, flags);
      AscShape(t.left, p, flags);
      AscShape(t.mid, p + [c], flags);
      AscShape(t.right, p, flags);
      AscTexts(t, flags);
      ExtendsSelf(t, p, flags);
      ExtendsMid(M, p, c, Level(t.mid));
      SortedParts(L, S, M, R, p, c, Level(t.left), Level(t.right));
    }
  }

  /**
   * Texts below `p + [c]`, then `p + [c]` itself, then texts extending it,
   * then texts above it, each part sorted, are sorted.
   */
  lemma SortedParts(L: seq<seq<Char>>, S: seq<seq<Char>>, M: seq<seq<Char>>, R: seq<seq<Char>>,
                    p: seq<Char>, c: Char, ll: set<Char>, lr: set<Char>)
    requires Sorted(L) && Sorted(M) && Sorted(R) && |S| <= 1
    requires Extends(L, p, ll) && Extends(R, p, lr) && Extends(S, p, {c}) && Extends(M, p, {c})
    requires forall x :: x in S ==> x == p + [c]
    requires forall x :: x in M ==> |x| > |p| + 1 && x[..|p| + 1] == p + [c]
    requires forall x :: x in ll ==> x < c
    requires forall x :: x in lr ==> x > c
    ensures Sorted(L + S + M + R)
  {
    forall x, y | x in S && y in M
      ensures Less(x, y)
    {
      LessPrefix(x, y);
    }
    SortedAppend(S, M);
    ExtendsAppend(S, M, p, {c}, {c});
    LessAcross(S + M, R, p, {c} + {c}, lr);
    SortedAppend(S + M, R);
    ExtendsAppend(S + M, R, p, {c} + {c}, lr);
    LessAcross(L, S + M + R, p, ll, {c} + {c} + lr);
    SortedAppend(L, S + M + R);
    assert L + S + M + R == L + (S + M + R);
  }

  // ---------------------------------------------------------------------
  // Copying the keyed nodes into an array
  // ---------------------------------------------------------------------

  /**
   * The walk with `_TT_data` (`f` takes key and data) or `_TS_data` (`f`
   * takes the key) as callback: each keyed node visited is copied to
   * position `idx`, which then grows, while `idx` is below `max`.  The
   * rest of the buffer is left as it was.
   */
  method Collect<T>(visits: seq<TNode>, max: Size, buf: array<T>, f: TNode -> T) returns (count: nat)
    requires Min(max, |KeyedNodes(visits)|) <= buf.Length
    modifies buf
    ensures count == Min(max, |KeyedNodes(visits)|)
    ensures forall k :: 0 <= k < count ==> buf[k] == f(KeyedNodes(visits)[k])
    ensures forall k :: count <= k < buf.Length ==> buf[k] == old(buf[k])
  {
    count := 0;
    var j := 0;
    while j < |visits|
      invariant 0 <= j <= |visits|
      invariant |KeyedNodes(visits[..j])| <= |KeyedNodes(visits)|
      invariant count == Min(max, |KeyedNodes(visits[..j])|)
      invariant forall k :: 0 <= k < count ==> buf[k] == f(KeyedNodes(visits[..j])[k])
      invariant forall k :: count <= k < buf.Length ==> buf[k] == old(buf[k])
    {
      KeyedPrefix(visits, j);
      KeyedPrefix(visits, j + 1);
      if Keyed(visits[j]) && count < max {
        buf[count] := f(visits[j]);
        count := count + 1;
      }
      j := j + 1;
    }
    assert visits[..|visits|] == visits;
  }

  /** The keyed nodes of a prefix of the visits are a prefix of the keyed nodes. */
  lemma KeyedPrefix(v: seq<TNode>, j: nat)
    requires j <= |v|
    ensures j < |v| ==> KeyedNodes(v[..j + 1]) == KeyedNodes(v[..j]) + (if Keyed(v[j]) then [v[j]] else [])
    ensures |KeyedNodes(v[..j])| <= |KeyedNodes(v)|
  {
    if j < |v| {
      var w := v[..j + 1];
      assert w[..|w| - 1] == v[..j] && w[|w| - 1] == v[j];
    }
    KeyedNodesAppend(v[..j], v[j..]);
    assert v[..j] + v[j..] == v;
  }
}
