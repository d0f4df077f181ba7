/**
 * htable.c: a hash table that is one btree.c tree keyed by the CRC-32 of the
 * key bytes.  Replacing is always on, and there is no chaining: keys with
 * the same hash share one node.
 */
module HTable {
  import opened Common
  import N = AvlNode
  import BT = BTree

  /** `struct _HTable`; the hash function is a parameter of the table. */
  class HTable {
    const bt: BT.BTree
    /** `crc32(key, key_size)`. */
    const crc: seq<Byte> -> UInt32

    ghost predicate Valid()
      reads this, bt
    {
      bt.Valid() && Has(bt.flags, InsertReplace)
    }

    /** The data stored under a hash value, or NULL. */
    ghost function Stored(h: UInt32): Ptr
      reads this, bt
    {
      if Int32Of(h) in bt.Contents() then bt.Contents()[Int32Of(h)] else None
    }

    constructor (bt: BT.BTree, crc: seq<Byte> -> UInt32)
      ensures this.bt == bt && this.crc == crc
    {
      this.bt := bt;
      this.crc := crc;
    }

    /**
     * `HT_set`: the data is stored under the key's hash, replacing (and
     * passing to the destructor) whatever any key with the same hash stored;
     * the answer is the hash, or 0 when the tree could not allocate a node.
     */
    method Set(key: seq<Byte>, data: Ptr, allocOk: bool) returns (h: UInt32)
      requires Valid()
      modifies bt
      ensures Valid()
      ensures var slot := Int32Of(crc(key));
              var ok := allocOk || slot in old(bt.Contents());
              && h == (if ok then crc(key) else 0)
              && bt.Contents() == (if ok then old(bt.Contents())[slot := data] else old(bt.Contents()))
              && bt.destroyed == old(bt.destroyed) + (if slot in old(bt.Contents()) then Released(bt.hasDestructor, old(bt.Contents())[slot]) else [])
      ensures allocOk || Int32Of(crc(key)) in old(bt.Contents()) ==>
                forall other :: crc(other) == crc(key) ==> Stored(crc(other)) == data
    {
      var c := crc(key);
      var btn := bt.Insert(c, data, allocOk);
      h := if btn.Some? then c else 0;
    }

    /** `HT_get_k`: the data stored under a hash value, or NULL. */
    method GetK(h: UInt32) returns (p: Ptr)
      requires Valid()
      ensures p == Stored(h)
      ensures p.Some? ==> Int32Of(h) in bt.Contents()
    {
      var btn := bt.Search(h);
      p := if btn.Some? then btn.value.data else None;
    }

    /** `HT_get`: exactly `HT_get_k` of the key's hash. */
    method Get(key: seq<Byte>) returns (p: Ptr)
      requires Valid()
      ensures p == Stored(crc(key))
      ensures forall other :: crc(other) == crc(key) ==> p == Stored(crc(other))
    {
      p := GetK(crc(key));
    }

    /**
     * `HT_delete_k`: the node of the hash value goes, its data to the
     * destructor; the answer is 1 for a non-empty table, 0 for an empty one.
     */
    method DeleteK(h: UInt32) returns (rc: int)
      requires Valid()
      modifies bt
      ensures Valid()
      ensures rc == (if old(bt.head).Nil? then 0 else 1)
      ensures bt.Contents() == old(bt.Contents()) - {Int32Of(h)}
      ensures Stored(h) == None
      ensures bt.destroyed == old(bt.destroyed) + (if Int32Of(h) in old(bt.Contents()) then Released(bt.hasDestructor, old(bt.Contents())[Int32Of(h)]) else [])
    {
      rc := bt.Delete(h);
    }

    /** `HT_delete`: exactly `HT_delete_k` of the key's hash. */
    method Delete(key: seq<Byte>) returns (rc: int)
      requires Valid()
      modifies bt
      ensures Valid()
      ensures rc == (if old(bt.head).Nil? then 0 else 1)
      ensures bt.Contents() == old(bt.Contents()) - {Int32Of(crc(key))}
      ensures Stored(crc(key)) == None
      ensures var slot := Int32Of(crc(key));
              bt.destroyed == old(bt.destroyed) + (if slot in old(bt.Contents()) then Released(bt.hasDestructor, old(bt.Contents())[slot]) else [])
    {
      rc := DeleteK(crc(key));
    }

    /** `HT_clear`: the tree is emptied, every stored data going to the destructor once. */
    method Clear()
      requires Valid()
      modifies bt
      ensures Valid() && bt.head == N.Nil && bt.nodes == 0
      ensures bt.destroyed == old(bt.destroyed) + N.ClearLog(bt.hasDestructor, old(bt.head))
    {
      bt.Clear();
    }

    /** `HT_set_c`: `HT_set` over the bytes before the string's NUL. */
    method SetC(s: seq<Byte>, data: Ptr, allocOk: bool) returns (h: UInt32)
      requires Valid() && 0 in s
      modifies bt
      ensures Valid()
      ensures var slot := Int32Of(crc(s[..StrLen(s)]));
              var ok := allocOk || slot in old(bt.Contents());
              && h == (if ok then crc(s[..StrLen(s)]) else 0)
              && bt.Contents() == (if ok then old(bt.Contents())[slot := data] else old(bt.Contents()))
              && bt.destroyed == old(bt.destroyed) + (if slot in old(bt.Contents()) then Released(bt.hasDestructor, old(bt.Contents())[slot]) else [])
    {
      h := Set(s[..StrLen(s)], data, allocOk);
    }

    /** `HT_get_c`: `HT_get` over the bytes before the string's NUL. */
    method GetC(s: seq<Byte>) returns (p: Ptr)
      requires Valid() && 0 in s
      ensures p == Stored(crc(s[..StrLen(s)]))
    {
      p := Get(s[..StrLen(s)]);
    }

    /** `HT_delete_c`: `HT_delete` over the bytes before the string's NUL. */
    method DeleteC(s: seq<Byte>) returns (rc: int)
      requires Valid() && 0 in s
      modifies bt
      ensures Valid()
      ensures rc == (if old(bt.head).Nil? then 0 else 1)
      ensures bt.Contents() == old(bt.Contents()) - {Int32Of(crc(s[..StrLen(s)]))}
      ensures Stored(crc(s[..StrLen(s)])) == None
      ensures var slot := Int32Of(crc(s[..StrLen(s)]));
              bt.destroyed == old(bt.destroyed) + (if slot in old(bt.Contents()) then Released(bt.hasDestructor, old(bt.Contents())[slot]) else [])
    {
      rc := Delete(s[..StrLen(s)]);
    }

    /** `HT_set_<tag>`: `HT_set` over the `sizeof` bytes of an integer key. */
    method SetInt(t: IntType, x: int, data: Ptr, allocOk: bool) returns (h: UInt32)
      requires Valid() && InRange(t, x)
      modifies bt
      ensures Valid()
      ensures var slot := Int32Of(crc(IntBytes(x, Width(t))));
              var ok := allocOk || slot in old(bt.Contents());
              && h == (if ok then crc(IntBytes(x, Width(t))) else 0)
              && bt.Contents() == (if ok then old(bt.Contents())[slot := data] else old(bt.Contents()))
              && bt.destroyed == old(bt.destroyed) + (if slot in old(bt.Contents()) then Released(bt.hasDestructor, old(bt.Contents())[slot]) else [])
    {
      h := Set(IntBytes(x, Width(t)), data, allocOk);
    }

    /** `HT_get_<tag>`: `HT_get` over the `sizeof` bytes of an integer key. */
    method GetInt(t: IntType, x: int) returns (p: Ptr)
      requires Valid() && InRange(t, x)
      ensures p == Stored(crc(IntBytes(x, Width(t))))
    {
      p := Get(IntBytes(x, Width(t)));
    }

    /** `HT_delete_<tag>`: `HT_delete` over the `sizeof` bytes of an integer key. */
    method DeleteInt(t: IntType, x: int) returns (rc: int)
      requires Valid() && InRange(t, x)
      modifies bt
      ensures Valid()
      ensures rc == (if old(bt.head).Nil? then 0 else 1)
      ensures bt.Contents() == old(bt.Contents()) - {Int32Of(crc(IntBytes(x, Width(t))))}
      ensures Stored(crc(IntBytes(x, Width(t)))) == None
      ensures var slot := Int32Of(crc(IntBytes(x, Width(t))));
              bt.destroyed == old(bt.destroyed) + (if slot in old(bt.Contents()) then Released(bt.hasDestructor, old(bt.Contents())[slot]) else [])
    {
      rc := Delete(IntBytes(x, Width(t)));
    }
  }

  /**
   * `HT_create`: NULL when either the table or its tree cannot be allocated;
   * otherwise a table whose tree always replaces.
   */
  method Create(flags: Flags, destructorGiven: bool, crc: seq<Byte> -> UInt32, tableOk: bool, treeOk: bool)
    returns (ht: HTable?)
    ensures ht != null <==> tableOk && treeOk
    ensures ht != null ==> fresh(ht) && fresh(ht.bt) && ht.Valid() && ht.crc == crc
    ensures ht != null ==> ht.bt.flags == flags | InsertReplace && ht.bt.head == N.Nil
    ensures ht != null ==> ht.bt.hasDestructor == HasDestructor(flags | InsertReplace, destructorGiven)
  {
    if !tableOk {
      return null;
    }
    var bt := BT.Create(flags | InsertReplace, destructorGiven, treeOk);
    if bt == null {
      return null;
    }
    ht := new HTable(bt, crc);
  }

  /** `strlen`: the position of the first NUL. */
  function StrLen(s: seq<Byte>): (n: nat)
    requires 0 in s
    ensures n < |s| && s[n] == 0
    ensures forall i :: 0 <= i < n ==> s[i] != 0
  {
    if s[0] == 0 then 0 else StrLen(s[1..]) + 1
  }

  /** The integer types `HT_INTEGER_IMPL` is instantiated for. */
  datatype IntType = Char | UChar | Short | UShort | Int | UInt | Long | ULong | LLong | ULLong

  /** `sizeof` of each type on the library's 64-bit targets. */
  function Width(t: IntType): nat
  {
    match t
    case Char => 1
    case UChar => 1
    case Short => 2
    case UShort => 2
    case Int => 4
    case UInt => 4
    case _ => 8
  }

  predicate Signed(t: IntType)
  {
    t.Char? || t.Short? || t.Int? || t.Long? || t.LLong?
  }

  function Pow256(n: nat): (p: nat)
    ensures p >= 1
  {
    if n == 0 then 1 else 256 * Pow256(n - 1)
  }

  /** The values of each integer type. */
  predicate InRange(t: IntType, x: int)
  {
    var p: int := Pow256(Width(t));
    if Signed(t) then -(p / 2) <= x < p / 2 else 0 <= x < p
  }

  /** The bytes of `&key` for an integer key: little-endian two's complement. */
  function IntBytes(x: int, width: nat): (r: seq<Byte>)
    ensures |r| == width
    decreases width
  {
    if width == 0 then [] else [x % 256] + IntBytes(x / 256, width - 1)
  }

  /** The unsigned little-endian value of a byte string. */
  function BytesValue(s: seq<Byte>): nat
  {
    if s == [] then 0 else s[0] + 256 * BytesValue(s[1..])
  }

  lemma MulAtLeast(m: int, k: int)
    requires m > 0 && k >= 1
    ensures m * k >= m
  {
  }

  /** Euclidean division has one quotient and one remainder. */
  lemma ModUnique(x: int, m: int, q: int, r: int)
    requires m > 0 && x == m * q + r && 0 <= r < m
    ensures x % m == r && x / m == q
  {
    var q0, r0 := x / m, x % m;
    assert m * (q - q0) == r0 - r;
    if q - q0 >= 1 {
      MulAtLeast(m, q - q0);
    } else if q0 - q >= 1 {
      MulAtLeast(m, q0 - q);
    }
  }

  lemma DivMod256(x: int, p: nat)
    requires p >= 1
    ensures x % 256 + 256 * ((x / 256) % p) == x % (256 * p)
  {
    var q, r := x / 256, x % 256;
    var q2, r2 := q / p, q % p;
    assert q == p * q2 + r2;
    assert x == (256 * p) * q2 + (256 * r2 + r) by {
      assert x == 256 * q + r;
      assert 256 * q == 256 * (p * q2) + 256 * r2;
      assert 256 * (p * q2) == (256 * p) * q2;
    }
    assert 256 * r2 <= 256 * (p - 1);
    ModUnique(x, 256 * p, q2, 256 * r2 + r);
  }

  /** An integer's key bytes read back as the integer modulo 2^(8 * width). */
  lemma {:induction false} IntBytesValue(x: int, width: nat)
    ensures BytesValue(IntBytes(x, width)) == x % Pow256(width)
    decreases width
  {
    if width > 0 {
      IntBytesValue(x / 256, width - 1);
      assert IntBytes(x, width)[1..] == IntBytes(x / 256, width - 1);
      DivMod256(x, Pow256(width - 1));
    }
  }

  /** Two values of one integer type give the same key bytes only when they are equal. */
  lemma IntKeysDistinct(t: IntType, x: int, y: int)
    requires InRange(t, x) && InRange(t, y)
    requires IntBytes(x, Width(t)) == IntBytes(y, Width(t))
    ensures x == y
  {
    IntBytesValue(x, Width(t));
    IntBytesValue(y, Width(t));
    var p := Pow256(Width(t));
    if Signed(t) {
      SignedModInjective(x, y, p);
    } else {
      ModUnique(x, p, 0, x);
      ModUnique(y, p, 0, y);
    }
  }

  lemma SignedModInjective(x: int, y: int, p: int)
    requires p >= 2
    requires -(p / 2) <= x < p / 2 && -(p / 2) <= y < p / 2
    requires x % p == y % p
    ensures x == y
  {
    var d := x / p - y / p;
    ModDifference(x, y, p);
    if d != 0 {
      MulAwayFromZero(p, d);
    }
  }

  /** Two numbers with one remainder differ by a multiple of the modulus. */
  lemma ModDifference(x: int, y: int, p: int)
    requires p > 0 && x % p == y % p
    ensures x - y == p * (x / p - y / p)
  {
    assert x == p * (x / p) + x % p;
    assert y == p * (y / p) + y % p;
  }

  /** A nonzero multiple of a positive number is at least that number away from 0. */
  lemma MulAwayFromZero(m: int, k: int)
    requires m > 0 && k != 0
    ensures m * k >= m || m * k <= -m
  {
    if k >= 1 {
      MulAtLeast(m, k);
    } else {
      MulAtLeast(m, -k);
      assert m * k == -(m * -k);
    }
  }

  /**
   * Keys of different types are not kept apart: the `char` -1 and the
   * `unsigned char` 255 are the same single byte, so they share a slot.
   */
  lemma CharAndUCharShareSlot()
    ensures InRange(Char, -1) && InRange(UChar, 255)
    ensures IntBytes(-1, Width(Char)) == IntBytes(255, Width(UChar)) == [255]
  {
  }
}
