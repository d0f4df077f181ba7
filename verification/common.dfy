/**
 * Definitions shared by every container of the "trees" library: optional
 * values, opaque user data, the creation flags, the error codes kept by the
 * AVL tree, and the fixed-width integers the C code computes with.
 */
module Common {

  datatype Option<T> = None | Some(value: T)

  /** Opaque user data handed to a container (`void *` in the library). */
  datatype Data = Data(handle: nat)

  /** A data pointer; `None` is NULL. */
  type Ptr = Option<Data>

  type Byte = x: int | 0 <= x < 0x100

  type UInt32 = x: int | 0 <= x < 0x1_0000_0000

  /** `int` on the library's targets: 32-bit two's complement. */
  type Int32 = x: int | -0x8000_0000 <= x < 0x8000_0000

  /** `size_t` on the library's 64-bit targets. */
  const SizeModulus: int := 0x1_0000_0000_0000_0000

  type Size = x: int | 0 <= x < SizeModulus

  /** `char` on the library's targets: signed, 8 bits. */
  type Char = x: int | -0x80 <= x < 0x80

  /** The text of a C string: the characters before its terminating NUL. */
  predicate CString(s: seq<Char>)
  {
    forall i :: 0 <= i < |s| ==> s[i] != 0
  }

  /** `x + 1` on `size_t`, wrapping at 2^64. */
  function SizeInc(x: Size): (r: Size)
    ensures r == (x + 1) % SizeModulus
  {
    if x == SizeModulus - 1 then 0 else x + 1
  }

  /** `x - 1` on `size_t`, wrapping below zero. */
  function SizeDec(x: Size): (r: Size)
    ensures (r + 1) % SizeModulus == x
    ensures x > 0 ==> r == x - 1
  {
    if x == 0 then SizeModulus - 1 else x - 1
  }

  /** `x + n` on `size_t`: `n` increments, wrapping at 2^64. */
  function SizeAdd(x: Size, n: nat): (r: Size)
    ensures SizeSub(r, n) == x
    ensures x + n < SizeModulus ==> r == x + n
  {
    (x + n) % SizeModulus
  }

  /** `x - n` on `size_t`: `n` decrements, wrapping below zero. */
  function SizeSub(x: Size, n: nat): (r: Size)
    ensures (r + n) % SizeModulus == x
    ensures n <= x ==> r == x - n
  {
    (x - n) % SizeModulus
  }

  /** A C `int` value converted from a wider integer (two's-complement wrap). */
  function Int32Of(x: int): (r: Int32)
    ensures (r - x) % 0x1_0000_0000 == 0
  {
    var m := x % 0x1_0000_0000;
    if m < 0x8000_0000 then m else m - 0x1_0000_0000
  }

  /** `Tree_Flags` from tree.h; a set of bits. */
  type Flags = bv32

  const InsertReplace: Flags := 1
  const DestroyOnFail: Flags := 2
  const FreeDefault: Flags := 4
  const NoCase: Flags := 1024
  const InsertFast: Flags := 2096

  /** `flags & f` taken as a C condition. */
  predicate Has(flags: Flags, f: Flags)
  {
    flags & f != 0
  }

  /**
   * A container has a destructor when the caller passes one or, failing
   * that, when `T_FREE_DEFAULT` selects the library's default `T_Free`.
   */
  predicate HasDestructor(flags: Flags, destructorGiven: bool)
  {
    destructorGiven || Has(flags, FreeDefault)
  }

  /** `Tree_Error`, the status an AVL tree records after each operation. */
  datatype TreeError = NoError | NotFound | KeyFound | Memory

  /**
   * What one "if destructor and data then destructor(data)" step passes to the
   * destructor: nothing when there is no destructor or the data is NULL.
   */
  function Released(hasDestructor: bool, p: Ptr): (r: seq<Data>)
    ensures |r| <= 1
    ensures r != [] <==> hasDestructor && p.Some?
    ensures r != [] ==> r[0] == p.value
  {
    if hasDestructor && p.Some? then [p.value] else []
  }

  /** An upper-case ASCII letter. */
  predicate IsUpper(c: Char)
  {
    'A' as int <= c <= 'Z' as int
  }

  /**
   * `tolower` in the C locale: the result is never an upper-case letter, an
   * upper-case letter becomes the lower-case letter at the same place in the
   * alphabet, and every other character (NUL among them) is left as it is.
   * So applying it twice changes nothing more.
   */
  function ToLower(c: Char): (r: Char)
    ensures !IsUpper(r)
    ensures !IsUpper(c) ==> r == c
    ensures IsUpper(c) ==> 'a' as int <= r <= 'z' as int && r - 'a' as int == c - 'A' as int
  {
    if IsUpper(c) then c + 32 else c
  }

  function Max(a: nat, b: nat): (r: nat)
    ensures r >= a && r >= b && (r == a || r == b)
  {
    if a > b then a else b
  }

  function Min(a: nat, b: nat): (r: nat)
    ensures r <= a && r <= b && (r == a || r == b)
  {
    if a < b then a else b
  }
}
