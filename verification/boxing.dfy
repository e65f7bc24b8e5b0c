/**
 * NaN boxing of Lisp values.
 *
 * A Lisp value is one IEEE 754 binary64 word. Numbers are ordinary doubles
 * and stay opaque here; every other value is a quiet NaN whose upper 16 bits
 * hold a tag and whose low bits hold an ordinal (an offset into the atom heap
 * for atoms, a cell index for pairs, closures and macros, a table index for
 * primitives). Words are modelled as naturals below 2^64; the C code
 * reinterprets the double's bits as an unsigned 64-bit integer, so `box`,
 * `T`, `ord` and `equ` are integer arithmetic on that pattern.
 */
module Boxing {
  const TWO16: nat := 0x1_0000
  const TWO32: nat := 0x1_0000_0000
  const TWO48: nat := 0x1_0000_0000_0000
  const TWO64: nat := 0x1_0000_0000_0000_0000

  /** The bit pattern of one binary64 value. */
  type Word = w: nat | w < TWO64

  /** A C `unsigned` (32 bits). */
  type U32 = n: nat | n < TWO32

  // Tags of the interpreters with macros (tinylisp-extras.c, tinylisp-extras-gc.c).
  const ATOM: nat := 0x7ff8
  const PRIM: nat := 0x7ff9
  const CONS: nat := 0x7ffa
  const CLOS: nat := 0x7ffb
  const MACR: nat := 0x7ffc
  const NIL: nat := 0x7ffd
  /** The classic interpreters have no macros and put NIL where MACR sits above. */
  const NIL_CLASSIC: nat := 0x7ffc

  /**
   * `box(t,i)`: the tag, cast to 64 bits and shifted left by 48 (so only its
   * low 16 bits survive), or-ed with the 32-bit ordinal. The two bit ranges do
   * not overlap, so the or is an addition.
   */
  function Box(t: U32, i: U32): (w: Word)
    ensures Tag(w) == t % TWO16 && Ord(w) == i
    ensures w >= TWO48 * (t % TWO16)
  {
    BoxSplit(t % TWO16, i);
    (t % TWO16) * TWO48 + i
  }

  /** `T(x)`: the upper 16 bits. */
  function Tag(w: Word): (t: nat)
    ensures t < TWO16
    ensures TWO48 * t <= w < TWO48 * (t + 1)
  {
    w / TWO48
  }

  /** `ord(x)`: the word truncated to an `unsigned`, that is its low 32 bits. */
  function Ord(w: Word): (i: U32)
    ensures w < TWO32 ==> i == w
  {
    w % TWO32
  }

  /** `ord` keeps the low 32 bits: the word and its ordinal differ by a multiple of 2^32. */
  lemma OrdTruncates(w: Word)
    ensures Ord(w) < TWO32 && (w - Ord(w)) % TWO32 == 0
  {
  }

  /** `equ(x,y)`: equality of the bit patterns (not floating-point equality). */
  predicate Equ(x: Word, y: Word)
  {
    x == y
  }

  lemma BoxSplit(t: nat, i: nat)
    requires t < TWO16 && i < TWO32
    ensures (t * TWO48 + i) / TWO48 == t
    ensures (t * TWO48 + i) % TWO32 == i
    ensures t * TWO48 + i < TWO64
  {
    assert TWO48 == TWO16 * TWO32;
    assert t * TWO48 + i == (t * TWO16) * TWO32 + i;
  }

  /** Tag and ordinal are recovered exactly from a boxed word. */
  lemma BoxRoundTrip(t: U32, i: U32)
    requires t < TWO16
    ensures Tag(Box(t, i)) == t && Ord(Box(t, i)) == i
  {
  }

  /**
   * Two boxed values are `equ` exactly when they carry the same tag and the
   * same ordinal: `equ` on boxed values is structural.
   */
  lemma EquBoxed(t1: U32, i1: U32, t2: U32, i2: U32)
    requires t1 < TWO16 && t2 < TWO16
    ensures Equ(Box(t1, i1), Box(t2, i2)) <==> t1 == t2 && i1 == i2
  {
  }

  /**
   * A word whose ordinal fits its low 32 bits and whose bits 32..47 are zero
   * is the box of its own tag and ordinal. Every word the interpreters build
   * with `box` has this shape.
   */
  predicate Boxed(w: Word)
  {
    (w % TWO48) < TWO32
  }

  lemma UnboxBox(w: Word)
    requires Boxed(w)
    ensures Box(Tag(w), Ord(w)) == w
  {
    var t, l := w / TWO48, w % TWO48;
    assert w == t * TWO48 + l;
    BoxSplit(t, l);
    assert Ord(w) == l;
  }

  /**
   * The classic pair test `(T(p) & ~(CONS^CLOS)) == CONS` clears the one bit
   * in which CONS and CLOS differ. Over naturals that is rounding the tag
   * down to even.
   */
  predicate MaskIsPair(t: nat)
  {
    t - t % 2 == CONS
  }

  /** The mask test accepts exactly the CONS and CLOS tags. */
  lemma MaskIsPairExactly(t: nat)
    ensures MaskIsPair(t) <==> t == CONS || t == CLOS
  {
  }

  /**
   * The same test written on 16-bit vectors, as the C evaluates it on the
   * shifted tag, agrees with the arithmetic form.
   */
  lemma MaskBits(t: bv16)
    ensures (t & 0xfffe == 0x7ffa) <==> (t == 0x7ffa || t == 0x7ffb)
  {
  }

  /** Pairs of the interpreters with macros: CONS, CLOS and MACR cells. */
  predicate IsPairTag(t: nat)
  {
    t == CONS || t == CLOS || t == MACR
  }
}

/**
 * The single-precision variant (tinylisp-float-opt.c): a value is one
 * binary32 word, the tag sits in the upper 12 bits and the ordinal in the low
 * 20 bits.
 */
module Boxing32 {
  const TWO12: nat := 0x1000
  const TWO20: nat := 0x10_0000
  const TWO32: nat := 0x1_0000_0000

  type Word32 = w: nat | w < TWO32

  const ATOM: nat := 0x7fc
  const PRIM: nat := 0x7fd
  const CONS: nat := 0x7fe
  const CLOS: nat := 0x7ff
  const NIL: nat := 0xfff

  /**
   * `box(t,i)`: the tag shifted left by 20 within 32 bits, or-ed with the
   * ordinal. The source keeps the ordinal within 20 bits through its bound
   * on N, so the or is an addition.
   */
  function Box(t: nat, i: nat): (w: Word32)
    requires i < TWO20
    ensures Tag(w) == t % TWO12 && Ord(w) == i
  {
    Split(t % TWO12, i);
    (t % TWO12) * TWO20 + i
  }

  /** `T(x)`: the word shifted right by 20. */
  function Tag(w: Word32): (t: nat)
    ensures t < TWO12
  {
    w / TWO20
  }

  /** `ord(x)`: the low 20 bits (`& 0xfffff`). */
  function Ord(w: Word32): (i: nat)
    ensures i < TWO20
  {
    w % TWO20
  }

  lemma Split(t: nat, i: nat)
    requires t < TWO12 && i < TWO20
    ensures (t * TWO20 + i) / TWO20 == t && (t * TWO20 + i) % TWO20 == i
    ensures t * TWO20 + i < TWO32
  {
  }

  /** Tag and ordinal come back from a boxed word; boxing is injective. */
  lemma BoxRoundTrip(t: nat, i: nat, t2: nat, i2: nat)
    requires t < TWO12 && t2 < TWO12 && i < TWO20 && i2 < TWO20
    ensures Tag(Box(t, i)) == t && Ord(Box(t, i)) == i
    ensures Box(t, i) == Box(t2, i2) <==> t == t2 && i == i2
  {
  }

  /**
   * The comment on N (at most 2^20/4 cells) is what keeps every ordinal the
   * interpreter boxes inside 20 bits: cell indices are below N and atom heap
   * offsets are below hp, which never exceeds 4*sp <= 4*N bytes.
   */
  lemma OrdinalsFit(n: nat, sp: nat, hp: nat, i: nat)
    requires n <= 262144 && sp <= n && hp <= 4 * sp
    requires i < n || i < hp
    ensures i < TWO20
  {
  }

  /** The pair test `(T(p) & ~(CONS^CLOS)) == CONS` accepts CONS and CLOS. */
  lemma MaskBits(t: bv12)
    ensures (t & 0xffe == 0x7fe) <==> (t == 0x7fe || t == 0x7ff)
  {
  }

  predicate MaskIsPair(t: nat)
  {
    t - t % 2 == CONS
  }

  lemma MaskIsPairExactly(t: nat)
    ensures MaskIsPair(t) <==> t == CONS || t == CLOS
  {
  }
}
