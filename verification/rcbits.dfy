/**
 * The upper `ref` word of a pair in `proto/tinylisp-extras-gc.c`.
 *
 * For a used pair the word is 0 until `letrec` runs the cycle detector on
 * it, which then keeps the number of cyclic paths through the pair in the
 * low 29 bits (MASK) and, in the three bits above, VISIT (the pair is being
 * walked) and MARKY/MARKZ (a cyclic path leaves through the car/the cdr).
 * A free pair holds FREE, all ones.
 *
 * The words are 32-bit vectors, so every test and update below is the C
 * expression itself.
 */
module RcBits {
  type Up = bv32

  const FREE: Up := 0xFFFF_FFFF
  const VISIT: Up := 0x8000_0000
  const MARKY: Up := 0x4000_0000
  const MARKZ: Up := 0x2000_0000
  const MARK: Up := 0x6000_0000
  const MASK: Up := 0x1FFF_FFFF

  /**
   * The constants are what their C definitions compute: FREE is `~0`, VISIT
   * `~(FREE>>1)`, MARKY and MARKZ the next two bits down, MARK their union
   * and MASK every bit below them. The tests and updates below spell the
   * constants out as literals.
   */
  lemma Definitions()
    ensures FREE == !0 && VISIT == !(FREE >> 1) && MARKY == VISIT >> 1 && MARKZ == MARKY >> 1
    ensures MARK == MARKY | MARKZ && MASK == !(VISIT | MARK)
    ensures !VISIT == 0x7FFF_FFFF && VISIT | MARKY == 0xC000_0000 && VISIT | MARKZ == 0xA000_0000
  {
  }

  predicate Visit(k: Up)
  {
    k & 0x8000_0000 != 0  // VISIT
  }

  predicate MarkY(k: Up)
  {
    k & 0x4000_0000 != 0  // MARKY
  }

  predicate MarkZ(k: Up)
  {
    k & 0x2000_0000 != 0  // MARKZ
  }

  /** `k & MARK`: the pair lies on a cyclic path found by `letrec`. */
  predicate Marked(k: Up)
  {
    k & 0x6000_0000 != 0  // MARK
  }

  /** `k & MASK`: the cyclic count. */
  function Low(k: Up): Up
  {
    k & 0x1FFF_FFFF  // MASK
  }

  /** `k & ~VISIT`. */
  function Unvisit(k: Up): (r: Up)
    ensures !Visit(r) && MarkY(r) == MarkY(k) && MarkZ(r) == MarkZ(k)
  {
    k & 0x7FFF_FFFF  // ~VISIT
  }

  /** `k | VISIT`. */
  function SetVisit(k: Up): (r: Up)
    ensures Visit(r) && MarkY(r) == MarkY(k) && MarkZ(r) == MarkZ(k)
  {
    k | 0x8000_0000  // VISIT
  }

  /** `k | VISIT | MARKY`: a cyclic path leaves through the car. */
  function SetY(k: Up): (r: Up)
    ensures Visit(r) && MarkY(r) && MarkZ(r) == MarkZ(k)
  {
    k | 0xC000_0000  // VISIT | MARKY
  }

  /** `k | VISIT | MARKZ`: a cyclic path leaves through the cdr. */
  function SetZ(k: Up): (r: Up)
    ensures Visit(r) && MarkY(r) == MarkY(k) && MarkZ(r)
  {
    k | 0xA000_0000  // VISIT | MARKZ
  }

  /** Marked means one of the two path marks. */
  lemma MarkedEither(k: Up)
    ensures Marked(k) <==> MarkY(k) || MarkZ(k)
  {
  }

  /** FREE carries every flag; so a word without VISIT, or without a mark, is not FREE. */
  lemma FreeFlags(k: Up)
    ensures k == FREE ==> Visit(k) && MarkY(k) && MarkZ(k) && Low(k) == MASK
    ensures Unvisit(k) != FREE
  {
  }

  /** A word is determined by its three flags and its count. */
  lemma Fields(k: Up, k2: Up)
    requires Visit(k) == Visit(k2) && MarkY(k) == MarkY(k2) && MarkZ(k) == MarkZ(k2) && Low(k) == Low(k2)
    ensures k == k2
  {
  }

  /** Clearing VISIT undoes setting it on a word that did not carry it. */
  lemma UnvisitSetVisit(k: Up)
    ensures !Visit(k) ==> Unvisit(SetVisit(k)) == k
  {
  }

  /** Clearing VISIT where it is not set, or setting it where it is, changes nothing. */
  lemma Idle(k: Up)
    ensures !Visit(k) ==> Unvisit(k) == k
    ensures Visit(k) ==> SetVisit(k) == k
  {
  }

  /** Setting or clearing VISIT leaves the rest of the word as it was. */
  lemma RestOfWord(k: Up)
    ensures Unvisit(SetVisit(k)) == Unvisit(k)
    ensures Unvisit(Unvisit(k)) == Unvisit(k)
  {
  }

  /** The word 0: no flag, no count; in particular no mark and not FREE. */
  lemma Zero()
    ensures !Visit(0) && !MarkY(0) && !MarkZ(0) && !Marked(0) && Low(0) == 0 && 0 != FREE
  {
  }
}
