/**
 * The stack (bump) allocator of the `src/tinylisp*.c` interpreters.
 *
 * One array of N cells holds two regions: the atom heap grows upward from
 * byte 0 (`hp` bytes used) and pairs are pushed downward from the top (`sp`
 * is the lowest used cell). A pair at cell index `i` keeps its cdr in
 * `cell[i]` and its car in `cell[i+1]`. Nothing is freed individually; `gc`
 * drops everything pushed since the most recent global `define` by moving
 * `sp` back up to the global environment.
 *
 * The seven files differ only in a handful of constants and in what happens
 * on failure; `Flavor` collects those differences. The atom heap is kept as
 * its own byte sequence next to the cells (in C the two share storage).
 */
module StackPool {
  import B = Boxing
  import B32 = Boxing32
  import AtomHeap

  type Word = B.Word

  /** What a failed operation does: `abort()`, `err(n)`, or a write outside the array. */
  datatype Fault = Aborted | Raised(code: nat) | Overrun

  /**
   * The per-file differences:
   * `wide` selects 64-bit words (tag << 48) over the 32-bit float layout (tag << 20);
   * `macros` selects the three-tag pair test of tinylisp-extras.c over the mask test;
   * `margin` is the extra room `cons` demands (16 bytes in tinylisp-extras.c);
   * `raise` selects `err(n)` (longjmp to the REPL) over `abort()` and the ERR atom;
   * `shrink` makes `gc` shrink the atom heap too.
   */
  datatype Flavor = Flavor(wide: bool, macros: bool, margin: nat, raise: bool, shrink: bool)
  {
    /** Bytes per cell: the shift in the `sp<<3` / `sp<<2` collision checks. */
    function CellBytes(): nat { if wide then 8 else 4 }

    /** Largest N whose byte offsets and cell indices fit an ordinal. */
    function MaxCells(): nat { if wide then 0x1000_0000 else 0x4_0000 }

    function OrdLimit(): nat { if wide then B.TWO32 else B32.TWO20 }
    function TagLimit(): nat { if wide then B.TWO16 else B32.TWO12 }

    function AtomT(): nat { if wide then B.ATOM else B32.ATOM }
    function PrimT(): nat { if wide then B.PRIM else B32.PRIM }
    function ConsT(): nat { if wide then B.CONS else B32.CONS }
    function ClosT(): nat { if wide then B.CLOS else B32.CLOS }
    function MacrT(): nat { B.MACR }
    function NilT(): nat { if !wide then B32.NIL else if macros then B.NIL else B.NIL_CLASSIC }

    function Tag(w: Word): (t: nat)
      ensures t < TagLimit()
    {
      if wide then B.Tag(w) else B32.Tag(w % B32.TWO32)
    }

    function Ord(w: Word): (i: nat)
      ensures i < OrdLimit()
    {
      if wide then B.Ord(w) else B32.Ord(w % B32.TWO32)
    }

    function Box(t: nat, i: nat): (w: Word)
      requires t < TagLimit() && i < OrdLimit()
      ensures Tag(w) == t && Ord(w) == i
    {
      if wide then
        assert t % B.TWO16 == t;
        B.Box(t, i)
      else
        assert t % B32.TWO12 == t;
        var w := B32.Box(t, i);
        assert w % B32.TWO32 == w;
        w
    }

    /** The pair test of `car`/`cdr`: three tags with macros, the CONS/CLOS mask otherwise. */
    predicate IsPair(t: nat)
    {
      if macros then t == ConsT() || t == ClosT() || t == MacrT() else t - t % 2 == ConsT()
    }

    /** The failure of a full pool. */
    function Full(): Fault { if raise then Raised(4) else Aborted }

    /** The ERR atom: interned first, so it sits at offset 0. */
    function ErrAtom(): Word
    {
      Box(AtomT(), 0)
    }

    /** `nil`: a word no pair test accepts. */
    function Nil(): (w: Word)
      ensures Tag(w) == NilT() && Ord(w) == 0 && !IsPair(Tag(w))
    {
      Box(NilT(), 0)
    }
  }

  /** The pool: cells, the stack pointer, the atom heap (its length is `hp`) and `env`. */
  datatype Machine = Machine(cell: seq<Word>, sp: nat, heap: seq<char>, env: Word)

  /** A state-changing operation either returns a value or fails, leaving the state it failed in. */
  datatype Out = Ok(m: Machine, val: Word) | Fail(m: Machine, fault: Fault)

  /** A reading operation either returns a value or raises. */
  datatype Res = Val(v: Word) | Throw(fault: Fault)

  /** The shape every operation relies on: sizes within range and a terminated heap. */
  predicate Shape(f: Flavor, m: Machine)
  {
    |m.cell| <= f.MaxCells() && m.sp <= |m.cell| && AtomHeap.Terminated(m.heap)
  }

  /** `sp<<3` (or `sp<<2`): the byte offset of the lowest used cell. */
  function Room(f: Flavor, m: Machine): (r: nat)
    ensures r == m.sp * f.CellBytes()
  {
    if f.wide then m.sp * 8 else m.sp * 4
  }

  /** A pair-tagged word refers to two cells inside the array. */
  predicate Points(f: Flavor, m: Machine, w: Word)
  {
    f.IsPair(f.Tag(w)) ==> f.Ord(w) + 1 < |m.cell|
  }

  /**
   * The pool invariant: the atom heap stays below the cell region
   * (`hp <= sp<<3`) and every stored pair refers inside the array.
   */
  predicate Wf(f: Flavor, m: Machine)
  {
    Shape(f, m) && |m.heap| <= Room(f, m) && Sane(f, m)
  }

  /** Every stored pair refers inside the array, so following it is a legal read. */
  predicate Sane(f: Flavor, m: Machine)
  {
    forall k :: 0 <= k < |m.cell| ==> Points(f, m, m.cell[k])
  }

  lemma HeapOrdinalsFit(f: Flavor, m: Machine)
    requires Shape(f, m) && |m.heap| <= Room(f, m)
    ensures |m.heap| <= f.OrdLimit() && |m.cell| < f.OrdLimit()
  {
  }

  /**
   * `atom(s)`: intern `s`; a newly appended name that pushes `hp` past
   * `sp<<3` fails with the pool's out-of-memory fault, after the append.
   */
  function Atom(f: Flavor, m: Machine, s: string): (r: Out)
    requires Shape(f, m) && |m.heap| <= Room(f, m) && AtomHeap.NoNul(s)
    ensures r.m.cell == m.cell && r.m.sp == m.sp && r.m.env == m.env
    ensures AtomHeap.Terminated(r.m.heap) && m.heap <= r.m.heap
    ensures r.Fail? <==> !AtomHeap.Interned(m.heap, s) && |m.heap| + |s| + 1 > Room(f, m)
    ensures r.Fail? ==> r.fault == f.Full()
    ensures r.Ok? ==> Shape(f, r.m) && |r.m.heap| <= Room(f, r.m) && f.Tag(r.val) == f.AtomT() &&
                      f.Ord(r.val) in AtomHeap.Starts(r.m.heap, 0) &&
                      AtomHeap.NameAt(r.m.heap, f.Ord(r.val)) == s
  {
    var (i, h2) := AtomHeap.Intern(m.heap, s);
    if i == |m.heap| && |h2| > Room(f, m) then
      Fail(m.(heap := h2), f.Full())
    else
      HeapOrdinalsFit(f, m.(heap := h2));
      Ok(m.(heap := h2), f.Box(f.AtomT(), i))
  }

  /**
   * `cons(x,y)`: push x, then y, then fail if the heap (plus the margin)
   * now reaches into the cells. The pushes happen before the check, so a
   * failed cons leaves them behind.
   */
  function Cons(f: Flavor, m: Machine, x: Word, y: Word): (r: Out)
    requires Shape(f, m)
    ensures Shape(f, r.m) && r.m.heap == m.heap && r.m.env == m.env && |r.m.cell| == |m.cell|
    ensures r.Fail? && r.fault == Overrun <==> m.sp < 2
    ensures m.sp >= 2 ==>
              r.m.sp == m.sp - 2 && |r.m.cell| == |m.cell| &&
              r.m.cell[m.sp - 1] == x && r.m.cell[m.sp - 2] == y &&
              (forall k :: 0 <= k < |m.cell| && k != m.sp - 1 && k != m.sp - 2 ==> r.m.cell[k] == m.cell[k])
    ensures m.sp >= 2 ==>
              (r.Fail? <==> |m.heap| + f.margin > (m.sp - 2) * f.CellBytes())
    ensures r.Fail? && m.sp >= 2 ==> r.fault == f.Full()
    ensures r.Ok? ==> f.Tag(r.val) == f.ConsT() && f.Ord(r.val) == r.m.sp &&
                      |r.m.heap| + f.margin <= Room(f, r.m)
  {
    if m.sp < 2 then Fail(m, Overrun)
    else
      var sp := m.sp - 2;
      var m2 := m.(cell := m.cell[sp + 1 := x][sp := y], sp := sp);
      if |m.heap| + f.margin > sp * f.CellBytes() then Fail(m2, f.Full())
      else Ok(m2, f.Box(f.ConsT(), sp))
  }

  /** `car(p)`: the cell above the pair's index, or the pool's not-a-pair answer. */
  function Car(f: Flavor, m: Machine, p: Word): (r: Res)
    requires Points(f, m, p)
    ensures f.IsPair(f.Tag(p)) ==> r == Val(m.cell[f.Ord(p) + 1])
    ensures !f.IsPair(f.Tag(p)) ==> r == (if f.raise then Throw(Raised(1)) else Val(f.ErrAtom()))
  {
    if f.IsPair(f.Tag(p)) then Val(m.cell[f.Ord(p) + 1])
    else if f.raise then Throw(Raised(1))
    else Val(f.ErrAtom())
  }

  /** `cdr(p)`: the cell at the pair's index, or the pool's not-a-pair answer. */
  function Cdr(f: Flavor, m: Machine, p: Word): (r: Res)
    requires Points(f, m, p)
    ensures f.IsPair(f.Tag(p)) ==> r == Val(m.cell[f.Ord(p)])
    ensures !f.IsPair(f.Tag(p)) ==> r == (if f.raise then Throw(Raised(1)) else Val(f.ErrAtom()))
  {
    if f.IsPair(f.Tag(p)) then Val(m.cell[f.Ord(p)])
    else if f.raise then Throw(Raised(1))
    else Val(f.ErrAtom())
  }

  /** Car and cdr undo cons: the pair cons returns gives back exactly its two arguments. */
  lemma CarCdrCons(f: Flavor, m: Machine, x: Word, y: Word)
    requires Shape(f, m)
    requires Cons(f, m, x, y).Ok?
    ensures var r := Cons(f, m, x, y);
            Points(f, r.m, r.val) &&
            Car(f, r.m, r.val) == Val(x) && Cdr(f, r.m, r.val) == Val(y)
  {
    var r := Cons(f, m, x, y);
    assert f.IsPair(f.ConsT());
  }

  /** A successful cons keeps the pool invariant when its arguments refer inside the array. */
  lemma ConsKeepsWf(f: Flavor, m: Machine, x: Word, y: Word)
    requires Wf(f, m) && Points(f, m, x) && Points(f, m, y)
    requires Cons(f, m, x, y).Ok?
    ensures Wf(f, Cons(f, m, x, y).m)
    ensures Points(f, Cons(f, m, x, y).m, Cons(f, m, x, y).val)
  {
    var r := Cons(f, m, x, y);
    forall k | 0 <= k < |r.m.cell|
      ensures Points(f, r.m, r.m.cell[k])
    {
      if k != m.sp - 1 && k != m.sp - 2 {
        assert Points(f, m, m.cell[k]);
      }
    }
  }

  /** The heap never overlaps the cells after a successful cons (`hp <= sp<<3` with the margin). */
  lemma ConsKeepsHeapBelow(f: Flavor, m: Machine, x: Word, y: Word)
    requires Shape(f, m) && Cons(f, m, x, y).Ok?
    ensures |Cons(f, m, x, y).m.heap| <= Room(f, Cons(f, m, x, y).m)
  {
  }

  /**
   * `pair(v,x,e)`: `cons(cons(v,x),e)`, the binding `(v . x)` pushed onto
   * the list `e`.
   */
  function Pair(f: Flavor, m: Machine, v: Word, x: Word, e: Word): (r: Out)
    requires Shape(f, m)
    ensures Shape(f, r.m) && r.m.heap == m.heap && r.m.env == m.env && |r.m.cell| == |m.cell|
    ensures r.Ok? ==> r.m.sp + 4 == m.sp && f.Tag(r.val) == f.ConsT() && f.Ord(r.val) == r.m.sp &&
                      |r.m.heap| + f.margin <= Room(f, r.m)
    ensures r.Ok? ==> r.m.cell[r.m.sp] == e && r.m.cell[r.m.sp + 1] == f.Box(f.ConsT(), r.m.sp + 2) &&
                      r.m.cell[r.m.sp + 2] == x && r.m.cell[r.m.sp + 3] == v
    ensures r.Ok? ==> forall k :: 0 <= k < |m.cell| && !(r.m.sp <= k < m.sp) ==> r.m.cell[k] == m.cell[k]
  {
    var r1 := Cons(f, m, v, x);
    if r1.Fail? then r1 else Cons(f, r1.m, r1.val, e)
  }

  /** `closure(v,x,e)`: a CLOS word on the pair `((v . x) . e')`, with nil standing in for the global env. */
  function Closure(f: Flavor, m: Machine, v: Word, x: Word, e: Word): (r: Out)
    requires Shape(f, m)
    ensures Shape(f, r.m) && r.m.heap == m.heap && |r.m.cell| == |m.cell|
    ensures r.Ok? ==> r.m.sp + 4 == m.sp && f.Tag(r.val) == f.ClosT() && f.Ord(r.val) == r.m.sp &&
                      r.m.cell[r.m.sp] == (if e == m.env then f.Nil() else e) &&
                      r.m.cell[r.m.sp + 2] == x && r.m.cell[r.m.sp + 3] == v
    ensures r.Fail? <==> Pair(f, m, v, x, if e == m.env then f.Nil() else e).Fail?
  {
    var r1 := Pair(f, m, v, x, if B.Equ(e, m.env) then f.Nil() else e);
    if r1.Fail? then r1 else Ok(r1.m, f.Box(f.ClosT(), f.Ord(r1.val)))
  }

  /** `not(x)`: the NIL test. */
  predicate Not(f: Flavor, x: Word)
  {
    f.Tag(x) == f.NilT()
  }

  /**
   * `let(x)`: nonzero when the list `x` has more than one item, that is
   * when `x` and `cdr(x)` are both non-nil.
   */
  function Let(f: Flavor, m: Machine, x: Word): (r: Res)
    requires Points(f, m, x)
    ensures !Not(f, x) && !f.IsPair(f.Tag(x)) && f.raise ==> r == Throw(Raised(1))
    ensures r.Val? ==> (r.v == 1 <==> !Not(f, x) && Cdr(f, m, x).Val? && !Not(f, Cdr(f, m, x).v))
    ensures r.Val? ==> r.v <= 1
  {
    if Not(f, x) then Val(0)
    else match Cdr(f, m, x)
      case Throw(e) => Throw(e)
      case Val(d) => Val(if Not(f, d) then 0 else 1)
  }

  /**
   * `gc()`: drop everything pushed since the most recent global definition
   * (`sp = ord(env)`). With `shrink` the atom heap is also cut back to end
   * just past the highest atom any remaining cell refers to.
   */
  function Gc(f: Flavor, m: Machine): (r: Machine)
    requires Wf(f, m) && m.sp <= f.Ord(m.env) <= |m.cell|
    requires f.shrink ==> |m.heap| > 0 && AtomsBelow(f, m.cell, f.Ord(m.env), |m.heap|)
    ensures r.cell == m.cell && r.env == m.env && r.sp == f.Ord(m.env)
    ensures !f.shrink ==> r.heap == m.heap
    ensures f.shrink ==> r.heap == AtomHeap.Shrink(m.heap, MaxAtom(f, m.cell, f.Ord(m.env)))
    ensures Wf(f, r)
  {
    var sp := f.Ord(m.env);
    if f.shrink then
      var top := MaxAtom(f, m.cell, sp);
      m.(sp := sp, heap := AtomHeap.Shrink(m.heap, top))
    else
      m.(sp := sp)
  }

  /** Every ATOM word among `cell[i..]` has an offset below `hp`. */
  predicate AtomsBelow(f: Flavor, cell: seq<Word>, i: nat, hp: nat)
  {
    forall k :: i <= k < |cell| && f.Tag(cell[k]) == f.AtomT() ==> f.Ord(cell[k]) < hp
  }

  /** The scan of tinylisp-extras.c's `gc`: the highest ATOM offset among `cell[i..]`, or 0. */
  function MaxAtom(f: Flavor, cell: seq<Word>, i: nat): (r: nat)
    requires i <= |cell|
    ensures forall k :: i <= k < |cell| && f.Tag(cell[k]) == f.AtomT() ==> f.Ord(cell[k]) <= r
    ensures r == 0 || exists k :: i <= k < |cell| && f.Tag(cell[k]) == f.AtomT() && f.Ord(cell[k]) == r
    decreases |cell| - i
  {
    if i == |cell| then 0
    else
      var rest := MaxAtom(f, cell, i + 1);
      if f.Tag(cell[i]) == f.AtomT() && f.Ord(cell[i]) > rest then f.Ord(cell[i]) else rest
  }
}
