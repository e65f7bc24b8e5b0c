/**
 * What `gc()` of the stack-allocated interpreters keeps. The REPL calls it
 * after every top-level expression; it forgets every cell pushed since the
 * global environment was last extended.
 */
module StackGc {
  import opened StackPool
  import opened StackEnv
  import opened StackLive
  import AtomHeap

  /** The machine with the stack pointer moved to the global environment's pair. */
  function AtEnv(f: Flavor, m: Machine): Machine
  {
    m.(sp := f.Ord(m.env))
  }

  /**
   * After `gc` the global environment and everything it refers to are live,
   * provided the cells from the environment's pair up refer only among
   * themselves (which holds after each global definition, since a value is
   * always built before the pair that binds it).
   */
  lemma GcKeepsLive(f: Flavor, m: Machine)
    requires Wf(f, m) && m.sp <= f.Ord(m.env) <= |m.cell|
    requires f.shrink ==> |m.heap| > 0 && AtomsBelow(f, m.cell, f.Ord(m.env), |m.heap|)
    requires Closed(f, AtEnv(f, m)) && Above(f, AtEnv(f, m), m.env)
    ensures var g := Gc(f, m);
            Wf(f, g) && Closed(f, g) && Above(f, g, g.env) && g.sp == f.Ord(m.env)
  {
  }

  /**
   * The cells `gc` releases are the ones the next allocation reuses, and the
   * global environment reads the same before `gc` and after any pair pushed
   * after it: nothing it needs was released.
   */
  lemma GcThenPair(f: Flavor, m: Machine, g: Machine, v: Word, x: Word, n: nat)
    requires Wf(f, m) && m.sp <= f.Ord(m.env) <= |m.cell|
    requires f.shrink ==> |m.heap| > 0 && AtomsBelow(f, m.cell, f.Ord(m.env), |m.heap|)
    requires Closed(f, AtEnv(f, m)) && Above(f, AtEnv(f, m), m.env) && Chain(f, m, m.env, n)
    requires g == Gc(f, m) && Above(f, g, v) && Above(f, g, x)
    ensures var r := Pair(f, g, v, x, m.env);
            Sane(f, r.m) && Chain(f, r.m, m.env, n) && Bindings(f, r.m, m.env, n) == Bindings(f, m, m.env, n) &&
            (r.Ok? ==> r.m.sp + 4 == f.Ord(m.env) &&
                       Chain(f, r.m, r.val, n + 1) &&
                       Bindings(f, r.m, r.val, n + 1) == [Binding(v, x)] + Bindings(f, m, m.env, n))
  {
    GcKeepsLive(f, m);
    PairAfterGc(f, m, g, v, x, n);
  }

  lemma PairAfterGc(f: Flavor, m: Machine, g: Machine, v: Word, x: Word, n: nat)
    requires Sane(f, m) && Chain(f, m, m.env, n)
    requires g.cell == m.cell && g.env == m.env && Sane(f, g) && Closed(f, g) && Shape(f, g) && Above(f, g, m.env)
    requires Above(f, g, v) && Above(f, g, x)
    ensures var r := Pair(f, g, v, x, m.env);
            Sane(f, r.m) && Chain(f, r.m, m.env, n) && Bindings(f, r.m, m.env, n) == Bindings(f, m, m.env, n) &&
            (r.Ok? ==> r.m.sp + 4 == g.sp &&
                       Chain(f, r.m, r.val, n + 1) &&
                       Bindings(f, r.m, r.val, n + 1) == [Binding(v, x)] + Bindings(f, m, m.env, n))
  {
    SameCells(f, m, g, m.env, n);
    PairOnLive(f, g, v, x, m.env, n);
  }

  /** A pair pushed onto a live list leaves the list as it was and extends it by one binding. */
  lemma PairOnLive(f: Flavor, m: Machine, v: Word, x: Word, e: Word, n: nat)
    requires Shape(f, m) && Sane(f, m) && Closed(f, m)
    requires Above(f, m, v) && Above(f, m, x) && Above(f, m, e) && Chain(f, m, e, n)
    ensures var r := Pair(f, m, v, x, e);
            Sane(f, r.m) && Chain(f, r.m, e, n) && Bindings(f, r.m, e, n) == Bindings(f, m, e, n) &&
            (r.Ok? ==> r.m.sp + 4 == m.sp &&
                       Chain(f, r.m, r.val, n + 1) &&
                       Bindings(f, r.m, r.val, n + 1) == [Binding(v, x)] + Bindings(f, m, e, n))
  {
    var r := Pair(f, m, v, x, e);
    PairKeepsLive(f, m, v, x, e);
    ChainFrame(f, m, r.m, e, n);
    if r.Ok? {
      PushFrame(f, m, v, x, e, n, r);
    }
  }

  /** Lists are read from the cells alone. */
  lemma {:induction false} SameCells(f: Flavor, m: Machine, m2: Machine, e: Word, n: nat)
    requires Sane(f, m) && Chain(f, m, e, n) && m2.cell == m.cell
    ensures Sane(f, m2) && Chain(f, m2, e, n) && Bindings(f, m2, e, n) == Bindings(f, m, e, n)
    decreases n
  {
    if f.Tag(e) == f.ConsT() {
      SameCells(f, m, m2, m.cell[f.Ord(e)], n - 1);
    }
  }

  /** Every ATOM word among `cell[i..]` refers to the start of a name in `h`. */
  predicate AtomsAt(f: Flavor, cell: seq<Word>, i: nat, h: seq<char>)
    requires AtomHeap.Terminated(h)
  {
    forall k :: i <= k < |cell| && f.Tag(cell[k]) == f.AtomT() ==> f.Ord(cell[k]) in AtomHeap.Starts(h, 0)
  }

  /**
   * The atom-heap shrink of tinylisp-extras.c keeps every name that a cell
   * of the remaining pool refers to, at the same offset and with the same
   * spelling, and keeps `ERR` at offset 0; names stay unique.
   */
  lemma GcShrinkKeepsNames(f: Flavor, m: Machine)
    requires f.shrink && Wf(f, m) && m.sp <= f.Ord(m.env) <= |m.cell| && |m.heap| > 0
    requires AtomsAt(f, m.cell, f.Ord(m.env), m.heap)
    ensures AtomsBelow(f, m.cell, f.Ord(m.env), |m.heap|)
    ensures var g := Gc(f, m);
            |g.heap| <= |m.heap| &&
            AtomsAt(f, g.cell, g.sp, g.heap) &&
            AtomHeap.NameAt(g.heap, 0) == AtomHeap.NameAt(m.heap, 0) &&
            (forall k :: g.sp <= k < |g.cell| && f.Tag(g.cell[k]) == f.AtomT() ==>
                         AtomHeap.NameAt(g.heap, f.Ord(g.cell[k])) == AtomHeap.NameAt(m.heap, f.Ord(g.cell[k]))) &&
            (AtomHeap.Distinct(m.heap) ==> AtomHeap.Distinct(g.heap))
  {
    var sp := f.Ord(m.env);
    assert AtomsBelow(f, m.cell, sp, |m.heap|) by {
      forall k | sp <= k < |m.cell| && f.Tag(m.cell[k]) == f.AtomT()
        ensures f.Ord(m.cell[k]) < |m.heap|
      {
        assert f.Ord(m.cell[k]) in AtomHeap.Starts(m.heap, 0);
      }
    }
    var top := MaxAtom(f, m.cell, sp);
    assert top in AtomHeap.Starts(m.heap, 0);
    AtomHeap.ShrinkKeeps(m.heap, top);
  }
}
