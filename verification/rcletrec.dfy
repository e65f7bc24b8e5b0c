/**
 * `collect` in `proto/tinylisp-extras-gc.c` on a pool where `letrec` has
 * marked a cycle.
 *
 * The heap is the one `(letrec (f (lambda () f)) ...)` leaves once `scc`
 * has marked it:
 *   pair 2  E = ((f . C) . D), the environment, held by the caller
 *   pair 4  (f . C)
 *   pair 6  C = (P . E), the closure
 *   pair 8  P = (() . f), the closure's parameters and body
 *   pair 10 D, the enclosing environment `letrec` extended, held by E and
 *           by one more root
 * E -> (f . C) -> C -> E is the cycle: E carries MARKY (through its car),
 * (f . C) and C carry MARKZ (through their cdrs), one cyclic path each.
 *
 * The upper word `k` of C and its count `n` are parameters. With `k` the
 * word `scc` leaves (one path) and `n == 1`, releasing the caller's
 * reference frees exactly the component and what only it held
 * (`LoopCollected`). `isoscc` trusts the cyclic counts: with a count of two
 * on C and a second root holding C, it still answers true and `gcscc` frees
 * C under that root (`StaleCountFrees`), so no invariant over counts alone
 * can promise that `gcscc` keeps the pool sound.
 */
module RcLetrec {
  import B = Boxing
  import opened Owners
  import opened RcBits
  import opened RcPool
  import RcCycle
  import opened RcCollect

  const NIL_WORD: Word := RcCycle.NIL_WORD

  /** The environment E, the reference the caller releases. */
  const Env: Word := B.Box(B.CONS, 2)

  const LoopCell: seq<Word> := [
    NIL_WORD, NIL_WORD,
    B.Box(B.CONS, 10), B.Box(B.CONS, 4),
    B.Box(B.CLOS, 6), B.Box(B.ATOM, 0),
    B.Box(B.CONS, 2), B.Box(B.CONS, 8),
    B.Box(B.ATOM, 0), NIL_WORD,
    NIL_WORD, B.Box(B.ATOM, 0)
  ]

  /** What the walks read of the cells: which words are pairs and where they point. */
  predicate LoopShape(g: seq<Word>)
  {
    |g| == 12 && AllPoint(true, g) && AllProper(g)
    && !Pair(g[0]) && !Pair(g[1]) && !Pair(g[5]) && !Pair(g[8]) && !Pair(g[9])
    && !Pair(g[10]) && !Pair(g[11])
    && Pair(g[2]) && B.Ord(g[2]) == 10 && Pair(g[3]) && B.Ord(g[3]) == 4 && Pair(g[4]) && B.Ord(g[4]) == 6
    && Pair(g[6]) && B.Ord(g[6]) == 2 && Pair(g[7]) && B.Ord(g[7]) == 8
  }

  lemma LoopShaped()
    ensures LoopShape(LoopCell) && Pair(Env) && B.Ord(Env) == 2
  {
  }

  /** The pool before the release: C holds `n` owners and carries the upper word `k`. */
  function Before(g: seq<Word>, n: nat, k: Up): Pool
  {
    Pool(g, [0, 0, 2, 0, 1, 0, n, 0, 1, 0, 2, 0],
         [0, 0, 0x4000_0001, 0, 0x2000_0001, 0, k, 0, 0, 0, 0, 0], [], 0, 2, 1)
  }

  /** The pool after: E, (f . C), C and P on the free list in the order freed, D held by its other root alone. */
  function After(g: seq<Word>): Pool
  {
    Pool(g, [0, 0, 0, 0, 2, 0, 4, 0, 6, 0, 1, 0],
         [0, 0, FREE, 0, FREE, 0, FREE, 0, FREE, 0, 0, 0], [], 8, 2, 5)
  }

  /** `isocyclic` then `leave` from E: every count admits, and the marks come back unvisited. */
  lemma LoopIsoscc(g: seq<Word>, n: nat, k: Up)
    requires LoopShape(g) && MarkZ(k) && !MarkY(k) && !Visit(k) && Low(k) as nat >= n
    ensures var p := Before(g, n, k);
            Shape(p) && RcCycle.Isoscc(g, p.ref[2 := 1], p.up, Env) == RcCycle.Walked(true, p.up)
  {
    LoopShaped();
    var p := Before(g, n, k);
    var ref := p.ref[2 := 1];
    var u0 := p.up;
    var u1 := u0[2 := 0xC000_0001];
    var u2 := u1[4 := 0xA000_0001];
    var u3 := u2[6 := SetVisit(k)];
    assert RcCycle.Isocyclic(g, ref, u3, g[6]) == RcCycle.Walked(true, u3);
    assert RcCycle.Isocyclic(g, ref, u2, g[4]) == RcCycle.Walked(true, u3);
    assert RcCycle.Isocyclic(g, ref, u1, g[3]) == RcCycle.Walked(true, u3);
    assert RcCycle.Isocyclic(g, ref, u0, Env) == RcCycle.Walked(true, u3);
    UnvisitSetVisit(k);
    var v1 := u3[2 := 0x4000_0001];
    var v2 := v1[4 := 0x2000_0001];
    var v3 := v2[6 := k];
    assert v3 == u0;
    assert RcCycle.Leave(g, v3, g[6]) == RcCycle.Walked(true, u0);
    assert RcCycle.Leave(g, v2, g[4]) == RcCycle.Walked(true, u0);
    assert RcCycle.Leave(g, v1, g[3]) == RcCycle.Walked(true, u0);
    assert RcCycle.Leave(g, u3, Env) == RcCycle.Walked(true, u0);
  }

  /**
   * `gcscc` from E: it frees E; E's cdr D lies outside the component
   * (MARKY without MARKZ), so `collect` drops E's reference to it and the
   * walk goes on with the car (f . C), then its cdr C; C's car P is a pair
   * it does not follow (no MARKY), so `collect` frees it, and the cdr
   * leads back to E, now FREE, where it stops.
   */
  lemma LoopGcscc(g: seq<Word>, n: nat, k: Up, fuel: nat)
    requires LoopShape(g) && MarkZ(k) && !MarkY(k) && !Visit(k) && fuel >= 4
    ensures var p := Before(g, n, k);
            Shape(p) && Gcscc(p.(ref := p.ref[2 := 1]), Env, fuel) == Done(After(g))
  {
    LoopShaped();
    var p := Before(g, n, k);
    var p0 := Reclaim(p.(ref := p.ref[2 := 1]), 2);
    var p1 := p0.(ref := p0.ref[10 := 1]);
    assert Collect(p0, g[2], fuel - 1) == Done(p1) by {
      assert Isolated(p1, g[2], fuel - 1) == Done(p1);
    }
    var p2 := Reclaim(p1, 4);
    var p3 := Reclaim(p2, 6);
    var p4 := Reclaim(p3, 8);
    assert p4 == After(g);
    assert Release(p4, g[9], g[8], fuel - 4) == Done(p4);
    assert Collect(p3, g[7], fuel - 3) == Done(p4);
    assert Gcscc(p4, g[6], fuel - 3) == Done(p4);
    assert Gcscc(p2, g[4], fuel - 2) == Done(p4) by {
      assert !MarkY(k) && k != FREE;
    }
    assert Gcscc(p1, g[3], fuel - 1) == Done(p4);
  }

  /** The used pairs before the release, and who refers to each. */
  lemma BeforeRefs(g: seq<Word>, j: nat)
    requires LoopShape(g)
    ensures Refs(true, g, {2, 4, 6, 8, 10}, j, 0) == (if j in {2, 4, 6, 8, 10} then 1 else 0)
  {
    var s: set<nat> := {2, 4, 6, 8, 10};
    var a := if j == 2 then 1 else 0;
    var b := if j == 8 then 1 else 0;
    var c := if j == 6 then 1 else 0;
    var d := if j == 4 then 1 else 0;
    var e := if j == 10 then 1 else 0;
    assert Refs(true, g, s, j, 12) == 0;
    assert Refs(true, g, s, j, 11) == 0;
    assert Refs(true, g, s, j, 10) == 0;
    assert Refs(true, g, s, j, 9) == 0;
    assert Refs(true, g, s, j, 8) == 0;
    assert Refs(true, g, s, j, 7) == b;
    assert Refs(true, g, s, j, 6) == a + b;
    assert Refs(true, g, s, j, 5) == a + b;
    assert Refs(true, g, s, j, 4) == a + b + c;
    assert Refs(true, g, s, j, 3) == a + b + c + d;
    assert Refs(true, g, s, j, 2) == a + b + c + d + e;
    assert Refs(true, g, s, j, 1) == a + b + c + d + e;
  }

  /** The pool before: C's count `n` is its one owner, (f . C), plus `n - 1` roots on it. */
  lemma BeforeInv(g: seq<Word>, n: nat, k: Up, roots: multiset<nat>)
    requires LoopShape(g) && k != FREE && n >= 1 && roots == multiset{2, 10} + multiset{}[6 := n - 1]
    ensures Inv(Before(g, n, k), [], roots)
  {
    var p := Before(g, n, k);
    BeforeUsed();
    BeforeCounted(g, n, k, roots);
    BeforeClosed(g, n, roots);
    forall i: nat | Cell(12, i) && i < 12
      ensures p.up[i] != FREE
    {
      assert i in {2, 4, 6, 8, 10};
    }
  }

  lemma BeforeCounted(g: seq<Word>, n: nat, k: Up, roots: multiset<nat>)
    requires LoopShape(g) && n >= 1 && roots == multiset{2, 10} + multiset{}[6 := n - 1]
    ensures Counted(true, g, Before(g, n, k).ref, false, {2, 4, 6, 8, 10}, roots)
  {
    var p := Before(g, n, k);
    forall j | j in {2, 4, 6, 8, 10}
      ensures p.ref[j] == Refs(true, g, {2, 4, 6, 8, 10}, j, 0) + roots[j]
    {
      BeforeRefs(g, j);
    }
  }

  lemma BeforeClosed(g: seq<Word>, n: nat, roots: multiset<nat>)
    requires LoopShape(g) && n >= 1 && roots == multiset{2, 10} + multiset{}[6 := n - 1]
    ensures Closed(true, g, {2, 4, 6, 8, 10}, roots)
  {
    forall i | i in roots ensures i in {2, 4, 6, 8, 10} {}
    forall k | 0 <= k < 12 && PairOf(k) in {2, 4, 6, 8, 10} && Owned(true, g[k])
      ensures B.Ord(g[k]) in {2, 4, 6, 8, 10}
    {
      assert k in {2, 3, 4, 6, 7};
    }
  }

  lemma BeforeUsed()
    ensures Used(12, []) == {2, 4, 6, 8, 10}
  {
    forall i | i in Used(12, []) ensures i in {2, 4, 6, 8, 10} {}
  }

  /** The pool after: the free list runs 8, 6, 4, 2 and only pair 10 is used. */
  lemma AfterInv(g: seq<Word>)
    requires LoopShape(g)
    ensures Used(12, [8, 6, 4, 2]) == {10} && Inv(After(g), [8, 6, 4, 2], multiset{10})
  {
    AfterUsed();
    AfterList(g);
    AfterRefs(g);
  }

  lemma AfterUsed()
    ensures Used(12, [8, 6, 4, 2]) == {10}
  {
    forall i | i in Used(12, [8, 6, 4, 2]) ensures i == 10 {}
  }

  lemma AfterList(g: seq<Word>)
    requires LoopShape(g)
    ensures var p := After(g);
            FreeList(p.ref, false, 12, p.fp, p.fn, [8, 6, 4, 2]) && FreeMarked(p, [8, 6, 4, 2])
  {
    var p := After(g);
    var fs := [8, 6, 4, 2];
    assert fs[1..] == [6, 4, 2] && fs[1..][1..] == [4, 2] && fs[1..][1..][1..] == [2];
    assert Distinct(fs);
    forall j | 0 <= j < 4
      ensures Cell(12, fs[j]) && fs[j] < 12 && p.ref[fs[j]] == Next(fs, j)
    {
    }
    forall i: nat | Cell(12, i) && i < 12
      ensures p.up[i] == FREE <==> i in fs
    {
      assert i in {2, 4, 6, 8, 10};
    }
  }

  lemma AfterRefs(g: seq<Word>)
    requires LoopShape(g)
    ensures Refs(true, g, {10}, 10, 0) == 0
  {
    var s: set<nat> := {10};
    assert Refs(true, g, s, 10, 12) == 0;
    assert Refs(true, g, s, 10, 11) == 0;
    assert Refs(true, g, s, 10, 10) == 0;
    assert Refs(true, g, s, 10, 9) == 0;
    assert Refs(true, g, s, 10, 8) == 0;
    assert Refs(true, g, s, 10, 7) == 0;
    assert Refs(true, g, s, 10, 6) == 0;
    assert Refs(true, g, s, 10, 5) == 0;
    assert Refs(true, g, s, 10, 4) == 0;
    assert Refs(true, g, s, 10, 3) == 0;
    assert Refs(true, g, s, 10, 2) == 0;
    assert Refs(true, g, s, 10, 1) == 0;
  }

  /**
   * Releasing the caller's reference to E after `(letrec (f (lambda () f))
   * ...)`: the count of E drops to its one cyclic path, `isoscc` admits the
   * component, and `gcscc` frees exactly E, (f . C), C and the code P that
   * only C held; E's reference to the enclosing environment D is
   * released, D stays with its other root, and the pool is sound again
   * with that root alone.
   */
  lemma LoopCollected(fuel: nat)
    requires fuel >= 5
    ensures Inv(Before(LoopCell, 1, 0x2000_0001), [], multiset{2, 10})
    ensures Gc(Before(LoopCell, 1, 0x2000_0001), Env, fuel) == Done(After(LoopCell))
    ensures Used(12, [8, 6, 4, 2]) == {10} && Inv(After(LoopCell), [8, 6, 4, 2], multiset{10})
    ensures Before(LoopCell, 1, 0x2000_0001).ref[10] == 2 && After(LoopCell).ref[10] == 1
  {
    LoopShaped();
    var g := LoopCell;
    var k: Up := 0x2000_0001;
    assert MarkZ(k) && !MarkY(k) && !Visit(k) && Low(k) == 1 && k != FREE;
    BeforeInv(g, 1, k, multiset{2, 10});
    AfterInv(g);
    Released(g, 1, k, fuel);
  }

  /**
   * With a cyclic count of two on C and a second root holding C, `isoscc`
   * still admits the component and `gcscc` frees C: afterwards no free list
   * makes the pool sound with that root, since it refers to a FREE pair.
   */
  lemma StaleCountFrees(fuel: nat)
    requires fuel >= 5
    ensures Inv(Before(LoopCell, 2, 0x2000_0002), [], multiset{2, 6, 10})
    ensures Gc(Before(LoopCell, 2, 0x2000_0002), Env, fuel) == Done(After(LoopCell))
    ensures After(LoopCell).up[6] == FREE
    ensures forall fs :: !Inv(After(LoopCell), fs, multiset{6, 10})
  {
    LoopShaped();
    var g := LoopCell;
    var k: Up := 0x2000_0002;
    assert MarkZ(k) && !MarkY(k) && !Visit(k) && Low(k) == 2 && k != FREE;
    BeforeInv(g, 2, k, multiset{2, 6, 10});
    Released(g, 2, k, fuel);
    forall fs
      ensures !Inv(After(g), fs, multiset{6, 10})
    {
      RootFree(After(g), fs, multiset{6, 10}, 6);
    }
  }

  /** `gc` of E: the count drops to one, `isoscc` answers true, and `gcscc` runs. */
  lemma Released(g: seq<Word>, n: nat, k: Up, fuel: nat)
    requires LoopShape(g) && MarkZ(k) && !MarkY(k) && !Visit(k) && Low(k) as nat >= n && fuel >= 5
    ensures Shape(Before(g, n, k)) && Gc(Before(g, n, k), Env, fuel) == Done(After(g))
  {
    LoopShaped();
    var p := Before(g, n, k);
    LoopIsoscc(g, n, k);
    LoopGcscc(g, n, k, fuel - 1);
    var p1 := p.(ref := p.ref[2 := 1]);
    assert Isolated(p1, Env, fuel) == Done(After(g));
  }

  /** A pool in which a root refers to a FREE pair is not sound, whatever the free list. */
  lemma RootFree(p: Pool, fs: seq<nat>, roots: multiset<nat>, i: nat)
    requires i in roots && Cell(|p.cell|, i) && i < |p.up| && p.up[i] == FREE
    ensures !Inv(p, fs, roots)
  {
  }
}
