/**
 * The pool of `proto/tinylisp-extras-gc.c`: reference counts with a cycle
 * detector for `letrec`.
 *
 * The C keeps two `ref` words per pair: `ref[i]`, the count of the used pair
 * `i` or the link of the free pair `i`, and `ref[i+1]`, its upper word (see
 * `RcBits`). The model keeps them apart: `ref[i]` is the first, `up[i]` the
 * second; odd positions of both are unused. Pairs carry the CONS, CLOS and
 * MACR tags. Every error is `err(4)` here but the not-a-pair error of
 * `car`/`cdr`, `err(1)`.
 */
module RcPool {
  import B = Boxing
  import AtomHeap
  import StackPool
  import opened Owners
  import opened RcBits

  type Res = StackPool.Res

  datatype Pool = Pool(cell: seq<Word>, ref: seq<nat>, up: seq<Up>, heap: seq<char>, fp: nat, lp: nat, fn: nat)

  /** The error code of every allocation failure and of a double free. */
  const OOM: nat := 4

  /** N even, at least two pairs, indices that fit an ordinal, both `ref` words for every cell. */
  predicate Shape(p: Pool)
  {
    |p.cell| % 2 == 0 && 4 <= |p.cell| < B.TWO32 && |p.ref| == |p.cell| && |p.up| == |p.cell| &&
    AtomHeap.Terminated(p.heap)
  }

  /** The pair test of this file: the CONS, CLOS and MACR tags. */
  predicate Pair(w: Word)
  {
    Owned(true, w)
  }

  predicate Proper(n: nat, w: Word)
  {
    Pair(w) ==> Cell(n, B.Ord(w))
  }

  predicate AllProper(cell: seq<Word>)
  {
    forall k :: 0 <= k < |cell| ==> Proper(|cell|, cell[k])
  }

  /** A pair's upper word is FREE exactly when the pair is on the free list. */
  ghost predicate FreeMarked(p: Pool, fs: seq<nat>)
  {
    forall i: nat :: Cell(|p.cell|, i) && i < |p.up| ==> (p.up[i] == FREE <==> i in fs)
  }

  /**
   * The pool invariant relative to the free list `fs` and the references
   * `roots` held outside the pool: a well-formed free list whose pairs, and
   * only those, are marked FREE, and on the used pairs count = number of
   * owners, with nothing used referring to a free pair.
   */
  ghost predicate Inv(p: Pool, fs: seq<nat>, roots: multiset<nat>)
  {
    Shape(p) && AllProper(p.cell) &&
    FreeList(p.ref, false, |p.cell|, p.fp, p.fn, fs) && FreeMarked(p, fs) &&
    Counted(true, p.cell, p.ref, false, Used(|p.cell|, fs), roots) &&
    Closed(true, p.cell, Used(|p.cell|, fs), roots)
  }

  /** The atom heap stays below the lowest used pair. */
  ghost predicate Apart(p: Pool, fs: seq<nat>)
  {
    |p.heap| <= 8 * p.lp && forall i :: i in Used(|p.cell|, fs) ==> p.lp <= i
  }

  function Min(a: nat, b: nat): nat
  {
    if a < b then a else b
  }

  /**
   * `atom(s)`: find `s` in the heap, or append it and then raise `err(4)` if
   * the heap now reaches past `lp<<3`.
   */
  function Atom(p: Pool, s: string): (r: Out<Pool>)
    requires Shape(p) && |p.heap| < B.TWO32 && AtomHeap.NoNul(s)
    ensures r.p == p.(heap := r.p.heap) && AtomHeap.Terminated(r.p.heap) && p.heap <= r.p.heap
    ensures r.Fail? <==> !AtomHeap.Interned(p.heap, s) && |p.heap| + |s| + 1 > 8 * p.lp
    ensures r.Fail? ==> r.code == OOM && r.p.heap == p.heap + s + [AtomHeap.NUL]
    ensures r.Ok? ==> B.Tag(r.val) == B.ATOM && B.Ord(r.val) in AtomHeap.Starts(r.p.heap, 0) &&
                      AtomHeap.NameAt(r.p.heap, B.Ord(r.val)) == s
    ensures r.Ok? ==> r.p.heap == p.heap || |r.p.heap| <= 8 * p.lp
  {
    var (i, h2) := AtomHeap.Intern(p.heap, s);
    if i == |p.heap| && |h2| > 8 * p.lp then Fail(p.(heap := h2), OOM)
    else Ok(p.(heap := h2), B.Box(B.ATOM, i))
  }

  /**
   * A successful `atom` keeps the pool invariant and the heap below the
   * pairs, and every name interned before stays where it was.
   */
  lemma AtomKeeps(p: Pool, fs: seq<nat>, roots: multiset<nat>, s: string)
    requires Inv(p, fs, roots) && Apart(p, fs) && |p.heap| < B.TWO32 && AtomHeap.NoNul(s)
    requires Atom(p, s).Ok?
    ensures var q := Atom(p, s).p;
            Inv(q, fs, roots) && Apart(q, fs) &&
            AtomHeap.Starts(p.heap, 0) <= AtomHeap.Starts(q.heap, 0) &&
            forall a :: a in AtomHeap.Starts(p.heap, 0) ==> AtomHeap.NameAt(q.heap, a) == AtomHeap.NameAt(p.heap, a)
  {
    var q := Atom(p, s).p;
    AtomHeap.PrefixKeeps(p.heap, q.heap);
  }

  /**
   * `cons(x,y)`: lower `lp` to the free-list head `i` and raise `err(4)` if
   * the heap now reaches `lp<<3`; otherwise claim `i`: `fp` moves to its
   * link, its count becomes 1, its upper word 0, its car `x` and its cdr `y`.
   */
  function Cons(p: Pool, x: Word, y: Word, ghost fs: seq<nat>): (r: Out<Pool>)
    requires Shape(p) && FreeList(p.ref, false, |p.cell|, p.fp, p.fn, fs)
    ensures r.p.heap == p.heap && r.p.lp == Min(p.lp, p.fp)
    ensures r.Fail? <==> |p.heap| > 8 * Min(p.lp, p.fp)
    ensures r.Fail? ==> r.code == OOM && r.p == p.(lp := r.p.lp)
    ensures r.Ok? ==> r.val == B.Box(B.CONS, p.fp) && r.p.fn + 1 == p.fn &&
                      r.p.ref == p.ref[p.fp := 1] && r.p.up == p.up[p.fp := 0] &&
                      r.p.cell == p.cell[p.fp + 1 := x][p.fp := y]
    ensures r.Ok? && fs != [] ==> r.p.fp == Next(fs, 0)
  {
    var i := p.fp;
    var p1 := p.(lp := Min(p.lp, i));
    if |p.heap| > 8 * p1.lp then Fail(p1, OOM)
    else Ok(p1.(fp := p.ref[i], ref := p.ref[i := 1], fn := p.fn - 1, up := p.up[i := 0],
                cell := p.cell[i + 1 := x][i := y]), B.Box(B.CONS, i))
  }

  /** `car(p)`: the cell above the pair's index, or `err(1)` for a non-pair. */
  function Car(p: Pool, x: Word): (r: Res)
    requires Points(true, |p.cell|, x)
    ensures Pair(x) ==> r == StackPool.Val(p.cell[B.Ord(x) + 1])
    ensures !Pair(x) ==> r == StackPool.Throw(StackPool.Raised(1))
  {
    if Pair(x) then StackPool.Val(p.cell[B.Ord(x) + 1]) else StackPool.Throw(StackPool.Raised(1))
  }

  /** `cdr(p)`: the cell at the pair's index, or `err(1)` for a non-pair. */
  function Cdr(p: Pool, x: Word): (r: Res)
    requires Points(true, |p.cell|, x)
    ensures Pair(x) ==> r == StackPool.Val(p.cell[B.Ord(x)])
    ensures !Pair(x) ==> r == StackPool.Throw(StackPool.Raised(1))
  {
    if Pair(x) then StackPool.Val(p.cell[B.Ord(x)]) else StackPool.Throw(StackPool.Raised(1))
  }

  /** Car and cdr give back what cons stored; CLOS and MACR words are pairs as well. */
  lemma CarCdrCons(p: Pool, x: Word, y: Word, fs: seq<nat>)
    requires Shape(p) && FreeList(p.ref, false, |p.cell|, p.fp, p.fn, fs)
    requires Cons(p, x, y, fs).Ok?
    ensures var r := Cons(p, x, y, fs);
            Pair(r.val) && Points(true, |r.p.cell|, r.val) &&
            Car(r.p, r.val) == StackPool.Val(x) && Cdr(r.p, r.val) == StackPool.Val(y)
    ensures forall t: B.U32 :: B.IsPairTag(t % B.TWO16) <==> Pair(B.Box(t, 0))
  {
  }

  /** `dup(x)`: one more owner for a CONS, CLOS or MACR word; any other word changes nothing. */
  function Dup(p: Pool, x: Word): (r: Pool)
    requires Shape(p) && Points(true, |p.cell|, x)
    ensures r.cell == p.cell && r.up == p.up && r.heap == p.heap && r.fp == p.fp && r.lp == p.lp && r.fn == p.fn
    ensures |r.ref| == |p.ref|
    ensures !Pair(x) ==> r == p
    ensures Pair(x) ==> r.ref[B.Ord(x)] == p.ref[B.Ord(x)] + 1 &&
                        forall k :: 0 <= k < |p.ref| && k != B.Ord(x) ==> r.ref[k] == p.ref[k]
  {
    if Pair(x) then p.(ref := p.ref[B.Ord(x) := p.ref[B.Ord(x)] + 1]) else p
  }

  /** Reclaim pair `i`: push it on the free list and mark its upper word FREE. */
  function Reclaim(p: Pool, i: nat): (r: Pool)
    requires i < |p.ref| && i < |p.up|
    ensures r.cell == p.cell && r.heap == p.heap && r.lp == p.lp
    ensures r.fp == i && r.fn == p.fn + 1 && r.ref == p.ref[i := p.fp] && r.up == p.up[i := FREE]
  {
    p.(ref := p.ref[i := p.fp], fp := i, fn := p.fn + 1, up := p.up[i := FREE])
  }


  lemma ProperPoints(cell: seq<Word>)
    requires AllProper(cell)
    ensures AllPoint(true, cell)
  {
    forall k | 0 <= k < |cell|
      ensures Points(true, |cell|, cell[k])
    {
      assert Proper(|cell|, cell[k]);
    }
  }

  /**
   * A successful `cons` claims the head of the free list for a new pair that
   * owns the references passed in `x` and `y` and is owned once, by the
   * caller; the claimed pair's upper word is no longer FREE. A failed one
   * changes nothing but `lp`, so the invariant holds as it was.
   */
  lemma ConsKeeps(p: Pool, fs: seq<nat>, roots: multiset<nat>, x: Word, y: Word)
    requires Inv(p, fs, roots) && Apart(p, fs) && |p.heap| > 0
    requires Proper(|p.cell|, x) && Proper(|p.cell|, y) && Ref(true, x) + Ref(true, y) <= roots
    ensures var r := Cons(p, x, y, fs);
            fs != [] || r.Fail?
    ensures var r := Cons(p, x, y, fs);
            r.Ok? ==> r.val == B.Box(B.CONS, fs[0]) &&
                      Inv(r.p, fs[1..], roots - Ref(true, x) - Ref(true, y) + multiset{fs[0]}) &&
                      Apart(r.p, fs[1..])
    ensures var r := Cons(p, x, y, fs);
            r.Fail? ==> Inv(r.p, fs, roots)
  {
    var r := Cons(p, x, y, fs);
    if r.Ok? && fs != [] {
      ClaimFree(p, fs);
      ClaimMarked(p, fs, r.p);
      ClaimProper(p.cell, r.p.cell, fs[0], x, y);
      ClaimCounted(p, fs, roots, x, y, r.p);
      ClaimClosed(p, fs, roots, x, y, r.p);
    }
  }

  /** Popping the head keeps the rest of the list well formed. */
  lemma ClaimFree(p: Pool, fs: seq<nat>)
    requires Shape(p) && FreeList(p.ref, false, |p.cell|, p.fp, p.fn, fs) && fs != []
    ensures FreeList(p.ref[fs[0] := 1], false, |p.cell|, Next(fs, 0), p.fn - 1, fs[1..])
    ensures Used(|p.cell|, fs[1..]) == Used(|p.cell|, fs) + {fs[0]}
  {
    var ref2 := p.ref[fs[0] := 1];
    forall j | 0 <= j < |fs[1..]|
      ensures ref2[fs[1..][j]] == p.ref[fs[1..][j]] && Next(fs[1..], j) == Next(fs, j + 1)
    {
      assert fs[1..][j] == fs[j + 1];
    }
    UsedPop(|p.cell|, fs);
  }

  /** The claimed pair's upper word becomes 0, and it leaves the list. */
  lemma ClaimMarked(p: Pool, fs: seq<nat>, p2: Pool)
    requires Shape(p) && FreeMarked(p, fs) && fs != [] && fs[0] < |p.up| && fs[0] !in fs[1..]
    requires |p2.cell| == |p.cell|
    requires p2.up == p.up[fs[0] := 0]
    ensures FreeMarked(p2, fs[1..])
  {
    forall i: nat | Cell(|p2.cell|, i) && i < |p2.up|
      ensures p2.up[i] == FREE <==> i in fs[1..]
    {
      if i != fs[0] {
        assert i in fs <==> i in fs[1..] by {
          assert fs == [fs[0]] + fs[1..];
        }
      }
    }
  }

  lemma ClaimProper(cell: seq<Word>, cell2: seq<Word>, i: nat, x: Word, y: Word)
    requires AllProper(cell) && i + 1 < |cell| && Proper(|cell|, x) && Proper(|cell|, y)
    requires cell2 == cell[i + 1 := x][i := y]
    ensures AllProper(cell2)
  {
    forall k | 0 <= k < |cell2|
      ensures Proper(|cell2|, cell2[k])
    {
      if k != i && k != i + 1 {
        assert Proper(|cell|, cell[k]);
      }
    }
  }

  lemma ClaimCounted(p: Pool, fs: seq<nat>, roots: multiset<nat>, x: Word, y: Word, p2: Pool)
    requires Inv(p, fs, roots) && fs != []
    requires Ref(true, x) + Ref(true, y) <= roots
    requires Used(|p.cell|, fs[1..]) == Used(|p.cell|, fs) + {fs[0]}
    requires p2.ref == p.ref[fs[0] := 1] && p2.cell == p.cell[fs[0] + 1 := x][fs[0] := y]
    ensures Counted(true, p2.cell, p2.ref, false, Used(|p.cell|, fs[1..]), roots - Ref(true, x) - Ref(true, y) + multiset{fs[0]})
  {
    var n := |p.cell|;
    var i := fs[0];
    var u := Used(n, fs);
    var u2 := Used(n, fs[1..]);
    var roots2 := roots - Ref(true, x) - Ref(true, y) + multiset{i};
    forall j | j in u2
      ensures p2.ref[j] == Refs(true, p2.cell, u2, j, 0) + roots2[j]
    {
      RefsClaim(true, p.cell, u, i, x, y, j);
      if j == i {
        RefsUnused(true, p.cell, u, roots, i, 0);
      }
    }
  }

  lemma ClaimClosed(p: Pool, fs: seq<nat>, roots: multiset<nat>, x: Word, y: Word, p2: Pool)
    requires Inv(p, fs, roots) && fs != []
    requires Ref(true, x) + Ref(true, y) <= roots
    requires Used(|p.cell|, fs[1..]) == Used(|p.cell|, fs) + {fs[0]}
    requires p2.cell == p.cell[fs[0] + 1 := x][fs[0] := y]
    ensures Closed(true, p2.cell, Used(|p.cell|, fs[1..]), roots - Ref(true, x) - Ref(true, y) + multiset{fs[0]})
  {
    var n := |p.cell|;
    var i := fs[0];
    var u2 := Used(n, fs[1..]);
    forall k | 0 <= k < n && PairOf(k) in u2 && Owned(true, p2.cell[k])
      ensures B.Ord(p2.cell[k]) in u2
    {
      if PairOf(k) != i {
        assert p2.cell[k] == p.cell[k];
      }
    }
  }

  /** `dup` of a live value adds one owner and keeps the invariant. */
  lemma DupKeeps(p: Pool, fs: seq<nat>, roots: multiset<nat>, x: Word)
    requires Inv(p, fs, roots) && Proper(|p.cell|, x)
    requires Pair(x) ==> B.Ord(x) in Used(|p.cell|, fs)
    ensures Inv(Dup(p, x), fs, roots + Ref(true, x))
  {
    var r := Dup(p, x);
    if Pair(x) {
      var i := B.Ord(x);
      assert Ref(true, x) == multiset{i};
      DupFree(p, fs, r, i);
      DupCounted(p.cell, p.ref, r.ref, Used(|p.cell|, fs), roots, i);
      assert Closed(true, r.cell, Used(|p.cell|, fs), roots + multiset{i});
    } else {
      assert roots + Ref(true, x) == roots;
    }
  }

  /** One more owner of a used pair leaves the free list as it was. */
  lemma DupFree(p: Pool, fs: seq<nat>, r: Pool, i: nat)
    requires FreeList(p.ref, false, |p.cell|, p.fp, p.fn, fs) && i in Used(|p.cell|, fs)
    requires |r.ref| == |p.ref| && forall k :: 0 <= k < |p.ref| && k != i ==> r.ref[k] == p.ref[k]
    requires r.fp == p.fp && r.fn == p.fn && |r.cell| == |p.cell|
    ensures FreeList(r.ref, false, |r.cell|, r.fp, r.fn, fs)
  {
    forall j | 0 <= j < |fs|
      ensures r.ref[fs[j]] == p.ref[fs[j]]
    {
    }
  }

  /** One more owner of a used pair, and one more root referring to it. */
  lemma DupCounted(cell: seq<Word>, ref: seq<nat>, ref2: seq<nat>, u: set<nat>, roots: multiset<nat>, i: nat)
    requires Counted(true, cell, ref, false, u, roots) && i in u && |ref2| == |ref|
    requires i < |ref| && ref2[i] == ref[i] + 1
    requires forall k :: 0 <= k < |ref| && k != i ==> ref2[k] == ref[k]
    ensures Counted(true, cell, ref2, false, u, roots + multiset{i})
  {
    forall j | j in u
      ensures Idx(false, j) < |ref2| && ref2[Idx(false, j)] == Refs(true, cell, u, j, 0) + (roots + multiset{i})[j]
    {
      var c := Refs(true, cell, u, j, 0);
      assert Idx(false, j) < |ref| && ref[Idx(false, j)] == c + roots[j];
    }
  }
}
