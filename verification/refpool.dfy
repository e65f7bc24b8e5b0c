/**
 * The reference-counted pool of `proto/tinylisp-gc.c` and
 * `proto/tinylisp-opt-gc.c`. Both files share `alloc`, `cons`, `dup`, `del`,
 * `gc`, `mark`, `sweep` and `rebuild` word for word; they differ in what an
 * out-of-memory error does and in what `car`/`cdr` answer for a non-pair
 * (`Build`).
 *
 * `ref[i/2]` is the count of the used pair `i`, or the link of the free pair
 * `i`. `lp` is the lowest pair handed out, and the atom heap must stay
 * below it (`hp <= lp<<3`).
 */
module RefPool {
  import B = Boxing
  import AtomHeap
  import StackPool
  import StackEnv
  import opened Owners

  type Res = StackPool.Res

  datatype Pool = Pool(cell: seq<Word>, ref: seq<nat>, heap: seq<char>, fp: nat, lp: nat, fn: nat)

  /**
   * What differs between the two files: the code an out-of-memory error
   * longjmps with (`err(4)` in tinylisp-gc.c, `longjmp(jb,1)` in
   * tinylisp-opt-gc.c), and the answer of `car`/`cdr` for a non-pair
   * (`err(1)`, or the `err` global holding the ERR atom).
   */
  datatype Build = Build(oom: nat, notPair: Res)

  /**
   * The ERR atom of tinylisp-opt-gc.c. Its first `rebuild` runs on an empty
   * heap and leaves a one-byte empty name at offset 0 (`RefRebuild.Rebuild`),
   * so "ERR" is interned at offset 1.
   */
  const ERR_OPT: Word := B.Box(B.ATOM, 1)

  const GC: Build := Build(4, StackPool.Throw(StackPool.Raised(1)))
  const OPT_GC: Build := Build(1, StackPool.Val(ERR_OPT))

  /** N even, at least two pairs, indices that fit an ordinal, one `ref` entry per pair. */
  predicate Shape(p: Pool)
  {
    |p.cell| % 2 == 0 && 4 <= |p.cell| < B.TWO32 && |p.ref| == |p.cell| / 2 && AtomHeap.Terminated(p.heap)
  }

  /** One `ref` entry per pair: all `gc` needs to index both arrays. */
  predicate Sized(p: Pool)
  {
    |p.ref| == |p.cell| / 2
  }

  /** The pair test of both files: the CONS/CLOS mask. */
  predicate Pair(w: Word)
  {
    Owned(false, w)
  }

  /** Every word stored in a cell that refers to a pair refers to a proper pair. */
  predicate Proper(n: nat, w: Word)
  {
    Pair(w) ==> Cell(n, B.Ord(w))
  }

  predicate AllProper(cell: seq<Word>)
  {
    forall k :: 0 <= k < |cell| ==> Proper(|cell|, cell[k])
  }

  /**
   * The pool invariant, relative to the free list `fs` and the references
   * `roots` held outside the pool: a well-formed free list, and on the used
   * pairs count = number of owners, with nothing used referring to a free pair.
   */
  ghost predicate Inv(p: Pool, fs: seq<nat>, roots: multiset<nat>)
  {
    Shape(p) && AllProper(p.cell) &&
    FreeList(p.ref, true, |p.cell|, p.fp, p.fn, fs) &&
    Counted(false, p.cell, p.ref, true, Used(|p.cell|, fs), roots) &&
    Closed(false, p.cell, Used(|p.cell|, fs), roots)
  }

  /** The atom heap stays below the lowest used pair: `hp <= lp<<3` and `lp` is at most every used pair. */
  ghost predicate Apart(p: Pool, fs: seq<nat>)
  {
    |p.heap| <= 8 * p.lp && forall i :: i in Used(|p.cell|, fs) ==> p.lp <= i
  }

  function Min(a: nat, b: nat): nat
  {
    if a < b then a else b
  }

  /**
   * `alloc()` (with `lomem`): take the head `i` of the free list, set its
   * count to 1, lower `lp` to `i`, and only then raise the out-of-memory
   * error if the heap reaches `lp<<3`. The claimed pair stays claimed.
   */
  function Alloc(b: Build, p: Pool, ghost fs: seq<nat>): (r: Out<Pool>)
    requires Shape(p) && FreeList(p.ref, true, |p.cell|, p.fp, p.fn, fs)
    ensures r.p.cell == p.cell && r.p.heap == p.heap && r.p.fn + 1 == p.fn
    ensures r.p.lp == Min(p.lp, p.fp)
    ensures r.Fail? <==> |p.heap| > 8 * r.p.lp
    ensures r.Fail? ==> r.code == b.oom
    ensures fs != [] ==> r.p.fp == Next(fs, 0) && r.p.ref == p.ref[fs[0] / 2 := 1]
    ensures r.Ok? ==> B.Tag(r.val) == B.CONS && B.Ord(r.val) == p.fp
    ensures r.Ok? && |p.heap| > 0 ==> fs != []
  {
    var i := p.fp;
    var q := p.(fp := p.ref[i / 2], ref := p.ref[i / 2 := 1], fn := p.fn - 1, lp := Min(p.lp, i));
    if |p.heap| > 8 * q.lp then Fail(q, b.oom) else Ok(q, B.Box(B.CONS, i))
  }

  /**
   * `atom(s)`: find `s` in the heap, or append it and then raise the
   * out-of-memory error if the heap now reaches past `lp<<3`. The append is
   * not undone: the heap stays over the limit until the next `rebuild`.
   */
  function Atom(b: Build, p: Pool, s: string): (r: Out<Pool>)
    requires Shape(p) && |p.heap| < B.TWO32 && AtomHeap.NoNul(s)
    ensures r.p == p.(heap := r.p.heap) && AtomHeap.Terminated(r.p.heap) && p.heap <= r.p.heap
    ensures r.Fail? <==> !AtomHeap.Interned(p.heap, s) && |p.heap| + |s| + 1 > 8 * p.lp
    ensures r.Fail? ==> r.code == b.oom && r.p.heap == p.heap + s + [AtomHeap.NUL]
    ensures r.Ok? ==> B.Tag(r.val) == B.ATOM && B.Ord(r.val) in AtomHeap.Starts(r.p.heap, 0) &&
                      AtomHeap.NameAt(r.p.heap, B.Ord(r.val)) == s
    ensures r.Ok? ==> r.p.heap == p.heap || |r.p.heap| <= 8 * p.lp
  {
    var (i, h2) := AtomHeap.Intern(p.heap, s);
    if i == |p.heap| && |h2| > 8 * p.lp then Fail(p.(heap := h2), b.oom)
    else Ok(p.(heap := h2), B.Box(B.ATOM, i))
  }

  /**
   * A successful `atom` keeps the pool invariant and the heap below the
   * pairs, and every name interned before stays where it was.
   */
  lemma AtomKeeps(b: Build, p: Pool, fs: seq<nat>, roots: multiset<nat>, s: string)
    requires Inv(p, fs, roots) && Apart(p, fs) && |p.heap| < B.TWO32 && AtomHeap.NoNul(s)
    requires Atom(b, p, s).Ok?
    ensures var q := Atom(b, p, s).p;
            Inv(q, fs, roots) && Apart(q, fs) &&
            AtomHeap.Starts(p.heap, 0) <= AtomHeap.Starts(q.heap, 0) &&
            forall a :: a in AtomHeap.Starts(p.heap, 0) ==> AtomHeap.NameAt(q.heap, a) == AtomHeap.NameAt(p.heap, a)
  {
    var q := Atom(b, p, s).p;
    AtomHeap.PrefixKeeps(p.heap, q.heap);
  }

  /** `cons(x,y)`: allocate, then store the car `x` at `i+1` and the cdr `y` at `i`. */
  function Cons(b: Build, p: Pool, x: Word, y: Word, ghost fs: seq<nat>): (r: Out<Pool>)
    requires Shape(p) && FreeList(p.ref, true, |p.cell|, p.fp, p.fn, fs)
    ensures r.Fail? <==> |p.heap| > 8 * Min(p.lp, p.fp)
    ensures r.Fail? ==> r == Alloc(b, p, fs)
    ensures r.Ok? ==> r.val == Alloc(b, p, fs).val &&
                      r.p == Alloc(b, p, fs).p.(cell := p.cell[p.fp + 1 := x][p.fp := y])
  {
    var a := Alloc(b, p, fs);
    if a.Fail? then a
    else Ok(a.p.(cell := p.cell[p.fp + 1 := x][p.fp := y]), a.val)
  }

  /** `car(p)`: the cell above the pair's index, or the build's not-a-pair answer. */
  function Car(b: Build, p: Pool, x: Word): (r: Res)
    requires Points(false, |p.cell|, x)
    ensures Pair(x) ==> r == StackPool.Val(p.cell[B.Ord(x) + 1])
    ensures !Pair(x) ==> r == b.notPair
  {
    if Pair(x) then StackPool.Val(p.cell[B.Ord(x) + 1]) else b.notPair
  }

  /** `cdr(p)`: the cell at the pair's index, or the build's not-a-pair answer. */
  function Cdr(b: Build, p: Pool, x: Word): (r: Res)
    requires Points(false, |p.cell|, x)
    ensures Pair(x) ==> r == StackPool.Val(p.cell[B.Ord(x)])
    ensures !Pair(x) ==> r == b.notPair
  {
    if Pair(x) then StackPool.Val(p.cell[B.Ord(x)]) else b.notPair
  }

  /** Car and cdr give back what cons stored. */
  lemma CarCdrCons(b: Build, p: Pool, x: Word, y: Word, fs: seq<nat>)
    requires Shape(p) && FreeList(p.ref, true, |p.cell|, p.fp, p.fn, fs)
    requires Cons(b, p, x, y, fs).Ok?
    ensures var r := Cons(b, p, x, y, fs);
            Pair(r.val) && Points(false, |r.p.cell|, r.val) &&
            Car(b, r.p, r.val) == StackPool.Val(x) && Cdr(b, r.p, r.val) == StackPool.Val(y)
  {
    B.MaskIsPairExactly(B.CONS);
  }

  /** The classic raising flavour whose `assoc` walk tinylisp-gc.c repeats. */
  const GC_FLAVOR: StackPool.Flavor := StackPool.Flavor(true, false, 0, true, false)

  /** The pool seen as a cell array: the walk of `assoc` reads nothing else. */
  function View(p: Pool): StackPool.Machine
  {
    StackPool.Machine(p.cell, |p.cell|, p.heap, B.Box(B.NIL_CLASSIC, 0))
  }

  /**
   * `assoc(v,e)` of tinylisp-gc.c: the walk of the stack allocators,
   * raising `err(2)` at the end of the list.
   */
  function Assoc(p: Pool, v: Word, e: Word, ghost n: nat): (r: Res)
    requires StackPool.Sane(GC_FLAVOR, View(p)) && StackEnv.Chain(GC_FLAVOR, View(p), e, n)
    ensures r.Throw? ==> r.fault == StackPool.Raised(1) || r.fault == StackPool.Raised(2)
  {
    StackEnv.Assoc(GC_FLAVOR, View(p), v, e, n)
  }

  /** `assoc` answers the innermost binding's value, and `err(2)` exactly when `v` is unbound. */
  lemma AssocRaisesUnbound(p: Pool, v: Word, e: Word, n: nat)
    requires StackPool.Sane(GC_FLAVOR, View(p)) && StackEnv.Chain(GC_FLAVOR, View(p), e, n)
    requires StackEnv.PairBindings(GC_FLAVOR, View(p), e, n)
    ensures var bs := StackEnv.Bindings(GC_FLAVOR, View(p), e, n);
            (Assoc(p, v, e, n) == StackPool.Throw(StackPool.Raised(2)) <==> StackEnv.Lookup(bs, v).None?) &&
            (StackEnv.Lookup(bs, v).Some? ==> Assoc(p, v, e, n) == StackPool.Val(StackEnv.Lookup(bs, v).value))
  {
    StackEnv.AssocIsLookup(GC_FLAVOR, View(p), v, e, n);
  }

  /** `dup(x)`: one more owner for a pair; any other word is returned as it is. */
  function Dup(p: Pool, x: Word): (r: Pool)
    requires Shape(p) && Points(false, |p.cell|, x)
    ensures r.cell == p.cell && r.heap == p.heap && r.fp == p.fp && r.lp == p.lp && r.fn == p.fn
    ensures |r.ref| == |p.ref|
    ensures !Pair(x) ==> r == p
    ensures Pair(x) ==> r.ref[B.Ord(x) / 2] == p.ref[B.Ord(x) / 2] + 1 &&
                        forall k :: 0 <= k < |p.ref| && k != B.Ord(x) / 2 ==> r.ref[k] == p.ref[k]
  {
    if Pair(x) then p.(ref := p.ref[B.Ord(x) / 2 := p.ref[B.Ord(x) / 2] + 1]) else p
  }

  /** `del(i)`: push pair `i` on the free list. */
  function Del(p: Pool, i: nat): (r: Pool)
    requires i / 2 < |p.ref|
    ensures r.cell == p.cell && r.heap == p.heap && r.lp == p.lp
    ensures r.fp == i && r.fn == p.fn + 1 && r.ref == p.ref[i / 2 := p.fp]
  {
    p.(ref := p.ref[i / 2 := p.fp], fp := i, fn := p.fn + 1)
  }

  /** The pool `gc` works on once it has freed pair `i`. */
  function Freed(p: Pool, i: nat): (r: Pool)
    requires i / 2 < |p.ref|
    ensures r.cell == p.cell && r.heap == p.heap && r.lp == p.lp && |r.ref| == |p.ref|
  {
    Del(p.(ref := p.ref[i / 2 := 0]), i)
  }


  /**
   * `gc(x)`: for a pair, decrement its count; at zero, `del` it, then
   * release its car and then its cdr. The recursion is bounded by `fuel`
   * (on a corrupted pool the C would recurse without end).
   */
  function Gc(p: Pool, x: Word, fuel: nat): (r: Run<Pool>)
    requires Sized(p) && AllPoint(false, p.cell) && Points(false, |p.cell|, x)
    ensures r.p.cell == p.cell && r.p.heap == p.heap && r.p.lp == p.lp && |r.p.ref| == |p.ref|
    ensures !r.Raise?
    ensures !Pair(x) ==> r == Done(p)
    decreases fuel, 2
  {
    if !Pair(x) then Done(p)
    else if fuel == 0 then Spent(p)
    else GcPair(p, B.Ord(x), fuel - 1)
  }

  /** `gc` of the pair at `i`: one owner fewer, and at zero free it and release both its slots. */
  function GcPair(p: Pool, i: nat, fuel: nat): (r: Run<Pool>)
    requires Sized(p) && AllPoint(false, p.cell) && i % 2 == 0 && i + 1 < |p.cell|
    ensures r.p.cell == p.cell && r.p.heap == p.heap && r.p.lp == p.lp && |r.p.ref| == |p.ref|
    ensures !r.Raise?
    decreases fuel + 1, 1
  {
    var c := Dec(p.ref[i / 2]);
    if c != 0 then Done(p.(ref := p.ref[i / 2 := c]))
    else GcSlots(Freed(p, i), p.cell[i + 1], p.cell[i], fuel)
  }

  /** Release the car, then, if that finished, the cdr. */
  function GcSlots(p: Pool, car: Word, cdr: Word, fuel: nat): (r: Run<Pool>)
    requires Sized(p) && AllPoint(false, p.cell)
    requires Points(false, |p.cell|, car) && Points(false, |p.cell|, cdr)
    ensures r.p.cell == p.cell && r.p.heap == p.heap && r.p.lp == p.lp && |r.p.ref| == |p.ref|
    ensures !r.Raise?
    decreases fuel + 1, 0
  {
    var r1 := Gc(p, car, fuel);
    if !r1.Done? then r1 else Gc(r1.p, cdr, fuel)
  }

  /** Distinct pairs have distinct `ref` entries. */
  lemma HalfDistinct(i: nat, j: nat)
    requires i % 2 == 0 && j % 2 == 0 && i != j
    ensures i / 2 != j / 2
  {
  }

  /**
   * A successful `cons` claims the head of the free list for a new pair that
   * owns the references passed in `x` and `y` and is owned once, by the
   * caller: the invariant holds with those two roots traded for the new
   * pair, and the heap stays below the pairs. A failed one loses the claimed
   * pair until the next `rebuild`.
   */
  lemma ConsKeeps(b: Build, p: Pool, fs: seq<nat>, roots: multiset<nat>, x: Word, y: Word)
    requires Inv(p, fs, roots) && Apart(p, fs) && |p.heap| > 0
    requires Proper(|p.cell|, x) && Proper(|p.cell|, y) && Ref(false, x) + Ref(false, y) <= roots
    ensures var r := Cons(b, p, x, y, fs);
            fs != [] || r.Fail?
    ensures var r := Cons(b, p, x, y, fs);
            r.Ok? ==> r.val == B.Box(B.CONS, fs[0]) &&
                      Inv(r.p, fs[1..], roots - Ref(false, x) - Ref(false, y) + multiset{fs[0]}) &&
                      Apart(r.p, fs[1..])
    ensures var r := Cons(b, p, x, y, fs);
            r.Fail? && fs != [] ==> FreeList(r.p.ref, true, |r.p.cell|, r.p.fp, r.p.fn, fs[1..])
  {
    var r := Cons(b, p, x, y, fs);
    var n := |p.cell|;
    if fs != [] {
      var i := fs[0];
      var ref2 := p.ref[i / 2 := 1];
      forall j | 0 <= j < |fs| - 1
        ensures ref2[fs[1..][j] / 2] == p.ref[fs[1..][j] / 2]
      {
        HalfDistinct(fs[1..][j], i);
      }
      assert FreeList(ref2, true, n, Next(fs, 0), p.fn - 1, fs[1..]) by {
        forall j | 0 <= j < |fs[1..]|
          ensures Next(fs[1..], j) == Next(fs, j + 1)
        {
        }
      }
      if r.Ok? {
        ConsClaims(p, fs, roots, x, y, r.p);
      }
    }
  }

  /** The bookkeeping of a successful cons, on the pool it returns. */
  lemma ConsClaims(p: Pool, fs: seq<nat>, roots: multiset<nat>, x: Word, y: Word, p2: Pool)
    requires Inv(p, fs, roots) && Apart(p, fs) && fs != []
    requires Proper(|p.cell|, x) && Proper(|p.cell|, y) && Ref(false, x) + Ref(false, y) <= roots
    requires FreeList(p2.ref, true, |p.cell|, p2.fp, p2.fn, fs[1..])
    requires p2.ref == p.ref[fs[0] / 2 := 1] && p2.heap == p.heap && p2.lp == Min(p.lp, fs[0])
    requires p2.cell == p.cell[fs[0] + 1 := x][fs[0] := y] && |p2.heap| <= 8 * p2.lp
    ensures Inv(p2, fs[1..], roots - Ref(false, x) - Ref(false, y) + multiset{fs[0]}) && Apart(p2, fs[1..])
  {
    var n := |p.cell|;
    UsedPop(n, fs);
    ClaimProper(p.cell, p2.cell, fs[0], x, y);
    ClaimCounted(p, fs, roots, x, y, p2);
    ClaimClosed(p, fs, roots, x, y, p2);
  }

  lemma ClaimProper(cell: seq<Word>, cell2: seq<Word>, i: nat, x: Word, y: Word)
    requires AllProper(cell) && i + 1 < |cell| && Proper(|cell|, x) && Proper(|cell|, y)
    requires cell2 == cell[i + 1 := x][i := y]
    ensures AllProper(cell2)
  {
    forall k | 0 <= k < |cell2|
      ensures Proper(|cell2|, cell2[k])
    {
      if k != i && k != i + 1 {
        assert Proper(|cell|, cell[k]);
      }
    }
  }

  lemma ClaimCounted(p: Pool, fs: seq<nat>, roots: multiset<nat>, x: Word, y: Word, p2: Pool)
    requires Inv(p, fs, roots) && fs != []
    requires Ref(false, x) + Ref(false, y) <= roots
    requires Used(|p.cell|, fs[1..]) == Used(|p.cell|, fs) + {fs[0]}
    requires p2.ref == p.ref[fs[0] / 2 := 1] && p2.cell == p.cell[fs[0] + 1 := x][fs[0] := y]
    ensures Counted(false, p2.cell, p2.ref, true, Used(|p.cell|, fs[1..]), roots - Ref(false, x) - Ref(false, y) + multiset{fs[0]})
  {
    var n := |p.cell|;
    var i := fs[0];
    var u := Used(n, fs);
    var u2 := Used(n, fs[1..]);
    var roots2 := roots - Ref(false, x) - Ref(false, y) + multiset{i};
    forall j | j in u2
      ensures p2.ref[j / 2] == Refs(false, p2.cell, u2, j, 0) + roots2[j]
    {
      RefsClaim(false, p.cell, u, i, x, y, j);
      if j == i {
        RefsUnused(false, p.cell, u, roots, i, 0);
      } else {
        HalfDistinct(i, j);
      }
    }
  }

  lemma ClaimClosed(p: Pool, fs: seq<nat>, roots: multiset<nat>, x: Word, y: Word, p2: Pool)
    requires Inv(p, fs, roots) && fs != []
    requires Ref(false, x) + Ref(false, y) <= roots
    requires Used(|p.cell|, fs[1..]) == Used(|p.cell|, fs) + {fs[0]}
    requires p2.cell == p.cell[fs[0] + 1 := x][fs[0] := y]
    ensures Closed(false, p2.cell, Used(|p.cell|, fs[1..]), roots - Ref(false, x) - Ref(false, y) + multiset{fs[0]})
  {
    var n := |p.cell|;
    var i := fs[0];
    var u2 := Used(n, fs[1..]);
    forall k | 0 <= k < n && PairOf(k) in u2 && Owned(false, p2.cell[k])
      ensures B.Ord(p2.cell[k]) in u2
    {
      if PairOf(k) != i {
        assert p2.cell[k] == p.cell[k];
      }
    }
  }

  /** `dup` of a live value adds one owner and keeps the invariant. */
  lemma DupKeeps(p: Pool, fs: seq<nat>, roots: multiset<nat>, x: Word)
    requires Inv(p, fs, roots) && Proper(|p.cell|, x)
    requires Pair(x) ==> B.Ord(x) in Used(|p.cell|, fs)
    ensures Inv(Dup(p, x), fs, roots + Ref(false, x))
  {
    var n := |p.cell|;
    var u := Used(n, fs);
    assert Shape(p) && Points(false, n, x);
    var r := Dup(p, x);
    if Pair(x) {
      var i := B.Ord(x);
      assert Ref(false, x) == multiset{i};
      DupFree(p.ref, r.ref, n, p.fp, p.fn, fs, i);
      DupCounted(p.cell, p.ref, r.ref, u, roots, i);
      assert Closed(false, r.cell, u, roots + multiset{i});
    } else {
      assert Ref(false, x) == multiset{};
      assert roots + Ref(false, x) == roots;
    }
  }

  /** One more owner of a used pair leaves the free list as it was. */
  lemma DupFree(ref: seq<nat>, ref2: seq<nat>, n: nat, fp: nat, fn: nat, fs: seq<nat>, i: nat)
    requires FreeList(ref, true, n, fp, fn, fs) && i in Used(n, fs) && |ref2| == |ref|
    requires forall k :: 0 <= k < |ref| && k != i / 2 ==> ref2[k] == ref[k]
    ensures FreeList(ref2, true, n, fp, fn, fs)
  {
    forall j | 0 <= j < |fs|
      ensures ref2[fs[j] / 2] == ref[fs[j] / 2]
    {
      HalfDistinct(fs[j], i);
    }
  }

  /** One more owner of a used pair, and one more root referring to it. */
  lemma DupCounted(cell: seq<Word>, ref: seq<nat>, ref2: seq<nat>, u: set<nat>, roots: multiset<nat>, i: nat)
    requires Counted(false, cell, ref, true, u, roots) && i in u && |ref2| == |ref|
    requires forall j :: j in u ==> j % 2 == 0
    requires i / 2 < |ref| && ref2[i / 2] == ref[i / 2] + 1
    requires forall k :: 0 <= k < |ref| && k != i / 2 ==> ref2[k] == ref[k]
    ensures Counted(false, cell, ref2, true, u, roots + multiset{i})
  {
    forall j | j in u
      ensures Idx(true, j) < |ref2| && ref2[Idx(true, j)] == Refs(false, cell, u, j, 0) + (roots + multiset{i})[j]
    {
      var c := Refs(false, cell, u, j, 0);
      assert Idx(true, j) < |ref|;
      assert ref[Idx(true, j)] == c + roots[j];
      if j != i {
        HalfDistinct(i, j);
      }
    }
  }

  lemma ProperPoints(cell: seq<Word>)
    requires AllProper(cell)
    ensures AllPoint(false, cell)
  {
    forall k | 0 <= k < |cell|
      ensures Points(false, |cell|, cell[k])
    {
      assert Proper(|cell|, cell[k]);
    }
  }

  /** A release that leaves the count positive drops one root and keeps the invariant. */
  lemma DecKeeps(p: Pool, fs: seq<nat>, rest: multiset<nat>, x: Word, i: nat)
    requires Pair(x) && i == B.Ord(x) && Inv(p, fs, rest + Ref(false, x)) && Proper(|p.cell|, x)
    requires Dec(p.ref[i / 2]) != 0
    ensures Inv(p.(ref := p.ref[i / 2 := Dec(p.ref[i / 2])]), fs, rest)
  {
    assert Ref(false, x) == multiset{i};
    var n := |p.cell|;
    var u := Used(n, fs);
    var roots := rest + multiset{i};
    var p1 := p.(ref := p.ref[i / 2 := Dec(p.ref[i / 2])]);
    assert i in roots;
    assert i in u;
    forall j | 0 <= j < |fs|
      ensures p1.ref[fs[j] / 2] == p.ref[fs[j] / 2]
    {
      HalfDistinct(fs[j], i);
    }
    forall j | j in u
      ensures p1.ref[j / 2] == Refs(false, p.cell, u, j, 0) + rest[j]
    {
      if j != i {
        HalfDistinct(i, j);
      }
    }
  }

  /**
   * A release that drops the count to zero: the pair had no owner but the
   * released root, so pushing it on the free list and handing its two slots'
   * references to the caller as roots keeps the invariant.
   */
  lemma DelKeeps(p: Pool, fs: seq<nat>, rest: multiset<nat>, i: nat)
    requires Inv(p, fs, rest + multiset{i}) && Cell(|p.cell|, i) && Dec(p.ref[i / 2]) == 0
    ensures i in Used(|p.cell|, fs) && Used(|p.cell|, [i] + fs) == Used(|p.cell|, fs) - {i}
    ensures Inv(Freed(p, i), [i] + fs,
                rest + Ref(false, p.cell[i]) + Ref(false, p.cell[i + 1]))
  {
    var n := |p.cell|;
    var u := Used(n, fs);
    assert i in rest + multiset{i};
    assert i in u;
    UsedPush(n, fs, i);
    var p2 := Freed(p, i);
    DelFree(p, fs, rest + multiset{i}, i);
    DelCounted(p, fs, rest, i, p2.ref);
    assert Refs(false, p.cell, u, i, 0) == 0 && rest[i] == 0;
    DelClosed(false, p.cell, u, rest, i);
  }

  lemma DelFree(p: Pool, fs: seq<nat>, roots: multiset<nat>, i: nat)
    requires Inv(p, fs, roots) && i in Used(|p.cell|, fs)
    ensures FreeList(p.ref[i / 2 := p.fp], true, |p.cell|, i, p.fn + 1, [i] + fs)
  {
    var p1 := p.(ref := p.ref[i / 2 := 0]);
    forall j | 0 <= j < |fs|
      ensures p1.ref[fs[j] / 2] == p.ref[fs[j] / 2] && fs[j] / 2 != i / 2
    {
      HalfDistinct(fs[j], i);
    }
    assert FreeList(p1.ref, true, |p.cell|, p1.fp, p1.fn, fs);
    PushFree(p1.ref, true, |p.cell|, p1.fp, p1.fn, fs, i);
    assert p1.ref[i / 2 := p.fp] == p.ref[i / 2 := p.fp];
  }

  lemma DelCounted(p: Pool, fs: seq<nat>, rest: multiset<nat>, i: nat, ref2: seq<nat>)
    requires Inv(p, fs, rest + multiset{i}) && i in Used(|p.cell|, fs) && p.ref[i / 2] == 1
    requires ref2 == p.ref[i / 2 := p.fp]
    ensures Counted(false, p.cell, ref2, true, Used(|p.cell|, fs) - {i},
                    rest + Ref(false, p.cell[i]) + Ref(false, p.cell[i + 1]))
  {
    var u := Used(|p.cell|, fs);
    var u2 := u - {i};
    var roots2 := rest + Ref(false, p.cell[i]) + Ref(false, p.cell[i + 1]);
    forall j | j in u2
      ensures ref2[j / 2] == Refs(false, p.cell, u2, j, 0) + roots2[j]
    {
      HalfDistinct(i, j);
      RefsDrop(false, p.cell, u, i, j);
    }
  }

  /**
   * `gc` releases one reference: given enough fuel it finishes, the
   * invariant holds with that root gone, and the pairs it frees are pushed
   * on the free list, so there are no more used pairs than before and the
   * heap stays below them.
   */
  lemma {:induction false} GcReleases(p: Pool, fs: seq<nat>, rest: multiset<nat>, x: Word, fuel: nat) returns (q: Pool, fs2: seq<nat>)
    requires Inv(p, fs, rest + Ref(false, x)) && Proper(|p.cell|, x)
    requires fuel > |Used(|p.cell|, fs)|
    ensures AllPoint(false, p.cell) && Gc(p, x, fuel) == Done(q)
    ensures Inv(q, fs2, rest)
    ensures q.cell == p.cell && q.heap == p.heap && q.lp == p.lp
    ensures |Used(|p.cell|, fs2)| <= |Used(|p.cell|, fs)|
    ensures Apart(p, fs) ==> Apart(q, fs2)
    decreases fuel, 3
  {
    ProperPoints(p.cell);
    if !Pair(x) {
      assert rest + Ref(false, x) == rest;
      return p, fs;
    }
    var i := B.Ord(x);
    if Dec(p.ref[i / 2]) != 0 {
      DecKeeps(p, fs, rest, x, i);
      return p.(ref := p.ref[i / 2 := Dec(p.ref[i / 2])]), fs;
    }
    q, fs2 := GcFree(p, fs, rest, x, fuel);
  }

  /** `gc` of a pair whose count drops to zero. */
  lemma {:induction false} GcFree(p: Pool, fs: seq<nat>, rest: multiset<nat>, x: Word, fuel: nat) returns (q: Pool, fs2: seq<nat>)
    requires Pair(x) && Inv(p, fs, rest + Ref(false, x)) && Proper(|p.cell|, x)
    requires AllPoint(false, p.cell) && Dec(p.ref[B.Ord(x) / 2]) == 0
    requires fuel > |Used(|p.cell|, fs)|
    ensures GcPair(p, B.Ord(x), fuel - 1) == Done(q)
    ensures Inv(q, fs2, rest)
    ensures q.cell == p.cell && q.heap == p.heap && q.lp == p.lp
    ensures |Used(|p.cell|, fs2)| <= |Used(|p.cell|, fs)|
    ensures Apart(p, fs) ==> Apart(q, fs2)
    decreases fuel, 2
  {
    var i := B.Ord(x);
    FreeStep(p, fs, rest, x, i, fuel);
    q, fs2 := GcFreed(p, fs, rest, i, fuel);
  }

  /** Release the two slots of the pair `i` just freed. */
  lemma {:induction false} GcFreed(p: Pool, fs: seq<nat>, rest: multiset<nat>, i: nat, fuel: nat) returns (q: Pool, fs2: seq<nat>)
    requires Sized(p) && AllPoint(false, p.cell) && i % 2 == 0 && i + 1 < |p.cell|
    requires Inv(Freed(p, i), [i] + fs, rest + Ref(false, p.cell[i]) + Ref(false, p.cell[i + 1]))
    requires Proper(|p.cell|, p.cell[i]) && Proper(|p.cell|, p.cell[i + 1])
    requires fuel - 1 > |Used(|p.cell|, [i] + fs)| && |Used(|p.cell|, [i] + fs)| < |Used(|p.cell|, fs)|
    ensures GcSlots(Freed(p, i), p.cell[i + 1], p.cell[i], fuel - 1) == Done(q)
    ensures Inv(q, fs2, rest)
    ensures q.cell == p.cell && q.heap == p.heap && q.lp == p.lp
    ensures |Used(|p.cell|, fs2)| <= |Used(|p.cell|, fs)|
    ensures Apart(Freed(p, i), [i] + fs) ==> Apart(q, fs2)
    decreases fuel, 1
  {
    q, fs2 := GcFrees(Freed(p, i), [i] + fs, rest, p.cell[i + 1], p.cell[i], fuel - 1);
  }

  /**
   * What `gc` does after freeing a pair: release its car, then its cdr,
   * each slot's reference handed over as a root.
   */
  lemma {:induction false} GcFrees(p: Pool, fs: seq<nat>, rest: multiset<nat>, car: Word, cdr: Word, fuel: nat)
    returns (q: Pool, fs2: seq<nat>)
    requires Inv(p, fs, rest + Ref(false, cdr) + Ref(false, car))
    requires Proper(|p.cell|, car) && Proper(|p.cell|, cdr)
    requires fuel > |Used(|p.cell|, fs)|
    ensures AllPoint(false, p.cell) && GcSlots(p, car, cdr, fuel) == Done(q)
    ensures Inv(q, fs2, rest)
    ensures q.cell == p.cell && q.heap == p.heap && q.lp == p.lp
    ensures |Used(|p.cell|, fs2)| <= |Used(|p.cell|, fs)|
    ensures Apart(p, fs) ==> Apart(q, fs2)
    decreases fuel + 1, 0
  {
    var qA, fsA := GcReleases(p, fs, rest + Ref(false, cdr), car, fuel);
    q, fs2 := GcReleases(qA, fsA, rest, cdr, fuel);
  }

  /** Freeing pair `i` sets up the two releases that follow. */
  lemma FreeStep(p: Pool, fs: seq<nat>, rest: multiset<nat>, x: Word, i: nat, fuel: nat)
    requires Pair(x) && i == B.Ord(x) && Inv(p, fs, rest + Ref(false, x)) && Proper(|p.cell|, x)
    requires Dec(p.ref[i / 2]) == 0
    requires fuel > |Used(|p.cell|, fs)|
    ensures Inv(Freed(p, i), [i] + fs, rest + Ref(false, p.cell[i]) + Ref(false, p.cell[i + 1]))
    ensures Proper(|p.cell|, p.cell[i]) && Proper(|p.cell|, p.cell[i + 1])
    ensures fuel - 1 > |Used(|p.cell|, [i] + fs)| && |Used(|p.cell|, [i] + fs)| < |Used(|p.cell|, fs)|
    ensures Apart(p, fs) ==> Apart(Freed(p, i), [i] + fs)
  {
    var n := |p.cell|;
    assert Ref(false, x) == multiset{i};
    DelKeeps(p, fs, rest, i);
    CardDrop(Used(n, fs), i);
    FreedApart(p, fs, i);
    assert Proper(n, p.cell[i]) && Proper(n, p.cell[i + 1]);
  }

  /** Freeing a pair keeps the heap below the used pairs. */
  lemma FreedApart(p: Pool, fs: seq<nat>, i: nat)
    requires i / 2 < |p.ref| && Used(|p.cell|, [i] + fs) == Used(|p.cell|, fs) - {i}
    ensures Apart(p, fs) ==> Apart(Freed(p, i), [i] + fs)
  {
  }
}
