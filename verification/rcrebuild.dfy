/**
 * The `rebuild` of `proto/tinylisp-extras-gc.c`, run before every read at
 * the REPL: it saves each pair's count in its upper word, zeroes the
 * counts, `mark`s from the global environment and `sweep`s as the plain
 * reference counting files do (`RefRebuild`, on the CONS, CLOS and MACR
 * tags), then clears every upper word, marks the upper word of every free
 * pair FREE, and sets both registry pointers to NULL.
 *
 * Its `mark` loops on the cdr instead of recursing on it; the pairs it
 * marks and the counts it gives are those of recursing on the car and
 * then the cdr, which is how `RefRebuild.Mark` is written.
 */
module RcRebuild {
  import B = Boxing
  import AtomHeap
  import opened Owners
  import opened RcBits
  import RcPool
  import RcCollect
  import Exceptions
  import M = RefRebuild

  /** The counts `mark(env)` leaves, one per pair. */
  function Marks(p: RcPool.Pool, env: Word): (r: seq<nat>)
    requires RcPool.Shape(p) && RcPool.AllProper(p.cell) && RcPool.Proper(|p.cell|, env)
    ensures |r| == |p.cell| / 2
  {
    SoundCells(p);
    M.MarkAll(true, p.cell, env)
  }

  lemma SoundCells(p: RcPool.Pool)
    requires RcPool.AllProper(p.cell)
    ensures M.AllSound(true, p.cell)
  {
    forall k | 0 <= k < |p.cell|
      ensures M.Sound(true, |p.cell|, p.cell[k])
    {
      assert RcPool.Proper(|p.cell|, p.cell[k]);
    }
  }

  /** Every atom held by a cell that `mark(env)` reaches is a name in the heap. */
  predicate Named(p: RcPool.Pool, env: Word)
    requires RcPool.Shape(p) && RcPool.AllProper(p.cell) && RcPool.Proper(|p.cell|, env)
  {
    M.NamedBy(p.cell, Marks(p, env), p.heap)
  }

  /**
   * The first loop: `ref[i+1] = ref[i]; ref[i] = 0` for every pair. The
   * saved counts are what the debugging report compares the new counts
   * with; the counts start again from zero.
   */
  function Snapshot(p: RcPool.Pool): (p2: RcPool.Pool)
    requires RcPool.Shape(p)
    ensures RcPool.Shape(p2) && p2.cell == p.cell && p2.heap == p.heap
    ensures forall i :: 0 <= i < |p.cell| && i % 2 == 0 ==> p2.up[i] == (p.ref[i] % B.TWO32) as Up && p2.ref[i] == 0
  {
    p.(up := seq(|p.up|, k requires 0 <= k < |p.up| => if k % 2 == 0 then (p.ref[k] % B.TWO32) as Up else p.up[k]),
       ref := seq(|p.ref|, k requires 0 <= k < |p.ref| => if k % 2 == 0 then 0 else p.ref[k]))
  }

  /** Pair `i`'s entry of the per-pair array `h`, at `ref[i]`; odd positions keep what they held. */
  function Widen(h: seq<nat>, ref: seq<nat>): (r: seq<nat>)
    requires |ref| == 2 * |h|
    ensures |r| == |ref| && forall i :: 0 <= i < |r| && i % 2 == 0 ==> r[i] == h[i / 2]
  {
    seq(|ref|, k requires 0 <= k < |ref| => if k % 2 == 0 then h[k / 2] else ref[k])
  }

  /** `ref[i+1] = 0` for every pair: no cycle marks and no cycle counts. */
  function Clear(up: seq<Up>): (u: seq<Up>)
    ensures |u| == |up| && forall i :: 0 <= i < |u| && i % 2 == 0 ==> u[i] == 0
  {
    seq(|up|, k requires 0 <= k < |up| => if k % 2 == 0 then 0 else up[k])
  }

  /**
   * The last loop: follow the free list from `fp` through the links in
   * `ref` until 0, marking each upper word FREE.
   */
  method MarkFree(ref: seq<nat>, up: seq<Up>, fp: nat, fn: nat, ghost fs: seq<nat>) returns (u: seq<Up>)
    requires |up| == |ref| && FreeList(ref, false, |ref|, fp, fn, fs)
    ensures |u| == |up|
    ensures forall k :: 0 <= k < |u| ==> u[k] == if k in fs then FREE else up[k]
  {
    u := up;
    var i := fp;
    ghost var j := 0;
    while i > 0
      invariant 0 <= j <= |fs| && |u| == |up|
      invariant i == if j < |fs| then fs[j] else 0
      invariant forall k :: 0 <= k < |u| ==> u[k] == if k in fs[..j] then FREE else up[k]
      decreases |fs| - j
    {
      assert Cell(|ref|, fs[j]);
      assert fs[..j + 1] == fs[..j] + [fs[j]];
      u := u[i := FREE];
      i := ref[i];
      j := j + 1;
    }
    assert fs[..j] == fs;
  }

  /**
   * `rebuild()`. The pool it leaves satisfies the invariant with `env` its
   * one root, the used pairs are those `mark(env)` reached and carry the
   * counts it computed, no used pair carries a cycle mark, exactly the free
   * pairs are marked FREE, and the registry is idle. Atoms held by used
   * pairs keep their names in the cut heap.
   */
  method Rebuild(p: RcPool.Pool, env: Word) returns (q: RcPool.Pool, reg: Exceptions.Registry, ghost fs: seq<nat>)
    requires RcPool.Shape(p) && RcPool.AllProper(p.cell) && RcPool.Proper(|p.cell|, env)
    requires Named(p, env)
    ensures q.cell == p.cell && RcPool.Inv(q, fs, Ref(true, env)) && RcCollect.Quiet(q, fs)
    ensures Used(|p.cell|, fs) == M.Live(Marks(p, env)) && M.Descending(fs)
    ensures forall i :: i in Used(|p.cell|, fs) ==> q.ref[i] == Marks(p, env)[i / 2]
    ensures forall k :: 0 <= k < |p.cell| && PairOf(k) in Used(|p.cell|, fs) && B.Tag(p.cell[k]) == B.ATOM ==>
              B.Ord(p.cell[k]) in AtomHeap.Starts(q.heap, 0) &&
              AtomHeap.NameAt(q.heap, B.Ord(p.cell[k])) == AtomHeap.NameAt(p.heap, B.Ord(p.cell[k]))
    ensures |p.heap| <= 8 * q.lp ==> RcPool.Apart(q, fs)
    ensures reg == Exceptions.Idle
  {
    var p1 := Snapshot(p);
    var r := Marks(p1, env);
    assert r == Marks(p, env);
    var top := M.SweepTop(p.cell, r);
    var heap := M.Trim(p.heap, top);
    var h, fp, lp, fn;
    h, fp, lp, fn, fs := M.SweepFree(r);
    var ref := Widen(h, p1.ref);
    SweptList(r);
    HalfToFull(h, ref, fp, fn, fs);
    var up := MarkFree(ref, Clear(p1.up), fp, fn, fs);
    assert forall k :: 0 <= k < |up| && k % 2 == 0 ==> up[k] == if k in fs then FREE else 0;
    q := RcPool.Pool(p.cell, ref, up, heap, fp, lp, fn);
    reg := Exceptions.Idle;
    RebuiltInv(p, env, q, fs);
    M.NamesKept(p.cell, r, p.heap, top, fs);
    M.HeapBelow(r, p.heap, top, fs);
  }

  /** The free list `sweep` builds in the per-pair array is the same list at `ref[i]`. */
  lemma HalfToFull(h: seq<nat>, ref: seq<nat>, fp: nat, fn: nat, fs: seq<nat>)
    requires |ref| == 2 * |h| && FreeList(h, true, |ref|, fp, fn, fs)
    requires forall i :: 0 <= i < |ref| && i % 2 == 0 ==> ref[i] == h[i / 2]
    ensures FreeList(ref, false, |ref|, fp, fn, fs)
  {
    forall j | 0 <= j < |fs|
      ensures Cell(|ref|, fs[j]) && fs[j] < |ref| && ref[fs[j]] == Next(fs, j)
    {
      assert Cell(|ref|, fs[j]) && Idx(true, fs[j]) < |h| && h[Idx(true, fs[j])] == Next(fs, j);
    }
  }

  /** What `sweep` leaves is a descending free list of pairs in the per-pair array. */
  lemma SweptList(r: seq<nat>)
    requires |r| >= 2
    ensures var s := M.SweepTo(r, 2 * |r|);
            FreeList(s.ref, true, 2 * |r|, s.fp, s.fn, s.fs) && M.Descending(s.fs)
  {
    M.SweptFree(r, 2 * |r|);
    M.SweptBelow(r, 2 * |r|);
  }

  /** The pool `rebuild` leaves: the invariant with `env` as root, and quiet. */
  lemma RebuiltInv(p: RcPool.Pool, env: Word, q: RcPool.Pool, fs: seq<nat>)
    requires RcPool.Shape(p) && RcPool.AllProper(p.cell) && RcPool.Proper(|p.cell|, env)
    requires q.cell == p.cell && |q.ref| == |q.up| == |p.cell| && AtomHeap.Terminated(q.heap)
    requires var s := M.SweepTo(Marks(p, env), |p.cell|);
             fs == s.fs && forall i :: 0 <= i < |q.ref| && i % 2 == 0 ==> q.ref[i] == s.ref[i / 2]
    requires FreeList(q.ref, false, |p.cell|, q.fp, q.fn, fs)
    requires forall k :: 0 <= k < |q.up| && k % 2 == 0 ==> q.up[k] == if k in fs then FREE else 0
    ensures RcPool.Inv(q, fs, Ref(true, env)) && RcCollect.Quiet(q, fs)
    ensures Used(|p.cell|, fs) == M.Live(Marks(p, env))
    ensures forall i :: i in Used(|p.cell|, fs) ==> q.ref[i] == Marks(p, env)[i / 2]
  {
    RebuiltCounts(p, env, q.ref, fs);
    RebuiltMarks(q, fs);
  }

  /** The counts `sweep` kept, read at `ref[i]`, count the owners of every used pair. */
  lemma RebuiltCounts(p: RcPool.Pool, env: Word, ref: seq<nat>, fs: seq<nat>)
    requires RcPool.Shape(p) && RcPool.AllProper(p.cell) && RcPool.Proper(|p.cell|, env) && |ref| == |p.cell|
    requires var s := M.SweepTo(Marks(p, env), |p.cell|);
             fs == s.fs && forall i :: 0 <= i < |ref| && i % 2 == 0 ==> ref[i] == s.ref[i / 2]
    ensures Used(|p.cell|, fs) == M.Live(Marks(p, env))
    ensures forall i :: i in Used(|p.cell|, fs) ==> ref[i] == Marks(p, env)[i / 2]
    ensures Counted(true, p.cell, ref, false, Used(|p.cell|, fs), Ref(true, env))
    ensures Closed(true, p.cell, Used(|p.cell|, fs), Ref(true, env))
  {
    var r := Marks(p, env);
    var n := |p.cell|;
    SoundCells(p);
    M.SweptUsed(r);
    M.SweptKeeps(r, n);
    M.MarkedCounted(true, p.cell, env);
    var u := Used(n, fs);
    forall i | i in u
      ensures i < |ref| && ref[i] == Refs(true, p.cell, u, i, 0) + Ref(true, env)[i]
    {
      assert Idx(true, i) < |r| && r[Idx(true, i)] == Refs(true, p.cell, u, i, 0) + Ref(true, env)[i];
    }
  }

  /** Upper words FREE exactly on the free list and 0 elsewhere: marked free pairs, quiet used ones. */
  lemma RebuiltMarks(q: RcPool.Pool, fs: seq<nat>)
    requires |q.up| == |q.cell|
    requires forall k :: 0 <= k < |q.up| && k % 2 == 0 ==> q.up[k] == if k in fs then FREE else 0
    ensures RcPool.FreeMarked(q, fs) && RcCollect.Quiet(q, fs)
  {
    Zero();
  }

  /**
   * The saved counts and the new ones agree on every used pair when the
   * counts were exact with `env` as the one root and `mark(env)` reaches
   * every used pair: on such a pool the debugging report is silent about
   * used pairs.
   */
  lemma SnapshotAgrees(p: RcPool.Pool, fs0: seq<nat>, env: Word)
    requires RcPool.Inv(p, fs0, Ref(true, env)) && RcPool.Proper(|p.cell|, env)
    requires Used(|p.cell|, fs0) == M.Live(Marks(p, env))
    ensures forall i :: i in Used(|p.cell|, fs0) ==> Marks(p, env)[i / 2] == p.ref[i]
  {
    var r := Marks(p, env);
    SoundCells(p);
    M.MarkedCounted(true, p.cell, env);
    forall i | i in Used(|p.cell|, fs0)
      ensures r[i / 2] == p.ref[i]
    {
      assert Idx(true, i) < |r| && r[Idx(true, i)] == Refs(true, p.cell, M.Live(r), i, 0) + Ref(true, env)[i];
    }
  }
}
