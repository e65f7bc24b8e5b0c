/**
 * The mark-sweep `rebuild` of `proto/tinylisp-gc.c` and
 * `proto/tinylisp-opt-gc.c`, run before every read at the REPL (and after an
 * error longjmps back to it): zero every count, `mark` from the global
 * environment, then `sweep` the heap top and the free list. It recomputes
 * every count from scratch, so pairs leaked by an error (claimed by `alloc`
 * but never owned) go back to the free list.
 */
module RefRebuild {
  import B = Boxing
  import AtomHeap
  import opened Owners
  import RefPool

  /** The `ref` entries still zero: the pairs not yet reached by `mark`. */
  function Zeros(ref: seq<nat>): set<nat>
  {
    set k | 0 <= k < |ref| && ref[k] == 0
  }

  /** The pairs whose entry was zero in `ref` and is not in `r`: the pairs marked in between. */
  function Fresh(ref: seq<nat>, r: seq<nat>): set<nat>
    requires |ref| == |r|
  {
    set q | 0 <= q < 2 * |ref| && q % 2 == 0 && ref[q / 2] == 0 && r[q / 2] != 0
  }

  /** One pair's entry going from zero to one removes it from the zeros. */
  lemma ZerosClaim(ref: seq<nat>, i: nat)
    requires i < |ref| && ref[i] == 0
    ensures Zeros(ref[i := 1]) == Zeros(ref) - {i}
    ensures |Zeros(ref[i := 1])| < |Zeros(ref)|
  {
    assert Zeros(ref[i := 1]) == Zeros(ref) - {i};
  }

  /** The arrays `mark` works on: two cells per `ref` entry, every pair word inside. */
  predicate Marking(m: bool, cell: seq<Word>, ref: seq<nat>)
  {
    |cell| % 2 == 0 && |ref| == |cell| / 2 && AllPoint(m, cell)
  }

  /**
   * `mark(x)`: for a pair, count one more reference, and if it was the first,
   * mark its car and then its cdr. The recursion ends because each descent
   * turns one zero entry non-zero.
   */
  function Mark(m: bool, cell: seq<Word>, ref: seq<nat>, x: Word): (r: seq<nat>)
    requires Marking(m, cell, ref) && Points(m, |cell|, x)
    ensures |r| == |ref| && Zeros(r) <= Zeros(ref)
    ensures Owned(m, x) ==> r[B.Ord(x) / 2] != 0
    decreases |Zeros(ref)|
  {
    if !Owned(m, x) then ref
    else
      var o := B.Ord(x);
      if ref[o / 2] != 0 then
        assert Zeros(ref[o / 2 := ref[o / 2] + 1]) == Zeros(ref);
        ref[o / 2 := ref[o / 2] + 1]
      else
        var r1 := ref[o / 2 := 1];
        ZerosClaim(ref, o / 2);
        var r2 := Mark(m, cell, r1, cell[o + 1]);
        SubsetCard(Zeros(r2), Zeros(r1));
        Mark(m, cell, r2, cell[o])
  }

  /** The pairs marked by the two descents are the pair itself and those each descent marked. */
  lemma FreshSplit(ref: seq<nat>, r1: seq<nat>, r2: seq<nat>, r: seq<nat>, o: nat)
    requires |ref| == |r1| == |r2| == |r| && o % 2 == 0 && o / 2 < |ref| && ref[o / 2] == 0
    requires r1 == ref[o / 2 := 1] && Zeros(r2) <= Zeros(r1) && Zeros(r) <= Zeros(r2)
    ensures Fresh(ref, r) == {o} + Fresh(r1, r2) + Fresh(r2, r)
    ensures {o} !! Fresh(r1, r2) && ({o} + Fresh(r1, r2)) !! Fresh(r2, r)
  {
    forall q | q in Fresh(r1, r2)
      ensures q != o && q in Fresh(ref, r) && q !in Fresh(r2, r)
    {
      assert q / 2 !in Zeros(r2);
    }
    forall q | q in Fresh(r2, r)
      ensures q != o && q in Fresh(ref, r)
    {
      assert q / 2 in Zeros(r2);
    }
    forall q | q in Fresh(ref, r)
      ensures q in {o} + Fresh(r1, r2) + Fresh(r2, r)
    {
      if q != o {
        assert q / 2 != o / 2;
        assert r1[q / 2] == 0;
        if r2[q / 2] != 0 {
          assert q in Fresh(r1, r2);
        } else {
          assert q in Fresh(r2, r);
        }
      }
    }
    assert o in Fresh(ref, r) by {
      assert o / 2 !in Zeros(r1);
    }
  }

  /** Nothing is marked when `mark` returns at once. */
  lemma FreshNone(ref: seq<nat>, r: seq<nat>, i: nat)
    requires |ref| == |r| && forall k :: 0 <= k < |ref| && k != i ==> r[k] == ref[k]
    requires i < |ref| ==> ref[i] != 0
    ensures Fresh(ref, r) == {}
  {
    forall q | 0 <= q < 2 * |ref| && q % 2 == 0
      ensures q !in Fresh(ref, r)
    {
      if q / 2 != i {
        assert r[q / 2] == ref[q / 2];
      }
    }
  }

  /**
   * What `mark(x)` counts: the entry of every pair `j` grows by the
   * reference `x` holds to it plus one per slot, of a pair this call marked,
   * that refers to it. Each pair's slots are visited once, when it is first
   * reached, which is what makes the counts exact.
   */
  lemma {:induction false} MarkCounts(m: bool, cell: seq<Word>, ref: seq<nat>, x: Word, j: nat)
    requires Marking(m, cell, ref) && Points(m, |cell|, x)
    requires j % 2 == 0 && j + 1 < |cell|
    ensures var r := Mark(m, cell, ref, x);
            r[j / 2] == ref[j / 2] + Ref(m, x)[j] + Refs(m, cell, Fresh(ref, r), j, 0)
    decreases |Zeros(ref)|
  {
    var r := Mark(m, cell, ref, x);
    if !Owned(m, x) {
      FreshNone(ref, r, |ref|);
      RefsNone(m, cell, j, 0);
    } else {
      var o := B.Ord(x);
      if ref[o / 2] != 0 {
        FreshNone(ref, r, o / 2);
        RefsNone(m, cell, j, 0);
        if o != j {
          RefPool.HalfDistinct(o, j);
        }
      } else {
        var r1 := ref[o / 2 := 1];
        ZerosClaim(ref, o / 2);
        var r2 := Mark(m, cell, r1, cell[o + 1]);
        SubsetCard(Zeros(r2), Zeros(r1));
        assert r == Mark(m, cell, r2, cell[o]);
        MarkCounts(m, cell, r1, cell[o + 1], j);
        MarkCounts(m, cell, r2, cell[o], j);
        CountsStep(m, cell, ref, r1, r2, r, x, j);
      }
    }
  }

  /** The counts of the pair marked first, then of its car's descent, then of its cdr's, add up. */
  lemma CountsStep(m: bool, cell: seq<Word>, ref: seq<nat>, r1: seq<nat>, r2: seq<nat>, r: seq<nat>, x: Word, j: nat)
    requires Marking(m, cell, ref) && |ref| == |r1| == |r2| == |r| && Owned(m, x)
    requires B.Ord(x) % 2 == 0 && B.Ord(x) + 1 < |cell| && ref[B.Ord(x) / 2] == 0 && r1 == ref[B.Ord(x) / 2 := 1]
    requires Zeros(r2) <= Zeros(r1) && Zeros(r) <= Zeros(r2)
    requires j % 2 == 0 && j + 1 < |cell|
    requires r2[j / 2] == r1[j / 2] + Ref(m, cell[B.Ord(x) + 1])[j] + Refs(m, cell, Fresh(r1, r2), j, 0)
    requires r[j / 2] == r2[j / 2] + Ref(m, cell[B.Ord(x)])[j] + Refs(m, cell, Fresh(r2, r), j, 0)
    ensures r[j / 2] == ref[j / 2] + Ref(m, x)[j] + Refs(m, cell, Fresh(ref, r), j, 0)
  {
    var o := B.Ord(x);
    FreshSplit(ref, r1, r2, r, o);
    RefsUnion(m, cell, {o} + Fresh(r1, r2), Fresh(r2, r), j, 0);
    RefsUnion(m, cell, {o}, Fresh(r1, r2), j, 0);
    RefsOne(m, cell, o, j, 0);
    if o != j {
      RefPool.HalfDistinct(o, j);
    }
  }

  /** Every pair a slot of a pair marked between `ref` and `r` refers to is marked in `r`. */
  predicate Closes(m: bool, cell: seq<Word>, ref: seq<nat>, r: seq<nat>)
    requires Marking(m, cell, ref) && |r| == |ref|
  {
    forall k :: 0 <= k < |cell| && PairOf(k) in Fresh(ref, r) && Owned(m, cell[k]) ==> r[B.Ord(cell[k]) / 2] != 0
  }

  /**
   * `mark(x)` reaches everything reachable: the pair `x` refers to is
   * marked, and so is every pair a slot of a pair it marked refers to.
   */
  lemma {:induction false} MarkCloses(m: bool, cell: seq<Word>, ref: seq<nat>, x: Word)
    requires Marking(m, cell, ref) && Points(m, |cell|, x)
    ensures Closes(m, cell, ref, Mark(m, cell, ref, x))
    decreases |Zeros(ref)|
  {
    var r := Mark(m, cell, ref, x);
    if !Owned(m, x) {
      FreshNone(ref, r, |ref|);
    } else {
      var o := B.Ord(x);
      if ref[o / 2] != 0 {
        FreshNone(ref, r, o / 2);
      } else {
        var r1 := ref[o / 2 := 1];
        ZerosClaim(ref, o / 2);
        var r2 := Mark(m, cell, r1, cell[o + 1]);
        SubsetCard(Zeros(r2), Zeros(r1));
        assert r == Mark(m, cell, r2, cell[o]);
        MarkCloses(m, cell, r1, cell[o + 1]);
        MarkCloses(m, cell, r2, cell[o]);
        ClosesStep(m, cell, ref, r1, r2, r, o);
      }
    }
  }

  /** The pair marked first, then its car's descent, then its cdr's: together they close. */
  lemma ClosesStep(m: bool, cell: seq<Word>, ref: seq<nat>, r1: seq<nat>, r2: seq<nat>, r: seq<nat>, o: nat)
    requires Marking(m, cell, ref) && |ref| == |r1| == |r2| == |r|
    requires o % 2 == 0 && o + 1 < |cell| && ref[o / 2] == 0 && r1 == ref[o / 2 := 1]
    requires Zeros(r2) <= Zeros(r1) && Zeros(r) <= Zeros(r2)
    requires Closes(m, cell, r1, r2) && Closes(m, cell, r2, r)
    requires Owned(m, cell[o + 1]) ==> r2[B.Ord(cell[o + 1]) / 2] != 0
    requires Owned(m, cell[o]) ==> r[B.Ord(cell[o]) / 2] != 0
    ensures Closes(m, cell, ref, r)
  {
    FreshSplit(ref, r1, r2, r, o);
    forall k | 0 <= k < |cell| && PairOf(k) in Fresh(ref, r) && Owned(m, cell[k])
      ensures r[B.Ord(cell[k]) / 2] != 0
    {
      var t := B.Ord(cell[k]) / 2;
      assert Points(m, |cell|, cell[k]);
      if k != o && PairOf(k) !in Fresh(r2, r) {
        assert r2[t] != 0;
        assert t !in Zeros(r2);
      }
    }
  }

  /** Cell `k` holds an atom and belongs to a marked pair: the test of the first loop of `sweep`. */
  predicate LiveAtom(cell: seq<Word>, ref: seq<nat>, k: nat)
    requires k < |cell| && k / 2 < |ref|
  {
    ref[k / 2] != 0 && B.Tag(cell[k]) == B.ATOM
  }

  /**
   * The first loop of `sweep`: the highest atom offset held by a cell of a
   * marked pair, or 0 when there is none.
   */
  method SweepTop(cell: seq<Word>, ref: seq<nat>) returns (top: nat)
    requires |cell| % 2 == 0 && |ref| == |cell| / 2
    ensures forall k :: 0 <= k < |cell| && LiveAtom(cell, ref, k) ==> B.Ord(cell[k]) <= top
    ensures top == 0 || exists k :: 0 <= k < |cell| && LiveAtom(cell, ref, k) && B.Ord(cell[k]) == top
  {
    top := 0;
    var i := 0;
    while i < |cell|
      invariant 0 <= i <= |cell|
      invariant forall k :: 0 <= k < i && LiveAtom(cell, ref, k) ==> B.Ord(cell[k]) <= top
      invariant top == 0 || exists k :: 0 <= k < i && LiveAtom(cell, ref, k) && B.Ord(cell[k]) == top
    {
      if LiveAtom(cell, ref, i) && B.Ord(cell[i]) > top {
        top := B.Ord(cell[i]);
      }
      i := i + 1;
    }
  }

  /**
   * `hp += strlen(A+hp)+1`: cut the heap after the name at `top`. The heap
   * is empty only before the first `rebuild`, where the zeroed cell memory
   * reads as an empty name, so one NUL byte remains.
   */
  function Trim(heap: seq<char>, top: nat): (h: seq<char>)
    requires AtomHeap.Terminated(heap) && (heap != [] ==> top in AtomHeap.Starts(heap, 0))
    ensures AtomHeap.Terminated(h) && h != []
    ensures heap == [] ==> h == [AtomHeap.NUL]
    ensures heap != [] ==> h <= heap && top < |h|
    ensures heap != [] ==> forall a :: a in AtomHeap.Starts(heap, 0) && a <= top ==>
              a in AtomHeap.Starts(h, 0) && AtomHeap.NameAt(h, a) == AtomHeap.NameAt(heap, a)
  {
    if heap == [] then [AtomHeap.NUL]
    else
      AtomHeap.ShrinkKeeps(heap, top);
      AtomHeap.Shrink(heap, top)
  }

  /** The marked proper pairs. */
  function Live(ref: seq<nat>): set<nat>
  {
    set q | 0 <= q < 2 * |ref| && Cell(2 * |ref|, q) && ref[q / 2] != 0
  }

  /** The free list runs from the highest pair down. */
  predicate Descending(fs: seq<nat>)
  {
    forall a, b :: 0 <= a < b < |fs| ==> fs[a] > fs[b]
  }

  /** The state of the second loop of `sweep`: the `ref` array, `fp`, `lp`, `fn`, and the free list it has built. */
  datatype Sweeping = Sweeping(ref: seq<nat>, fp: nat, lp: nat, fn: nat, fs: seq<nat>)

  /**
   * The second loop of `sweep` after looking at the pairs below `i`,
   * starting from `fp = 0, lp = N-2, fn = 1`: an unmarked pair is pushed on
   * the free list (`del`), a marked one lowers `lp` (`lomem`).
   */
  function SweepTo(ref: seq<nat>, i: nat): (s: Sweeping)
    requires 2 <= i <= 2 * |ref| && i % 2 == 0
    ensures |s.ref| == |ref|
    decreases i
  {
    if i == 2 then Sweeping(ref, 0, 2 * |ref| - 2, 1, [])
    else
      var s := SweepTo(ref, i - 2);
      var k := i - 2;
      if ref[k / 2] != 0 then s.(lp := if k < s.lp then k else s.lp)
      else s.(ref := s.ref[k / 2 := s.fp], fp := k, fn := s.fn + 1, fs := [k] + s.fs)
  }

  /** The pairs on the list are proper, below `i`, and highest first. */
  lemma {:induction false} SweptBelow(ref: seq<nat>, i: nat)
    requires 2 <= i <= 2 * |ref| && i % 2 == 0
    ensures var fs := SweepTo(ref, i).fs;
            Descending(fs) && forall a :: 0 <= a < |fs| ==> Cell(2 * |ref|, fs[a]) && fs[a] < i - 1
    decreases i
  {
    if i > 2 {
      SweptBelow(ref, i - 2);
      var k := i - 2;
      var fs := SweepTo(ref, k).fs;
      if ref[k / 2] == 0 {
        var fs2 := [k] + fs;
        forall a, b | 0 <= a < b < |fs2|
          ensures fs2[a] > fs2[b]
        {
          assert fs2[b] == fs[b - 1];
          if a > 0 {
            assert fs2[a] == fs[a - 1];
          }
        }
        assert Cell(2 * |ref|, k) by {
          EvenBelow(|ref|, k);
        }
      }
    }
  }

  /** An even index below an even bound leaves room for the slot above it. */
  lemma EvenBelow(h: nat, k: nat)
    requires k % 2 == 0 && 2 <= k < 2 * h
    ensures Cell(2 * h, k)
  {
  }

  /** The list built is a well-formed free list. */
  lemma {:induction false} SweptFree(ref: seq<nat>, i: nat)
    requires 2 <= i <= 2 * |ref| && i % 2 == 0
    ensures var s := SweepTo(ref, i);
            FreeList(s.ref, true, 2 * |ref|, s.fp, s.fn, s.fs)
    decreases i
  {
    if i > 2 {
      var k := i - 2;
      var s := SweepTo(ref, k);
      SweptFree(ref, k);
      if ref[k / 2] == 0 {
        SweptBelow(ref, k);
        EvenBelow(|ref|, k);
        forall j | 0 <= j < |s.fs|
          ensures Idx(true, s.fs[j]) != Idx(true, k)
        {
          RefPool.HalfDistinct(s.fs[j], k);
        }
        PushFree(s.ref, true, 2 * |ref|, s.fp, s.fn, s.fs, k);
      }
    }
  }

  /** The list holds exactly the unmarked pairs below `i`. */
  lemma {:induction false} SweptMembers(ref: seq<nat>, i: nat)
    requires 2 <= i <= 2 * |ref| && i % 2 == 0
    ensures forall q: nat :: q in SweepTo(ref, i).fs <==> Cell(2 * |ref|, q) && q < i && ref[q / 2] == 0
    decreases i
  {
    if i > 2 {
      var k := i - 2;
      SweptMembers(ref, k);
      forall q: nat
        ensures q in SweepTo(ref, i).fs <==> Cell(2 * |ref|, q) && q < i && ref[q / 2] == 0
      {
        MemberStep(ref, k, SweepTo(ref, k).fs, SweepTo(ref, i).fs, q);
      }
    }
  }

  /** One pair further: the list gains the pair at `k` exactly when it is unmarked. */
  lemma MemberStep(ref: seq<nat>, k: nat, fs: seq<nat>, fs2: seq<nat>, q: nat)
    requires 2 <= k && k + 2 <= 2 * |ref| && k % 2 == 0
    requires q in fs <==> Cell(2 * |ref|, q) && q < k && ref[q / 2] == 0
    requires fs2 == if ref[k / 2] == 0 then [k] + fs else fs
    ensures q in fs2 <==> Cell(2 * |ref|, q) && q < k + 2 && ref[q / 2] == 0
  {
    if q == k + 1 {
      OddNotCell(2 * |ref|, k);
    } else if q == k {
      EvenBelow(|ref|, k);
    }
  }

  /** The slot above a pair's index is not a pair. */
  lemma OddNotCell(n: nat, i: nat)
    requires i % 2 == 0
    ensures !Cell(n, i + 1)
  {
  }

  /** The counts of the marked pairs are left alone. */
  lemma {:induction false} SweptKeeps(ref: seq<nat>, i: nat)
    requires 2 <= i <= 2 * |ref| && i % 2 == 0
    ensures forall q :: q in Live(ref) ==> SweepTo(ref, i).ref[q / 2] == ref[q / 2]
    decreases i
  {
    if i > 2 {
      var k := i - 2;
      SweptKeeps(ref, k);
      if ref[k / 2] == 0 {
        forall q | q in Live(ref)
          ensures q / 2 != k / 2
        {
          if q != k {
            RefPool.HalfDistinct(q, k);
          }
        }
      }
    }
  }

  /** `lp` is the lowest marked pair below `i`, or N-2 when there is none. */
  lemma {:induction false} SweptLow(ref: seq<nat>, i: nat)
    requires 2 <= i <= 2 * |ref| && i % 2 == 0
    ensures var lp := SweepTo(ref, i).lp;
            (lp == 2 * |ref| - 2 || (lp in Live(ref) && lp < i)) &&
            forall q :: q in Live(ref) && q < i ==> lp <= q
    decreases i
  {
    if i > 2 {
      var k := i - 2;
      SweptLow(ref, k);
      var lp := SweepTo(ref, i).lp;
      if ref[k / 2] != 0 {
        EvenBelow(|ref|, k);
        assert k in Live(ref);
      }
      forall q | q in Live(ref) && q < i
        ensures lp <= q
      {
        if q != k && q != k + 1 {
          assert q < k;
        } else if q == k + 1 {
          OddNotCell(2 * |ref|, k);
        }
      }
    }
  }

  /** With nothing marked, every pair goes on the list and `lp` stays at N-2. */
  lemma {:induction false} SweptEmpty(ref: seq<nat>, i: nat)
    requires 2 <= i <= 2 * |ref| && i % 2 == 0 && Live(ref) == {}
    ensures var s := SweepTo(ref, i);
            s.fn == i / 2 && s.fp == i - 2 && s.lp == 2 * |ref| - 2
    decreases i
  {
    if i > 2 {
      var k := i - 2;
      SweptEmpty(ref, k);
      EvenBelow(|ref|, k);
      assert k !in Live(ref);
    }
  }

  /**
   * The second loop of `sweep`: walk the pairs upwards from 2, pushing every
   * unmarked one on a fresh free list and lowering `lp` to every marked one.
   * The list ends up holding exactly the unmarked pairs, highest first, and
   * the counts of the marked pairs are left as `mark` made them.
   */
  method SweepFree(ref: seq<nat>) returns (ref2: seq<nat>, fp: nat, lp: nat, fn: nat, ghost fs: seq<nat>)
    requires |ref| >= 2
    ensures Sweeping(ref2, fp, lp, fn, fs) == SweepTo(ref, 2 * |ref|)
  {
    var n := 2 * |ref|;
    ref2, fp, lp, fn, fs := ref, 0, n - 2, 1, [];
    var i := 2;
    while i < n
      invariant 2 <= i <= n && i % 2 == 0
      invariant Sweeping(ref2, fp, lp, fn, fs) == SweepTo(ref, i)
    {
      if ref[i / 2] != 0 {
        lp := if i < lp then i else lp;
      } else {
        ref2 := ref2[i / 2 := fp];
        fp, fn, fs := i, fn + 1, [i] + fs;
      }
      i := i + 2;
    }
  }

  /**
   * What `sweep` leaves: the free list holds exactly the unmarked pairs,
   * highest first; the marked pairs keep the counts `mark` gave them; `lp`
   * is the lowest marked pair, or N-2.
   */
  lemma Swept(ref: seq<nat>)
    requires |ref| >= 2
    ensures var s := SweepTo(ref, 2 * |ref|);
            |s.ref| == |ref| && FreeList(s.ref, true, 2 * |ref|, s.fp, s.fn, s.fs) && Descending(s.fs) &&
            Used(2 * |ref|, s.fs) == Live(ref) &&
            (forall q :: q in Live(ref) ==> s.ref[q / 2] == ref[q / 2]) &&
            (s.lp == 2 * |ref| - 2 || s.lp in Live(ref)) &&
            (forall q :: q in Live(ref) ==> s.lp <= q) &&
            (Live(ref) == {} ==> s.fn == |ref| && s.fp == 2 * |ref| - 2 && s.lp == 2 * |ref| - 2)
  {
    var n := 2 * |ref|;
    SweptBelow(ref, n);
    SweptFree(ref, n);
    SweptMembers(ref, n);
    SweptKeeps(ref, n);
    SweptLow(ref, n);
    if Live(ref) == {} {
      SweptEmpty(ref, n);
    }
  }

  /** `memset(ref,0,sizeof(ref))`. */
  function Blank(h: nat): (r: seq<nat>)
    ensures |r| == h && forall k :: 0 <= k < h ==> r[k] == 0
  {
    seq(h, _ => 0)
  }

  /** Every word the pair test of `m` accepts refers to a proper pair of `n` cells. */
  predicate Sound(m: bool, n: nat, w: Word)
  {
    Owned(m, w) ==> Cell(n, B.Ord(w))
  }

  predicate AllSound(m: bool, cell: seq<Word>)
  {
    forall k :: 0 <= k < |cell| ==> Sound(m, |cell|, cell[k])
  }

  lemma SoundPoints(m: bool, cell: seq<Word>)
    requires AllSound(m, cell)
    ensures AllPoint(m, cell)
  {
    forall k | 0 <= k < |cell|
      ensures Points(m, |cell|, cell[k])
    {
      assert Sound(m, |cell|, cell[k]);
    }
  }

  /** The counts `mark(env)` leaves on a zeroed `ref` array. */
  function MarkAll(m: bool, cell: seq<Word>, env: Word): (r: seq<nat>)
    requires |cell| % 2 == 0 && AllSound(m, cell) && Sound(m, |cell|, env)
    ensures |r| == |cell| / 2
  {
    SoundPoints(m, cell);
    Mark(m, cell, Blank(|cell| / 2), env)
  }

  function Marks(p: RefPool.Pool, env: Word): (r: seq<nat>)
    requires RefPool.Shape(p) && RefPool.AllProper(p.cell) && RefPool.Proper(|p.cell|, env)
    ensures |r| == |p.ref|
  {
    assert AllSound(false, p.cell) by {
      forall k | 0 <= k < |p.cell|
        ensures Sound(false, |p.cell|, p.cell[k])
      {
        assert RefPool.Proper(|p.cell|, p.cell[k]);
      }
    }
    MarkAll(false, p.cell, env)
  }

  /** Every atom held by a cell of a pair marked in `r` is a name in the heap. */
  predicate NamedBy(cell: seq<Word>, r: seq<nat>, heap: seq<char>)
    requires |cell| % 2 == 0 && |r| == |cell| / 2 && AtomHeap.Terminated(heap)
  {
    forall k :: 0 <= k < |cell| && LiveAtom(cell, r, k) ==> B.Ord(cell[k]) in AtomHeap.Starts(heap, 0)
  }

  /** Every atom held by a cell that `mark(env)` reaches is a name in the heap. */
  predicate Named(p: RefPool.Pool, env: Word)
    requires RefPool.Shape(p) && RefPool.AllProper(p.cell) && RefPool.Proper(|p.cell|, env)
  {
    NamedBy(p.cell, Marks(p, env), p.heap)
  }

  /** No cell word refers to the reserved pair 0, so no slot counts towards it. */
  lemma {:induction false} RefsZero(m: bool, cell: seq<Word>, s: set<nat>, k: nat)
    requires AllSound(m, cell)
    ensures Refs(m, cell, s, 0, k) == 0
    decreases |cell| - k
  {
    if k < |cell| {
      assert Sound(m, |cell|, cell[k]);
      RefsZero(m, cell, s, k + 1);
    }
  }

  /**
   * `mark(env)` on zeroed counts: it marks only proper pairs, the count of
   * each is its number of owners (the slots of marked pairs, plus `env`), and
   * the marked pairs refer only to marked pairs.
   */
  lemma MarkedCounted(m: bool, cell: seq<Word>, env: Word)
    requires |cell| % 2 == 0 && 4 <= |cell| && AllSound(m, cell) && Sound(m, |cell|, env)
    ensures var r := MarkAll(m, cell, env);
            Counted(m, cell, r, true, Live(r), Ref(m, env)) &&
            Closed(m, cell, Live(r), Ref(m, env))
  {
    SoundPoints(m, cell);
    var z := Blank(|cell| / 2);
    var r := Mark(m, cell, z, env);
    var n := |cell|;
    MarkFresh(m, cell, env);
    forall j | j in Live(r)
      ensures Idx(true, j) < |r| && r[Idx(true, j)] == Refs(m, cell, Live(r), j, 0) + Ref(m, env)[j]
    {
      MarkCounts(m, cell, z, env, j);
    }
    MarkCloses(m, cell, z, env);
    forall k | 0 <= k < n && PairOf(k) in Live(r) && Owned(m, cell[k])
      ensures B.Ord(cell[k]) in Live(r)
    {
      assert Sound(m, n, cell[k]);
    }
  }

  /** Pair 0 stays unmarked, so the pairs `mark(env)` marked are the marked proper pairs. */
  lemma MarkFresh(m: bool, cell: seq<Word>, env: Word)
    requires |cell| % 2 == 0 && 4 <= |cell| && AllSound(m, cell) && Sound(m, |cell|, env)
    ensures var r := MarkAll(m, cell, env);
            Fresh(Blank(|cell| / 2), r) == Live(r)
  {
    SoundPoints(m, cell);
    var z := Blank(|cell| / 2);
    var r := Mark(m, cell, z, env);
    MarkCounts(m, cell, z, env, 0);
    RefsZero(m, cell, Fresh(z, r), 0);
    assert r[0] == 0;
    forall q | q in Fresh(z, r)
      ensures q in Live(r)
    {
      EvenBelow(|r|, q);
    }
  }

  /**
   * `rebuild()`: zero the counts, `mark(env)`, then `sweep`: cut the heap
   * after the highest atom still held, and rebuild the free list from the
   * unmarked pairs.
   */
  method Rebuild(p: RefPool.Pool, env: Word) returns (q: RefPool.Pool, ghost fs: seq<nat>)
    requires RefPool.Shape(p) && RefPool.AllProper(p.cell) && RefPool.Proper(|p.cell|, env)
    requires Named(p, env)
    ensures q.cell == p.cell && RefPool.Inv(q, fs, Ref(false, env)) && Descending(fs)
    ensures Used(|p.cell|, fs) == Live(Marks(p, env))
    ensures forall k :: 0 <= k < |p.cell| && PairOf(k) in Used(|p.cell|, fs) && B.Tag(p.cell[k]) == B.ATOM ==>
              B.Ord(p.cell[k]) in AtomHeap.Starts(q.heap, 0) &&
              AtomHeap.NameAt(q.heap, B.Ord(p.cell[k])) == AtomHeap.NameAt(p.heap, B.Ord(p.cell[k]))
    ensures p.heap == [] ==> q.heap == [AtomHeap.NUL]
    ensures p.heap != [] ==> q.heap <= p.heap
    ensures |p.heap| <= 8 * q.lp ==> RefPool.Apart(q, fs)
    ensures !RefPool.Pair(env) ==>
              Used(|p.cell|, fs) == {} && q.fp == |p.cell| - 2 && q.fn == |p.cell| / 2 && q.lp == |p.cell| - 2
  {
    var r := Marks(p, env);
    var top := SweepTop(p.cell, r);
    var heap := Trim(p.heap, top);
    var ref2, fp, lp, fn;
    ref2, fp, lp, fn, fs := SweepFree(r);
    q := RefPool.Pool(p.cell, ref2, heap, fp, lp, fn);
    SweptInv(p, env, q, fs);
    SweptNames(p, env, top, q, fs);
    SweptBelow(r, |p.cell|);
    SweptApart(p, env, top, q, fs);
    if !RefPool.Pair(env) {
      SweptNothing(p, env, q, fs);
    }
  }

  /** The heap stays below `lp` when it was below it before the cut. */
  lemma SweptApart(p: RefPool.Pool, env: Word, top: nat, q: RefPool.Pool, fs: seq<nat>)
    requires RefPool.Shape(p) && RefPool.AllProper(p.cell) && RefPool.Proper(|p.cell|, env)
    requires p.heap != [] ==> top in AtomHeap.Starts(p.heap, 0)
    requires q.cell == p.cell && q.heap == Trim(p.heap, top) && q.lp == SweepTo(Marks(p, env), |p.cell|).lp
    requires Used(|p.cell|, fs) == Live(Marks(p, env))
    ensures |p.heap| <= 8 * q.lp ==> RefPool.Apart(q, fs)
  {
    HeapBelow(Marks(p, env), p.heap, top, fs);
  }

  /**
   * After the cut the heap is no longer than before (one byte when it was
   * empty), and `lp` is at most every pair `sweep` kept.
   */
  lemma HeapBelow(r: seq<nat>, heap: seq<char>, top: nat, fs: seq<nat>)
    requires |r| >= 2 && AtomHeap.Terminated(heap) && (heap != [] ==> top in AtomHeap.Starts(heap, 0))
    requires Used(2 * |r|, fs) == Live(r)
    ensures var lp := SweepTo(r, 2 * |r|).lp;
            (|heap| <= 8 * lp ==> |Trim(heap, top)| <= 8 * lp) &&
            forall i :: i in Used(2 * |r|, fs) ==> lp <= i
  {
    Swept(r);
  }

  /** With `env` not a pair (the first `rebuild`), every pair is free and `lp` is N-2. */
  lemma SweptNothing(p: RefPool.Pool, env: Word, q: RefPool.Pool, fs: seq<nat>)
    requires RefPool.Shape(p) && RefPool.AllProper(p.cell) && RefPool.Proper(|p.cell|, env) && !RefPool.Pair(env)
    requires Sweeping(q.ref, q.fp, q.lp, q.fn, fs) == SweepTo(Marks(p, env), |p.cell|)
    requires Used(|p.cell|, fs) == Live(Marks(p, env))
    ensures Used(|p.cell|, fs) == {} && q.fp == |p.cell| - 2 && q.fn == |p.cell| / 2 && q.lp == |p.cell| - 2
  {
    var r := Marks(p, env);
    assert r == Blank(|p.ref|);
    forall j | j in Live(r)
      ensures false
    {
    }
    SweptEmpty(r, |p.cell|);
  }

  /** The pool `sweep` leaves after `mark(env)` satisfies the invariant with `env` its one root. */
  lemma SweptInv(p: RefPool.Pool, env: Word, q: RefPool.Pool, fs: seq<nat>)
    requires RefPool.Shape(p) && RefPool.AllProper(p.cell) && RefPool.Proper(|p.cell|, env)
    requires q.cell == p.cell && AtomHeap.Terminated(q.heap)
    requires Sweeping(q.ref, q.fp, q.lp, q.fn, fs) == SweepTo(Marks(p, env), |p.cell|)
    ensures RefPool.Inv(q, fs, Ref(false, env))
    ensures Used(|p.cell|, fs) == Live(Marks(p, env))
  {
    var r := Marks(p, env);
    SweptFree(r, |p.cell|);
    SweptUsed(r);
    SweptCounted(p, env, q);
  }

  /** After the whole loop, the used pairs are the marked ones. */
  lemma SweptUsed(ref: seq<nat>)
    requires |ref| >= 2
    ensures Used(2 * |ref|, SweepTo(ref, 2 * |ref|).fs) == Live(ref)
  {
    SweptMembers(ref, 2 * |ref|);
  }

  /** The counts `mark(env)` gave the marked pairs survive `sweep`. */
  lemma SweptCounted(p: RefPool.Pool, env: Word, q: RefPool.Pool)
    requires RefPool.Shape(p) && RefPool.AllProper(p.cell) && RefPool.Proper(|p.cell|, env)
    requires q.ref == SweepTo(Marks(p, env), |p.cell|).ref
    ensures Counted(false, p.cell, q.ref, true, Live(Marks(p, env)), Ref(false, env))
    ensures Closed(false, p.cell, Live(Marks(p, env)), Ref(false, env))
  {
    var r := Marks(p, env);
    SweptKeeps(r, |p.cell|);
    MarkedCounted(false, p.cell, env);
    CountedTransfer(p.cell, r, q.ref, Live(r), Ref(false, env));
  }

  /** Counts read only at the used pairs: entries that agree there give the same verdict. */
  lemma CountedTransfer(cell: seq<Word>, ref: seq<nat>, ref2: seq<nat>, u: set<nat>, roots: multiset<nat>)
    requires Counted(false, cell, ref, true, u, roots) && |ref2| == |ref|
    requires forall q :: q in u && q / 2 < |ref| ==> ref2[q / 2] == ref[q / 2]
    ensures Counted(false, cell, ref2, true, u, roots)
  {
    forall i | i in u
      ensures Idx(true, i) < |ref2| && ref2[Idx(true, i)] == Refs(false, cell, u, i, 0) + roots[i]
    {
      assert Idx(true, i) < |ref| && ref[Idx(true, i)] == Refs(false, cell, u, i, 0) + roots[i];
    }
  }

  /** Every atom a used cell holds keeps its name in the cut heap. */
  lemma SweptNames(p: RefPool.Pool, env: Word, top: nat, q: RefPool.Pool, fs: seq<nat>)
    requires RefPool.Shape(p) && RefPool.AllProper(p.cell) && RefPool.Proper(|p.cell|, env) && Named(p, env)
    requires forall k :: 0 <= k < |p.cell| && LiveAtom(p.cell, Marks(p, env), k) ==> B.Ord(p.cell[k]) <= top
    requires p.heap != [] ==> top in AtomHeap.Starts(p.heap, 0)
    requires q.heap == Trim(p.heap, top) && Used(|p.cell|, fs) == Live(Marks(p, env))
    ensures forall k :: 0 <= k < |p.cell| && PairOf(k) in Used(|p.cell|, fs) && B.Tag(p.cell[k]) == B.ATOM ==>
              B.Ord(p.cell[k]) in AtomHeap.Starts(q.heap, 0) &&
              AtomHeap.NameAt(q.heap, B.Ord(p.cell[k])) == AtomHeap.NameAt(p.heap, B.Ord(p.cell[k]))
  {
    NamesKept(p.cell, Marks(p, env), p.heap, top, fs);
  }

  /**
   * Cutting the heap after the highest atom of a marked pair keeps the name
   * of every atom a marked pair holds.
   */
  lemma NamesKept(cell: seq<Word>, r: seq<nat>, heap: seq<char>, top: nat, fs: seq<nat>)
    requires |cell| % 2 == 0 && |r| == |cell| / 2 && AtomHeap.Terminated(heap) && NamedBy(cell, r, heap)
    requires forall k :: 0 <= k < |cell| && LiveAtom(cell, r, k) ==> B.Ord(cell[k]) <= top
    requires heap != [] ==> top in AtomHeap.Starts(heap, 0)
    requires Used(|cell|, fs) == Live(r)
    ensures forall k :: 0 <= k < |cell| && PairOf(k) in Used(|cell|, fs) && B.Tag(cell[k]) == B.ATOM ==>
              B.Ord(cell[k]) in AtomHeap.Starts(Trim(heap, top), 0) &&
              AtomHeap.NameAt(Trim(heap, top), B.Ord(cell[k])) == AtomHeap.NameAt(heap, B.Ord(cell[k]))
  {
    forall k | 0 <= k < |cell| && PairOf(k) in Used(|cell|, fs) && B.Tag(cell[k]) == B.ATOM
      ensures B.Ord(cell[k]) in AtomHeap.Starts(Trim(heap, top), 0) &&
              AtomHeap.NameAt(Trim(heap, top), B.Ord(cell[k])) == AtomHeap.NameAt(heap, B.Ord(cell[k]))
    {
      assert k / 2 == PairOf(k) / 2;
      assert LiveAtom(cell, r, k);
    }
  }
}
