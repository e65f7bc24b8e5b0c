/**
 * Releasing a reference in `proto/tinylisp-extras-gc.c`: `gc`, `collect`
 * and `gcscc`.
 *
 * `collect(x)` drops one owner of the pair `x`. At zero the pair goes back
 * on the free list with its upper word FREE, and its car and cdr are
 * released in turn (the cdr by looping, the car by recursion). Above zero,
 * a pair that `letrec` marked as part of a cycle is checked with `isoscc`,
 * and a component that only its own cyclic paths hold is freed whole by
 * `gcscc`. A pair whose upper word is already FREE is a double free: the C
 * raises error 4.
 *
 * The recursion is bounded by `fuel`; a walk that follows the marks onto a
 * word that is not a pair ends in `Stray`.
 */
module RcCollect {
  import B = Boxing
  import opened Owners
  import opened RcBits
  import opened RcPool
  import RcCycle

  /** `gc(x)`: release `x` if it is a pair. */
  function Gc(p: Pool, x: Word, fuel: nat): (r: Run<Pool>)
    requires Shape(p) && AllPoint(true, p.cell) && Points(true, |p.cell|, x)
    ensures Shape(r.p) && r.p.cell == p.cell && r.p.heap == p.heap && r.p.lp == p.lp
    ensures !Pair(x) ==> r == Done(p)
    decreases fuel, 3
  {
    if !Pair(x) then Done(p) else Collect(p, x, fuel)
  }

  /** `collect(x)` for the pair `x`. */
  function Collect(p: Pool, x: Word, fuel: nat): (r: Run<Pool>)
    requires Shape(p) && AllPoint(true, p.cell) && Points(true, |p.cell|, x) && Pair(x)
    ensures Shape(r.p) && r.p.cell == p.cell && r.p.heap == p.heap && r.p.lp == p.lp
    ensures fuel > 0 && p.up[B.Ord(x)] == FREE ==> r == Raise(p, OOM)
    decreases fuel, 1
  {
    if fuel == 0 then Spent(p)
    else
      var i := B.Ord(x);
      if p.up[i] == FREE then Raise(p, OOM)
      else
        var c := Dec(p.ref[i]);
        var p1 := p.(ref := p.ref[i := c]);
        if c != 0 then Isolated(p1, x, fuel)
        else Release(Reclaim(p, i), p.cell[i + 1], p.cell[i], fuel - 1)
  }

  /**
   * The rest of `collect` when the count stays above zero: a pair on a
   * component that only its own cyclic paths hold is freed with `gcscc`.
   */
  function Isolated(p: Pool, x: Word, fuel: nat): (r: Run<Pool>)
    requires Shape(p) && AllPoint(true, p.cell) && Points(true, |p.cell|, x) && Pair(x) && fuel > 0
    ensures Shape(r.p) && r.p.cell == p.cell && r.p.heap == p.heap && r.p.lp == p.lp
    ensures !Marked(p.up[B.Ord(x)]) ==> r == Done(p)
    decreases fuel, 0
  {
    var w := RcCycle.Isoscc(p.cell, p.ref, p.up, x);
    if w.Stray? then Stray(p.(up := w.up))
    else if w.ok then Gcscc(p.(up := w.up), x, fuel - 1)
    else Done(p.(up := w.up))
  }

  /**
   * What `collect` does with the slots of a pair it freed: release the car
   * by recursion and go on with the cdr; with only one pair among them, go
   * on with that one.
   */
  function Release(p: Pool, car: Word, cdr: Word, fuel: nat): (r: Run<Pool>)
    requires Shape(p) && AllPoint(true, p.cell) && Points(true, |p.cell|, car) && Points(true, |p.cell|, cdr)
    ensures Shape(r.p) && r.p.cell == p.cell && r.p.heap == p.heap && r.p.lp == p.lp
    ensures !Pair(car) && !Pair(cdr) ==> r == Done(p)
    decreases fuel, 2
  {
    if Pair(car) then
      if Pair(cdr) then
        var r1 := Collect(p, car, fuel);
        if !r1.Done? then r1 else Collect(r1.p, cdr, fuel)
      else Collect(p, car, fuel)
    else if Pair(cdr) then Collect(p, cdr, fuel)
    else Done(p)
  }

  /**
   * `gcscc(x)`: free the component through its marked paths until a FREE
   * word is reached. Each pair freed here goes back on the free list
   * without a count; a slot outside the component (an unmarked pair) is
   * released with `collect`, one inside it is freed by following it.
   */
  function Gcscc(p: Pool, x: Word, fuel: nat): (r: Run<Pool>)
    requires Shape(p) && AllPoint(true, p.cell) && Points(true, |p.cell|, x)
    ensures Shape(r.p) && r.p.cell == p.cell && r.p.heap == p.heap && r.p.lp == p.lp
    ensures Pair(x) && p.up[B.Ord(x)] == FREE ==> r == Done(p)
    decreases fuel, 1
  {
    if !Pair(x) then Stray(p)
    else
      var i := B.Ord(x);
      var k := p.up[i];
      if k == FREE then Done(p)
      else if fuel == 0 then Spent(p)
      else
        var p1 := Reclaim(p, i);
        var cdr := p.cell[i];
        var car := p.cell[i + 1];
        if Pair(car) && Pair(cdr) then
          if !MarkY(k) then
            var r1 := Collect(p1, car, fuel - 1);
            if !r1.Done? then r1 else Gcscc(r1.p, cdr, fuel - 1)
          else if MarkZ(k) then
            var r1 := Gcscc(p1, car, fuel - 1);
            if !r1.Done? then r1 else Gcscc(r1.p, cdr, fuel - 1)
          else
            var r1 := Collect(p1, cdr, fuel - 1);
            if !r1.Done? then r1 else Gcscc(r1.p, car, fuel - 1)
        else if Pair(car) then Gcscc(p1, car, fuel - 1)
        else Gcscc(p1, cdr, fuel - 1)
  }

  /** No used pair carries a cycle mark or count: the pool as long as `letrec` has found no cycle. */
  ghost predicate Quiet(p: Pool, fs: seq<nat>)
  {
    forall i :: i in Used(|p.cell|, fs) ==> i < |p.up| && p.up[i] == 0
  }

  /**
   * `collect` on a pool where `letrec` has marked no cycle: the count alone
   * decides, as in the reference counting of `proto/tinylisp-gc.c`.
   * `Collect` agrees with it on such pools (`CollectPlain`).
   */
  function PlainGc(p: Pool, x: Word, fuel: nat): (r: Run<Pool>)
    requires Shape(p) && AllPoint(true, p.cell) && Points(true, |p.cell|, x)
    ensures Shape(r.p) && r.p.cell == p.cell && r.p.heap == p.heap && r.p.lp == p.lp
    ensures !Pair(x) ==> r == Done(p)
    decreases fuel, 3
  {
    if !Pair(x) then Done(p) else PlainCollect(p, x, fuel)
  }

  function PlainCollect(p: Pool, x: Word, fuel: nat): (r: Run<Pool>)
    requires Shape(p) && AllPoint(true, p.cell) && Points(true, |p.cell|, x) && Pair(x)
    ensures Shape(r.p) && r.p.cell == p.cell && r.p.heap == p.heap && r.p.lp == p.lp
    ensures fuel > 0 && p.up[B.Ord(x)] == FREE ==> r == Raise(p, OOM)
    decreases fuel, 1
  {
    if fuel == 0 then Spent(p)
    else
      var i := B.Ord(x);
      if p.up[i] == FREE then Raise(p, OOM)
      else
        var c := Dec(p.ref[i]);
        if c != 0 then Done(p.(ref := p.ref[i := c]))
        else PlainRelease(Reclaim(p, i), p.cell[i + 1], p.cell[i], fuel - 1)
  }

  function PlainRelease(p: Pool, car: Word, cdr: Word, fuel: nat): (r: Run<Pool>)
    requires Shape(p) && AllPoint(true, p.cell) && Points(true, |p.cell|, car) && Points(true, |p.cell|, cdr)
    ensures Shape(r.p) && r.p.cell == p.cell && r.p.heap == p.heap && r.p.lp == p.lp
    ensures !Pair(car) && !Pair(cdr) ==> r == Done(p)
    decreases fuel, 2
  {
    if Pair(car) then
      if Pair(cdr) then
        var r1 := PlainCollect(p, car, fuel);
        if !r1.Done? then r1 else PlainCollect(r1.p, cdr, fuel)
      else PlainCollect(p, car, fuel)
    else if Pair(cdr) then PlainCollect(p, cdr, fuel)
    else Done(p)
  }

  /**
   * What the release of a freed pair amounts to: `gc` of its car, then `gc`
   * of its cdr (`SlotsPlain`).
   */
  function GcSlots(p: Pool, car: Word, cdr: Word, fuel: nat): (r: Run<Pool>)
    requires Shape(p) && AllPoint(true, p.cell) && Points(true, |p.cell|, car) && Points(true, |p.cell|, cdr)
    ensures Shape(r.p) && r.p.cell == p.cell && r.p.heap == p.heap && r.p.lp == p.lp
  {
    var r1 := PlainGc(p, car, fuel);
    if !r1.Done? then r1 else PlainGc(r1.p, cdr, fuel)
  }

  /** The release loop of `collect` is `gc` of the car followed by `gc` of the cdr. */
  lemma SlotsPlain(p: Pool, car: Word, cdr: Word, fuel: nat)
    requires Shape(p) && AllPoint(true, p.cell) && Points(true, |p.cell|, car) && Points(true, |p.cell|, cdr)
    ensures PlainRelease(p, car, cdr, fuel) == GcSlots(p, car, cdr, fuel)
  {
  }

  /** Every pair's upper word is FREE or carries no cycle mark. */
  ghost predicate Unmarked(p: Pool)
  {
    forall j: nat :: Cell(|p.cell|, j) && j < |p.up| ==> p.up[j] == FREE || !Marked(p.up[j])
  }

  /** A quiet pool, whose free pairs are marked FREE, is unmarked. */
  lemma QuietUnmarked(p: Pool, fs: seq<nat>)
    requires Shape(p) && FreeMarked(p, fs) && Quiet(p, fs)
    ensures Unmarked(p)
  {
    forall j: nat | Cell(|p.cell|, j) && j < |p.up| && p.up[j] != FREE
      ensures !Marked(p.up[j])
    {
      assert j in Used(|p.cell|, fs);
      Zero();
    }
  }

  /** On an unmarked pool `gc` is plain reference counting, and the pool stays unmarked. */
  lemma {:induction false} GcPlain(p: Pool, x: Word, fuel: nat)
    requires Shape(p) && AllProper(p.cell) && Unmarked(p) && Proper(|p.cell|, x)
    ensures AllPoint(true, p.cell) && Gc(p, x, fuel) == PlainGc(p, x, fuel)
    ensures Unmarked(PlainGc(p, x, fuel).p)
    decreases fuel, 3
  {
    ProperPoints(p.cell);
    if Pair(x) {
      CollectPlain(p, x, fuel);
    }
  }

  lemma {:induction false} CollectPlain(p: Pool, x: Word, fuel: nat)
    requires Shape(p) && AllProper(p.cell) && Unmarked(p) && Proper(|p.cell|, x) && Pair(x)
    ensures AllPoint(true, p.cell) && Collect(p, x, fuel) == PlainCollect(p, x, fuel)
    ensures Unmarked(PlainCollect(p, x, fuel).p)
    decreases fuel, 1
  {
    ProperPoints(p.cell);
    if fuel > 0 {
      var i := B.Ord(x);
      if p.up[i] != FREE {
        var c := Dec(p.ref[i]);
        if c != 0 {
          assert !Marked(p.up[i]);
        } else {
          var p2 := Reclaim(p, i);
          assert Unmarked(p2);
          ReleasePlain(p2, p.cell[i + 1], p.cell[i], fuel - 1);
        }
      }
    }
  }

  lemma {:induction false} ReleasePlain(p: Pool, car: Word, cdr: Word, fuel: nat)
    requires Shape(p) && AllProper(p.cell) && Unmarked(p) && Proper(|p.cell|, car) && Proper(|p.cell|, cdr)
    ensures AllPoint(true, p.cell) && Release(p, car, cdr, fuel) == PlainRelease(p, car, cdr, fuel)
    ensures Unmarked(PlainRelease(p, car, cdr, fuel).p)
    decreases fuel, 2
  {
    ProperPoints(p.cell);
    if Pair(car) {
      CollectPlain(p, car, fuel);
      var r1 := PlainCollect(p, car, fuel);
      if Pair(cdr) && r1.Done? {
        CollectPlain(r1.p, cdr, fuel);
      }
    } else if Pair(cdr) {
      CollectPlain(p, cdr, fuel);
    }
  }

  /**
   * Releasing a reference to a used pair never meets a FREE word: the pair
   * is used, so its upper word is not FREE.
   */
  lemma UsedNotFreed(p: Pool, fs: seq<nat>, roots: multiset<nat>, i: nat)
    requires Inv(p, fs, roots) && i in roots
    ensures i in Used(|p.cell|, fs) && Cell(|p.cell|, i) && p.up[i] != FREE
  {
    assert i in Used(|p.cell|, fs);
  }

  /** A release that leaves the count above zero keeps the invariant with that root gone. */
  lemma DecKeeps(p: Pool, fs: seq<nat>, rest: multiset<nat>, i: nat)
    requires Inv(p, fs, rest + multiset{i}) && Cell(|p.cell|, i) && Dec(p.ref[i]) != 0
    ensures Inv(p.(ref := p.ref[i := Dec(p.ref[i])]), fs, rest)
  {
    var n := |p.cell|;
    var u := Used(n, fs);
    var p1 := p.(ref := p.ref[i := Dec(p.ref[i])]);
    assert i in rest + multiset{i};
    assert i in u;
    assert FreeList(p1.ref, false, n, p1.fp, p1.fn, fs) by {
      forall j | 0 <= j < |fs|
        ensures p1.ref[fs[j]] == p.ref[fs[j]]
      {
        assert fs[j] != i;
      }
    }
    forall j | j in u
      ensures p1.ref[j] == Refs(true, p.cell, u, j, 0) + rest[j]
    {
      if j == i {
        var c := Refs(true, p.cell, u, j, 0);
        assert p.ref[i] == c + rest[i] + 1;
      }
    }
  }

  /**
   * A release that drops the count to zero: the pair had no owner but the
   * released root, so reclaiming it and handing its two slots' references
   * to the caller as roots keeps the invariant.
   */
  lemma ReclaimKeeps(p: Pool, fs: seq<nat>, rest: multiset<nat>, i: nat)
    requires Inv(p, fs, rest + multiset{i}) && Cell(|p.cell|, i) && Dec(p.ref[i]) == 0
    ensures i in Used(|p.cell|, fs) && Used(|p.cell|, [i] + fs) == Used(|p.cell|, fs) - {i}
    ensures Inv(Reclaim(p, i), [i] + fs, rest + Ref(true, p.cell[i]) + Ref(true, p.cell[i + 1]))
  {
    var n := |p.cell|;
    var u := Used(n, fs);
    assert i in rest + multiset{i};
    assert i in u;
    UsedPush(n, fs, i);
    var p2 := Reclaim(p, i);
    ReclaimFree(p, fs, rest + multiset{i}, i);
    ReclaimMarked(p, fs, i);
    ReclaimCounted(p, fs, rest, i);
    var c := Refs(true, p.cell, u, i, 0);
    assert c == 0 && rest[i] == 0;
    DelClosed(true, p.cell, u, rest, i);
  }

  lemma ReclaimFree(p: Pool, fs: seq<nat>, roots: multiset<nat>, i: nat)
    requires Inv(p, fs, roots) && i in Used(|p.cell|, fs)
    ensures FreeList(p.ref[i := p.fp], false, |p.cell|, i, p.fn + 1, [i] + fs)
  {
    forall j | 0 <= j < |fs|
      ensures Idx(false, fs[j]) != Idx(false, i)
    {
      assert fs[j] != i;
    }
    PushFree(p.ref, false, |p.cell|, p.fp, p.fn, fs, i);
  }

  lemma ReclaimMarked(p: Pool, fs: seq<nat>, i: nat)
    requires Shape(p) && FreeMarked(p, fs) && i < |p.up|
    ensures FreeMarked(Reclaim(p, i), [i] + fs)
  {
  }

  lemma ReclaimCounted(p: Pool, fs: seq<nat>, rest: multiset<nat>, i: nat)
    requires Inv(p, fs, rest + multiset{i}) && i in Used(|p.cell|, fs) && p.ref[i] == 1
    ensures Counted(true, p.cell, p.ref[i := p.fp], false, Used(|p.cell|, fs) - {i},
                    rest + Ref(true, p.cell[i]) + Ref(true, p.cell[i + 1]))
  {
    var u := Used(|p.cell|, fs);
    var u2 := u - {i};
    var ref2 := p.ref[i := p.fp];
    var roots2 := rest + Ref(true, p.cell[i]) + Ref(true, p.cell[i + 1]);
    forall j | j in u2
      ensures ref2[j] == Refs(true, p.cell, u2, j, 0) + roots2[j]
    {
      RefsDrop(true, p.cell, u, i, j);
    }
  }

  /** Reclaiming a pair keeps the pool quiet and the heap below the used pairs. */
  lemma ReclaimQuiet(p: Pool, fs: seq<nat>, i: nat)
    requires i < |p.ref| && i < |p.up| && Used(|p.cell|, [i] + fs) == Used(|p.cell|, fs) - {i}
    ensures Quiet(p, fs) ==> Quiet(Reclaim(p, i), [i] + fs)
    ensures Apart(p, fs) ==> Apart(Reclaim(p, i), [i] + fs)
  {
  }

  /**
   * On a quiet pool `gc` releases one reference: given enough fuel it
   * finishes without error, the invariant holds with that root gone, the
   * pool stays quiet, the pairs it frees are pushed on the free list, so
   * there are no more used pairs than before and the heap stays below them.
   */
  lemma QuietGc(p: Pool, fs: seq<nat>, rest: multiset<nat>, x: Word, fuel: nat)
    returns (q: Pool, fs2: seq<nat>)
    requires Inv(p, fs, rest + Ref(true, x)) && Quiet(p, fs) && Proper(|p.cell|, x)
    requires fuel > |Used(|p.cell|, fs)|
    ensures AllPoint(true, p.cell) && Gc(p, x, fuel) == Done(q)
    ensures Inv(q, fs2, rest) && Quiet(q, fs2)
    ensures |q.cell| == |p.cell| && |q.heap| == |p.heap| && q.lp == p.lp
    ensures |Used(|p.cell|, fs2)| <= |Used(|p.cell|, fs)|
    ensures Apart(p, fs) ==> Apart(q, fs2)
  {
    q, fs2 := GcReleases(p, fs, rest, x, fuel);
    QuietUnmarked(p, fs);
    GcPlain(p, x, fuel);
  }

  /** `gc` as plain reference counting keeps the invariant on a quiet pool. */
  lemma {:induction false} GcReleases(p: Pool, fs: seq<nat>, rest: multiset<nat>, x: Word, fuel: nat)
    returns (q: Pool, fs2: seq<nat>)
    requires Inv(p, fs, rest + Ref(true, x)) && Quiet(p, fs) && Proper(|p.cell|, x)
    requires fuel > |Used(|p.cell|, fs)|
    ensures AllPoint(true, p.cell) && PlainGc(p, x, fuel) == Done(q)
    ensures Inv(q, fs2, rest) && Quiet(q, fs2)
    ensures |q.cell| == |p.cell| && |q.heap| == |p.heap| && q.lp == p.lp
    ensures |Used(|p.cell|, fs2)| <= |Used(|p.cell|, fs)|
    ensures Apart(p, fs) ==> Apart(q, fs2)
    decreases fuel, 3
  {
    ProperPoints(p.cell);
    if !Pair(x) {
      assert rest + Ref(true, x) == rest;
      return p, fs;
    }
    var i := B.Ord(x);
    assert Ref(true, x) == multiset{i};
    UsedNotFreed(p, fs, rest + multiset{i}, i);
    if Dec(p.ref[i]) != 0 {
      q := CollectKeeps(p, fs, rest, x, i, fuel);
      fs2 := fs;
    } else {
      CollectZero(p, x, i, fuel);
      FreeStep(p, fs, rest, i, fuel);
      var p2 := Reclaim(p, i);
      q, fs2 := SlotsRelease(p2, [i] + fs, rest, p.cell[i + 1], p.cell[i], fuel - 1);
    }
  }

  /**
   * `collect` of a pair whose count stays above zero: only the count
   * changes, since a quiet pool has no pair marked on a cycle.
   */
  lemma CollectKeeps(p: Pool, fs: seq<nat>, rest: multiset<nat>, x: Word, i: nat, fuel: nat) returns (q: Pool)
    requires Inv(p, fs, rest + multiset{i}) && Quiet(p, fs) && AllPoint(true, p.cell)
    requires Pair(x) && i == B.Ord(x) && Cell(|p.cell|, i) && p.up[i] == 0 && Dec(p.ref[i]) != 0 && fuel > 0
    ensures PlainGc(p, x, fuel) == Done(q)
    ensures Inv(q, fs, rest) && Quiet(q, fs)
    ensures |q.cell| == |p.cell| && |q.heap| == |p.heap| && q.lp == p.lp
    ensures Apart(p, fs) ==> Apart(q, fs)
  {
    DecKeeps(p, fs, rest, i);
    q := p.(ref := p.ref[i := Dec(p.ref[i])]);
    Zero();
  }

  /** `collect` of a pair whose count drops to zero reclaims it and releases its slots. */
  lemma CollectZero(p: Pool, x: Word, i: nat, fuel: nat)
    requires Shape(p) && AllPoint(true, p.cell) && Points(true, |p.cell|, x) && Pair(x) && fuel > 0
    requires i == B.Ord(x) && Cell(|p.cell|, i) && p.up[i] != FREE && Dec(p.ref[i]) == 0
    ensures PlainGc(p, x, fuel) == GcSlots(Reclaim(p, i), p.cell[i + 1], p.cell[i], fuel - 1)
  {
    SlotsPlain(Reclaim(p, i), p.cell[i + 1], p.cell[i], fuel - 1);
  }

  /** Reclaiming pair `i` sets up the two releases that follow. */
  lemma FreeStep(p: Pool, fs: seq<nat>, rest: multiset<nat>, i: nat, fuel: nat)
    requires Inv(p, fs, rest + multiset{i}) && Quiet(p, fs) && Cell(|p.cell|, i) && Dec(p.ref[i]) == 0
    requires fuel > |Used(|p.cell|, fs)|
    ensures Inv(Reclaim(p, i), [i] + fs, rest + Ref(true, p.cell[i]) + Ref(true, p.cell[i + 1]))
    ensures Quiet(Reclaim(p, i), [i] + fs)
    ensures Proper(|p.cell|, p.cell[i]) && Proper(|p.cell|, p.cell[i + 1])
    ensures fuel - 1 > |Used(|p.cell|, [i] + fs)| && |Used(|p.cell|, [i] + fs)| < |Used(|p.cell|, fs)|
    ensures Apart(p, fs) ==> Apart(Reclaim(p, i), [i] + fs)
  {
    var n := |p.cell|;
    ReclaimKeeps(p, fs, rest, i);
    ReclaimQuiet(p, fs, i);
    CardDrop(Used(n, fs), i);
    assert Proper(n, p.cell[i]) && Proper(n, p.cell[i + 1]);
  }

  /** The releases of a freed pair's car and cdr, each slot's reference handed over as a root. */
  lemma {:induction false} SlotsRelease(p: Pool, fs: seq<nat>, rest: multiset<nat>, car: Word, cdr: Word, fuel: nat)
    returns (q: Pool, fs2: seq<nat>)
    requires Inv(p, fs, rest + Ref(true, cdr) + Ref(true, car)) && Quiet(p, fs)
    requires Proper(|p.cell|, car) && Proper(|p.cell|, cdr)
    requires fuel > |Used(|p.cell|, fs)|
    ensures AllPoint(true, p.cell) && GcSlots(p, car, cdr, fuel) == Done(q)
    ensures Inv(q, fs2, rest) && Quiet(q, fs2)
    ensures |q.cell| == |p.cell| && |q.heap| == |p.heap| && q.lp == p.lp
    ensures |Used(|p.cell|, fs2)| <= |Used(|p.cell|, fs)|
    ensures Apart(p, fs) ==> Apart(q, fs2)
    decreases fuel, 4
  {
    ProperPoints(p.cell);
    if Pair(car) && Pair(cdr) {
      var qA, fsA := GcReleases(p, fs, rest + Ref(true, cdr), car, fuel);
      q, fs2 := GcReleases(qA, fsA, rest, cdr, fuel);
    } else if Pair(car) {
      assert rest + Ref(true, cdr) + Ref(true, car) == rest + Ref(true, car);
      q, fs2 := GcReleases(p, fs, rest, car, fuel);
    } else if Pair(cdr) {
      assert rest + Ref(true, cdr) + Ref(true, car) == rest + Ref(true, cdr);
      q, fs2 := GcReleases(p, fs, rest, cdr, fuel);
    } else {
      assert rest + Ref(true, cdr) + Ref(true, car) == rest;
      q, fs2 := p, fs;
    }
  }
}
