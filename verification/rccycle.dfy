/**
 * The cycle detector of `proto/tinylisp-extras-gc.c`.
 *
 * `letrec` builds environments that closures refer back to, so counting
 * alone would never free them. After such a binding, `scc` walks the graph
 * from the new environment pair (the origin) with `cyclic`: every pair on a
 * path leading back to the origin gets VISIT and MARKY or MARKZ for the slot
 * that leads back, and its low count goes up once per such path; `leave`
 * then clears the VISIT marks again. When `collect` later drops the count of
 * a marked pair, `isoscc` asks `isocyclic` whether every pair of the
 * component is now held only by the component's own paths, and if so
 * `gcscc` frees it (module `RcCollect`).
 *
 * The walks read the cells and counts and change only the upper words, so
 * they are functions from upper words to upper words here. A walk that
 * reaches a word that is not a pair where the C would go on indexing `ref`
 * with its ordinal (only once the marks no longer match the cells) ends in
 * `Stray`; one that recurses deeper than its fuel ends in `Spent`.
 */
module RcCycle {
  import B = Boxing
  import opened Owners
  import opened RcBits
  import RcPool

  datatype Walk = Walked(ok: bool, up: seq<Up>) | Stray(up: seq<Up>) | Spent(up: seq<Up>)

  /** The `nil` that `scc` and `cyclic` put in place of the ignored pair's cdr. */
  const NIL_WORD: Word := B.Box(B.NIL, 0)

  /** What every walk needs: an upper word per cell, and pair words that index pairs. */
  predicate Graph(cell: seq<Word>, up: seq<Up>)
  {
    |up| == |cell| && AllPoint(true, cell)
  }

  function Visited(up: seq<Up>): set<nat>
  {
    set k | 0 <= k < |up| && Visit(up[k])
  }

  function Unvisited(up: seq<Up>): set<nat>
  {
    set k | 0 <= k < |up| && !Visit(up[k])
  }

  lemma VisitedDrop(up: seq<Up>, i: nat)
    requires i < |up| && Visit(up[i])
    ensures Visited(up[i := Unvisit(up[i])]) == Visited(up) - {i}
    ensures |Visited(up[i := Unvisit(up[i])])| < |Visited(up)|
  {
    assert Visited(up[i := Unvisit(up[i])]) == Visited(up) - {i};
  }

  lemma UnvisitedDrop(up: seq<Up>, i: nat)
    requires i < |up| && !Visit(up[i])
    ensures Unvisited(up[i := SetVisit(up[i])]) == Unvisited(up) - {i}
    ensures |Unvisited(up[i := SetVisit(up[i])])| < |Unvisited(up)|
  {
    assert Unvisited(up[i := SetVisit(up[i])]) == Unvisited(up) - {i};
  }

  /**
   * `leave(x)`: while the pair `x` carries VISIT, clear it and go on through
   * the slots its marks name: the car alone (MARKY), the cdr (MARKZ or no
   * mark), or the car recursively and then the cdr (both). Every step clears
   * one VISIT bit, so it ends.
   */
  function Leave(cell: seq<Word>, up: seq<Up>, x: Word): (r: Walk)
    requires Graph(cell, up) && Points(true, |cell|, x)
    ensures !r.Spent? && |r.up| == |up| && Visited(r.up) <= Visited(up)
    decreases |Visited(up)|
  {
    if !RcPool.Pair(x) then Walk.Stray(up)
    else
      var i := B.Ord(x);
      var k := up[i];
      if !Visit(k) then Walked(true, up)
      else
        var up1 := up[i := Unvisit(k)];
        VisitedDrop(up, i);
        if MarkY(k) && MarkZ(k) then
          var r1 := Leave(cell, up1, cell[i + 1]);
          if r1.Stray? then r1
          else
            SubsetCard(Visited(r1.up), Visited(up1));
            Leave(cell, r1.up, cell[i])
        else if MarkY(k) then Leave(cell, up1, cell[i + 1])
        else Leave(cell, up1, cell[i])
  }

  /** `w2` differs from `w` at most by a cleared VISIT bit. */
  predicate Cleared(w: Up, w2: Up)
  {
    Unvisit(w2) == Unvisit(w) && (Visit(w2) ==> Visit(w))
  }

  /** Every upper word differs from the old one at most by a cleared VISIT bit. */
  predicate AllCleared(a: seq<Up>, b: seq<Up>)
  {
    |a| == |b| && forall k :: 0 <= k < |a| ==> Cleared(a[k], b[k])
  }

  /** Clearing the VISIT bit of one pair is a `Cleared` step. */
  lemma ClearOne(up: seq<Up>, i: nat)
    requires i < |up|
    ensures AllCleared(up, up[i := Unvisit(up[i])])
  {
    RestOfWord(up[i]);
  }

  /** `leave` only clears VISIT bits: marks and counts stay as they were. */
  lemma {:induction false} LeaveClears(cell: seq<Word>, up: seq<Up>, x: Word)
    requires Graph(cell, up) && Points(true, |cell|, x)
    ensures var r := Leave(cell, up, x);
            AllCleared(up, r.up)
    decreases |Visited(up)|
  {
    if RcPool.Pair(x) {
      var i := B.Ord(x);
      var k := up[i];
      if Visit(k) {
        var up1 := up[i := Unvisit(k)];
        VisitedDrop(up, i);
        ClearOne(up, i);
        if MarkY(k) && MarkZ(k) {
          var r1 := Leave(cell, up1, cell[i + 1]);
          LeaveClears(cell, up1, cell[i + 1]);
          if !r1.Stray? {
            SubsetCard(Visited(r1.up), Visited(up1));
            LeaveClears(cell, r1.up, cell[i]);
            ClearedTrans(up, up1, r1.up, Leave(cell, r1.up, cell[i]).up);
          } else {
            ClearedTrans(up, up1, r1.up, r1.up);
          }
        } else {
          var z := if MarkY(k) then cell[i + 1] else cell[i];
          LeaveClears(cell, up1, z);
          ClearedTrans(up, up1, up1, Leave(cell, up1, z).up);
        }
      }
    }
  }

  /** A `leave` that returns has left the pair it starts from unvisited. */
  lemma {:induction false} LeaveLeaves(cell: seq<Word>, up: seq<Up>, x: Word)
    requires Graph(cell, up) && Points(true, |cell|, x)
    ensures var r := Leave(cell, up, x);
            r.Walked? ==> RcPool.Pair(x) && !Visit(r.up[B.Ord(x)])
  {
    if RcPool.Pair(x) && Visit(up[B.Ord(x)]) {
      var i := B.Ord(x);
      var up1 := up[i := Unvisit(up[i])];
      assert !Visit(up1[i]);
      var z := if MarkY(up[i]) then cell[i + 1] else cell[i];
      VisitedDrop(up, i);
      LeaveClears(cell, up1, z);
      if MarkY(up[i]) && MarkZ(up[i]) {
        var r1 := Leave(cell, up1, cell[i + 1]);
        if !r1.Stray? {
          SubsetCard(Visited(r1.up), Visited(up1));
          LeaveClears(cell, r1.up, cell[i]);
          assert Cleared(r1.up[i], Leave(cell, r1.up, cell[i]).up[i]);
        }
      } else {
        assert Cleared(up1[i], Leave(cell, up1, z).up[i]);
      }
    }
  }

  lemma ClearedTrans(a: seq<Up>, b: seq<Up>, c: seq<Up>, d: seq<Up>)
    requires |a| == |b| == |c| == |d|
    requires AllCleared(a, b)
    requires AllCleared(b, c)
    requires AllCleared(c, d)
    ensures AllCleared(a, d)
  {
  }

  /**
   * `isocyclic(x)`: walk the component through the marked slots as `leave`
   * does, setting VISIT on every pair reached for the first time, and answer
   * false as soon as a pair's count exceeds its cyclic count (something
   * outside the component still holds it). Every step sets one VISIT bit, so
   * it ends.
   */
  function Isocyclic(cell: seq<Word>, ref: seq<nat>, up: seq<Up>, x: Word): (r: Walk)
    requires Graph(cell, up) && |ref| == |cell| && Points(true, |cell|, x)
    ensures !r.Spent? && |r.up| == |up| && Unvisited(r.up) <= Unvisited(up)
    decreases |Unvisited(up)|
  {
    if !RcPool.Pair(x) then Walk.Stray(up)
    else
      var i := B.Ord(x);
      var k := up[i];
      if Visit(k) then Walked(true, up)
      else if (Low(k) as nat) < ref[i] then Walked(false, up)
      else
        var up1 := up[i := SetVisit(k)];
        UnvisitedDrop(up, i);
        if MarkY(k) && MarkZ(k) then
          var r1 := Isocyclic(cell, ref, up1, cell[i + 1]);
          if !r1.Walked? || !r1.ok then r1
          else
            SubsetCard(Unvisited(r1.up), Unvisited(up1));
            Isocyclic(cell, ref, r1.up, cell[i])
        else if MarkY(k) then Isocyclic(cell, ref, up1, cell[i + 1])
        else Isocyclic(cell, ref, up1, cell[i])
  }

  /**
   * `w2` is `w`, or `w` with VISIT newly set on a pair whose count does not
   * exceed its cyclic count.
   */
  predicate Admitted(w: Up, w2: Up, count: nat)
  {
    w2 == w || (!Visit(w) && w2 == SetVisit(w) && Low(w) as nat >= count)
  }

  /** Every upper word is the old one or the old one admitted. */
  predicate AllAdmitted(a: seq<Up>, b: seq<Up>, ref: seq<nat>)
  {
    |a| == |b| == |ref| && forall k :: 0 <= k < |a| ==> Admitted(a[k], b[k], ref[k])
  }

  /** Setting the VISIT bit of one admitted pair is an `Admitted` step. */
  lemma AdmitOne(up: seq<Up>, ref: seq<nat>, i: nat)
    requires |ref| == |up| && i < |up| && !Visit(up[i]) && Low(up[i]) as nat >= ref[i]
    ensures AllAdmitted(up, up[i := SetVisit(up[i])], ref)
  {
  }

  /**
   * `isocyclic` only sets VISIT, and only on pairs held by no more owners
   * than their cyclic paths.
   */
  lemma {:induction false} IsocyclicAdmits(cell: seq<Word>, ref: seq<nat>, up: seq<Up>, x: Word)
    requires Graph(cell, up) && |ref| == |cell| && Points(true, |cell|, x)
    ensures var r := Isocyclic(cell, ref, up, x);
            AllAdmitted(up, r.up, ref)
    decreases |Unvisited(up)|
  {
    if RcPool.Pair(x) {
      var i := B.Ord(x);
      var k := up[i];
      if !Visit(k) && (Low(k) as nat) >= ref[i] {
        var up1 := up[i := SetVisit(k)];
        UnvisitedDrop(up, i);
        AdmitOne(up, ref, i);
        if MarkY(k) && MarkZ(k) {
          var r1 := Isocyclic(cell, ref, up1, cell[i + 1]);
          IsocyclicAdmits(cell, ref, up1, cell[i + 1]);
          if r1.Walked? && r1.ok {
            SubsetCard(Unvisited(r1.up), Unvisited(up1));
            IsocyclicAdmits(cell, ref, r1.up, cell[i]);
            AdmittedTrans(up, up1, r1.up, Isocyclic(cell, ref, r1.up, cell[i]).up, ref);
            assert Isocyclic(cell, ref, up, x) == Isocyclic(cell, ref, r1.up, cell[i]);
          } else {
            AdmittedTrans(up, up1, r1.up, r1.up, ref);
            assert Isocyclic(cell, ref, up, x) == r1;
          }
        } else {
          var z := if MarkY(k) then cell[i + 1] else cell[i];
          IsocyclicAdmits(cell, ref, up1, z);
          AdmittedTrans(up, up1, up1, Isocyclic(cell, ref, up1, z).up, ref);
          assert Isocyclic(cell, ref, up, x) == Isocyclic(cell, ref, up1, z);
        }
      }
    }
  }

  /**
   * A false answer from `isocyclic` names a pair, left unvisited, that more
   * owners hold than its cyclic paths account for.
   */
  lemma {:induction false} IsocyclicRefuses(cell: seq<Word>, ref: seq<nat>, up: seq<Up>, x: Word)
    requires Graph(cell, up) && |ref| == |cell| && Points(true, |cell|, x)
    ensures var r := Isocyclic(cell, ref, up, x);
            r.Walked? && !r.ok ==> exists k :: 0 <= k < |up| && !Visit(r.up[k]) && Low(r.up[k]) as nat < ref[k]
    decreases |Unvisited(up)|
  {
    if RcPool.Pair(x) {
      var i := B.Ord(x);
      var k := up[i];
      if !Visit(k) && (Low(k) as nat) >= ref[i] {
        var up1 := up[i := SetVisit(k)];
        UnvisitedDrop(up, i);
        if MarkY(k) && MarkZ(k) {
          var r1 := Isocyclic(cell, ref, up1, cell[i + 1]);
          IsocyclicRefuses(cell, ref, up1, cell[i + 1]);
          if r1.Walked? && r1.ok {
            SubsetCard(Unvisited(r1.up), Unvisited(up1));
            IsocyclicRefuses(cell, ref, r1.up, cell[i]);
            assert Isocyclic(cell, ref, up, x) == Isocyclic(cell, ref, r1.up, cell[i]);
          } else {
            assert Isocyclic(cell, ref, up, x) == r1;
          }
        } else {
          var z := if MarkY(k) then cell[i + 1] else cell[i];
          IsocyclicRefuses(cell, ref, up1, z);
          assert Isocyclic(cell, ref, up, x) == Isocyclic(cell, ref, up1, z);
        }
      } else if !Visit(k) {
        assert !Visit(up[i]) && Low(up[i]) as nat < ref[i];
      }
    }
  }

  /** A true answer from `isocyclic` leaves the start pair visited. */
  lemma {:induction false} IsocyclicVisits(cell: seq<Word>, ref: seq<nat>, up: seq<Up>, x: Word)
    requires Graph(cell, up) && |ref| == |cell| && Points(true, |cell|, x)
    ensures var r := Isocyclic(cell, ref, up, x);
            r.Walked? && r.ok ==> RcPool.Pair(x) && Visit(r.up[B.Ord(x)])
  {
    if RcPool.Pair(x) {
      var i := B.Ord(x);
      var k := up[i];
      if !Visit(k) && (Low(k) as nat) >= ref[i] {
        var up1 := up[i := SetVisit(k)];
        UnvisitedDrop(up, i);
        assert Visit(up1[i]);
        if MarkY(k) && MarkZ(k) {
          var r1 := Isocyclic(cell, ref, up1, cell[i + 1]);
          IsocyclicAdmits(cell, ref, up1, cell[i + 1]);
          assert Admitted(up1[i], r1.up[i], ref[i]);
          if r1.Walked? && r1.ok {
            SubsetCard(Unvisited(r1.up), Unvisited(up1));
            IsocyclicAdmits(cell, ref, r1.up, cell[i]);
            assert Admitted(r1.up[i], Isocyclic(cell, ref, r1.up, cell[i]).up[i], ref[i]);
          }
        } else {
          var z := if MarkY(k) then cell[i + 1] else cell[i];
          IsocyclicAdmits(cell, ref, up1, z);
          assert Admitted(up1[i], Isocyclic(cell, ref, up1, z).up[i], ref[i]);
        }
      }
    }
  }

  /** Three walks in a row. */
  lemma AdmittedTrans(a: seq<Up>, b: seq<Up>, c: seq<Up>, d: seq<Up>, ref: seq<nat>)
    requires |a| == |b| == |c| == |d| == |ref|
    requires AllAdmitted(a, b, ref)
    requires AllAdmitted(b, c, ref)
    requires AllAdmitted(c, d, ref)
    ensures AllAdmitted(a, d, ref)
  {
    forall k | 0 <= k < |a|
      ensures Admitted(a[k], d[k], ref[k])
    {
      if b[k] != a[k] {
        assert Visit(b[k]);
        Idle(b[k]);
        Idle(c[k]);
      }
    }
  }

  /** An `Admitted` step keeps everything but the VISIT bit. */
  lemma AdmittedRest(a: seq<Up>, b: seq<Up>, ref: seq<nat>)
    requires |a| == |b| == |ref|
    requires AllAdmitted(a, b, ref)
    ensures forall k :: 0 <= k < |a| ==> Unvisit(b[k]) == Unvisit(a[k])
  {
    forall k | 0 <= k < |a|
      ensures Unvisit(b[k]) == Unvisit(a[k])
    {
      RestOfWord(a[k]);
    }
  }

  /** So does a `Cleared` step. */
  lemma ClearedRest(a: seq<Up>, b: seq<Up>)
    requires |a| == |b|
    requires AllCleared(a, b)
    ensures forall k :: 0 <= k < |a| ==> Unvisit(b[k]) == Unvisit(a[k])
  {
  }

  /**
   * `isoscc(x)`: a pair without MARKY/MARKZ is not part of a cycle; for a
   * marked one, ask `isocyclic` and clear the VISIT marks with `leave`.
   */
  function Isoscc(cell: seq<Word>, ref: seq<nat>, up: seq<Up>, x: Word): (r: Walk)
    requires Graph(cell, up) && |ref| == |cell| && Points(true, |cell|, x) && RcPool.Pair(x)
    ensures !r.Spent? && |r.up| == |up|
    ensures !Marked(up[B.Ord(x)]) ==> r == Walked(false, up)
  {
    if !Marked(up[B.Ord(x)]) then Walked(false, up)
    else
      var r1 := Isocyclic(cell, ref, up, x);
      if r1.Stray? then r1
      else
        var r2 := Leave(cell, r1.up, x);
        if r2.Stray? then r2 else Walked(r1.ok, r2.up)
  }

  /**
   * `isoscc` changes upper words only in their VISIT bit: every mark and
   * every cyclic count stays.
   */
  lemma IsosccKeepsMarks(cell: seq<Word>, ref: seq<nat>, up: seq<Up>, x: Word)
    requires Graph(cell, up) && |ref| == |cell| && Points(true, |cell|, x) && RcPool.Pair(x)
    ensures var r := Isoscc(cell, ref, up, x);
            forall k :: 0 <= k < |up| ==> Unvisit(r.up[k]) == Unvisit(up[k])
  {
    if Marked(up[B.Ord(x)]) {
      var r1 := Isocyclic(cell, ref, up, x);
      IsocyclicAdmits(cell, ref, up, x);
      AdmittedRest(up, r1.up, ref);
      if !r1.Stray? {
        LeaveClears(cell, r1.up, x);
        ClearedRest(r1.up, Leave(cell, r1.up, x).up);
      }
    }
  }

  /**
   * After `isoscc` the pair it starts from is unvisited, and a true answer
   * means the pair's count did not exceed its cyclic count.
   */
  lemma IsosccAnswers(cell: seq<Word>, ref: seq<nat>, up: seq<Up>, x: Word)
    requires Graph(cell, up) && |ref| == |cell| && Points(true, |cell|, x) && RcPool.Pair(x)
    requires !Visit(up[B.Ord(x)])
    ensures var r := Isoscc(cell, ref, up, x);
            r.Walked? ==> !Visit(r.up[B.Ord(x)])
    ensures var r := Isoscc(cell, ref, up, x);
            r.Walked? && r.ok ==> Low(up[B.Ord(x)]) as nat >= ref[B.Ord(x)]
  {
    if Marked(up[B.Ord(x)]) {
      var r1 := Isocyclic(cell, ref, up, x);
      IsocyclicAdmits(cell, ref, up, x);
      IsocyclicVisits(cell, ref, up, x);
      if !r1.Stray? {
        LeaveLeaves(cell, r1.up, x);
        assert Admitted(up[B.Ord(x)], r1.up[B.Ord(x)], ref[B.Ord(x)]);
      }
    }
  }

  /**
   * The end of `cyclic` for a pair `j`: a path reaching the origin or a pair
   * already marked on a cyclic path is cyclic, and the pair's cyclic count
   * (the low bits; `++` on the whole 32-bit word) goes up by one.
   */
  function Through(up: seq<Up>, i: nat, j: nat): (r: Walk)
    requires j < |up|
    ensures r.Walked? && |r.up| == |up|
    ensures r.ok <==> i == j || Visit(up[j])
    ensures forall m :: 0 <= m < |up| && m != j ==> r.up[m] == up[m]
  {
    if i == j || Visit(up[j]) then Walked(true, up[j := up[j] + 1]) else Walked(false, up)
  }

  /** The mark `cyclic` sets on pair `j` after a cyclic car (`y`) or cdr. */
  function MarkPath(w: Walk, j: nat, y: bool): (u: seq<Up>)
    requires w.Walked? && j < |w.up|
    ensures |u| == |w.up|
  {
    if !w.ok then w.up
    else if y then w.up[j := SetY(w.up[j])]
    else w.up[j := SetZ(w.up[j])]
  }

  /**
   * `cyclic(i,x,k)` as written: a pair other than the origin `i` whose upper
   * word is still 0 is explored, its car and then its cdr (no cdr for the
   * pair `k`), and marked for each slot that leads back. The word stays 0
   * while the pair is being explored, so a cycle that does not pass through
   * the origin is entered again and again; `fuel` bounds the depth of the
   * recursion, where the C runs out of stack.
   */
  function Cyclic(cell: seq<Word>, up: seq<Up>, i: nat, x: Word, k: nat, fuel: nat): (r: Walk)
    requires Graph(cell, up) && Points(true, |cell|, x)
    ensures !r.Stray? && |r.up| == |up|
    ensures r.Walked? && r.ok ==> RcPool.Pair(x)
    decreases fuel
  {
    if !RcPool.Pair(x) then Walked(false, up)
    else
      var j := B.Ord(x);
      if i != j && up[j] == 0 then
        if fuel == 0 then Walk.Spent(up)
        else
          var r1 := Cyclic(cell, up, i, cell[j + 1], k, fuel - 1);
          if r1.Spent? then r1
          else
            var u1 := MarkPath(r1, j, true);
            var r2 := Cyclic(cell, u1, i, if j == k then NIL_WORD else cell[j], k, fuel - 1);
            if r2.Spent? then r2
            else Through(MarkPath(r2, j, false), i, j)
      else Through(up, i, j)
  }

  /**
   * `scc(x,k)` as written: mark the cyclic paths through the car and the cdr
   * of the origin `x` (no cdr when `x` is the pair `k`), then clear the VISIT
   * marks. The answer says whether the origin was found to lie on a cycle.
   */
  function Scc(cell: seq<Word>, up: seq<Up>, x: Word, k: nat, fuel: nat): (r: Walk)
    requires Graph(cell, up) && Points(true, |cell|, x) && RcPool.Pair(x)
    ensures |r.up| == |up|
  {
    var i := B.Ord(x);
    var r1 := Cyclic(cell, up, i, cell[i + 1], k, fuel);
    if r1.Spent? then r1
    else
      var u1 := MarkPath(r1, i, true);
      var r2 := Cyclic(cell, u1, i, if i == k then NIL_WORD else cell[i], k, fuel);
      if r2.Spent? then r2
      else
        var r3 := Leave(cell, MarkPath(r2, i, false), x);
        if r3.Stray? then r3 else Walked(r1.ok || r2.ok, r3.up)
  }

  /** The indices below `n`. */
  function Indices(n: nat): (r: set<nat>)
    ensures forall j: nat :: j in r <==> j < n
  {
    if n == 0 then {} else Indices(n - 1) + {n - 1}
  }

  /**
   * `cyclic` with the pairs under exploration (`path`) not entered again:
   * such a pair ends the path as not (yet) known to be cyclic, as any
   * unmarked pair does. Each recursion adds a pair to `path`, so the walk
   * ends without a bound.
   */
  function CyclicOnce(cell: seq<Word>, up: seq<Up>, i: nat, x: Word, k: nat, path: set<nat>): (r: Walk)
    requires Graph(cell, up) && Points(true, |cell|, x)
    ensures r.Walked? && |r.up| == |up|
    decreases Indices(|cell|) - path
  {
    if !RcPool.Pair(x) then Walked(false, up)
    else
      var j := B.Ord(x);
      if i != j && up[j] == 0 && j !in path then
        assert j in Indices(|cell|);
        var r1 := CyclicOnce(cell, up, i, cell[j + 1], k, path + {j});
        var u1 := MarkPath(r1, j, true);
        var r2 := CyclicOnce(cell, u1, i, if j == k then NIL_WORD else cell[j], k, path + {j});
        Through(MarkPath(r2, j, false), i, j)
      else Through(up, i, j)
  }

  /** `scc` over `CyclicOnce`. */
  function SccOnce(cell: seq<Word>, up: seq<Up>, x: Word, k: nat): (r: Walk)
    requires Graph(cell, up) && Points(true, |cell|, x) && RcPool.Pair(x)
    ensures !r.Spent? && |r.up| == |up|
  {
    var i := B.Ord(x);
    var r1 := CyclicOnce(cell, up, i, cell[i + 1], k, {});
    var u1 := MarkPath(r1, i, true);
    var r2 := CyclicOnce(cell, u1, i, if i == k then NIL_WORD else cell[i], k, {});
    var r3 := Leave(cell, MarkPath(r2, i, false), x);
    if r3.Stray? then r3 else Walked(r1.ok || r2.ok, r3.up)
  }

  /**
   * Word `m` may be written by a walk from origin `i` only if it is the
   * origin's, still 0 (unexplored) or carries VISIT (on a cyclic path found
   * by this walk).
   */
  predicate Touchable(up: seq<Up>, i: nat, m: nat)
    requires m < |up|
  {
    m == i || up[m] == 0 || Visit(up[m])
  }

  predicate OnlyTouchable(up: seq<Up>, u: seq<Up>, i: nat)
  {
    |u| == |up| && forall m :: 0 <= m < |up| && u[m] != up[m] ==> Touchable(up, i, m)
  }

  lemma OnlyTouchableTrans(a: seq<Up>, b: seq<Up>, c: seq<Up>, i: nat)
    requires OnlyTouchable(a, b, i) && OnlyTouchable(b, c, i)
    ensures OnlyTouchable(a, c, i)
  {
  }

  /** A write to a pair that was unexplored keeps a walk within `Touchable`. */
  lemma WriteExplored(up: seq<Up>, u: seq<Up>, u2: seq<Up>, i: nat, j: nat)
    requires OnlyTouchable(up, u, i) && j < |up| && up[j] == 0
    requires |u2| == |u| && forall m :: 0 <= m < |u| && m != j ==> u2[m] == u[m]
    ensures OnlyTouchable(up, u2, i)
  {
  }

  /**
   * `CyclicOnce` leaves alone every pair outside the walk: a word that is
   * neither the origin's nor 0 nor visited, such as the marks and counts of
   * a component an earlier `letrec` found, is not written.
   */
  lemma {:induction false} CyclicOnceTouches(cell: seq<Word>, up: seq<Up>, i: nat, x: Word, k: nat, path: set<nat>)
    requires Graph(cell, up) && Points(true, |cell|, x)
    ensures OnlyTouchable(up, CyclicOnce(cell, up, i, x, k, path).up, i)
    decreases Indices(|cell|) - path
  {
    if RcPool.Pair(x) {
      var j := B.Ord(x);
      if i != j && up[j] == 0 && j !in path {
        assert j in Indices(|cell|);
        var r1 := CyclicOnce(cell, up, i, cell[j + 1], k, path + {j});
        CyclicOnceTouches(cell, up, i, cell[j + 1], k, path + {j});
        var u1 := MarkPath(r1, j, true);
        WriteExplored(up, r1.up, u1, i, j);
        var z := if j == k then NIL_WORD else cell[j];
        var r2 := CyclicOnce(cell, u1, i, z, k, path + {j});
        CyclicOnceTouches(cell, u1, i, z, k, path + {j});
        OnlyTouchableTrans(up, u1, r2.up, i);
        var u2 := MarkPath(r2, j, false);
        WriteExplored(up, r2.up, u2, i, j);
        var u3 := Through(u2, i, j).up;
        WriteExplored(up, u2, u3, i, j);
      }
    }
  }

  /*
   * The heap after `(letrec* (f (let* (x 1) (setq x (lambda () x)))) f)`
   * has evaluated its binding, before `scc` runs on the new environment:
   *   pair 2  E1 = ((f . C) . nil), the origin, whose count the closure raised
   *   pair 4  (f . C)
   *   pair 6  C, the closure: (P . E2)
   *   pair 8  E2 = ((x . C) . E1), the environment of `let*`
   *   pair 10 (x . C), the binding `setq` pointed back at C
   *   pair 12 P = (() . x), the closure's parameters and body
   * C -> E2 -> (x . C) -> C is a cycle that does not pass through E1.
   */
  const LetrecCell: seq<Word> := [
    NIL_WORD, NIL_WORD,
    NIL_WORD, B.Box(B.CONS, 4),
    B.Box(B.CLOS, 6), B.Box(B.ATOM, 0),
    B.Box(B.CONS, 8), B.Box(B.CONS, 12),
    B.Box(B.CONS, 2), B.Box(B.CONS, 10),
    B.Box(B.CLOS, 6), B.Box(B.ATOM, 2),
    B.Box(B.ATOM, 2), NIL_WORD
  ]

  const LetrecUp: seq<Up> := [0, 0, 0, 0, 0, 0, 0, 0, 0, 0, 0, 0, 0, 0]

  /**
   * What the walks below read of that heap: which words are pairs and where
   * they point. The walks are proved over any cells of this shape, so that
   * the boxed words are decoded once, in `LetrecShaped`.
   */
  predicate LetrecShape(g: seq<Word>)
  {
    |g| == 14 && AllPoint(true, g) && !RcPool.Pair(NIL_WORD)
    && !RcPool.Pair(g[2]) && !RcPool.Pair(g[5]) && !RcPool.Pair(g[11]) && !RcPool.Pair(g[12]) && !RcPool.Pair(g[13])
    && RcPool.Pair(g[3]) && B.Ord(g[3]) == 4 && RcPool.Pair(g[4]) && B.Ord(g[4]) == 6
    && RcPool.Pair(g[6]) && B.Ord(g[6]) == 8 && RcPool.Pair(g[7]) && B.Ord(g[7]) == 12
    && RcPool.Pair(g[8]) && B.Ord(g[8]) == 2 && RcPool.Pair(g[9]) && B.Ord(g[9]) == 10
    && RcPool.Pair(g[10]) && B.Ord(g[10]) == 6
  }

  lemma LetrecShaped()
    ensures LetrecShape(LetrecCell) && Graph(LetrecCell, LetrecUp)
  {
  }

  /** The walk from the closure re-enters the closure three levels down, unchanged. */
  lemma {:induction false} ClosureSpins(g: seq<Word>, fuel: nat)
    requires LetrecShape(g)
    ensures Graph(g, LetrecUp) && Cyclic(g, LetrecUp, 2, g[4], 2, fuel).Spent?
    decreases fuel
  {
    var z := LetrecUp;
    if fuel >= 3 {
      ClosureSpins(g, fuel - 3);
    }
    if fuel >= 1 {
      assert Cyclic(g, z, 2, g[13], 2, fuel - 1) == Walked(false, z);
      assert Cyclic(g, z, 2, g[12], 2, fuel - 1) == Walked(false, z);
      assert Cyclic(g, z, 2, g[7], 2, fuel - 1) == if fuel == 1 then Walk.Spent(z) else Walked(false, z);
      if fuel >= 2 {
        assert Cyclic(g, z, 2, g[11], 2, fuel - 2) == Walked(false, z);
        assert Cyclic(g, z, 2, g[9], 2, fuel - 2).Spent?;
        assert Cyclic(g, z, 2, g[6], 2, fuel - 1).Spent?;
      }
    }
  }

  /**
   * On this heap `scc` as written does not end: whatever depth the
   * stack allows, the walk from E1 through (f . C) into C goes round the
   * cycle C -> E2 -> (x . C) -> C until it runs out.
   */
  lemma SccSpins(fuel: nat)
    ensures Graph(LetrecCell, LetrecUp)
    ensures Scc(LetrecCell, LetrecUp, LetrecCell[8], 2, fuel).Spent?
  {
    LetrecShaped();
    var g, z := LetrecCell, LetrecUp;
    if fuel >= 1 {
      ClosureSpins(g, fuel - 1);
      assert Cyclic(g, z, 2, g[5], 2, fuel - 1) == Walked(false, z);
      assert Cyclic(g, z, 2, g[3], 2, fuel).Spent?;
    }
  }

  /**
   * The upper words once the walk from (f . C) has returned: (f . C), C and
   * E2 carry VISIT, MARKZ and one cyclic path each, and E1, the origin, has
   * counted the one path that reached it.
   */
  const LetrecFound: seq<Up> := LetrecUp[2 := 1][8 := 0xA000_0001][6 := 0xA000_0001][4 := 0xA000_0001]

  /**
   * The marks `scc` is meant to leave on this heap: E1 is on a cyclic path
   * through its car, (f . C), C and E2 through their cdrs, each with one
   * cyclic path, and no VISIT bit remains.
   */
  const LetrecMarked: seq<Up> := LetrecUp[2 := 0x4000_0001][4 := 0x2000_0001][6 := 0x2000_0001][8 := 0x2000_0001]

  /**
   * With the pairs under exploration not entered again, the walk ends on
   * the same heap and marks the cycle through E1: E1 -> (f . C) -> C -> E2
   * -> E1. The inner cycle through (x . C) is left unmarked.
   */
  lemma SccOnceEnds()
    ensures Graph(LetrecCell, LetrecUp)
    ensures SccOnce(LetrecCell, LetrecUp, LetrecCell[8], 2) == Walked(true, LetrecMarked)
  {
    LetrecShaped();
    SccOnceOn(LetrecCell);
  }

  /**
   * The marks are not "every slot that leads back to the origin": the cdr
   * of (x . C) is C, which leads back to E1 through C -> E2 -> E1 on marked
   * pairs, yet (x . C) ends with no mark, since the walk reaches it only
   * from C while C is under exploration. No VISIT bit is left anywhere.
   */
  lemma InnerSlotUnmarked()
    ensures Graph(LetrecCell, LetrecUp)
    ensures var u := SccOnce(LetrecCell, LetrecUp, LetrecCell[8], 2).up;
            B.Ord(LetrecCell[10]) == 6 && B.Ord(LetrecCell[6]) == 8 && B.Ord(LetrecCell[8]) == 2 &&
            MarkZ(u[6]) && MarkZ(u[8]) && !Marked(u[10]) &&
            forall m :: 0 <= m < |u| ==> !Visit(u[m])
  {
    SccOnceEnds();
    LetrecShaped();
  }

  lemma SccOnceOn(g: seq<Word>)
    requires LetrecShape(g)
    ensures Graph(g, LetrecUp) && SccOnce(g, LetrecUp, g[8], 2) == Walked(true, LetrecMarked)
  {
    OnceFromBinding(g);
    var r1 := CyclicOnce(g, LetrecUp, 2, g[3], 2, {});
    assert SetY(LetrecFound[2]) == 0xC000_0001;
    var u1 := LetrecFound[2 := 0xC000_0001];
    assert MarkPath(r1, 2, true) == u1;
    assert CyclicOnce(g, u1, 2, NIL_WORD, 2, {}) == Walked(false, u1);
    LeaveFromOrigin(g);
  }

  /** Writing a word twice leaves the second value. */
  lemma Overwrite(u: seq<Up>, j: nat, a: Up, b: Up)
    requires j < |u|
    ensures u[j := a][j := b] == u[j := b]
  {
  }

  /** The walk from (f . C): each pair on the cycle through E1 gets MARKZ, VISIT and one path. */
  lemma OnceFromBinding(g: seq<Word>)
    requires LetrecShape(g)
    ensures Graph(g, LetrecUp) && CyclicOnce(g, LetrecUp, 2, g[3], 2, {}) == Walked(true, LetrecFound)
  {
    var z := LetrecUp;
    var z2 := z[2 := 1][8 := 0xA000_0001][6 := 0xA000_0001];
    OnceFromClosure(g);
    assert {} + {4} == {4};
    assert CyclicOnce(g, z, 2, g[5], 2, {4}) == Walked(false, z);
    var r2 := CyclicOnce(g, z, 2, g[4], 2, {4});
    assert SetZ(z2[4]) == 0xA000_0000;
    Overwrite(z2, 4, 0xA000_0000, 0xA000_0001);
    assert Through(MarkPath(r2, 4, false), 2, 4) == Walked(true, LetrecFound);
  }

  lemma OnceFromClosure(g: seq<Word>)
    requires LetrecShape(g)
    ensures Graph(g, LetrecUp)
    ensures CyclicOnce(g, LetrecUp, 2, g[4], 2, {4}) == Walked(true, LetrecUp[2 := 1][8 := 0xA000_0001][6 := 0xA000_0001])
  {
    var z := LetrecUp;
    var z1 := z[2 := 1][8 := 0xA000_0001];
    assert {4} + {6} == {4, 6};
    assert {4, 6} + {12} == {4, 6, 12};
    assert CyclicOnce(g, z, 2, g[13], 2, {4, 6, 12}) == Walked(false, z);
    assert CyclicOnce(g, z, 2, g[12], 2, {4, 6, 12}) == Walked(false, z);
    assert CyclicOnce(g, z, 2, g[7], 2, {4, 6}) == Walked(false, z);
    OnceFromInner(g);
    var r2 := CyclicOnce(g, z, 2, g[6], 2, {4, 6});
    assert SetZ(z1[6]) == 0xA000_0000;
    Overwrite(z1, 6, 0xA000_0000, 0xA000_0001);
    assert Through(MarkPath(r2, 6, false), 2, 6) == Walked(true, z1[6 := 0xA000_0001]);
  }

  lemma OnceFromInner(g: seq<Word>)
    requires LetrecShape(g)
    ensures Graph(g, LetrecUp)
    ensures CyclicOnce(g, LetrecUp, 2, g[6], 2, {4, 6}) == Walked(true, LetrecUp[2 := 1][8 := 0xA000_0001])
  {
    var z := LetrecUp;
    assert {4, 6} + {8} == {4, 6, 8};
    assert CyclicOnce(g, z, 2, g[9], 2, {4, 6, 8}) == Walked(false, z) by {
      assert {4, 6, 8} + {10} == {4, 6, 8, 10};
      assert CyclicOnce(g, z, 2, g[11], 2, {4, 6, 8, 10}) == Walked(false, z);
      assert CyclicOnce(g, z, 2, g[10], 2, {4, 6, 8, 10}) == Walked(false, z);
    }
    var r2 := CyclicOnce(g, z, 2, g[8], 2, {4, 6, 8});
    assert r2 == Walked(true, z[2 := 1]);
    assert SetZ(z[2 := 1][8]) == 0xA000_0000;
    Overwrite(z[2 := 1], 8, 0xA000_0000, 0xA000_0001);
    assert Through(MarkPath(r2, 8, false), 2, 8) == Walked(true, z[2 := 1][8 := 0xA000_0001]);
  }

  /** `leave` from E1 follows the marks round the cycle and clears each VISIT. */
  lemma LeaveFromOrigin(g: seq<Word>)
    requires LetrecShape(g)
    ensures Graph(g, LetrecUp) && Leave(g, LetrecFound[2 := 0xC000_0001], g[8]) == Walked(true, LetrecMarked)
  {
    var z4 := LetrecFound[2 := 0xC000_0001];
    assert Unvisit(0xC000_0001) == 0x4000_0001 && Unvisit(0xA000_0001) == 0x2000_0001;
    var z5 := z4[2 := 0x4000_0001];
    var z6 := z5[4 := 0x2000_0001];
    var z7 := z6[6 := 0x2000_0001];
    var z8 := z7[8 := 0x2000_0001];
    MarkedWords();
    assert Leave(g, z8, g[8]) == Walked(true, z8);
    assert Leave(g, z7, g[6]) == Walked(true, z8);
    assert Leave(g, z6, g[4]) == Walked(true, z8);
    assert Leave(g, z5, g[3]) == Walked(true, z8);
  }

  lemma MarkedWords()
    ensures LetrecFound[2 := 0xC000_0001][2 := 0x4000_0001][4 := 0x2000_0001][6 := 0x2000_0001][8 := 0x2000_0001]
         == LetrecMarked
  {
  }
}
