/**
 * `bind` and `reduce` of `proto/tinylisp-gc.c` on the reference-counted
 * pool, as far as ownership goes. `bind(v,t,e)` extends the environment
 * `e` it is handed (and owns) with one binding per variable, taking one
 * more owner for every value it binds with `dup`. `reduce` hands `bind` a
 * `dup` of the closure's environment (or of the global one), evaluates the
 * body in the new environment and then releases the new environment and
 * the evaluated argument list with `gc`.
 *
 * Pool words are read as in `RefPool`: a word "refers to" a pair when it
 * passes the CONS/CLOS mask. A word held outside the pool is `Live` when it
 * refers, if to anything, to a used pair.
 */
module RefBind {
  import B = Boxing
  import opened Owners
  import opened RefPool

  /** A word that refers, if to a pair at all, to a used proper pair. */
  ghost predicate Live(p: Pool, fs: seq<nat>, w: Word)
  {
    Proper(|p.cell|, w) && (Pair(w) ==> B.Ord(w) in Used(|p.cell|, fs))
  }

  /** `T(v) == CONS`, the test `bind` walks a variable list with: a CLOS word is not a list to it. */
  predicate IsCons(w: Word)
  {
    B.Tag(w) == B.CONS
  }

  /** `not(v)`: the nil of tinylisp-gc.c. */
  predicate IsNil(w: Word)
  {
    B.Tag(w) == B.NIL_CLASSIC
  }

  /**
   * The variable list `v` ends within `n` list cells, and no variable is a
   * pair: `bind` stores each variable in a binding without a `dup`, so
   * only a word that carries no count can be stored that way.
   */
  predicate Params(cell: seq<Word>, v: Word, n: nat)
    requires AllProper(cell) && Proper(|cell|, v)
    decreases n
  {
    if IsNil(v) then true
    else if IsCons(v) then
      B.MaskIsPairExactly(B.CONS);
      n > 0 && !Pair(cell[B.Ord(v) + 1]) && Params(cell, cell[B.Ord(v)], n - 1)
    else !Pair(v)
  }

  /**
   * Reference for the owners `bind` adds: the pairs its values refer to,
   * one entry per binding. The j-th variable takes the j-th argument, and a
   * dotted tail variable the rest of the list.
   */
  function Bound(cell: seq<Word>, v: Word, t: Word, n: nat): (s: multiset<nat>)
    requires AllProper(cell) && Proper(|cell|, v) && Proper(|cell|, t)
    decreases n
  {
    if IsNil(v) then multiset{}
    else if IsCons(v) then
      B.MaskIsPairExactly(B.CONS);
      if n == 0 || !Pair(t) then multiset{}
      else Ref(false, cell[B.Ord(t) + 1]) + Bound(cell, cell[B.Ord(v)], cell[B.Ord(t)], n - 1)
    else Ref(false, t)
  }

  /** There is an argument for every variable of the list (a dotted tail takes whatever is left). */
  predicate Enough(cell: seq<Word>, v: Word, t: Word, n: nat)
    requires AllProper(cell) && Proper(|cell|, v) && Proper(|cell|, t)
    decreases n
  {
    if IsNil(v) || !IsCons(v) then true
    else
      B.MaskIsPairExactly(B.CONS);
      n > 0 && Pair(t) && Enough(cell, cell[B.Ord(v)], cell[B.Ord(t)], n - 1)
  }

  /**
   * `p2` extends `p`: the same number of cells, every pair used in `p`
   * still used and holding the same two words.
   */
  ghost predicate Extends(p: Pool, fs: seq<nat>, p2: Pool, fs2: seq<nat>)
  {
    |p2.cell| == |p.cell| && Used(|p.cell|, fs) <= Used(|p.cell|, fs2) &&
    forall k :: 0 <= k < |p.cell| && PairOf(k) in Used(|p.cell|, fs) ==> p2.cell[k] == p.cell[k]
  }

  /** Used pairs refer only to used pairs, and every cell to a proper pair. */
  ghost predicate Shut(p: Pool, fs: seq<nat>)
  {
    AllProper(p.cell) &&
    forall k :: 0 <= k < |p.cell| && PairOf(k) in Used(|p.cell|, fs) && Pair(p.cell[k]) ==> B.Ord(p.cell[k]) in Used(|p.cell|, fs)
  }

  lemma InvShut(p: Pool, fs: seq<nat>, roots: multiset<nat>)
    requires Inv(p, fs, roots)
    ensures Shut(p, fs)
  {
  }

  /**
   * `cons(x,y)` on an owned pair of references: a success claims the head
   * of the free list for a pair that now holds both, and the caller owns
   * the new pair instead; a failure is `err(4)`.
   */
  lemma ConsOwns(p: Pool, fs: seq<nat>, rest: multiset<nat>, x: Word, y: Word)
    requires Inv(p, fs, rest + Ref(false, y) + Ref(false, x)) && Apart(p, fs) && |p.heap| > 0
    requires Proper(|p.cell|, x) && Proper(|p.cell|, y)
    ensures var r := Cons(GC, p, x, y, fs);
            r.p.heap == p.heap && |r.p.cell| == |p.cell| && |r.p.ref| == |p.ref| && (r.Fail? ==> r.code == 4)
    ensures var r := Cons(GC, p, x, y, fs);
            r.Ok? ==> fs != [] && r.val == B.Box(B.CONS, fs[0]) &&
                      Inv(r.p, fs[1..], rest + Ref(false, r.val)) && Apart(r.p, fs[1..])
  {
    var roots := rest + Ref(false, y) + Ref(false, x);
    ConsKeeps(GC, p, fs, roots, x, y);
    assert roots - Ref(false, x) - Ref(false, y) == rest;
  }

  /** What a successful `cons(x,y)` writes: the head of the free list, which comes off the list. */
  lemma ConsWrites(p: Pool, fs: seq<nat>, x: Word, y: Word)
    requires Shape(p) && FreeList(p.ref, true, |p.cell|, p.fp, p.fn, fs) && |p.heap| > 0
    requires Cons(GC, p, x, y, fs).Ok?
    ensures var r := Cons(GC, p, x, y, fs);
            fs != [] && r.val == B.Box(B.CONS, fs[0]) && Shape(r.p) &&
            r.p.cell == p.cell[fs[0] + 1 := x][fs[0] := y] && r.p.ref == p.ref[fs[0] / 2 := 1] &&
            FreeList(r.p.ref, true, |p.cell|, r.p.fp, r.p.fn, fs[1..])
  {
    var r := Cons(GC, p, x, y, fs);
    var i := fs[0];
    forall j | 0 <= j < |fs| - 1
      ensures r.p.ref[fs[1..][j] / 2] == p.ref[fs[1..][j] / 2]
    {
      HalfDistinct(fs[1..][j], i);
    }
    assert FreeList(r.p.ref, true, |p.cell|, Next(fs, 0), p.fn - 1, fs[1..]) by {
      forall j | 0 <= j < |fs[1..]|
        ensures Next(fs[1..], j) == Next(fs, j + 1)
      {
      }
    }
  }

  /** A word the caller owns is `Live`. */
  lemma RootLive(p: Pool, fs: seq<nat>, roots: multiset<nat>, w: Word)
    requires Inv(p, fs, roots) && Ref(false, w) <= roots
    ensures Live(p, fs, w)
  {
    if Pair(w) {
      assert B.Ord(w) in roots;
    }
  }

  /**
   * `pair(name,dup(x),e)`: one more owner for `x`, a new pair
   * `(name . x)`, and a new pair holding it with `e` as its cdr. Either
   * `cons` can raise `err(4)`. The caller hands over its reference to `e`.
   */
  function Push(p: Pool, name: Word, x: Word, e: Word, ghost fs: seq<nat>, ghost rest: multiset<nat>): (r: Out<Pool>)
    requires Inv(p, fs, rest + Ref(false, e)) && Apart(p, fs) && |p.heap| > 0
    requires !Pair(name) && Live(p, fs, x)
    ensures r.p.heap == p.heap && |r.p.cell| == |p.cell| && |r.p.ref| == |p.ref|
  {
    RootLive(p, fs, rest + Ref(false, e), e);
    var p1 := Dup(p, x);
    DupKeeps(p, fs, rest + Ref(false, e), x);
    assert rest + Ref(false, e) + Ref(false, x) + Ref(false, name) == rest + Ref(false, e) + Ref(false, x);
    ConsOwns(p1, fs, rest + Ref(false, e), name, x);
    var r1 := Cons(GC, p1, name, x, fs);
    if r1.Fail? then r1
    else
      ConsOwns(r1.p, fs[1..], rest, r1.val, e);
      Cons(GC, r1.p, r1.val, e, fs[1..])
  }

  /**
   * A successful `pair(name,dup(x),e)` claims the first two free pairs;
   * the reference to `e` moves into the new pair and the caller owns the
   * new pair instead. A failure is `err(4)`.
   */
  lemma PushOwns(p: Pool, name: Word, x: Word, e: Word, fs: seq<nat>, rest: multiset<nat>)
    requires Inv(p, fs, rest + Ref(false, e)) && Apart(p, fs) && |p.heap| > 0
    requires !Pair(name) && Live(p, fs, x)
    ensures var r := Push(p, name, x, e, fs, rest);
            r.Fail? ==> r.code == 4
    ensures var r := Push(p, name, x, e, fs, rest);
            r.Ok? ==> |fs| >= 2 && r.val == B.Box(B.CONS, fs[1]) &&
                      Inv(r.p, fs[2..], rest + Ref(false, r.val)) && Apart(r.p, fs[2..])
  {
    RootLive(p, fs, rest + Ref(false, e), e);
    var p1 := Dup(p, x);
    DupKeeps(p, fs, rest + Ref(false, e), x);
    assert rest + Ref(false, e) + Ref(false, x) + Ref(false, name) == rest + Ref(false, e) + Ref(false, x);
    ConsOwns(p1, fs, rest + Ref(false, e), name, x);
    var r1 := Cons(GC, p1, name, x, fs);
    if r1.Ok? {
      ConsOwns(r1.p, fs[1..], rest, r1.val, e);
      if Cons(GC, r1.p, r1.val, e, fs[1..]).Ok? {
        assert fs[1..][0] == fs[1] && fs[1..][1..] == fs[2..];
      }
    }
  }

  /**
   * What a successful `pair(name,dup(x),e)` writes: the two claimed pairs,
   * which were free, so every pair used before keeps its slots; the value
   * `x` gains exactly one owner (the binding) and no other used pair's
   * count moves.
   */
  lemma PushWrites(p: Pool, name: Word, x: Word, e: Word, fs: seq<nat>, rest: multiset<nat>)
    requires Inv(p, fs, rest + Ref(false, e)) && Apart(p, fs) && |p.heap| > 0
    requires !Pair(name) && Live(p, fs, x)
    requires Push(p, name, x, e, fs, rest).Ok?
    ensures |fs| >= 2
    ensures var r := Push(p, name, x, e, fs, rest);
            r.p.cell == p.cell[fs[0] + 1 := name][fs[0] := x][fs[1] + 1 := B.Box(B.CONS, fs[0])][fs[1] := e] &&
            Extends(p, fs, r.p, fs[2..]) &&
            forall j :: j in Used(|p.cell|, fs) ==> r.p.ref[j / 2] == p.ref[j / 2] + Ref(false, x)[j]
  {
    var p1 := Dup(p, x);
    DupList(p, fs, rest + Ref(false, e), x);
    var r1 := Cons(GC, p1, name, x, fs);
    ConsWrites(p1, fs, name, x);
    var r := Cons(GC, r1.p, r1.val, e, fs[1..]);
    ConsWrites(r1.p, fs[1..], r1.val, e);
    assert fs[1..][0] == fs[1];
    PushExtends(p, fs, r.p, name, x, e);
    PushCounts(p, fs, p1, r1.p, r.p, x);
  }

  /** `dup` of a live word leaves the free list as it was. */
  lemma DupList(p: Pool, fs: seq<nat>, roots: multiset<nat>, x: Word)
    requires Inv(p, fs, roots) && Live(p, fs, x)
    ensures Shape(Dup(p, x)) && FreeList(Dup(p, x).ref, true, |p.cell|, p.fp, p.fn, fs)
  {
    DupKeeps(p, fs, roots, x);
  }

  /** The two claimed pairs were free, so every used pair keeps its slots and stays used. */
  lemma PushExtends(p: Pool, fs: seq<nat>, p2: Pool, name: Word, x: Word, e: Word)
    requires Shape(p) && FreeList(p.ref, true, |p.cell|, p.fp, p.fn, fs) && |fs| >= 2
    requires p2.cell == p.cell[fs[0] + 1 := name][fs[0] := x][fs[1] + 1 := B.Box(B.CONS, fs[0])][fs[1] := e]
    ensures Extends(p, fs, p2, fs[2..])
  {
    var n := |p.cell|;
    UsedPop(n, fs);
    assert fs[1..][0] == fs[1] && fs[1..][1..] == fs[2..];
    assert Distinct(fs[1..]) && fs[1] !in fs[2..];
    UsedPop(n, fs[1..]);
    forall k | 0 <= k < n && PairOf(k) in Used(n, fs)
      ensures p2.cell[k] == p.cell[k]
    {
      assert PairOf(k) != fs[0] && PairOf(k) != fs[1];
    }
  }

  /** Only the value's count moves among the pairs used before. */
  lemma PushCounts(p: Pool, fs: seq<nat>, p1: Pool, p2: Pool, p3: Pool, x: Word)
    requires Shape(p) && FreeList(p.ref, true, |p.cell|, p.fp, p.fn, fs) && |fs| >= 2 && Points(false, |p.cell|, x)
    requires p1 == Dup(p, x) && p2.ref == p1.ref[fs[0] / 2 := 1] && p3.ref == p2.ref[fs[1] / 2 := 1]
    ensures forall j :: j in Used(|p.cell|, fs) ==> p3.ref[j / 2] == p.ref[j / 2] + Ref(false, x)[j]
  {
    forall j | j in Used(|p.cell|, fs)
      ensures p3.ref[j / 2] == p.ref[j / 2] + Ref(false, x)[j]
    {
      HalfDistinct(j, fs[0]);
      HalfDistinct(j, fs[1]);
      if Pair(x) && B.Ord(x) != j {
        HalfDistinct(j, B.Ord(x));
      }
    }
  }

  /** Something `Live` in `p` is `Live` in a pool that extends it. */
  lemma LiveKept(p: Pool, fs: seq<nat>, p2: Pool, fs2: seq<nat>, w: Word)
    requires Extends(p, fs, p2, fs2) && Live(p, fs, w)
    ensures Live(p2, fs2, w)
  {
  }

  /** The two slots of a used pair hold `Live` words. */
  lemma SlotsLive(p: Pool, fs: seq<nat>, w: Word)
    requires Shut(p, fs) && Live(p, fs, w) && Pair(w)
    ensures Live(p, fs, p.cell[B.Ord(w)]) && Live(p, fs, p.cell[B.Ord(w) + 1])
  {
    var i := B.Ord(w);
    assert PairOf(i) == i && PairOf(i + 1) == i;
    assert Proper(|p.cell|, p.cell[i]) && Proper(|p.cell|, p.cell[i + 1]);
  }

  /**
   * `Params`, `Bound` and `Enough` read only cells of pairs reachable from
   * their arguments, which are used: a pool that extends `p` gives the same
   * answers.
   */
  lemma {:induction false} WalksKept(p: Pool, fs: seq<nat>, p2: Pool, fs2: seq<nat>, v: Word, t: Word, n: nat)
    requires Shut(p, fs) && AllProper(p2.cell) && Extends(p, fs, p2, fs2)
    requires Live(p, fs, v) && Live(p, fs, t)
    ensures Params(p2.cell, v, n) == Params(p.cell, v, n)
    ensures Bound(p2.cell, v, t, n) == Bound(p.cell, v, t, n)
    ensures Enough(p2.cell, v, t, n) == Enough(p.cell, v, t, n)
    decreases n
  {
    B.MaskIsPairExactly(B.CONS);
    if !IsNil(v) && IsCons(v) && n > 0 {
      var i := B.Ord(v);
      SlotsLive(p, fs, v);
      assert PairOf(i) == i && PairOf(i + 1) == i;
      assert p2.cell[i] == p.cell[i] && p2.cell[i + 1] == p.cell[i + 1];
      if Pair(t) {
        var j := B.Ord(t);
        SlotsLive(p, fs, t);
        assert PairOf(j) == j && PairOf(j + 1) == j;
        assert p2.cell[j] == p.cell[j] && p2.cell[j + 1] == p.cell[j + 1];
        WalksKept(p, fs, p2, fs2, p.cell[i], p.cell[j], n - 1);
      } else {
        WalksKept(p, fs, p2, fs2, p.cell[i], t, n - 1);
      }
    }
  }

  /**
   * `bind(v,t,e)`: nil variables give `e`; a variable list binds its
   * first variable to `car(t)` (`err(1)` when `t` is not a pair) and goes
   * on with both cdrs; a lone variable takes the whole list `t`. The
   * caller hands over its reference to `e`.
   */
  function Bind(p: Pool, v: Word, t: Word, e: Word, ghost fs: seq<nat>, ghost rest: multiset<nat>, ghost n: nat): (r: Out<Pool>)
    requires Inv(p, fs, rest + Ref(false, e)) && Apart(p, fs) && |p.heap| > 0
    requires Live(p, fs, v) && Live(p, fs, t) && Params(p.cell, v, n)
    ensures r.p.heap == p.heap && |r.p.cell| == |p.cell| && |r.p.ref| == |p.ref|
    decreases n
  {
    B.MaskIsPairExactly(B.CONS);
    InvShut(p, fs, rest + Ref(false, e));
    if IsNil(v) then Ok(p, e)
    else if IsCons(v) then
      if !Pair(t) then Fail(p, 1)
      else
        SlotsLive(p, fs, v);
        SlotsLive(p, fs, t);
        var name, val := p.cell[B.Ord(v) + 1], p.cell[B.Ord(t) + 1];
        PushOwns(p, name, val, e, fs, rest);
        var r1 := Push(p, name, val, e, fs, rest);
        if r1.Fail? then r1
        else
          var v2, t2 := p.cell[B.Ord(v)], p.cell[B.Ord(t)];
          PushWrites(p, name, val, e, fs, rest);
          WalksKept(p, fs, r1.p, fs[2..], v2, t2, n - 1);
          Bind(r1.p, v2, t2, r1.val, fs[2..], rest, n - 1)
    else
      Push(p, v, t, e, fs, rest)
  }

  /**
   * A successful `bind` moves the caller's reference to `e` into the
   * environment it returns, which the caller owns instead; nothing used
   * before changes, and the heap stays below the pairs.
   */
  lemma {:induction false} BindOwns(p: Pool, v: Word, t: Word, e: Word, fs: seq<nat>, rest: multiset<nat>, n: nat)
    returns (fs2: seq<nat>)
    requires Inv(p, fs, rest + Ref(false, e)) && Apart(p, fs) && |p.heap| > 0
    requires Live(p, fs, v) && Live(p, fs, t) && Params(p.cell, v, n)
    requires Bind(p, v, t, e, fs, rest, n).Ok?
    ensures var r := Bind(p, v, t, e, fs, rest, n);
            Inv(r.p, fs2, rest + Ref(false, r.val)) && Apart(r.p, fs2) && Extends(p, fs, r.p, fs2)
    decreases n
  {
    B.MaskIsPairExactly(B.CONS);
    InvShut(p, fs, rest + Ref(false, e));
    if IsNil(v) {
      fs2 := fs;
    } else if IsCons(v) {
      SlotsLive(p, fs, v);
      SlotsLive(p, fs, t);
      var name, val := p.cell[B.Ord(v) + 1], p.cell[B.Ord(t) + 1];
      PushOwns(p, name, val, e, fs, rest);
      PushWrites(p, name, val, e, fs, rest);
      var r1 := Push(p, name, val, e, fs, rest);
      var v2, t2 := p.cell[B.Ord(v)], p.cell[B.Ord(t)];
      WalksKept(p, fs, r1.p, fs[2..], v2, t2, n - 1);
      LiveKept(p, fs, r1.p, fs[2..], v2);
      LiveKept(p, fs, r1.p, fs[2..], t2);
      fs2 := BindOwns(r1.p, v2, t2, r1.val, fs[2..], rest, n - 1);
      ExtendsTrans(p, fs, r1.p, fs[2..], Bind(p, v, t, e, fs, rest, n).p, fs2);
    } else {
      PushOwns(p, v, t, e, fs, rest);
      PushWrites(p, v, t, e, fs, rest);
      fs2 := fs[2..];
    }
  }

  lemma ExtendsTrans(p: Pool, fs: seq<nat>, p1: Pool, fs1: seq<nat>, p2: Pool, fs2: seq<nat>)
    requires Extends(p, fs, p1, fs1) && Extends(p1, fs1, p2, fs2)
    ensures Extends(p, fs, p2, fs2)
  {
  }

  /**
   * Every value `bind` binds gains exactly one owner: the pairs used
   * before carry their old counts plus the references of `Bound`.
   */
  lemma {:induction false} BindCounts(p: Pool, v: Word, t: Word, e: Word, fs: seq<nat>, rest: multiset<nat>, n: nat)
    requires Inv(p, fs, rest + Ref(false, e)) && Apart(p, fs) && |p.heap| > 0
    requires Live(p, fs, v) && Live(p, fs, t) && Params(p.cell, v, n)
    requires Bind(p, v, t, e, fs, rest, n).Ok?
    ensures var r := Bind(p, v, t, e, fs, rest, n);
            |r.p.ref| == |p.ref| &&
            forall j :: j in Used(|p.cell|, fs) ==> r.p.ref[j / 2] == p.ref[j / 2] + Bound(p.cell, v, t, n)[j]
    decreases n
  {
    B.MaskIsPairExactly(B.CONS);
    InvShut(p, fs, rest + Ref(false, e));
    if IsCons(v) && !IsNil(v) {
      SlotsLive(p, fs, v);
      SlotsLive(p, fs, t);
      var name, val := p.cell[B.Ord(v) + 1], p.cell[B.Ord(t) + 1];
      PushOwns(p, name, val, e, fs, rest);
      PushWrites(p, name, val, e, fs, rest);
      var r1 := Push(p, name, val, e, fs, rest);
      var v2, t2 := p.cell[B.Ord(v)], p.cell[B.Ord(t)];
      WalksKept(p, fs, r1.p, fs[2..], v2, t2, n - 1);
      LiveKept(p, fs, r1.p, fs[2..], v2);
      LiveKept(p, fs, r1.p, fs[2..], t2);
      BindCounts(r1.p, v2, t2, r1.val, fs[2..], rest, n - 1);
      BindStepCounts(p, fs, r1.p, fs[2..], Bind(p, v, t, e, fs, rest, n).p, val, Bound(p.cell, v2, t2, n - 1));
    } else if !IsNil(v) {
      PushOwns(p, v, t, e, fs, rest);
      PushWrites(p, v, t, e, fs, rest);
    }
  }

  /** Counts add up over one binding followed by the rest. */
  lemma BindStepCounts(p: Pool, fs: seq<nat>, p1: Pool, fs1: seq<nat>, p2: Pool, val: Word, rest: multiset<nat>)
    requires Sized(p) && |p1.ref| == |p.ref| && |p2.ref| == |p.ref|
    requires Used(|p.cell|, fs) <= Used(|p.cell|, fs1)
    requires forall j :: j in Used(|p.cell|, fs) ==> p1.ref[j / 2] == p.ref[j / 2] + Ref(false, val)[j]
    requires forall j :: j in Used(|p.cell|, fs1) ==> p2.ref[j / 2] == p1.ref[j / 2] + rest[j]
    ensures forall j :: j in Used(|p.cell|, fs) ==> p2.ref[j / 2] == p.ref[j / 2] + (Ref(false, val) + rest)[j]
  {
  }

  /**
   * `bind` fails exactly when the variables outnumber the arguments or a
   * `cons` runs out of memory: with enough arguments the only error is
   * `err(4)`, and with too few the call cannot succeed.
   */
  lemma {:induction false} BindArity(p: Pool, v: Word, t: Word, e: Word, fs: seq<nat>, rest: multiset<nat>, n: nat)
    requires Inv(p, fs, rest + Ref(false, e)) && Apart(p, fs) && |p.heap| > 0
    requires Live(p, fs, v) && Live(p, fs, t) && Params(p.cell, v, n)
    ensures var r := Bind(p, v, t, e, fs, rest, n);
            (!Enough(p.cell, v, t, n) ==> r.Fail?) &&
            (r.Fail? ==> r.code == 1 || r.code == 4) &&
            (r.Fail? && r.code == 1 ==> !Enough(p.cell, v, t, n)) &&
            (r.Fail? && Enough(p.cell, v, t, n) ==> r.code == 4)
    decreases n
  {
    B.MaskIsPairExactly(B.CONS);
    InvShut(p, fs, rest + Ref(false, e));
    if !IsNil(v) && IsCons(v) && Pair(t) {
      SlotsLive(p, fs, v);
      SlotsLive(p, fs, t);
      var name, val := p.cell[B.Ord(v) + 1], p.cell[B.Ord(t) + 1];
      PushOwns(p, name, val, e, fs, rest);
      var r1 := Push(p, name, val, e, fs, rest);
      if r1.Ok? {
        PushWrites(p, name, val, e, fs, rest);
        var v2, t2 := p.cell[B.Ord(v)], p.cell[B.Ord(t)];
        WalksKept(p, fs, r1.p, fs[2..], v2, t2, n - 1);
        LiveKept(p, fs, r1.p, fs[2..], v2);
        LiveKept(p, fs, r1.p, fs[2..], t2);
        BindArity(r1.p, v2, t2, r1.val, fs[2..], rest, n - 1);
      }
    } else if !IsNil(v) && !IsCons(v) {
      PushOwns(p, v, t, e, fs, rest);
    }
  }

  /** The closure's `(params . body)` pair, `car(f)`. */
  function Code(p: Pool, f: Word): (c: Word)
    requires Shape(p) && AllProper(p.cell) && Proper(|p.cell|, f) && Pair(f)
    ensures Proper(|p.cell|, c)
  {
    p.cell[B.Ord(f) + 1]
  }

  /** The environment the closure extends: its own, or the global `env` when it has none. */
  function Scope(p: Pool, f: Word, glob: Word): (e: Word)
    requires Shape(p) && AllProper(p.cell) && Proper(|p.cell|, f) && Pair(f)
    ensures e == glob || e == p.cell[B.Ord(f)]
  {
    if IsNil(p.cell[B.Ord(f)]) then glob else p.cell[B.Ord(f)]
  }

  /**
   * The entry of `reduce(f,t,e)` once `t` holds the evaluated arguments:
   * `bind(car(car(f)),t,dup(env or cdr(f)))`. A closure whose code is not
   * a pair raises `err(1)` at `car(car(f))`.
   */
  function Enter(p: Pool, f: Word, t: Word, glob: Word, ghost fs: seq<nat>, ghost roots: multiset<nat>, ghost n: nat): (r: Out<Pool>)
    requires Inv(p, fs, roots) && Apart(p, fs) && |p.heap| > 0
    requires Pair(f) && Live(p, fs, f) && Live(p, fs, t) && Live(p, fs, glob)
    requires Pair(Code(p, f)) ==> Params(p.cell, p.cell[B.Ord(Code(p, f)) + 1], n)
    ensures r.p.heap == p.heap && |r.p.cell| == |p.cell| && |r.p.ref| == |p.ref|
  {
    var c := Code(p, f);
    if !Pair(c) then Fail(p, 1)
    else
      InvShut(p, fs, roots);
      SlotsLive(p, fs, f);
      var e0 := Scope(p, f, glob);
      SlotsLive(p, fs, c);
      DupKeeps(p, fs, roots, e0);
      Bind(Dup(p, e0), p.cell[B.Ord(c) + 1], t, e0, fs, roots, n)
  }

  /**
   * A successful entry leaves the caller's ownership as it was plus the
   * new environment, and nothing used before changes.
   */
  lemma EnterOwns(p: Pool, f: Word, t: Word, glob: Word, fs: seq<nat>, roots: multiset<nat>, n: nat) returns (fs2: seq<nat>)
    requires Inv(p, fs, roots) && Apart(p, fs) && |p.heap| > 0
    requires Pair(f) && Live(p, fs, f) && Live(p, fs, t) && Live(p, fs, glob)
    requires Pair(Code(p, f)) ==> Params(p.cell, p.cell[B.Ord(Code(p, f)) + 1], n)
    requires Enter(p, f, t, glob, fs, roots, n).Ok?
    ensures var r := Enter(p, f, t, glob, fs, roots, n);
            Inv(r.p, fs2, roots + Ref(false, r.val)) && Apart(r.p, fs2) && Extends(p, fs, r.p, fs2)
  {
    var e0 := Scope(p, f, glob);
    EnterUnfold(p, f, t, glob, fs, roots, n);
    fs2 := BindOwns(Dup(p, e0), p.cell[B.Ord(Code(p, f)) + 1], t, e0, fs, roots, n);
  }

  /** A closure whose code is a pair enters by `bind` on a `dup` of its environment. */
  lemma EnterUnfold(p: Pool, f: Word, t: Word, glob: Word, fs: seq<nat>, roots: multiset<nat>, n: nat)
    requires Inv(p, fs, roots) && Apart(p, fs) && |p.heap| > 0
    requires Pair(f) && Live(p, fs, f) && Live(p, fs, t) && Live(p, fs, glob)
    requires Pair(Code(p, f)) ==> Params(p.cell, p.cell[B.Ord(Code(p, f)) + 1], n)
    requires Enter(p, f, t, glob, fs, roots, n).Ok?
    ensures Pair(Code(p, f))
    ensures var e0 := Scope(p, f, glob);
            var p1 := Dup(p, e0);
            var v := p.cell[B.Ord(Code(p, f)) + 1];
            p1.cell == p.cell && Live(p, fs, v) && Live(p, fs, e0) &&
            Inv(p1, fs, roots + Ref(false, e0)) && Apart(p1, fs) && |p1.heap| > 0 &&
            Live(p1, fs, v) && Live(p1, fs, t) && Params(p1.cell, v, n) &&
            Enter(p, f, t, glob, fs, roots, n) == Bind(p1, v, t, e0, fs, roots, n)
  {
    var c := Code(p, f);
    InvShut(p, fs, roots);
    SlotsLive(p, fs, f);
    SlotsLive(p, fs, c);
    DupKeeps(p, fs, roots, Scope(p, f, glob));
  }

  /**
   * The counts after a successful entry: the environment the closure
   * extends gains exactly one owner (the last binding's cdr), and every
   * bound value one per binding.
   */
  lemma EnterCounts(p: Pool, f: Word, t: Word, glob: Word, fs: seq<nat>, roots: multiset<nat>, n: nat)
    requires Inv(p, fs, roots) && Apart(p, fs) && |p.heap| > 0
    requires Pair(f) && Live(p, fs, f) && Live(p, fs, t) && Live(p, fs, glob)
    requires Pair(Code(p, f)) ==> Params(p.cell, p.cell[B.Ord(Code(p, f)) + 1], n)
    requires Enter(p, f, t, glob, fs, roots, n).Ok?
    ensures Pair(Code(p, f)) && Proper(|p.cell|, p.cell[B.Ord(Code(p, f)) + 1])
    ensures var r := Enter(p, f, t, glob, fs, roots, n);
            forall j :: j in Used(|p.cell|, fs) ==>
              r.p.ref[j / 2] == p.ref[j / 2] + (Ref(false, Scope(p, f, glob)) + Bound(p.cell, p.cell[B.Ord(Code(p, f)) + 1], t, n))[j]
  {
    var e0 := Scope(p, f, glob);
    EnterUnfold(p, f, t, glob, fs, roots, n);
    var p1 := Dup(p, e0);
    var v := p.cell[B.Ord(Code(p, f)) + 1];
    BindCounts(p1, v, t, e0, fs, roots, n);
    DupCounts(p, fs, e0);
    BindStepCounts(p, fs, p1, fs, Enter(p, f, t, glob, fs, roots, n).p, e0, Bound(p.cell, v, t, n));
  }

  /** `dup(x)` adds one to the count of the pair `x` refers to and to no other. */
  lemma DupCounts(p: Pool, fs: seq<nat>, x: Word)
    requires Shape(p) && Points(false, |p.cell|, x)
    ensures forall j :: j in Used(|p.cell|, fs) ==> Dup(p, x).ref[j / 2] == p.ref[j / 2] + Ref(false, x)[j]
  {
    forall j | j in Used(|p.cell|, fs)
      ensures Dup(p, x).ref[j / 2] == p.ref[j / 2] + Ref(false, x)[j]
    {
      if Pair(x) && B.Ord(x) != j {
        HalfDistinct(j, B.Ord(x));
      }
    }
  }

  /**
   * The exit of `reduce`: with the body's value `x` computed in the new
   * environment `e2`, `gc(e)` and then `gc(t)` release the environment and
   * the argument list, so `reduce` hands back `x` and holds nothing else.
   */
  lemma ReduceReleases(p: Pool, fs: seq<nat>, rest: multiset<nat>, e2: Word, t: Word, x: Word, fuel: nat)
    returns (q: Pool, fs2: seq<nat>)
    requires Inv(p, fs, rest + Ref(false, x) + Ref(false, t) + Ref(false, e2))
    requires Proper(|p.cell|, e2) && Proper(|p.cell|, t) && fuel > |Used(|p.cell|, fs)|
    ensures AllPoint(false, p.cell) && GcSlots(p, e2, t, fuel) == Done(q)
    ensures Inv(q, fs2, rest + Ref(false, x))
    ensures q.cell == p.cell && |Used(|p.cell|, fs2)| <= |Used(|p.cell|, fs)|
  {
    q, fs2 := GcFrees(p, fs, rest + Ref(false, x), e2, t, fuel);
  }
}
