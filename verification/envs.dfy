/**
 * Environments of the stack-allocated interpreters: association lists
 * `((v1 . x1) (v2 . x2) ...)` built from pool cells, innermost binding
 * first. `assoc` looks a name up, `bind` extends an environment with a
 * closure's parameters, `assign`, `setq`, `setcar` and `setcdr` overwrite
 * cells in place.
 *
 * A list is followed by reading cells, and nothing in the cells rules out a
 * cycle, so every walk takes a ghost bound `n` on the number of list cells
 * it may visit (`Chain`): the C loops terminate exactly on such lists.
 */
module StackEnv {
  import opened StackPool
  import B = Boxing

  /** Following cdr from `e` meets a non-CONS word within `n` steps, reading only inside the array. */
  ghost predicate Chain(f: Flavor, m: Machine, e: Word, n: nat)
    decreases n
  {
    f.Tag(e) != f.ConsT() ||
    (n > 0 && f.Ord(e) + 1 < |m.cell| && Chain(f, m, m.cell[f.Ord(e)], n - 1))
  }

  lemma {:induction false} ChainMore(f: Flavor, m: Machine, e: Word, n: nat, n2: nat)
    requires Chain(f, m, e, n) && n <= n2
    ensures Chain(f, m, e, n2)
    decreases n
  {
    if f.Tag(e) == f.ConsT() {
      ChainMore(f, m, m.cell[f.Ord(e)], n - 1, n2 - 1);
    }
  }

  /** The car a classic interpreter reads: the cell, or the ERR atom for a non-pair. */
  function Hd(f: Flavor, m: Machine, w: Word): Word
    requires Points(f, m, w)
  {
    if f.IsPair(f.Tag(w)) then m.cell[f.Ord(w) + 1] else f.ErrAtom()
  }

  /** The cdr a classic interpreter reads. */
  function Tl(f: Flavor, m: Machine, w: Word): Word
    requires Points(f, m, w)
  {
    if f.IsPair(f.Tag(w)) then m.cell[f.Ord(w)] else f.ErrAtom()
  }

  /** A binding as the lookup sees it: name and value. */
  datatype Binding = Binding(name: Word, value: Word)

  /** Reference reading of an environment: its bindings, innermost first. */
  ghost function Bindings(f: Flavor, m: Machine, e: Word, n: nat): (bs: seq<Binding>)
    requires Sane(f, m) && Chain(f, m, e, n)
    ensures |bs| <= n
    decreases n
  {
    if f.Tag(e) != f.ConsT() then []
    else
      var b := m.cell[f.Ord(e) + 1];
      [Binding(Hd(f, m, b), Tl(f, m, b))] + Bindings(f, m, m.cell[f.Ord(e)], n - 1)
  }

  /** Every binding cell of the list is a pair (the interpreters with `err(1)` need this to look past it). */
  ghost predicate PairBindings(f: Flavor, m: Machine, e: Word, n: nat)
    requires Sane(f, m) && Chain(f, m, e, n)
    decreases n
  {
    f.Tag(e) != f.ConsT() ||
    (f.IsPair(f.Tag(m.cell[f.Ord(e) + 1])) && PairBindings(f, m, m.cell[f.Ord(e)], n - 1))
  }

  /** The first binding of `v`, if any. */
  function Lookup(bs: seq<Binding>, v: Word): (r: Option<Word>)
    ensures r.Some? <==> exists j :: 0 <= j < |bs| && bs[j].name == v
    ensures r.Some? ==> exists j :: 0 <= j < |bs| && bs[j].name == v && bs[j].value == r.value &&
                                    forall k :: 0 <= k < j ==> bs[k].name != v
  {
    if bs == [] then None
    else if bs[0].name == v then Some(bs[0].value)
    else
      var r := Lookup(bs[1..], v);
      assert forall j :: 1 <= j < |bs| ==> bs[j] == bs[1..][j - 1];
      r
  }

  datatype Option<T> = None | Some(value: T)

  /** What `assoc` answers for an unbound name: `err(2)` or the ERR atom. */
  function Unbound(f: Flavor): Res
  {
    if f.raise then Throw(Raised(2)) else Val(f.ErrAtom())
  }

  /** Where the walk of `assoc`, `setq` and `assign` stops. */
  datatype Hit = Found(b: Word) | Missing | Bad(p: Word)

  /**
   * The loop shared by `assoc`, `f_setq` and `assign`: follow cdr while the
   * element is a CONS whose binding name is not `equ` to `v`. It stops at
   * the binding cell `b`, at the end of the list, or (with `err(1)`) at a
   * binding cell that is not a pair.
   */
  function Seek(f: Flavor, m: Machine, v: Word, e: Word, ghost n: nat): (r: Hit)
    requires Sane(f, m) && Chain(f, m, e, n)
    ensures r.Found? ==> Points(f, m, r.b) && Hd(f, m, r.b) == v
    ensures r.Found? && f.raise ==> f.IsPair(f.Tag(r.b))
    ensures r.Bad? ==> f.raise && !f.IsPair(f.Tag(r.p))
    decreases n
  {
    if f.Tag(e) != f.ConsT() then Missing
    else
      var b := m.cell[f.Ord(e) + 1];
      if f.raise && !f.IsPair(f.Tag(b)) then Bad(b)
      else if B.Equ(v, Hd(f, m, b)) then Found(b)
      else Seek(f, m, v, m.cell[f.Ord(e)], n - 1)
  }

  /** The walk finds the innermost binding of `v`, and misses exactly when there is none. */
  lemma {:induction false} SeekIsLookup(f: Flavor, m: Machine, v: Word, e: Word, n: nat)
    requires Sane(f, m) && Chain(f, m, e, n)
    requires f.raise ==> PairBindings(f, m, e, n)
    ensures Seek(f, m, v, e, n).Found? <==> Lookup(Bindings(f, m, e, n), v).Some?
    ensures !Seek(f, m, v, e, n).Bad?
    ensures Seek(f, m, v, e, n).Found? ==>
              Tl(f, m, Seek(f, m, v, e, n).b) == Lookup(Bindings(f, m, e, n), v).value
    decreases n
  {
    if f.Tag(e) == f.ConsT() {
      var bs := Bindings(f, m, e, n);
      assert bs[1..] == Bindings(f, m, m.cell[f.Ord(e)], n - 1);
      SeekIsLookup(f, m, v, m.cell[f.Ord(e)], n - 1);
    }
  }

  /**
   * `assoc(v,e)`: the value of the binding the walk stops at, or the
   * unbound answer when the list ends.
   */
  function Assoc(f: Flavor, m: Machine, v: Word, e: Word, ghost n: nat): (r: Res)
    requires Sane(f, m) && Chain(f, m, e, n)
    ensures !f.raise ==> r.Val?
    ensures r.Throw? ==> r.fault == Raised(1) || r.fault == Raised(2)
  {
    match Seek(f, m, v, e, n)
    case Found(b) => Cdr(f, m, b)
    case Missing => Unbound(f)
    case Bad(p) => Throw(Raised(1))
  }

  /**
   * `assoc` answers the value of the innermost binding of `v` and the
   * unbound answer when there is none: it agrees with the reference lookup
   * on every environment whose binding cells are pairs (for the classic
   * interpreters, on every environment).
   */
  lemma AssocIsLookup(f: Flavor, m: Machine, v: Word, e: Word, n: nat)
    requires Sane(f, m) && Chain(f, m, e, n)
    requires f.raise ==> PairBindings(f, m, e, n)
    ensures Assoc(f, m, v, e, n) ==
            match Lookup(Bindings(f, m, e, n), v)
            case Some(x) => Val(x)
            case None => Unbound(f)
  {
    SeekIsLookup(f, m, v, e, n);
  }
}

/**
 * Liveness: the cells from `sp` up are the live pool, and every pair
 * reachable from them lies in it. The values the interpreter passes around
 * are live, so writes below `sp` (fresh pairs) never disturb them.
 */
module StackLive {
  import opened StackPool
  import opened StackEnv

  /** A live value: a pair-tagged word refers into `[sp, N)`. */
  predicate Above(f: Flavor, m: Machine, w: Word)
  {
    f.IsPair(f.Tag(w)) ==> m.sp <= f.Ord(w) && f.Ord(w) + 1 < |m.cell|
  }

  /** The live region refers only to itself. */
  predicate Closed(f: Flavor, m: Machine)
  {
    forall k :: m.sp <= k < |m.cell| ==> Above(f, m, m.cell[k])
  }

  /** `m2` only grew the stack below `m.sp`: the live cells of `m` are unchanged. */
  predicate Agree(m: Machine, m2: Machine)
  {
    |m2.cell| == |m.cell| && m2.sp <= m.sp &&
    forall k :: m.sp <= k < |m.cell| ==> m2.cell[k] == m.cell[k]
  }

  lemma AgreeTrans(m1: Machine, m2: Machine, m3: Machine)
    requires Agree(m1, m2) && Agree(m2, m3)
    ensures Agree(m1, m3)
  {
  }

  /** A cons of live values leaves the live region alone and keeps it closed. */
  lemma ConsKeepsLive(f: Flavor, m: Machine, x: Word, y: Word)
    requires Shape(f, m) && Sane(f, m) && Closed(f, m)
    requires Above(f, m, x) && Above(f, m, y)
    ensures var r := Cons(f, m, x, y);
            Sane(f, r.m) && Closed(f, r.m) && Agree(m, r.m) &&
            (r.Ok? ==> Above(f, r.m, r.val) && f.Tag(r.val) == f.ConsT())
  {
    var r := Cons(f, m, x, y);
    assert f.IsPair(f.ConsT());
    if m.sp >= 2 {
      forall k | 0 <= k < |r.m.cell|
        ensures Points(f, r.m, r.m.cell[k])
      {
        if k != m.sp - 1 && k != m.sp - 2 {
          assert Points(f, m, m.cell[k]);
        }
      }
      forall k | r.m.sp <= k < |r.m.cell|
        ensures Above(f, r.m, r.m.cell[k])
      {
        if k != m.sp - 1 && k != m.sp - 2 {
          assert Above(f, m, m.cell[k]);
        }
      }
    }
  }

  lemma AboveLower(f: Flavor, m: Machine, m2: Machine, w: Word)
    requires Above(f, m, w) && Agree(m, m2)
    ensures Above(f, m2, w)
  {
  }

  /** A successful or failed pair leaves the live region alone and keeps it closed. */
  lemma PairKeepsLive(f: Flavor, m: Machine, v: Word, x: Word, e: Word)
    requires Shape(f, m) && Sane(f, m) && Closed(f, m)
    requires Above(f, m, v) && Above(f, m, x) && Above(f, m, e)
    ensures var r := Pair(f, m, v, x, e);
            Sane(f, r.m) && Closed(f, r.m) && Agree(m, r.m) &&
            (r.Ok? ==> Above(f, r.m, r.val) && f.Tag(r.val) == f.ConsT() &&
                       r.m.cell[f.Ord(r.val)] == e &&
                       r.m.cell[f.Ord(r.val) + 1] == f.Box(f.ConsT(), r.m.sp + 2) &&
                       r.m.cell[r.m.sp + 2] == x && r.m.cell[r.m.sp + 3] == v)
  {
    var r1 := Cons(f, m, v, x);
    ConsKeepsLive(f, m, v, x);
    if r1.Ok? {
      AboveLower(f, m, r1.m, e);
      ConsKeepsLive(f, r1.m, r1.val, e);
      AgreeTrans(m, r1.m, Cons(f, r1.m, r1.val, e).m);
    }
  }

  /** Walking a live list reads the same cells in any state that agrees on the live region. */
  lemma {:induction false} ChainFrame(f: Flavor, m: Machine, m2: Machine, e: Word, n: nat)
    requires Sane(f, m) && Sane(f, m2) && Closed(f, m) && Agree(m, m2)
    requires Above(f, m, e) && Chain(f, m, e, n)
    ensures Chain(f, m2, e, n)
    ensures Bindings(f, m2, e, n) == Bindings(f, m, e, n)
    decreases n
  {
    if f.Tag(e) == f.ConsT() {
      assert f.IsPair(f.ConsT());
      var b := m.cell[f.Ord(e) + 1];
      assert Above(f, m, b) && Above(f, m, m.cell[f.Ord(e)]);
      ChainFrame(f, m, m2, m.cell[f.Ord(e)], n - 1);
    }
  }

  lemma {:induction false} BindingsMore(f: Flavor, m: Machine, e: Word, n: nat, n2: nat)
    requires Sane(f, m) && Chain(f, m, e, n) && n <= n2
    ensures Chain(f, m, e, n2) && Bindings(f, m, e, n2) == Bindings(f, m, e, n)
    decreases n
  {
    ChainMore(f, m, e, n, n2);
    if f.Tag(e) == f.ConsT() {
      BindingsMore(f, m, m.cell[f.Ord(e)], n - 1, n2 - 1);
    }
  }

  /**
   * `bind(v,t,e)` of the classic interpreters: nil variables give `e`; a
   * variable list adds `(car(v) . car(t))` and continues with both cdrs; a
   * lone variable takes the whole remaining argument list.
   */
  function Bind(f: Flavor, m: Machine, v: Word, t: Word, e: Word, ghost n: nat): (r: Out)
    requires !f.raise && Shape(f, m) && Sane(f, m) && Closed(f, m)
    requires Above(f, m, v) && Above(f, m, t) && Above(f, m, e) && Chain(f, m, v, n)
    ensures Shape(f, r.m) && Sane(f, r.m) && Closed(f, r.m) && Agree(m, r.m)
    ensures r.Ok? ==> Above(f, r.m, r.val)
    ensures r.Fail? ==> r.fault == Aborted || r.fault == Overrun
    decreases n
  {
    if Not(f, v) then Ok(m, e)
    else if f.Tag(v) == f.ConsT() then
      assert f.IsPair(f.ConsT());
      assert Above(f, m, Hd(f, m, v)) && Above(f, m, Hd(f, m, t));
      assert Above(f, m, Tl(f, m, v)) && Above(f, m, Tl(f, m, t));
      assert Chain(f, m, Tl(f, m, v), n - 1);
      PairKeepsLive(f, m, Hd(f, m, v), Hd(f, m, t), e);
      var r1 := Pair(f, m, Hd(f, m, v), Hd(f, m, t), e);
      if r1.Fail? then r1
      else
        ChainFrame(f, m, r1.m, Tl(f, m, v), n - 1);
        var r := Bind(f, r1.m, Tl(f, m, v), Tl(f, m, t), r1.val, n - 1);
        AgreeTrans(m, r1.m, r.m);
        r
    else
      PairKeepsLive(f, m, v, t, e);
      Pair(f, m, v, t, e)
  }

  /**
   * Reference for `bind`: the bindings it creates, innermost first. The
   * j-th variable is bound to the j-th argument (the ERR atom once the
   * arguments run out) and a dotted tail variable to the rest.
   */
  ghost function Frames(f: Flavor, m: Machine, v: Word, t: Word, n: nat): (bs: seq<Binding>)
    requires Sane(f, m) && Chain(f, m, v, n) && Points(f, m, t)
    decreases n
  {
    if Not(f, v) then []
    else if f.Tag(v) == f.ConsT() then
      assert f.IsPair(f.ConsT());
      Frames(f, m, Tl(f, m, v), Tl(f, m, t), n - 1) + [Binding(Hd(f, m, v), Hd(f, m, t))]
    else [Binding(v, t)]
  }

  lemma {:induction false} FramesFrame(f: Flavor, m: Machine, m2: Machine, v: Word, t: Word, n: nat)
    requires Sane(f, m) && Sane(f, m2) && Closed(f, m) && Agree(m, m2)
    requires Above(f, m, v) && Above(f, m, t) && Chain(f, m, v, n)
    ensures Chain(f, m2, v, n) && Frames(f, m2, v, t, n) == Frames(f, m, v, t, n)
    decreases n
  {
    ChainFrame(f, m, m2, v, n);
    if !Not(f, v) && f.Tag(v) == f.ConsT() {
      assert f.IsPair(f.ConsT());
      assert Above(f, m, Tl(f, m, v)) && Above(f, m, Tl(f, m, t));
      FramesFrame(f, m, m2, Tl(f, m, v), Tl(f, m, t), n - 1);
    }
  }

  /**
   * The environment `bind` returns reads as the new bindings followed by
   * the bindings of `e`, which are untouched. (`nr` bounds the length of
   * the result: the new bindings plus `e`'s.)
   */
  lemma {:induction false} BindDecodes(f: Flavor, m: Machine, v: Word, t: Word, e: Word, n: nat, ne: nat, nr: nat, r: Out)
    requires !f.raise && Shape(f, m) && Sane(f, m) && Closed(f, m)
    requires Above(f, m, v) && Above(f, m, t) && Above(f, m, e) && Chain(f, m, v, n)
    requires Chain(f, m, e, ne) && nr == n + ne + 1
    requires r == Bind(f, m, v, t, e, n) && r.Ok?
    ensures Sane(f, r.m) && Chain(f, r.m, r.val, nr)
    ensures Bindings(f, r.m, r.val, nr) == Frames(f, m, v, t, n) + Bindings(f, m, e, ne)
    decreases n, 1
  {
    if Not(f, v) {
      assert r == Ok(m, e);
      BindingsMore(f, m, e, ne, nr);
    } else if f.Tag(v) == f.ConsT() {
      BindDecodesStep(f, m, v, t, e, n, ne, nr, r);
    } else {
      assert r == Pair(f, m, v, t, e);
      PairKeepsLive(f, m, v, t, e);
      ChainFrame(f, m, r.m, e, ne);
      PairDecodes(f, r.m, r.val, ne);
      BindingsMore(f, r.m, r.val, ne + 1, nr);
    }
  }

  lemma {:induction false} BindDecodesStep(f: Flavor, m: Machine, v: Word, t: Word, e: Word, n: nat, ne: nat, nr: nat, r: Out)
    requires !f.raise && Shape(f, m) && Sane(f, m) && Closed(f, m)
    requires Above(f, m, v) && Above(f, m, t) && Above(f, m, e) && Chain(f, m, v, n)
    requires Chain(f, m, e, ne) && nr == n + ne + 1
    requires !Not(f, v) && f.Tag(v) == f.ConsT()
    requires r == Bind(f, m, v, t, e, n) && r.Ok?
    ensures Sane(f, r.m) && Chain(f, r.m, r.val, nr)
    ensures Bindings(f, r.m, r.val, nr) == Frames(f, m, v, t, n) + Bindings(f, m, e, ne)
    decreases n, 0
  {
    var r1 := BindStep(f, m, v, t, e, n, ne);
    assert f.IsPair(f.ConsT());
    var hv, ht, tv, tt := Hd(f, m, v), Hd(f, m, t), Tl(f, m, v), Tl(f, m, t);
    BindDecodes(f, r1.m, tv, tt, r1.val, n - 1, ne + 1, nr, r);
    SeqAssoc(Frames(f, m, tv, tt, n - 1), [Binding(hv, ht)], Bindings(f, m, e, ne));
  }

  /** One step of `bind` over a variable list: the pair it pushes and what the rest sees. */
  lemma BindStep(f: Flavor, m: Machine, v: Word, t: Word, e: Word, n: nat, ne: nat) returns (r1: Out)
    requires !f.raise && Shape(f, m) && Sane(f, m) && Closed(f, m)
    requires Above(f, m, v) && Above(f, m, t) && Above(f, m, e) && Chain(f, m, v, n)
    requires Chain(f, m, e, ne)
    requires !Not(f, v) && f.Tag(v) == f.ConsT()
    requires Bind(f, m, v, t, e, n).Ok?
    ensures f.IsPair(f.ConsT()) && n > 0
    ensures r1 == Pair(f, m, Hd(f, m, v), Hd(f, m, t), e) && r1.Ok?
    ensures Shape(f, r1.m) && Sane(f, r1.m) && Closed(f, r1.m)
    ensures Above(f, r1.m, Tl(f, m, v)) && Above(f, r1.m, Tl(f, m, t)) && Above(f, r1.m, r1.val)
    ensures Chain(f, r1.m, Tl(f, m, v), n - 1) && Chain(f, r1.m, r1.val, ne + 1)
    ensures Bind(f, m, v, t, e, n) == Bind(f, r1.m, Tl(f, m, v), Tl(f, m, t), r1.val, n - 1)
    ensures Bindings(f, r1.m, r1.val, ne + 1) == [Binding(Hd(f, m, v), Hd(f, m, t))] + Bindings(f, m, e, ne)
    ensures Frames(f, r1.m, Tl(f, m, v), Tl(f, m, t), n - 1) == Frames(f, m, Tl(f, m, v), Tl(f, m, t), n - 1)
    ensures Frames(f, m, v, t, n) == Frames(f, m, Tl(f, m, v), Tl(f, m, t), n - 1) + [Binding(Hd(f, m, v), Hd(f, m, t))]
  {
    r1 := BindHead(f, m, v, t, e, n, ne);
    BindUnfold(f, m, v, t, e, n, r1);
  }

  /** The pair `bind` pushes for the first variable, and the live state it leaves. */
  lemma BindHead(f: Flavor, m: Machine, v: Word, t: Word, e: Word, n: nat, ne: nat) returns (r1: Out)
    requires !f.raise && Shape(f, m) && Sane(f, m) && Closed(f, m)
    requires Above(f, m, v) && Above(f, m, t) && Above(f, m, e) && Chain(f, m, v, n)
    requires Chain(f, m, e, ne)
    requires !Not(f, v) && f.Tag(v) == f.ConsT()
    requires Pair(f, m, Hd(f, m, v), Hd(f, m, t), e).Ok?
    ensures f.IsPair(f.ConsT()) && n > 0
    ensures r1 == Pair(f, m, Hd(f, m, v), Hd(f, m, t), e) && r1.Ok?
    ensures Shape(f, r1.m) && Sane(f, r1.m) && Closed(f, r1.m) && Agree(m, r1.m)
    ensures Above(f, r1.m, Tl(f, m, v)) && Above(f, r1.m, Tl(f, m, t)) && Above(f, r1.m, r1.val)
    ensures Chain(f, r1.m, Tl(f, m, v), n - 1) && Chain(f, r1.m, r1.val, ne + 1)
    ensures Bindings(f, r1.m, r1.val, ne + 1) == [Binding(Hd(f, m, v), Hd(f, m, t))] + Bindings(f, m, e, ne)
    ensures Frames(f, r1.m, Tl(f, m, v), Tl(f, m, t), n - 1) == Frames(f, m, Tl(f, m, v), Tl(f, m, t), n - 1)
  {
    assert f.IsPair(f.ConsT());
    var hv, ht, tv, tt := Hd(f, m, v), Hd(f, m, t), Tl(f, m, v), Tl(f, m, t);
    assert Above(f, m, hv) && Above(f, m, ht) && Above(f, m, tv) && Above(f, m, tt);
    r1 := Pair(f, m, hv, ht, e);
    PushFrame(f, m, hv, ht, e, ne, r1);
    AboveLower(f, m, r1.m, tv);
    AboveLower(f, m, r1.m, tt);
    FramesFrame(f, m, r1.m, tv, tt, n - 1);
  }

  /** `bind` over a variable list is one pushed pair followed by `bind` over the rest. */
  lemma BindUnfold(f: Flavor, m: Machine, v: Word, t: Word, e: Word, n: nat, r1: Out)
    requires !f.raise && Shape(f, m) && Sane(f, m) && Closed(f, m)
    requires Above(f, m, v) && Above(f, m, t) && Above(f, m, e) && Chain(f, m, v, n)
    requires !Not(f, v) && f.Tag(v) == f.ConsT()
    requires r1 == Pair(f, m, Hd(f, m, v), Hd(f, m, t), e) && r1.Ok?
    requires Shape(f, r1.m) && Sane(f, r1.m) && Closed(f, r1.m)
    requires Above(f, r1.m, Tl(f, m, v)) && Above(f, r1.m, Tl(f, m, t)) && Above(f, r1.m, r1.val)
    requires n > 0 && Chain(f, r1.m, Tl(f, m, v), n - 1)
    ensures Bind(f, m, v, t, e, n) == Bind(f, r1.m, Tl(f, m, v), Tl(f, m, t), r1.val, n - 1)
    ensures Frames(f, m, v, t, n) == Frames(f, m, Tl(f, m, v), Tl(f, m, t), n - 1) + [Binding(Hd(f, m, v), Hd(f, m, t))]
  {
    assert f.IsPair(f.ConsT());
  }

  /** Pushing one binding onto a live environment list extends its bindings at the front. */
  lemma PushFrame(f: Flavor, m: Machine, x: Word, y: Word, e: Word, ne: nat, r: Out)
    requires Shape(f, m) && Sane(f, m) && Closed(f, m)
    requires Above(f, m, x) && Above(f, m, y) && Above(f, m, e) && Chain(f, m, e, ne)
    requires r == Pair(f, m, x, y, e) && r.Ok?
    ensures Shape(f, r.m) && Sane(f, r.m) && Closed(f, r.m) && Agree(m, r.m)
    ensures Above(f, r.m, r.val) && Chain(f, r.m, r.val, ne + 1)
    ensures Bindings(f, r.m, r.val, ne + 1) == [Binding(x, y)] + Bindings(f, m, e, ne)
  {
    PairKeepsLive(f, m, x, y, e);
    ChainFrame(f, m, r.m, e, ne);
    PairDecodes(f, r.m, r.val, ne);
  }

  lemma SeqAssoc<T>(a: seq<T>, b: seq<T>, c: seq<T>)
    ensures a + (b + c) == (a + b) + c
  {
  }

  /** A pair just built on top of `e` reads as one binding followed by `e`'s. */
  lemma PairDecodes(f: Flavor, m: Machine, p: Word, ne: nat)
    requires Shape(f, m) && Sane(f, m) && f.Tag(p) == f.ConsT() && f.Ord(p) + 3 < |m.cell|
    requires m.cell[f.Ord(p) + 1] == f.Box(f.ConsT(), f.Ord(p) + 2)
    requires Chain(f, m, m.cell[f.Ord(p)], ne)
    ensures Chain(f, m, p, ne + 1)
    ensures Bindings(f, m, p, ne + 1) ==
            [Binding(m.cell[f.Ord(p) + 3], m.cell[f.Ord(p) + 2])] + Bindings(f, m, m.cell[f.Ord(p)], ne)
  {
    assert f.IsPair(f.ConsT());
  }
}
