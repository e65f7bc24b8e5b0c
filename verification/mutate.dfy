/**
 * In-place updates of the stack-allocated interpreters: `f_setq`,
 * `f_setcar`, `f_setcdr` (tinylisp-extras.c) and `assign`, the tail-call
 * helper of tinylisp-extras.c and tinylisp-float-opt.c. Each overwrites one
 * cell; the already evaluated new value is a parameter.
 */
module StackMutate {
  import opened StackPool
  import opened StackEnv

  /** The machine with one cell overwritten. */
  function Write(m: Machine, w: nat, x: Word): (m2: Machine)
    requires w < |m.cell|
    ensures m2.sp == m.sp && m2.heap == m.heap && m2.env == m.env && |m2.cell| == |m.cell|
    ensures m2.cell[w] == x && forall k :: 0 <= k < |m.cell| && k != w ==> m2.cell[k] == m.cell[k]
  {
    m.(cell := m.cell[w := x])
  }

  /**
   * The cells a walk over `e` reads apart from binding values: each list
   * cell's two slots and each binding's name slot.
   */
  ghost function Reads(f: Flavor, m: Machine, e: Word, n: nat): set<nat>
    requires Sane(f, m) && Chain(f, m, e, n)
    decreases n
  {
    if f.Tag(e) != f.ConsT() then {}
    else
      var b := m.cell[f.Ord(e) + 1];
      {f.Ord(e), f.Ord(e) + 1} + (if f.IsPair(f.Tag(b)) then {f.Ord(b) + 1} else {}) +
      Reads(f, m, m.cell[f.Ord(e)], n - 1)
  }

  /** Overwriting a cell the walk does not read leaves the walk where it was. */
  lemma {:induction false} WriteKeepsSeek(f: Flavor, m: Machine, u: Word, e: Word, n: nat, w: nat, x: Word)
    requires Sane(f, m) && Chain(f, m, e, n) && w < |m.cell| && Points(f, m, x)
    requires w !in Reads(f, m, e, n)
    ensures Sane(f, Write(m, w, x)) && Chain(f, Write(m, w, x), e, n)
    ensures Seek(f, Write(m, w, x), u, e, n) == Seek(f, m, u, e, n)
    decreases n
  {
    var m2 := Write(m, w, x);
    assert Sane(f, m2) by {
      forall k | 0 <= k < |m2.cell|
        ensures Points(f, m2, m2.cell[k])
      {
        if k != w {
          assert Points(f, m, m.cell[k]);
        }
      }
    }
    if f.Tag(e) == f.ConsT() {
      WriteKeepsSeek(f, m, u, m.cell[f.Ord(e)], n - 1, w, x);
    }
  }

  /**
   * After overwriting an unread cell, `assoc` answers the new value for the
   * name whose binding value sits in that cell, and what it answered
   * before for every other lookup.
   */
  lemma WriteThenAssoc(f: Flavor, m: Machine, u: Word, e: Word, n: nat, w: nat, x: Word)
    requires Sane(f, m) && Chain(f, m, e, n) && w < |m.cell| && Points(f, m, x)
    requires w !in Reads(f, m, e, n)
    ensures Sane(f, Write(m, w, x)) && Chain(f, Write(m, w, x), e, n)
    ensures var h := Seek(f, m, u, e, n);
            Assoc(f, Write(m, w, x), u, e, n) ==
            if h.Found? && f.IsPair(f.Tag(h.b)) && f.Ord(h.b) == w then Val(x) else Assoc(f, m, u, e, n)
  {
    WriteKeepsSeek(f, m, u, e, n, w, x);
  }

  /**
   * `f_setq`: find the innermost binding of `v` and overwrite its value
   * with `x`; `err(2)` when `v` is unbound, `err(1)` when a binding cell on
   * the way is not a pair.
   */
  function Setq(f: Flavor, m: Machine, v: Word, x: Word, e: Word, ghost n: nat): (r: Out)
    requires f.raise && Sane(f, m) && Chain(f, m, e, n)
    ensures r.m.sp == m.sp && r.m.heap == m.heap && r.m.env == m.env && |r.m.cell| == |m.cell|
    ensures r.Fail? ==> r.m == m && (r.fault == Raised(1) || r.fault == Raised(2))
    ensures PairBindings(f, m, e, n) ==>
              (r.Ok? <==> Lookup(Bindings(f, m, e, n), v).Some?) &&
              (r.Fail? ==> r.fault == Raised(2))
    ensures r.Ok? ==> r.val == x && Seek(f, m, v, e, n).Found? && f.IsPair(f.Tag(Seek(f, m, v, e, n).b)) &&
                      r.m == Write(m, f.Ord(Seek(f, m, v, e, n).b), x)
  {
    SeekWhenPairs(f, m, v, e, n);
    match Seek(f, m, v, e, n)
    case Found(b) => Ok(Write(m, f.Ord(b), x), x)
    case Missing => Fail(m, Raised(2))
    case Bad(_) => Fail(m, Raised(1))
  }

  lemma SeekWhenPairs(f: Flavor, m: Machine, v: Word, e: Word, n: nat)
    requires Sane(f, m) && Chain(f, m, e, n)
    ensures PairBindings(f, m, e, n) ==>
              !Seek(f, m, v, e, n).Bad? &&
              (Seek(f, m, v, e, n).Found? <==> Lookup(Bindings(f, m, e, n), v).Some?)
  {
    if PairBindings(f, m, e, n) {
      SeekIsLookup(f, m, v, e, n);
    }
  }

  /**
   * After a successful `setq` whose binding value cell the walk does not
   * read, `v` looks up to the new value and every other name to what it
   * did before.
   */
  lemma SetqThenAssoc(f: Flavor, m: Machine, v: Word, x: Word, e: Word, n: nat)
    requires f.raise && Sane(f, m) && Chain(f, m, e, n) && Points(f, m, x)
    requires Setq(f, m, v, x, e, n).Ok?
    requires f.Ord(Seek(f, m, v, e, n).b) !in Reads(f, m, e, n)
    ensures var m2 := Setq(f, m, v, x, e, n).m;
            Sane(f, m2) && Chain(f, m2, e, n) && Assoc(f, m2, v, e, n) == Val(x) &&
            forall u :: u != v ==> Assoc(f, m2, u, e, n) == Assoc(f, m, u, e, n)
  {
    var b := Seek(f, m, v, e, n).b;
    NewValueFor(f, m, v, x, e, n, b);
  }

  /** Shared by `setq` and `assign`: writing the value cell of `v`'s binding `b`. */
  lemma NewValueFor(f: Flavor, m: Machine, v: Word, x: Word, e: Word, n: nat, b: Word)
    requires Sane(f, m) && Chain(f, m, e, n) && Points(f, m, x)
    requires Seek(f, m, v, e, n) == Found(b) && f.IsPair(f.Tag(b))
    requires f.Ord(b) !in Reads(f, m, e, n)
    ensures var m2 := Write(m, f.Ord(b), x);
            Sane(f, m2) && Chain(f, m2, e, n) && Assoc(f, m2, v, e, n) == Val(x) &&
            forall u :: u != v ==> Assoc(f, m2, u, e, n) == Assoc(f, m, u, e, n)
  {
    var w := f.Ord(b);
    var m2 := Write(m, w, x);
    WriteThenAssoc(f, m, v, e, n, w, x);
    forall u | u != v
      ensures Assoc(f, m2, u, e, n) == Assoc(f, m, u, e, n)
    {
      WriteThenAssoc(f, m, u, e, n, w, x);
    }
  }

  /**
   * `assign(v,x,e)`: overwrite the value of the innermost binding of `v`.
   * The loop has no end-of-list test, so its callers pass a bound `v`; the
   * environments they pass are built by `pair`, whose binding cells are
   * pairs.
   */
  function Assign(f: Flavor, m: Machine, v: Word, x: Word, e: Word, ghost n: nat): (r: Machine)
    requires Sane(f, m) && Chain(f, m, e, n) && PairBindings(f, m, e, n)
    requires Lookup(Bindings(f, m, e, n), v).Some?
    ensures r.sp == m.sp && r.heap == m.heap && r.env == m.env && |r.cell| == |m.cell|
    ensures Seek(f, m, v, e, n).Found? && f.IsPair(f.Tag(Seek(f, m, v, e, n).b))
    ensures r == Write(m, f.Ord(Seek(f, m, v, e, n).b), x)
  {
    SeekIsLookup(f, m, v, e, n);
    SeekPair(f, m, v, e, n);
    Write(m, f.Ord(Seek(f, m, v, e, n).b), x)
  }

  /** With pair binding cells, the binding the walk stops at is a pair. */
  lemma {:induction false} SeekPair(f: Flavor, m: Machine, v: Word, e: Word, n: nat)
    requires Sane(f, m) && Chain(f, m, e, n) && PairBindings(f, m, e, n)
    ensures Seek(f, m, v, e, n).Found? ==> f.IsPair(f.Tag(Seek(f, m, v, e, n).b))
    decreases n
  {
    if f.Tag(e) == f.ConsT() {
      SeekPair(f, m, v, m.cell[f.Ord(e)], n - 1);
    }
  }

  /**
   * `assign` updates exactly the innermost binding of `v`: afterwards `v`
   * looks up to `x` and every other name to what it did before, provided the
   * overwritten value cell is not also a list or name cell of `e`.
   */
  lemma AssignThenAssoc(f: Flavor, m: Machine, v: Word, x: Word, e: Word, n: nat)
    requires Sane(f, m) && Chain(f, m, e, n) && PairBindings(f, m, e, n) && Points(f, m, x)
    requires Lookup(Bindings(f, m, e, n), v).Some?
    requires Seek(f, m, v, e, n).Found? ==> f.Ord(Seek(f, m, v, e, n).b) !in Reads(f, m, e, n)
    ensures var m2 := Assign(f, m, v, x, e, n);
            Sane(f, m2) && Chain(f, m2, e, n) && Assoc(f, m2, v, e, n) == Val(x) &&
            forall u :: u != v ==> Assoc(f, m2, u, e, n) == Assoc(f, m, u, e, n)
  {
    var r := Assign(f, m, v, x, e, n);
    NewValueFor(f, m, v, x, e, n, Seek(f, m, v, e, n).b);
  }

  /**
   * `f_setcar`: overwrite the car of a CONS (closures and macros are
   * refused here although `car` accepts them), `err(1)` otherwise.
   */
  function SetCar(f: Flavor, m: Machine, p: Word, x: Word): (r: Out)
    requires f.raise && Points(f, m, p)
    ensures r.Fail? <==> f.Tag(p) != f.ConsT()
    ensures r.Fail? ==> r.m == m && r.fault == Raised(1)
    ensures |r.m.cell| == |m.cell|
    ensures r.Ok? ==> r.val == x && Points(f, r.m, p) &&
                      Car(f, r.m, p) == Val(x) && Cdr(f, r.m, p) == Cdr(f, m, p) &&
                      forall k :: 0 <= k < |m.cell| && k != f.Ord(p) + 1 ==> r.m.cell[k] == m.cell[k]
  {
    assert f.IsPair(f.ConsT());
    if f.Tag(p) == f.ConsT() then Ok(Write(m, f.Ord(p) + 1, x), x) else Fail(m, Raised(1))
  }

  /** `f_setcdr`: overwrite the cdr of a CONS, `err(1)` otherwise. */
  function SetCdr(f: Flavor, m: Machine, p: Word, x: Word): (r: Out)
    requires f.raise && Points(f, m, p)
    ensures r.Fail? <==> f.Tag(p) != f.ConsT()
    ensures r.Fail? ==> r.m == m && r.fault == Raised(1)
    ensures |r.m.cell| == |m.cell|
    ensures r.Ok? ==> r.val == x && Points(f, r.m, p) &&
                      Cdr(f, r.m, p) == Val(x) && Car(f, r.m, p) == Car(f, m, p) &&
                      forall k :: 0 <= k < |m.cell| && k != f.Ord(p) ==> r.m.cell[k] == m.cell[k]
  {
    assert f.IsPair(f.ConsT());
    if f.Tag(p) == f.ConsT() then Ok(Write(m, f.Ord(p), x), x) else Fail(m, Raised(1))
  }
}
