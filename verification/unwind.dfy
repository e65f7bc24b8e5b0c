/**
 * `err` of `proto/tinylisp-extras-gc.c` on the pool: before it longjmps
 * to the `catch`, it pops every registration above `xb` and releases with
 * `gc` what each popped variable holds. A `gc` that raises in turn (a
 * double free is `err(4)`) runs the same loop over what is left and
 * longjmps with its own code.
 *
 * Also the frame of `eval`: its five registered locals, and the step
 * `g = f; f = eval(car(x),e)` that evaluates the operator of an
 * application.
 */
module RcUnwind {
  import B = Boxing
  import opened Owners
  import opened RcBits
  import opened RcPool
  import RcCollect
  import Exceptions

  /** Where `err` ends: the pool when the loop is over, and the code `longjmp` carries. */
  datatype Thrown = Thrown(run: Run<Pool>, code: nat)

  predicate AllPointing(n: nat, vals: seq<Word>)
  {
    forall k :: 0 <= k < |vals| ==> Points(true, n, vals[k])
  }

  /**
   * The loop of `err` over the values the popped variables hold, in the
   * order they are popped. A raise inside `gc` goes on with the rest and
   * takes over the code; running out of fuel or meeting a stray word ends
   * the model of the loop.
   */
  function Release(p: Pool, vals: seq<Word>, code: nat, fuel: nat): (t: Thrown)
    requires Shape(p) && AllPoint(true, p.cell) && AllPointing(|p.cell|, vals)
    ensures Shape(t.run.p) && t.run.p.cell == p.cell
    ensures vals == [] ==> t == Thrown(Done(p), code)
    decreases |vals|
  {
    if vals == [] then Thrown(Done(p), code)
    else
      var r := RcCollect.Gc(p, vals[0], fuel);
      if r.Done? then Release(r.p, vals[1..], code, fuel)
      else if r.Raise? then Release(r.p, vals[1..], r.code, fuel)
      else Thrown(r, code)
  }

  /** The references a sequence of values holds. */
  function Held(vals: seq<Word>): (m: multiset<nat>)
  {
    if vals == [] then multiset{} else Ref(true, vals[0]) + Held(vals[1..])
  }

  /** Held references do not depend on the order of the values: read backwards they are the same. */
  lemma {:induction false} HeldReverse(a: seq<Word>, b: seq<Word>)
    requires |b| == |a| && forall k :: 0 <= k < |b| ==> b[k] == a[|a| - 1 - k]
    ensures Held(b) == Held(a)
    decreases |a|
  {
    if a != [] {
      var n := |a|;
      HeldReverse(a[..n - 1], b[1..]);
      HeldSplit(a[..n - 1], [a[n - 1]]);
      assert a == a[..n - 1] + [a[n - 1]];
      assert Held([a[n - 1]]) == Ref(true, a[n - 1]) by {
        assert [a[n - 1]][1..] == [];
      }
    }
  }

  lemma {:induction false} HeldSplit(a: seq<Word>, b: seq<Word>)
    ensures Held(a + b) == Held(a) + Held(b)
    decreases |a|
  {
    if a != [] {
      assert (a + b)[0] == a[0] && (a + b)[1..] == a[1..] + b;
      HeldSplit(a[1..], b);
      calc {
        Held(a + b);
        Ref(true, a[0]) + Held(a[1..] + b);
        Ref(true, a[0]) + (Held(a[1..]) + Held(b));
        (Ref(true, a[0]) + Held(a[1..])) + Held(b);
      }
    } else {
      assert a + b == b;
    }
  }

  /**
   * On a quiet pool whose invariant counts the references `vals` holds as
   * roots, the loop of `err` releases exactly those: it raises nothing,
   * keeps the code, and leaves the invariant with only the other roots.
   */
  lemma {:induction false} ReleaseExact(p: Pool, fs: seq<nat>, rest: multiset<nat>, vals: seq<Word>, code: nat, fuel: nat)
    returns (q: Pool, fs2: seq<nat>)
    requires Inv(p, fs, rest + Held(vals)) && RcCollect.Quiet(p, fs)
    requires forall k :: 0 <= k < |vals| ==> Proper(|p.cell|, vals[k])
    requires fuel > |Used(|p.cell|, fs)|
    ensures AllPoint(true, p.cell) && AllPointing(|p.cell|, vals)
    ensures Release(p, vals, code, fuel) == Thrown(Done(q), code)
    ensures Inv(q, fs2, rest) && RcCollect.Quiet(q, fs2)
    decreases |vals|
  {
    ProperPoints(p.cell);
    forall k | 0 <= k < |vals|
      ensures Points(true, |p.cell|, vals[k])
    {
      assert Proper(|p.cell|, vals[k]);
    }
    if vals == [] {
      assert rest + Held(vals) == rest;
      q, fs2 := p, fs;
    } else {
      assert rest + Held(vals) == rest + Held(vals[1..]) + Ref(true, vals[0]);
      var p1, fs1 := RcCollect.QuietGc(p, fs, rest + Held(vals[1..]), vals[0], fuel);
      q, fs2 := ReleaseExact(p1, fs1, rest, vals[1..], code, fuel);
    }
  }

  /** What the variables hold: `store[v]` for each variable `v` of `vs`. */
  function Values(store: seq<Word>, vs: seq<nat>): (vals: seq<Word>)
    requires forall k :: 0 <= k < |vs| ==> vs[k] < |store|
    ensures |vals| == |vs| && forall k :: 0 <= k < |vs| ==> vals[k] == store[vs[k]]
  {
    seq(|vs|, k requires 0 <= k < |vs| => store[vs[k]])
  }

  /**
   * `err` inside a `catch`: when the registrations above `xb` hold one
   * counted reference each, the unwind releases exactly those references,
   * leaves `xp == xb`, and the code reaches the `catch` unchanged.
   */
  lemma ErrReleasesPending(p: Pool, fs: seq<nat>, rest: multiset<nat>, r: Exceptions.Registry, store: seq<Word>,
                           code: nat, fuel: nat)
    returns (q: Pool, fs2: seq<nat>)
    requires Exceptions.Valid(r) && forall k :: 0 <= k < |r.slots| ==> r.slots[k] < |store|
    requires Inv(p, fs, rest + Held(Values(store, Exceptions.Pending(r)))) && RcCollect.Quiet(p, fs)
    requires forall v :: 0 <= v < |store| ==> Proper(|p.cell|, store[v])
    requires fuel > |Used(|p.cell|, fs)|
    ensures var u := Exceptions.Unwind(r);
            u.0.slots == r.slots[..r.base] &&
            AllPoint(true, p.cell) && AllPointing(|p.cell|, Values(store, u.1)) &&
            Release(p, Values(store, u.1), code, fuel) == Thrown(Done(q), code) &&
            Inv(q, fs2, rest) && RcCollect.Quiet(q, fs2)
  {
    var u := Exceptions.Unwind(r);
    var pend := Exceptions.Pending(r);
    forall k | 0 <= k < |pend|
      ensures pend[k] < |store|
    {
      assert pend[k] == r.slots[r.base + k];
    }
    var a := Values(store, pend);
    var b := Values(store, u.1);
    HeldReverse(a, b);
    q, fs2 := ReleaseExact(p, fs, rest, b, code, fuel);
  }

  /** The five locals of `eval`, stored at the numbers `Exceptions.Locals` gives them. */
  datatype Frame = Frame(d: Word, e: Word, f: Word, g: Word, h: Word)

  function Store(fr: Frame): (s: seq<Word>)
    ensures |s| == 5 && Values(s, Exceptions.Locals) == s
  {
    [fr.d, fr.e, fr.f, fr.g, fr.h]
  }

  /**
   * The frame as `eval` has it while evaluating the operator: the locals
   * after `g = f`, with `f` still holding the previous operator (the
   * assignment of `eval`'s result comes after the call returns).
   */
  function OperatorAsWritten(fr: Frame): (fr2: Frame)
    ensures fr2.g == fr.f && fr2.f == fr.f
    ensures Held(Store(fr2)) == Held(Store(fr)) - Ref(true, fr.g) + Ref(true, fr.f)
  {
    HeldStore(fr);
    HeldStore(fr.(g := fr.f));
    fr.(g := fr.f)
  }

  /**
   * The step as evidently intended: `g` takes over the reference `f`
   * held, and `f` holds nothing until the new operator is assigned.
   */
  function Operator(fr: Frame): (fr2: Frame)
    ensures fr2.g == fr.f && !Pair(fr2.f)
    ensures !Pair(fr.g) ==> Held(Store(fr2)) == Held(Store(fr))
  {
    HeldStore(fr);
    HeldStore(fr.(g := fr.f, f := Nil));
    fr.(g := fr.f, f := Nil)
  }

  lemma HeldStore(fr: Frame)
    ensures Held(Store(fr)) == Ref(true, fr.d) + Ref(true, fr.e) + Ref(true, fr.f) + Ref(true, fr.g) + Ref(true, fr.h)
  {
    var s := Store(fr);
    assert s[4..][1..] == [];
    assert Held(s[4..]) == Ref(true, fr.h);
    assert s[3..][1..] == s[4..];
    assert Held(s[3..]) == Ref(true, fr.g) + Ref(true, fr.h);
    assert s[2..][1..] == s[3..];
    assert Held(s[2..]) == Ref(true, fr.f) + Ref(true, fr.g) + Ref(true, fr.h);
    assert s[1..][1..] == s[2..];
    assert Held(s[1..]) == Ref(true, fr.e) + Ref(true, fr.f) + Ref(true, fr.g) + Ref(true, fr.h);
  }

  /**
   * With the intended step an error raised by the operator's evaluation
   * releases exactly the references the frame owns: the count of every
   * pair comes out right and the error code reaches the `catch`.
   */
  lemma OperatorReleasesExactly(p: Pool, fs: seq<nat>, rest: multiset<nat>, fr: Frame, code: nat, fuel: nat)
    returns (q: Pool, fs2: seq<nat>)
    requires Inv(p, fs, rest + Held(Store(fr))) && RcCollect.Quiet(p, fs) && !Pair(fr.g)
    requires forall v :: 0 <= v < 5 ==> Proper(|p.cell|, Store(fr)[v])
    requires fuel > |Used(|p.cell|, fs)|
    ensures var r := Exceptions.Registry(true, 0, Exceptions.Locals);
            var s := Store(Operator(fr));
            AllPoint(true, p.cell) && AllPointing(|p.cell|, Values(s, Exceptions.Unwind(r).1)) &&
            Release(p, Values(s, Exceptions.Unwind(r).1), code, fuel) == Thrown(Done(q), code) &&
            Inv(q, fs2, rest)
  {
    var r := Exceptions.Registry(true, 0, Exceptions.Locals);
    var fr2 := Operator(fr);
    var s := Store(fr2);
    assert Exceptions.Pending(r) == Exceptions.Locals;
    assert Held(Values(s, Exceptions.Pending(r))) == Held(Store(fr));
    forall v | 0 <= v < 5
      ensures Proper(|p.cell|, s[v])
    {
      if v != 2 && v != 3 {
        assert s[v] == Store(fr)[v];
      } else if v == 3 {
        assert s[v] == Store(fr)[2];
      }
    }
    q, fs2 := ErrReleasesPending(p, fs, rest, r, s, code, fuel);
  }

  /** A pool of one pair (at 2), a closure held once, whose slots hold `()`. */
  const Nil: Word := B.Box(B.NIL, 0)
  const Closure: Word := B.Box(B.CLOS, 2)
  const OnePair: Pool := Pool([0, 0, Nil, Nil], [0, 0, 1, 0], [0, 0, 0, 0], [], 0, 2, 1)

  /** The frame of `eval` after `g = f` with `f` holding that closure, the other locals `()`. */
  const Caller: Frame := Frame(Nil, Nil, Closure, Nil, Nil)

  /** The order `err` pops one frame's locals in. */
  const Popped: seq<nat> := [Exceptions.H, Exceptions.G, Exceptions.F, Exceptions.E, Exceptions.D]

  /**
   * As written, an error raised while evaluating the operator (as in
   * `(catch ((lambda () ((car 1)))))`, whose inner `(car 1)` raises
   * `err(1)`) pops `h`, then `g`, which frees the closure, then `f`, which
   * holds the same closure: `collect` meets its FREE mark and raises
   * `err(4)`, so the `catch` rethrows out of memory instead of returning
   * `(ERR . 1)`. With the intended step the same error comes through as
   * code 1.
   */
  lemma OperatorAsWrittenFreesTwice()
    ensures Inv(OnePair, [], Ref(true, Closure))
    ensures Exceptions.Unwind(Exceptions.Registry(true, 0, Exceptions.Locals)).1 == Popped
    ensures Values(Store(OperatorAsWritten(Caller)), Popped) == [Nil, Closure, Closure, Nil, Nil]
    ensures Values(Store(Operator(Caller)), Popped) == [Nil, Closure, Nil, Nil, Nil]
    ensures Release(OnePair, [Nil, Closure, Closure, Nil, Nil], 1, 3).code == OOM
    ensures Release(OnePair, [Nil, Closure, Nil, Nil, Nil], 1, 3) == Thrown(Done(Reclaim(OnePair, 2)), 1)
  {
    OnePairInv();
    UnwindLocals();
    PoppedValues();
    GcTwice();
    ReleaseAsWritten();
    ReleaseIntended();
  }

  /** What the popped locals hold, in popping order, for either step. */
  lemma PoppedValues()
    ensures Values(Store(OperatorAsWritten(Caller)), Popped) == [Nil, Closure, Closure, Nil, Nil]
    ensures Values(Store(Operator(Caller)), Popped) == [Nil, Closure, Nil, Nil, Nil]
  {
  }

  lemma ReleaseAsWritten()
    requires RcCollect.Gc(OnePair, Closure, 3) == Done(Reclaim(OnePair, 2))
    requires RcCollect.Gc(Reclaim(OnePair, 2), Closure, 3) == Raise(Reclaim(OnePair, 2), OOM)
    ensures Release(OnePair, [Nil, Closure, Closure, Nil, Nil], 1, 3) == Thrown(Done(Reclaim(OnePair, 2)), OOM)
  {
    var freed := Reclaim(OnePair, 2);
    assert Release(freed, [Nil], OOM, 3) == Thrown(Done(freed), OOM) by {
      assert [Nil][1..] == [];
    }
    assert Release(freed, [Nil, Nil], OOM, 3) == Thrown(Done(freed), OOM) by {
      assert [Nil, Nil][1..] == [Nil];
    }
    assert Release(freed, [Closure, Nil, Nil], 1, 3) == Thrown(Done(freed), OOM) by {
      assert [Closure, Nil, Nil][1..] == [Nil, Nil];
    }
    assert Release(OnePair, [Closure, Closure, Nil, Nil], 1, 3) == Thrown(Done(freed), OOM) by {
      assert [Closure, Closure, Nil, Nil][1..] == [Closure, Nil, Nil];
    }
    assert [Nil, Closure, Closure, Nil, Nil][1..] == [Closure, Closure, Nil, Nil];
  }

  lemma ReleaseIntended()
    requires RcCollect.Gc(OnePair, Closure, 3) == Done(Reclaim(OnePair, 2))
    ensures Release(OnePair, [Nil, Closure, Nil, Nil, Nil], 1, 3) == Thrown(Done(Reclaim(OnePair, 2)), 1)
  {
    var freed := Reclaim(OnePair, 2);
    assert Release(freed, [Nil], 1, 3) == Thrown(Done(freed), 1) by {
      assert [Nil][1..] == [];
    }
    assert Release(freed, [Nil, Nil], 1, 3) == Thrown(Done(freed), 1) by {
      assert [Nil, Nil][1..] == [Nil];
    }
    assert Release(freed, [Nil, Nil, Nil], 1, 3) == Thrown(Done(freed), 1) by {
      assert [Nil, Nil, Nil][1..] == [Nil, Nil];
    }
    assert Release(OnePair, [Closure, Nil, Nil, Nil], 1, 3) == Thrown(Done(freed), 1) by {
      assert [Closure, Nil, Nil, Nil][1..] == [Nil, Nil, Nil];
    }
    assert [Nil, Closure, Nil, Nil, Nil][1..] == [Closure, Nil, Nil, Nil];
  }

  /** In that pool the frame holds the closure's one counted reference. */
  lemma OnePairInv()
    ensures Inv(OnePair, [], Ref(true, Closure))
  {
    var p := OnePair;
    assert Used(4, []) == {2};
    assert Refs(true, p.cell, {2}, 2, 4) == 0;
    assert Refs(true, p.cell, {2}, 2, 3) == 0;
    assert Refs(true, p.cell, {2}, 2, 2) == 0;
    assert Refs(true, p.cell, {2}, 2, 1) == 0;
    assert Refs(true, p.cell, {2}, 2, 0) == 0;
  }

  /** `err` pops the five locals of one `eval` frame last registered first. */
  lemma UnwindLocals()
    ensures Exceptions.Unwind(Exceptions.Registry(true, 0, Exceptions.Locals)).1 == Popped
  {
    var r := Exceptions.Registry(true, 0, Exceptions.Locals);
    assert r.slots[..4] == [0, 1, 2, 3];
    assert r.slots[..4][..3] == [0, 1, 2];
    assert r.slots[..4][..3][..2] == [0, 1];
    assert r.slots[..4][..3][..2][..1] == [0];
    assert r.slots[..4][..3][..2][..1][..0] == [];
  }

  /** The first `gc` of the closure frees it; the second meets its FREE mark and raises `err(4)`. */
  lemma GcTwice()
    ensures RcCollect.Gc(OnePair, Closure, 3) == Done(Reclaim(OnePair, 2))
    ensures RcCollect.Gc(Reclaim(OnePair, 2), Closure, 3) == Raise(Reclaim(OnePair, 2), OOM)
  {
    var p := OnePair;
    assert B.Ord(Closure) == 2 && RcPool.Pair(Closure) && !RcPool.Pair(Nil);
    assert RcCollect.Release(Reclaim(p, 2), Nil, Nil, 2) == Done(Reclaim(p, 2));
  }
}
