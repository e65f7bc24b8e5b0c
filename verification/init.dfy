/**
 * `init_tinylisp` of tinylisp-tested.c: reset the heap and stack pointers,
 * intern `ERR` and `#t`, and build the global environment as `#t` bound to
 * itself followed by one binding per primitive, each new binding in front.
 * The cell array is not cleared.
 */
module StackInit {
  import opened StackPool
  import opened StackEnv
  import opened StackLive
  import AtomHeap

  /** The names of the primitive table, in table order. */
  const PrimNames: seq<string> :=
    ["eval", "quote", "cons", "car", "cdr", "+", "-", "*", "/", "int",
     "<", "eq?", "or", "and", "not", "cond", "if", "let*", "lambda", "define"]

  predicate NamesOk()
  {
    forall i :: 0 <= i < |PrimNames| ==> AtomHeap.NoNul(PrimNames[i])
  }

  lemma PrimNamesOk()
    ensures NamesOk() && |PrimNames| == 20
  {
  }

  /**
   * The reset: `hp = 0`, `sp = N`, then `ERR` (so it sits at offset 0),
   * `#t`, the pair `(#t . #t)` on nil, and the primitives.
   */
  function Init(f: Flavor, m: Machine): (r: Out)
    requires |m.cell| <= f.MaxCells()
    ensures Shape(f, r.m) && |r.m.cell| == |m.cell|
    ensures r.Fail? ==> r.fault == f.Full() || r.fault == Overrun
    ensures r.Ok? ==> r.val == r.m.env && r.m.sp + 4 * (|PrimNames| + 1) == |m.cell| &&
                      0 in AtomHeap.Starts(r.m.heap, 0) && AtomHeap.NameAt(r.m.heap, 0) == "ERR"
  {
    PrimNamesOk();
    var s := InitStart(f, m);
    if s.Fail? then s
    else
      var m1 := s.m.(env := s.val);
      var r := Prims(f, m1, 0);
      AtomHeap.PrefixKeeps(m1.heap, r.m.heap);
      r
  }

  /** Everything before the primitive loop: the reset, `ERR`, `#t` and the first binding `(#t . #t)`. */
  function InitStart(f: Flavor, m: Machine): (r: Out)
    requires |m.cell| <= f.MaxCells()
    ensures Shape(f, r.m) && |r.m.cell| == |m.cell|
    ensures r.Fail? ==> r.fault == f.Full() || r.fault == Overrun
    ensures r.Ok? ==> |r.m.heap| <= Room(f, r.m) && r.m.sp + 4 == |m.cell| && |r.m.heap| > 0 &&
                      0 in AtomHeap.Starts(r.m.heap, 0) && AtomHeap.NameAt(r.m.heap, 0) == "ERR"
  {
    var m0 := m.(sp := |m.cell|, heap := []);
    var a := Atom(f, m0, "ERR");
    if a.Fail? then a
    else
      var t := Atom(f, a.m, "#t");
      if t.Fail? then t
      else
        AtomHeap.PrefixKeeps(a.m.heap, t.m.heap);
        Pair(f, t.m, t.val, t.val, f.Nil())
  }

  /** The primitive loop from entry `i` on. */
  function Prims(f: Flavor, m: Machine, i: nat): (r: Out)
    requires Shape(f, m) && |m.heap| <= Room(f, m) && i <= |PrimNames| && NamesOk()
    ensures Shape(f, r.m) && |r.m.cell| == |m.cell| && m.heap <= r.m.heap
    ensures r.Fail? ==> r.fault == f.Full() || r.fault == Overrun
    ensures r.Ok? ==> r.val == r.m.env && r.m.sp + 4 * (|PrimNames| - i) == m.sp
    decreases |PrimNames| - i
  {
    if i == |PrimNames| then Ok(m, m.env)
    else
      var p := PrimEntry(f, m, i);
      if p.Fail? then p else Prims(f, p.m.(env := p.val), i + 1)
  }

  /** One entry of the primitive loop: `pair(atom(name), box(PRIM,i), env)`. */
  function PrimEntry(f: Flavor, m: Machine, i: nat): (r: Out)
    requires Shape(f, m) && |m.heap| <= Room(f, m) && i < |PrimNames| && NamesOk()
    ensures Shape(f, r.m) && |r.m.cell| == |m.cell| && m.heap <= r.m.heap
    ensures r.Fail? ==> r.fault == f.Full() || r.fault == Overrun
    ensures r.Ok? ==> |r.m.heap| <= Room(f, r.m) && r.m.sp + 4 == m.sp
  {
    var a := Atom(f, m, PrimNames[i]);
    if a.Fail? then a else Pair(f, a.m, a.val, f.Box(f.PrimT(), i), m.env)
  }

  /** Every name interned before the heap grew keeps its offset and spelling. */
  predicate Keeps(h: seq<char>, h2: seq<char>)
    requires AtomHeap.Terminated(h) && AtomHeap.Terminated(h2)
  {
    AtomHeap.Starts(h, 0) <= AtomHeap.Starts(h2, 0) &&
    forall a :: a in AtomHeap.Starts(h, 0) ==> AtomHeap.NameAt(h2, a) == AtomHeap.NameAt(h, a)
  }

  /** `atom` only appends: every existing name keeps its offset and spelling. */
  lemma AtomGrows(f: Flavor, m: Machine, s: string)
    requires Shape(f, m) && |m.heap| <= Room(f, m) && AtomHeap.NoNul(s)
    ensures Keeps(m.heap, Atom(f, m, s).m.heap)
  {
    AtomHeap.PrefixKeeps(m.heap, Atom(f, m, s).m.heap);
  }
}

/**
 * Properties of `init_tinylisp`: it does not depend on what the cells held
 * before (so calling it again gives the same state), and the environment it
 * builds binds every primitive name to its PRIM word, the last entry first,
 * then `#t` to itself.
 */
module StackInitProps {
  import opened StackPool
  import opened StackEnv
  import opened StackLive
  import opened StackInit
  import opened StackGc
  import AtomHeap

  /** Two pools that differ at most in their dead cells (below `sp`). */
  predicate Alike(m1: Machine, m2: Machine)
  {
    |m1.cell| == |m2.cell| && m1.sp == m2.sp && m1.heap == m2.heap &&
    forall k :: m1.sp <= k < |m1.cell| ==> m1.cell[k] == m2.cell[k]
  }

  /** Two outcomes that agree in everything but dead cells and the untouched old environment. */
  predicate OutAlike(r1: Out, r2: Out)
  {
    r1.Ok? == r2.Ok? && Alike(r1.m, r2.m) &&
    (r1.Ok? ==> r1.val == r2.val) && (r1.Fail? ==> r1.fault == r2.fault)
  }

  lemma ConsAlike(f: Flavor, m1: Machine, m2: Machine, x: Word, y: Word)
    requires Shape(f, m1) && Shape(f, m2) && Alike(m1, m2)
    ensures OutAlike(Cons(f, m1, x, y), Cons(f, m2, x, y))
  {
  }

  lemma PairAlike(f: Flavor, m1: Machine, m2: Machine, v: Word, x: Word, e: Word)
    requires Shape(f, m1) && Shape(f, m2) && Alike(m1, m2)
    ensures OutAlike(Pair(f, m1, v, x, e), Pair(f, m2, v, x, e))
  {
    ConsAlike(f, m1, m2, v, x);
    var r1 := Cons(f, m1, v, x);
    var r2 := Cons(f, m2, v, x);
    if r1.Ok? {
      ConsAlike(f, r1.m, r2.m, r1.val, e);
    }
  }

  lemma AtomAlike(f: Flavor, m1: Machine, m2: Machine, name: string)
    requires Shape(f, m1) && |m1.heap| <= Room(f, m1) && AtomHeap.NoNul(name)
    requires Shape(f, m2) && |m2.heap| <= Room(f, m2) && Alike(m1, m2)
    ensures OutAlike(Atom(f, m1, name), Atom(f, m2, name))
  {
  }

  lemma PrimEntryAlike(f: Flavor, m1: Machine, m2: Machine, i: nat)
    requires Shape(f, m1) && |m1.heap| <= Room(f, m1) && i < |PrimNames| && NamesOk()
    requires Shape(f, m2) && |m2.heap| <= Room(f, m2)
    requires Alike(m1, m2) && m1.env == m2.env
    ensures OutAlike(PrimEntry(f, m1, i), PrimEntry(f, m2, i))
  {
    AtomAlike(f, m1, m2, PrimNames[i]);
    var a1 := Atom(f, m1, PrimNames[i]);
    var a2 := Atom(f, m2, PrimNames[i]);
    if a1.Ok? {
      PairAlike(f, a1.m, a2.m, a1.val, f.Box(f.PrimT(), i), m1.env);
    }
  }

  /** One turn of the primitive loop: an entry, then the rest unless it failed. */
  lemma PrimsOpen(f: Flavor, m: Machine, i: nat) returns (p: Out)
    requires Shape(f, m) && |m.heap| <= Room(f, m) && i < |PrimNames| && NamesOk()
    ensures p == PrimEntry(f, m, i)
    ensures p.Fail? ==> Prims(f, m, i) == p
    ensures p.Ok? ==> Prims(f, m, i) == Prims(f, p.m.(env := p.val), i + 1)
  {
    p := PrimEntry(f, m, i);
  }

  /** Both pools ready for the primitive loop at entry `i`, alike and with the same environment. */
  predicate Twins(f: Flavor, m1: Machine, m2: Machine, i: nat)
  {
    Shape(f, m1) && |m1.heap| <= Room(f, m1) && Shape(f, m2) && |m2.heap| <= Room(f, m2) &&
    i <= |PrimNames| && Alike(m1, m2) && m1.env == m2.env
  }

  /** One turn of the loop on both pools: they fail alike, or go on alike. */
  lemma PrimsStepAlike(f: Flavor, m1: Machine, m2: Machine, i: nat) returns (go: bool, n1: Machine, n2: Machine)
    requires Twins(f, m1, m2, i) && i < |PrimNames| && NamesOk()
    ensures !go ==> OutAlike(Prims(f, m1, i), Prims(f, m2, i))
    ensures go ==> Twins(f, n1, n2, i + 1) && Prims(f, m1, i) == Prims(f, n1, i + 1) && Prims(f, m2, i) == Prims(f, n2, i + 1)
  {
    PrimEntryAlike(f, m1, m2, i);
    var p1 := PrimsOpen(f, m1, i);
    var p2 := PrimsOpen(f, m2, i);
    go := p1.Ok?;
    if go {
      n1 := p1.m.(env := p1.val);
      n2 := p2.m.(env := p2.val);
    } else {
      n1, n2 := m1, m2;
    }
  }

  lemma {:induction false} PrimsAlike(f: Flavor, m1: Machine, m2: Machine, i: nat)
    requires Twins(f, m1, m2, i) && NamesOk()
    ensures OutAlike(Prims(f, m1, i), Prims(f, m2, i))
    decreases |PrimNames| - i
  {
    if i < |PrimNames| {
      var go, n1, n2 := PrimsStepAlike(f, m1, m2, i);
      if go {
        PrimsAlike(f, n1, n2, i + 1);
      }
    }
  }

  lemma InitStartAlike(f: Flavor, m1: Machine, m2: Machine)
    requires |m1.cell| == |m2.cell| <= f.MaxCells()
    ensures OutAlike(InitStart(f, m1), InitStart(f, m2))
  {
    var n1 := m1.(sp := |m1.cell|, heap := []);
    var n2 := m2.(sp := |m2.cell|, heap := []);
    AtomAlike(f, n1, n2, "ERR");
    var a1 := Atom(f, n1, "ERR");
    var a2 := Atom(f, n2, "ERR");
    if a1.Ok? {
      AtomAlike(f, a1.m, a2.m, "#t");
      var t1 := Atom(f, a1.m, "#t");
      var t2 := Atom(f, a2.m, "#t");
      if t1.Ok? {
        PairAlike(f, t1.m, t2.m, t1.val, t1.val, f.Nil());
      }
    }
  }

  /**
   * `init_tinylisp` ignores the old cells, stack pointer, heap and
   * environment: any two pools of the same size end in the same state up to
   * dead cells, and so does a second call after a first.
   */
  lemma InitAlike(f: Flavor, m1: Machine, m2: Machine)
    requires |m1.cell| == |m2.cell| <= f.MaxCells()
    ensures OutAlike(Init(f, m1), Init(f, m2))
    ensures Init(f, m1).Ok? ==> Init(f, m1).m.env == Init(f, m2).m.env
  {
    var go, n1, n2 := StartTwins(f, m1, m2);
    if go {
      PrimsAlike(f, n1, n2, 0);
    }
  }

  /** The reset on both pools: they fail alike, or reach the primitive loop alike. */
  lemma StartTwins(f: Flavor, m1: Machine, m2: Machine) returns (go: bool, n1: Machine, n2: Machine)
    requires |m1.cell| == |m2.cell| <= f.MaxCells()
    ensures NamesOk()
    ensures !go ==> OutAlike(Init(f, m1), Init(f, m2)) && Init(f, m1).Fail?
    ensures go ==> Twins(f, n1, n2, 0) && Init(f, m1) == Prims(f, n1, 0) && Init(f, m2) == Prims(f, n2, 0)
  {
    PrimNamesOk();
    InitStartAlike(f, m1, m2);
    var s1 := InitStart(f, m1);
    var s2 := InitStart(f, m2);
    go := s1.Ok?;
    if go {
      n1 := s1.m.(env := s1.val);
      n2 := s2.m.(env := s2.val);
    } else {
      n1, n2 := m1, m2;
    }
  }

  /** Calling `init_tinylisp` twice gives the state one call gives. */
  lemma InitTwice(f: Flavor, m: Machine)
    requires |m.cell| <= f.MaxCells()
    ensures |Init(f, m).m.cell| == |m.cell|
    ensures OutAlike(Init(f, Init(f, m).m), Init(f, m))
  {
    InitAlike(f, Init(f, m).m, m);
  }

  /**
   * The bindings `init_tinylisp` leaves in `env` (the first `i` primitives
   * entered): entry `j` binds the atom named `names[i-1-j]` to
   * `box(PRIM, i-1-j)`, and the last entry binds the atom `#t` to itself.
   */
  predicate PrimEnv(f: Flavor, names: seq<string>, h: seq<char>, bs: seq<Binding>, i: nat)
    requires AtomHeap.Terminated(h) && i <= |names| < f.OrdLimit()
  {
    |bs| == i + 1 &&
    NamedAtom(f, h, bs[i].name, "#t") && bs[i].value == bs[i].name &&
    forall j :: 0 <= j < i ==>
      NamedAtom(f, h, bs[j].name, names[i - 1 - j]) && bs[j].value == f.Box(f.PrimT(), i - 1 - j)
  }

  /** `w` is the atom whose name in `h` is `s`. */
  predicate NamedAtom(f: Flavor, h: seq<char>, w: Word, s: string)
    requires AtomHeap.Terminated(h)
  {
    f.Tag(w) == f.AtomT() && f.Ord(w) in AtomHeap.Starts(h, 0) && AtomHeap.NameAt(h, f.Ord(w)) == s
  }

  lemma PrimEnvGrow(f: Flavor, names: seq<string>, h: seq<char>, h2: seq<char>, bs: seq<Binding>, i: nat)
    requires AtomHeap.Terminated(h) && AtomHeap.Terminated(h2) && i <= |names| < f.OrdLimit()
    requires Keeps(h, h2)
    requires PrimEnv(f, names, h, bs, i)
    ensures PrimEnv(f, names, h2, bs, i)
  {
    assert NamedAtom(f, h, bs[i].name, "#t");
    forall j | 0 <= j < i
      ensures NamedAtom(f, h2, bs[j].name, names[i - 1 - j])
    {
      assert NamedAtom(f, h, bs[j].name, names[i - 1 - j]);
    }
  }

  lemma PrimEnvPush(f: Flavor, names: seq<string>, h: seq<char>, bs: seq<Binding>, i: nat, a: Word)
    requires AtomHeap.Terminated(h) && i < |names| < f.OrdLimit()
    requires PrimEnv(f, names, h, bs, i) && NamedAtom(f, h, a, names[i])
    ensures PrimEnv(f, names, h, [Binding(a, f.Box(f.PrimT(), i))] + bs, i + 1)
  {
    var bs2 := [Binding(a, f.Box(f.PrimT(), i))] + bs;
    forall j | 0 <= j < i + 1
      ensures NamedAtom(f, h, bs2[j].name, names[i - j]) && bs2[j].value == f.Box(f.PrimT(), i - j)
    {
      if j > 0 {
        assert bs2[j] == bs[j - 1];
      }
    }
  }

  /**
   * A pool ready for the next binding: well shaped, room for the atom heap,
   * every cell and every live cell pointing inside, and `env` a live chain
   * of `n` bindings.
   */
  ghost predicate Ready(f: Flavor, m: Machine, n: nat)
  {
    match m
    case Machine(_, _, _, env) =>
      Shape(f, m) && |m.heap| <= Room(f, m) && Sane(f, m) && Closed(f, m) && Above(f, m, env) && Chain(f, m, env, n)
  }

  /** `atom` leaves a live environment as it was and returns the atom naming `s`. */
  lemma AtomLive(f: Flavor, m: Machine, s: string, a: Out, n: nat)
    requires Shape(f, m) && |m.heap| <= Room(f, m) && AtomHeap.NoNul(s)
    requires Sane(f, m) && Closed(f, m) && Above(f, m, m.env) && Chain(f, m, m.env, n)
    requires a == Atom(f, m, s) && a.Ok?
    ensures a.m.env == m.env && Shape(f, a.m) && |a.m.heap| <= Room(f, a.m)
    ensures Sane(f, a.m) && Closed(f, a.m) && Above(f, a.m, m.env) && Above(f, a.m, a.val)
    ensures Chain(f, a.m, m.env, n) && Bindings(f, a.m, m.env, n) == Bindings(f, m, m.env, n)
    ensures NamedAtom(f, a.m.heap, a.val, s)
    ensures Keeps(m.heap, a.m.heap)
  {
    AtomGrows(f, m, s);
    SameCells(f, m, a.m, m.env, n);
    assert f.Tag(a.val) == f.AtomT();
  }

  /** A successful entry of the primitive loop is `atom` and then `pair`. */
  lemma PrimEntryOpen(f: Flavor, m: Machine, i: nat) returns (a: Out)
    requires Shape(f, m) && |m.heap| <= Room(f, m) && i < |PrimNames| && NamesOk()
    requires PrimEntry(f, m, i).Ok?
    ensures a == Atom(f, m, PrimNames[i]) && a.Ok?
    ensures PrimEntry(f, m, i) == Pair(f, a.m, a.val, f.Box(f.PrimT(), i), m.env)
  {
    a := Atom(f, m, PrimNames[i]);
  }

  /** What one entry of the primitive loop does to a live, decoded environment. */
  lemma PrimStep(f: Flavor, m: Machine, i: nat) returns (m2: Machine)
    requires Ready(f, m, i + 1) && i < |PrimNames| && NamesOk()
    requires PrimEnv(f, PrimNames, m.heap, Bindings(f, m, m.env, i + 1), i)
    requires PrimEntry(f, m, i).Ok?
    ensures m2 == PrimEntry(f, m, i).m.(env := PrimEntry(f, m, i).val)
    ensures Ready(f, m2, i + 2)
    ensures PrimEnv(f, PrimNames, m2.heap, Bindings(f, m2, m2.env, i + 2), i + 1)
  {
    var a := PrimEntryOpen(f, m, i);
    m2 := EnvStep(f, PrimNames[i], m, i, a, PrimEntry(f, m, i));
    PrimEnvNext(f, PrimNames, m.heap, m2.heap, Bindings(f, m, m.env, i + 1), i, a.val);
  }

  /** One entry binding the atom named `s` to `box(PRIM, i)` on a live environment of `i + 1` bindings. */
  lemma EnvStep(f: Flavor, s: string, m: Machine, i: nat, a: Out, p: Out) returns (m2: Machine)
    requires Ready(f, m, i + 1) && i < f.OrdLimit() && AtomHeap.NoNul(s)
    requires a == Atom(f, m, s) && a.Ok?
    requires p == Pair(f, a.m, a.val, f.Box(f.PrimT(), i), m.env) && p.Ok?
    ensures m2 == p.m.(env := p.val)
    ensures Ready(f, m2, i + 2)
    ensures Bindings(f, m2, m2.env, i + 2) == [Binding(a.val, f.Box(f.PrimT(), i))] + Bindings(f, m, m.env, i + 1)
    ensures NamedAtom(f, m2.heap, a.val, s) && Keeps(m.heap, m2.heap)
  {
    var v := f.Box(f.PrimT(), i);
    assert f.Tag(v) == f.PrimT();
    m2 := AtomPush(f, m, s, v, i + 1, a, p);
  }

  /** The table read so far, in a heap that grew, with the next entry's atom pushed on. */
  lemma PrimEnvNext(f: Flavor, names: seq<string>, h: seq<char>, h2: seq<char>, bs: seq<Binding>, i: nat, a: Word)
    requires AtomHeap.Terminated(h) && AtomHeap.Terminated(h2) && i < |names| < f.OrdLimit()
    requires Keeps(h, h2) && PrimEnv(f, names, h, bs, i) && NamedAtom(f, h2, a, names[i])
    ensures PrimEnv(f, names, h2, [Binding(a, f.Box(f.PrimT(), i))] + bs, i + 1)
  {
    PrimEnvGrow(f, names, h, h2, bs, i);
    PrimEnvPush(f, names, h2, bs, i, a);
  }

  /** Interning `s` and binding it to the non-pair `v` on top of a live environment. */
  lemma AtomPush(f: Flavor, m: Machine, s: string, v: Word, n: nat, a: Out, p: Out) returns (m2: Machine)
    requires Ready(f, m, n) && AtomHeap.NoNul(s) && !f.IsPair(f.Tag(v))
    requires a == Atom(f, m, s) && a.Ok?
    requires p == Pair(f, a.m, a.val, v, m.env) && p.Ok?
    ensures m2 == p.m.(env := p.val) && m2.heap == a.m.heap
    ensures Ready(f, m2, n + 1)
    ensures Bindings(f, m2, m2.env, n + 1) == [Binding(a.val, v)] + Bindings(f, m, m.env, n)
    ensures NamedAtom(f, a.m.heap, a.val, s)
    ensures Keeps(m.heap, a.m.heap)
  {
    AtomLive(f, m, s, a, n);
    PushFrame(f, a.m, a.val, v, m.env, n, p);
    m2 := p.m.(env := p.val);
    SameCells(f, p.m, m2, p.val, n + 1);
  }

  lemma {:induction false} PrimsDecode(f: Flavor, m: Machine, i: nat)
    requires Ready(f, m, i + 1) && i <= |PrimNames| && NamesOk()
    requires PrimEnv(f, PrimNames, m.heap, Bindings(f, m, m.env, i + 1), i)
    requires Prims(f, m, i).Ok?
    ensures var r := Prims(f, m, i);
            Sane(f, r.m) && Chain(f, r.m, r.m.env, |PrimNames| + 1) &&
            PrimEnv(f, PrimNames, r.m.heap, Bindings(f, r.m, r.m.env, |PrimNames| + 1), |PrimNames|)
    decreases |PrimNames| - i
  {
    if i < |PrimNames| {
      var m2 := PrimStep(f, m, i);
      PrimsDecode(f, m2, i + 1);
    }
  }

  /**
   * After a successful `init_tinylisp` on cells that refer inside the
   * array, `env` holds exactly 21 bindings: the primitives from `define`
   * back to `eval`, each bound to its PRIM word, then `#t`.
   */
  lemma InitDecodes(f: Flavor, m: Machine)
    requires |m.cell| <= f.MaxCells() && Sane(f, m)
    requires Init(f, m).Ok?
    ensures var r := Init(f, m);
            Sane(f, r.m) && Chain(f, r.m, r.m.env, |PrimNames| + 1) &&
            PrimEnv(f, PrimNames, r.m.heap, Bindings(f, r.m, r.m.env, |PrimNames| + 1), |PrimNames|)
  {
    PrimNamesOk();
    var m1 := InitHead(f, m);
    PrimsDecode(f, m1, 0);
  }

  /** A successful start is `atom("ERR")`, `atom("#t")` and the pair `(#t . #t)`. */
  lemma InitStartOpen(f: Flavor, m: Machine) returns (a: Out, t: Out)
    requires |m.cell| <= f.MaxCells() && InitStart(f, m).Ok?
    ensures a == Atom(f, m.(sp := |m.cell|, heap := []), "ERR") && a.Ok?
    ensures t == Atom(f, a.m, "#t") && t.Ok?
    ensures InitStart(f, m) == Pair(f, t.m, t.val, t.val, f.Nil())
  {
    a := Atom(f, m.(sp := |m.cell|, heap := []), "ERR");
    t := Atom(f, a.m, "#t");
  }

  /** After the two atoms of `init_tinylisp`, the array is untouched and `#t` names its atom. */
  lemma HeadLive(f: Flavor, m0: Machine, a: Out, t: Out)
    requires Shape(f, m0) && m0.sp == |m0.cell| && m0.heap == [] && Sane(f, m0)
    requires a == Atom(f, m0, "ERR") && a.Ok? && t == Atom(f, a.m, "#t") && t.Ok?
    ensures Shape(f, t.m) && t.m.cell == m0.cell && t.m.sp == |m0.cell| && |t.m.heap| <= Room(f, t.m)
    ensures Sane(f, t.m) && Closed(f, t.m) && Above(f, t.m, t.val)
    ensures NamedAtom(f, t.m.heap, t.val, "#t")
  {
    assert f.Tag(t.val) == f.AtomT();
  }

  /** The state `init_tinylisp` reaches before the primitive loop. */
  lemma InitHead(f: Flavor, m: Machine) returns (m1: Machine)
    requires |m.cell| <= f.MaxCells() && Sane(f, m)
    requires InitStart(f, m).Ok?
    ensures m1 == InitStart(f, m).m.(env := InitStart(f, m).val)
    ensures Ready(f, m1, 1)
    ensures PrimEnv(f, PrimNames, m1.heap, Bindings(f, m1, m1.env, 1), 0)
  {
    var a, t := InitStartOpen(f, m);
    HeadLive(f, m.(sp := |m.cell|, heap := []), a, t);
    var p := InitStart(f, m);
    PushFrame(f, t.m, t.val, t.val, f.Nil(), 0, p);
    m1 := p.m.(env := p.val);
    SameCells(f, p.m, m1, p.val, 1);
    assert Bindings(f, m1, m1.env, 1) == [Binding(t.val, t.val)];
  }
}
