/**
 * The self-tail-call path of `eval` in tinylisp-extras.c and
 * tinylisp-float-opt.c. When a closure calls itself in tail position, its
 * arguments are first bound as usual, each `pair` pushing one entry on top
 * of the current environment `e`. The code then tries to give the memory
 * back: while the innermost entry of `d` is at the stack top (its list cell
 * is `sp`) and is not yet `e`, it copies the entry's value into `e` with
 * `assign` and pops it (`sp += 4`); then, while the entry is at the top and
 * not yet `h` (the environment the body started in), it pops the let-locals
 * the body added.
 *
 * An environment is seen here as the sequence of its entries, innermost
 * first: each has a name, a value and the index of its list cell. `d` is
 * the whole sequence, `e` its suffix from `k` and `h` its suffix from
 * `hh`: the new entries are `[0, k)` and the let-locals `[k, hh)`.
 */
module TailCall {
  import opened StackEnv
  import B = Boxing

  type Word = B.Word

  datatype Frame = Frame(name: Word, value: Word, at: nat)

  /** The entries as the lookup sees them. */
  function Binds(fs: seq<Frame>): (bs: seq<Binding>)
    ensures |bs| == |fs|
    ensures forall j :: 0 <= j < |fs| ==> bs[j] == Binding(fs[j].name, fs[j].value)
  {
    if fs == [] then [] else [Binding(fs[0].name, fs[0].value)] + Binds(fs[1..])
  }

  predicate Bound(fs: seq<Frame>, v: Word)
  {
    exists j :: 0 <= j < |fs| && fs[j].name == v
  }

  /** Entries with the same names and cells, values possibly changed. */
  predicate SameShape(fs: seq<Frame>, gs: seq<Frame>)
  {
    |fs| == |gs| && forall j :: 0 <= j < |fs| ==> gs[j].name == fs[j].name && gs[j].at == fs[j].at
  }

  lemma LookupCons(b: Binding, bs: seq<Binding>, v: Word)
    ensures Lookup([b] + bs, v) == if b.name == v then Some(b.value) else Lookup(bs, v)
  {
    assert ([b] + bs)[1..] == bs;
  }

  /**
   * `assign(v,x,e)`: overwrite the value of the first entry named `v`, as
   * `StackMutate.Assign` does on the cells, seen here on the entries. The
   * loop has no end-of-list test; its callers pass a bound name, and an
   * unbound one leaves the entries alone here.
   */
  function Assign(fs: seq<Frame>, v: Word, x: Word): (r: seq<Frame>)
    ensures SameShape(fs, r)
  {
    if fs == [] then []
    else if fs[0].name == v then [fs[0].(value := x)] + fs[1..]
    else [fs[0]] + Assign(fs[1..], v, x)
  }

  /** `assign` into the suffix of the entries from `k` changes only values. */
  lemma AssignInside(fs: seq<Frame>, k: nat, v: Word, x: Word)
    requires k <= |fs|
    ensures SameShape(fs, fs[..k] + Assign(fs[k..], v, x))
  {
    var a := Assign(fs[k..], v, x);
    assert forall j :: k <= j < |fs| ==> (fs[..k] + a)[j] == a[j - k] && fs[j] == fs[k..][j - k];
  }

  lemma SameShapeTrans(a: seq<Frame>, b: seq<Frame>, c: seq<Frame>)
    requires SameShape(a, b) && SameShape(b, c)
    ensures SameShape(a, c)
  {
  }

  /** After `assign`, a bound `v` looks up to `x`, and every other name as before. */
  lemma {:induction false} AssignLookup(fs: seq<Frame>, v: Word, x: Word)
    ensures Bound(fs, v) ==> Lookup(Binds(Assign(fs, v, x)), v) == Some(x)
    ensures forall u :: u != v ==> Lookup(Binds(Assign(fs, v, x)), u) == Lookup(Binds(fs), u)
    decreases |fs|
  {
    if fs != [] {
      var r := Assign(fs, v, x);
      var b0 := Binding(fs[0].name, fs[0].value);
      assert Binds(fs) == [b0] + Binds(fs[1..]);
      if fs[0].name == v {
        assert Binds(r) == [Binding(v, x)] + Binds(fs[1..]);
        LookupCons(Binding(v, x), Binds(fs[1..]), v);
        forall u | u != v
          ensures Lookup(Binds(r), u) == Lookup(Binds(fs), u)
        {
          LookupCons(Binding(v, x), Binds(fs[1..]), u);
          LookupCons(b0, Binds(fs[1..]), u);
        }
      } else {
        assert Bound(fs, v) ==> Bound(fs[1..], v) by {
          if Bound(fs, v) {
            var w :| 0 <= w < |fs| && fs[w].name == v;
            assert fs[1..][w - 1].name == v;
          }
        }
        var rest := Assign(fs[1..], v, x);
        AssignLookup(fs[1..], v, x);
        assert Binds(r) == [b0] + Binds(rest);
        LookupCons(b0, Binds(rest), v);
        forall u | u != v
          ensures Lookup(Binds(r), u) == Lookup(Binds(fs), u)
        {
          LookupCons(b0, Binds(rest), u);
          LookupCons(b0, Binds(fs[1..]), u);
        }
      }
    }
  }

  /**
   * The second loop (and, without its `assign`, the pop of the first):
   * from entry `i`, pop while the entry is not `stop` and its cell is the
   * stack top. Exactly the entries popped sat at consecutive 4-cell
   * offsets from `sp`, and the first one left is not at the new top.
   */
  function Pop(fs: seq<Frame>, i: nat, stop: nat, sp: nat): (r: (nat, nat))
    requires i <= stop <= |fs|
    ensures i <= r.0 <= stop && r.1 == sp + 4 * (r.0 - i)
    ensures forall j :: i <= j < r.0 ==> fs[j].at == sp + 4 * (j - i)
    ensures r.0 < stop ==> fs[r.0].at != r.1
    decreases stop - i
  {
    if i == stop || fs[i].at != sp then (i, sp) else Pop(fs, i + 1, stop, sp + 4)
  }

  /**
   * The first loop as written: each popped new entry is copied into `e`
   * (the suffix from `k`) by `assign`, which finds the FIRST binding of the
   * name there, a let-local if one shadows the parameter. The entries are
   * popped under the same condition as in `Pop`.
   */
  function PopAssign(fs: seq<Frame>, i: nat, k: nat, sp: nat): (r: (seq<Frame>, nat, nat))
    requires i <= k <= |fs|
    ensures SameShape(fs, r.0)
    ensures i <= r.1 <= k && r.2 == sp + 4 * (r.1 - i)
    ensures forall j :: i <= j < r.1 ==> fs[j].at == sp + 4 * (j - i)
    ensures r.1 < k ==> fs[r.1].at != r.2
    decreases k - i
  {
    if i == k || fs[i].at != sp then (fs, i, sp)
    else
      var fs2 := fs[..k] + Assign(fs[k..], fs[i].name, fs[i].value);
      assert forall j :: i < j < k ==> fs2[j] == fs[j];
      AssignInside(fs, k, fs[i].name, fs[i].value);
      var r := PopAssign(fs2, i + 1, k, sp + 4);
      SameShapeTrans(fs, fs2, r.0);
      r
  }

  /** Both loops as tinylisp-extras.c writes them: the environment the body runs in, and `sp`. */
  function TailAsWritten(fs: seq<Frame>, k: nat, hh: nat, sp: nat): (r: (seq<Frame>, nat))
    requires k <= hh <= |fs|
    ensures |r.0| <= |fs| && r.1 == sp + 4 * (|fs| - |r.0|)
    ensures SameShape(fs[|fs| - |r.0|..], r.0)
  {
    var p1 := PopAssign(fs, 0, k, sp);
    var p2 := Pop(p1.0, p1.1, hh, p1.2);
    (p1.0[p2.0..], p2.1)
  }

  /** `assign` of each entry of `news` in turn. */
  function AssignAll(env: seq<Frame>, news: seq<Frame>): (r: seq<Frame>)
    ensures SameShape(env, r)
    decreases |news|
  {
    if news == [] then env else AssignAll(Assign(env, news[0].name, news[0].value), news[1..])
  }

  /**
   * The evident intent, and the repair: pop the new entries and the
   * let-locals first, then copy each popped new entry's value into the
   * environment that is left.
   */
  function TailFixed(fs: seq<Frame>, k: nat, hh: nat, sp: nat): (r: (seq<Frame>, nat))
    requires k <= hh <= |fs|
    ensures |r.0| <= |fs| && r.1 == sp + 4 * (|fs| - |r.0|)
    ensures SameShape(fs[|fs| - |r.0|..], r.0)
  {
    var p1 := Pop(fs, 0, k, sp);
    var p2 := Pop(fs, p1.0, hh, p1.1);
    (AssignAll(fs[p2.0..], fs[..p1.0]), p2.1)
  }

  predicate DistinctNames(news: seq<Frame>)
  {
    forall a, b :: 0 <= a < b < |news| ==> news[a].name != news[b].name
  }

  predicate Named(news: seq<Frame>, u: Word)
  {
    exists j :: 0 <= j < |news| && news[j].name == u
  }

  lemma NewsTail(news: seq<Frame>)
    requires |news| > 0
    ensures forall u :: Named(news[1..], u) ==> Named(news, u)
    ensures DistinctNames(news) ==> DistinctNames(news[1..]) && !Named(news[1..], news[0].name)
  {
    forall u | Named(news[1..], u)
      ensures Named(news, u)
    {
      var j :| 0 <= j < |news[1..]| && news[1..][j].name == u;
      assert news[j + 1].name == u;
    }
    if DistinctNames(news) {
      forall a, b | 0 <= a < b < |news[1..]|
        ensures news[1..][a].name != news[1..][b].name
      {
        assert news[a + 1].name != news[b + 1].name;
      }
    }
  }

  /**
   * After `assign`ing bound entries with distinct names, each name looks up
   * to its entry's value, and every name not among them as before.
   */
  lemma AssignAllLookup(env: seq<Frame>, news: seq<Frame>)
    ensures (forall j :: 0 <= j < |news| ==> Bound(env, news[j].name)) && DistinctNames(news) ==>
              forall j :: 0 <= j < |news| ==> Lookup(Binds(AssignAll(env, news)), news[j].name) == Some(news[j].value)
    ensures forall u :: !Named(news, u) ==> Lookup(Binds(AssignAll(env, news)), u) == Lookup(Binds(env), u)
  {
    if (forall j :: 0 <= j < |news| ==> Bound(env, news[j].name)) && DistinctNames(news) {
      forall j | 0 <= j < |news|
        ensures Lookup(Binds(AssignAll(env, news)), news[j].name) == Some(news[j].value)
      {
        AssignAllHit(env, news, j);
      }
    }
    forall u | !Named(news, u)
      ensures Lookup(Binds(AssignAll(env, news)), u) == Lookup(Binds(env), u)
    {
      AssignAllOther(env, news, u);
    }
  }

  /** A name none of the entries carries looks up as before. */
  lemma {:induction false} AssignAllOther(env: seq<Frame>, news: seq<Frame>, u: Word)
    requires !Named(news, u)
    ensures Lookup(Binds(AssignAll(env, news)), u) == Lookup(Binds(env), u)
    decreases |news|
  {
    if news != [] {
      var env2 := Assign(env, news[0].name, news[0].value);
      assert news[0].name != u;
      AssignLookup(env, news[0].name, news[0].value);
      NewsTail(news);
      AssignAllOther(env2, news[1..], u);
    }
  }

  /** Entry `j`'s name, bound in `env`, looks up to entry `j`'s value. */
  lemma {:induction false} AssignAllHit(env: seq<Frame>, news: seq<Frame>, j: nat)
    requires j < |news| && Bound(env, news[j].name) && DistinctNames(news)
    ensures Lookup(Binds(AssignAll(env, news)), news[j].name) == Some(news[j].value)
    decreases |news|
  {
    if j == 0 {
      AssignAllFirst(env, news);
    } else {
      var env2 := AssignNext(env, news, news[j].name);
      assert news[1..][j - 1] == news[j];
      AssignAllHit(env2, news[1..], j - 1);
    }
  }

  /** The first entry's name: later entries carry other names and leave it alone. */
  lemma AssignAllFirst(env: seq<Frame>, news: seq<Frame>)
    requires news != [] && Bound(env, news[0].name) && DistinctNames(news)
    ensures Lookup(Binds(AssignAll(env, news)), news[0].name) == Some(news[0].value)
  {
    var env2 := Assign(env, news[0].name, news[0].value);
    assert AssignAll(env, news) == AssignAll(env2, news[1..]);
    NewsTail(news);
    AssignLookup(env, news[0].name, news[0].value);
    AssignAllOther(env2, news[1..], news[0].name);
  }

  /** After the first `assign`, a bound name stays bound and the remaining entries stay distinct. */
  lemma AssignNext(env: seq<Frame>, news: seq<Frame>, v: Word) returns (env2: seq<Frame>)
    requires news != [] && DistinctNames(news) && Bound(env, v)
    ensures AssignAll(env, news) == AssignAll(env2, news[1..])
    ensures Bound(env2, v) && DistinctNames(news[1..])
  {
    env2 := Assign(env, news[0].name, news[0].value);
    NewsTail(news);
    var w :| 0 <= w < |env| && env[w].name == v;
    assert env2[w].name == v;
  }

  /** The new entries and the let-locals sit one pair (4 cells) apart from the stack top up. */
  predicate Stacked(fs: seq<Frame>, hh: nat, sp: nat)
    requires hh <= |fs|
  {
    forall j :: 0 <= j < hh ==> fs[j].at == sp + 4 * j
  }

  /** Popping from entries stacked from `sp` up pops all of them. */
  lemma PopStacked(fs: seq<Frame>, i: nat, stop: nat, sp: nat)
    requires i <= stop <= |fs|
    requires forall j :: i <= j < stop ==> fs[j].at == sp + 4 * (j - i)
    ensures Pop(fs, i, stop, sp) == (stop, sp + 4 * (stop - i))
  {
  }

  /** `assign` into a list whose front does not bind the name reaches past the front unchanged. */
  lemma {:induction false} AssignPast(a: seq<Frame>, b: seq<Frame>, v: Word, x: Word)
    requires !Bound(a, v)
    ensures Assign(a + b, v, x) == a + Assign(b, v, x)
    decreases |a|
  {
    if a == [] {
      assert a + b == b;
    } else {
      var t := a[1..];
      assert (a + b)[1..] == t + b;
      assert (a + b)[0] == a[0] && a[0].name != v;
      assert !Bound(t, v);
      AssignPast(t, b, v, x);
      var y := Assign(b, v, x);
      assert Assign(a + b, v, x) == [a[0]] + (t + y);
      assert a == [a[0]] + t;
      ConcatAssoc([a[0]], t, y);
    }
  }

  lemma ConcatAssoc(a: seq<Frame>, b: seq<Frame>, c: seq<Frame>)
    ensures a + (b + c) == (a + b) + c
  {
  }

  /** Every entry of `news` is copied past the front `a` when `a` binds none of their names. */
  lemma {:induction false} AssignAllPast(a: seq<Frame>, b: seq<Frame>, news: seq<Frame>)
    requires forall j :: 0 <= j < |news| ==> !Bound(a, news[j].name)
    ensures AssignAll(a + b, news) == a + AssignAll(b, news)
    decreases |news|
  {
    if news != [] {
      AssignPast(a, b, news[0].name, news[0].value);
      AssignAllPast(a, Assign(b, news[0].name, news[0].value), news[1..]);
    }
  }

  /**
   * With the new entries stacked on top, the first loop as written pops
   * all of them and amounts to `assign`ing each, innermost first, into `e`.
   */
  lemma {:induction false} PopAssignStacked(fs: seq<Frame>, i: nat, k: nat, sp: nat)
    requires i <= k <= |fs|
    requires forall j :: i <= j < k ==> fs[j].at == sp + 4 * (j - i)
    ensures PopAssign(fs, i, k, sp).0 == fs[..k] + AssignAll(fs[k..], fs[i..k])
    ensures PopAssign(fs, i, k, sp).1 == k
    ensures PopAssign(fs, i, k, sp).2 == sp + 4 * (k - i)
    decreases k - i
  {
    if i == k {
      assert fs[i..k] == [];
      assert fs[..k] + fs[k..] == fs;
    } else {
      var e2 := Assign(fs[k..], fs[i].name, fs[i].value);
      var fs2 := fs[..k] + e2;
      assert fs2[..k] == fs[..k] && fs2[k..] == e2;
      assert forall j :: i + 1 <= j < k ==> fs2[j].at == (sp + 4) + 4 * (j - (i + 1));
      PopAssignStacked(fs2, i + 1, k, sp + 4);
      assert fs[i..k][0] == fs[i] && fs[i..k][1..] == fs2[i + 1..k];
    }
  }

  /**
   * With the new entries and the let-locals stacked on top, the code as
   * written pops them all, and the body runs in `h` updated by `assign`s
   * that went through the let-locals first.
   */
  lemma TailAsWrittenStacked(fs: seq<Frame>, k: nat, hh: nat, sp: nat)
    requires k <= hh <= |fs| && Stacked(fs, hh, sp)
    ensures TailAsWritten(fs, k, hh, sp).0 == AssignAll(fs[k..], fs[..k])[hh - k..]
    ensures TailAsWritten(fs, k, hh, sp).1 == sp + 4 * hh
  {
    PopAssignStacked(fs, 0, k, sp);
    assert fs[0..k] == fs[..k];
    var e1 := AssignAll(fs[k..], fs[..k]);
    var fs1 := fs[..k] + e1;
    LetLocalsStacked(fs, e1, k, hh, sp);
    TailAsWrittenOpen(fs, k, hh, sp, fs1);
    assert fs1[hh..] == e1[hh - k..];
  }

  /** Once the new entries are popped, the let-locals still sit on top, whatever `assign` changed. */
  lemma LetLocalsStacked(fs: seq<Frame>, e1: seq<Frame>, k: nat, hh: nat, sp: nat)
    requires k <= hh <= |fs| && Stacked(fs, hh, sp) && SameShape(fs[k..], e1)
    ensures Pop(fs[..k] + e1, k, hh, sp + 4 * k) == (hh, sp + 4 * hh)
  {
    var fs1 := fs[..k] + e1;
    forall j | k <= j < hh
      ensures fs1[j].at == (sp + 4 * k) + 4 * (j - k)
    {
      assert fs1[j] == e1[j - k] && fs[k..][j - k] == fs[j];
    }
    PopStacked(fs1, k, hh, sp + 4 * k);
  }

  /** The two loops of `TailAsWritten`, given where each stops. */
  lemma TailAsWrittenOpen(fs: seq<Frame>, k: nat, hh: nat, sp: nat, fs1: seq<Frame>)
    requires k <= hh <= |fs| && |fs1| == |fs|
    requires PopAssign(fs, 0, k, sp) == (fs1, k, sp + 4 * k)
    requires Pop(fs1, k, hh, sp + 4 * k) == (hh, sp + 4 * hh)
    ensures TailAsWritten(fs, k, hh, sp) == (fs1[hh..], sp + 4 * hh)
  {
    var p1 := PopAssign(fs, 0, k, sp);
    var p2 := Pop(p1.0, p1.1, hh, p1.2);
    assert p2 == (hh, sp + 4 * hh);
    assert TailAsWritten(fs, k, hh, sp) == (p1.0[p2.0..], p2.1);
  }

  /** Each new entry's name bound in `h` stays bound however far the pops went. */
  lemma NewsBound(fs: seq<Frame>, k: nat, hh: nat, i1: nat, i2: nat)
    requires i1 <= k <= hh <= |fs| && i2 <= hh
    requires forall j :: 0 <= j < k ==> Bound(fs[hh..], fs[j].name)
    ensures forall j :: 0 <= j < |fs[..i1]| ==> Bound(fs[i2..], fs[..i1][j].name)
  {
    forall j | 0 <= j < |fs[..i1]|
      ensures Bound(fs[i2..], fs[..i1][j].name)
    {
      assert fs[..i1][j] == fs[j];
      assert Bound(fs[hh..], fs[j].name);
      var w :| 0 <= w < |fs[hh..]| && fs[hh..][w].name == fs[j].name;
      assert fs[i2..][w + hh - i2].name == fs[j].name;
    }
  }

  /**
   * The repair keeps what the code is for: with the entries stacked on
   * top, it pops the new entries and the let-locals, and the body runs in
   * `h` with each parameter rebound to its new value and every other name
   * bound as before.
   */
  lemma TailFixedStacked(fs: seq<Frame>, k: nat, hh: nat, sp: nat)
    requires k <= hh <= |fs|
    requires forall j :: 0 <= j < k ==> Bound(fs[hh..], fs[j].name)
    requires Stacked(fs, hh, sp) && DistinctNames(fs[..k])
    ensures var r := TailFixed(fs, k, hh, sp);
            r.1 == sp + 4 * hh && SameShape(fs[hh..], r.0) &&
            (forall j :: 0 <= j < k ==> Lookup(Binds(r.0), fs[j].name) == Some(fs[j].value)) &&
            (forall u :: !Named(fs[..k], u) ==> Lookup(Binds(r.0), u) == Lookup(Binds(fs[hh..]), u))
  {
    PopStacked(fs, 0, k, sp);
    PopStacked(fs, k, hh, sp + 4 * k);
    NewsBound(fs, k, hh, k, hh);
    AssignAllLookup(fs[hh..], fs[..k]);
    var r := AssignAll(fs[hh..], fs[..k]);
    forall j | 0 <= j < k
      ensures Lookup(Binds(r), fs[j].name) == Some(fs[j].value)
    {
      assert fs[..k][j] == fs[j];
    }
  }

  /** Without a let-local named after a parameter, the code as written does what the repair does. */
  lemma TailAsWrittenUnshadowed(fs: seq<Frame>, k: nat, hh: nat, sp: nat)
    requires k <= hh <= |fs| && Stacked(fs, hh, sp)
    requires forall j :: 0 <= j < k ==> !Bound(fs[k..hh], fs[j].name)
    ensures TailAsWritten(fs, k, hh, sp).0 == TailFixed(fs, k, hh, sp).0
    ensures TailAsWritten(fs, k, hh, sp).1 == TailFixed(fs, k, hh, sp).1
  {
    assert fs[k..] == fs[k..hh] + fs[hh..];
    var news := fs[..k];
    assert forall j :: 0 <= j < |news| ==> news[j] == fs[j];
    AssignAllPast(fs[k..hh], fs[hh..], news);
    TailAsWrittenStacked(fs, k, hh, sp);
    PopStacked(fs, 0, k, sp);
    PopStacked(fs, k, hh, sp + 4 * k);
    assert (fs[k..hh] + AssignAll(fs[hh..], news))[hh - k..] == AssignAll(fs[hh..], news);
  }

  /**
   * The update the code as written loses: one parameter `n` (new value 2)
   * is pushed on a let-local `n` (value 2) that shadows the previous
   * binding of the parameter (value 3). `assign` writes the let-local,
   * the second loop pops it, and the body reads the old value 3.
   */
  lemma TailAsWrittenLosesUpdate()
    ensures var n := B.Box(B.ATOM, 8);
            var fs := [Frame(n, 2, 100), Frame(n, 2, 104), Frame(n, 3, 108)];
            var r := TailAsWritten(fs, 1, 2, 100);
            Lookup(Binds(r.0), n) == Some(3) && r.1 == 108 &&
            Lookup(Binds(TailFixed(fs, 1, 2, 100).0), n) == Some(2)
  {
    var n := B.Box(B.ATOM, 8);
    var fs := [Frame(n, 2, 100), Frame(n, 2, 104), Frame(n, 3, 108)];
    assert fs[2..][0].name == n;
    assert Stacked(fs, 2, 100);
    TailAsWrittenStacked(fs, 1, 2, 100);
    assert fs[1..] == [Frame(n, 2, 104), Frame(n, 3, 108)];
    assert fs[..1] == [Frame(n, 2, 100)];
    assert DistinctNames(fs[..1]);
    TailFixedStacked(fs, 1, 2, 100);
  }
}
