/**
 * The catch-throw registry of `proto/tinylisp-extras-gc.c`: a stack of
 * addresses of C variables (`xstk`, at most 5*K entries), a base pointer
 * `xb` set by `catch`, and a top pointer `xp`. While no `catch` is active
 * both pointers are NULL and nothing is registered. `eval` registers its
 * five locals, so that `err` can release what they hold before it
 * longjmps to the `catch`.
 *
 * A registered variable is named by a number; what it holds when `err`
 * reads it is the business of the pool (`RcUnwind`).
 */
module Exceptions {
  /** The nesting bound of `eval` calls between a `catch` and a `throw`. */
  const K: nat := 1024

  /** The size of `xstk`. */
  const DEPTH: nat := 5 * K

  /** The error `rc` raises when `xstk` is full. */
  const OOM: nat := 4

  /**
   * `on` says `xp` (and with it `xb`) is not NULL; `slots` is
   * `xstk[0..xp)` and `base` is `xb - xstk`.
   */
  datatype Registry = Registry(on: bool, base: nat, slots: seq<nat>)

  /** What the pointers can be: NULL together with nothing registered, or `xstk <= xb <= xp <= xstk+5*K`. */
  predicate Valid(r: Registry)
  {
    r.base <= |r.slots| <= DEPTH && (!r.on ==> r.base == 0 && r.slots == [])
  }

  /** The state before any `catch`, and after `rebuild` sets `xb = xp = NULL`. */
  const Idle: Registry := Registry(false, 0, [])

  /** The variables `err` releases: those registered above `xb`. */
  function Pending(r: Registry): (s: seq<nat>)
    requires Valid(r)
    ensures |s| == |r.slots| - r.base
  {
    r.slots[r.base..]
  }

  /** The outcome of `rc`: the registry after it, or `err(4)` on a full `xstk`. */
  datatype Pushed = Registered(r: Registry) | Full

  /**
   * `rc(&v, y)`: assign `y` to `v` and, while a `catch` is active, push
   * `&v` on `xstk`; with `xstk` full it raises `err(4)` instead (and the
   * assignment does not happen).
   */
  function Rc(r: Registry, v: nat): (o: Pushed)
    requires Valid(r)
    ensures o.Registered? ==> Valid(o.r) && o.r.on == r.on && o.r.base == r.base
    ensures o.Full? <==> r.on && |r.slots| == DEPTH
    ensures o.Registered? && !r.on ==> o.r == r
    ensures o.Registered? && r.on ==> o.r.slots == r.slots + [v]
  {
    if !r.on then Registered(r)
    else if |r.slots| >= DEPTH then Full
    else Registered(r.(slots := r.slots + [v]))
  }

  /**
   * `rr(k)`: drop the top `k` registrations without releasing them. The C
   * decrements `xp` unchecked; this model asks for `k` registrations above
   * `xb` to drop. `rg(x)` is `rr(1)` followed by the pool's `gc(x)`.
   */
  function Rr(r: Registry, k: nat): (r2: Registry)
    requires Valid(r) && (r.on ==> r.base + k <= |r.slots|)
    ensures Valid(r2) && r2.on == r.on && r2.base == r.base
    ensures r.on ==> r2.slots == r.slots[..|r.slots| - k]
    ensures !r.on ==> r2 == r
  {
    if r.on then r.(slots := r.slots[..|r.slots| - k]) else r
  }

  /** `rc` for each variable of `vs` in turn, stopping at the first `err(4)`. */
  function RcAll(r: Registry, vs: seq<nat>): (o: Pushed)
    requires Valid(r)
    ensures o.Registered? ==> Valid(o.r) && o.r.on == r.on && o.r.base == r.base
    decreases |vs|
  {
    if vs == [] then Registered(r)
    else
      var o1 := Rc(r, vs[0]);
      if o1.Full? then Full else RcAll(o1.r, vs[1..])
  }

  /**
   * Registering `vs` fails exactly when the registry is active and `xstk`
   * has fewer than `|vs|` free entries; otherwise it pushes `vs` in order.
   */
  lemma {:induction false} RcAllOutcome(r: Registry, vs: seq<nat>)
    requires Valid(r)
    ensures RcAll(r, vs).Full? <==> r.on && |r.slots| + |vs| > DEPTH
    ensures RcAll(r, vs).Registered? ==> RcAll(r, vs).r == (if r.on then r.(slots := r.slots + vs) else r)
    decreases |vs|
  {
    if vs != [] {
      var o1 := Rc(r, vs[0]);
      if o1.Registered? {
        RcAllOutcome(o1.r, vs[1..]);
        if r.on {
          assert r.slots + [vs[0]] + vs[1..] == r.slots + vs;
        }
      }
    }
  }

  /** `rr(|vs|)` after registering `vs` gives back the registry as it was. */
  lemma RcRr(r: Registry, vs: seq<nat>)
    requires Valid(r) && RcAll(r, vs).Registered?
    ensures var r2 := RcAll(r, vs).r;
            (r2.on ==> r2.base + |vs| <= |r2.slots|) && Rr(r2, |vs|) == r
  {
    RcAllOutcome(r, vs);
    if r.on {
      assert (r.slots + vs)[..|r.slots|] == r.slots;
    }
  }

  /** The five locals `eval` registers, in the order it registers them: `d`, `e`, `f`, `g`, `h`. */
  const D: nat := 0
  const E: nat := 1
  const F: nat := 2
  const G: nat := 3
  const H: nat := 4
  const Locals: seq<nat> := [D, E, F, G, H]

  /**
   * The frame of one `eval`: its entry registers the five locals, its
   * normal exit drops them with `rr(5)`. Entering fails with `err(4)`
   * exactly when a `catch` is active and fewer than five entries of `xstk`
   * are free; a normal return leaves the registry as it found it.
   */
  lemma EvalBalanced(r: Registry)
    requires Valid(r)
    ensures RcAll(r, Locals).Full? <==> r.on && |r.slots| + 5 > DEPTH
    ensures RcAll(r, Locals).Registered? ==>
              var r2 := RcAll(r, Locals).r;
              (r2.on ==> r2.base + 5 <= |r2.slots| && Pending(r2)[|Pending(r2)| - 5..] == Locals) &&
              Rr(r2, 5) == r
  {
    RcAllOutcome(r, Locals);
    var o := RcAll(r, Locals);
    if o.Registered? {
      RcRr(r, Locals);
    }
    if o.Registered? && r.on {
      assert o.r.slots == r.slots + Locals;
      assert Pending(o.r)[|Pending(o.r)| - 5..] == Locals;
    }
  }

  /**
   * `catch` on entry: with no registry yet it starts one at the bottom of
   * `xstk`; either way it sets `xb = xp`, so that an error inside releases
   * only what is registered after it.
   */
  function Enter(r: Registry): (r2: Registry)
    requires Valid(r)
    ensures Valid(r2) && r2.on && r2.slots == r.slots && Pending(r2) == []
  {
    Registry(true, |r.slots|, r.slots)
  }

  /**
   * What `err` does to the registry: it pops every registration above
   * `xb`, releasing each variable it pops (the most recent first), and
   * leaves `xp == xb`. With no `catch` active both are NULL and it
   * releases nothing.
   */
  function Unwind(r: Registry): (u: (Registry, seq<nat>))
    requires Valid(r)
    ensures Valid(u.0) && u.0.on == r.on && u.0.base == r.base && |u.0.slots| == r.base
    ensures u.0.slots == r.slots[..r.base]
    ensures |u.1| == |Pending(r)|
    ensures forall k :: 0 <= k < |u.1| ==> u.1[k] == Pending(r)[|Pending(r)| - 1 - k]
    decreases |r.slots| - r.base
  {
    if |r.slots| == r.base then (r, [])
    else
      var top := r.slots[|r.slots| - 1];
      var rest := Unwind(r.(slots := r.slots[..|r.slots| - 1]));
      (rest.0, [top] + rest.1)
  }

  /**
   * An error raised inside a `catch` releases exactly what was registered
   * after it was entered, and leaves the registry as `catch` set it up.
   */
  lemma UnwindToCatch(r: Registry, vs: seq<nat>)
    requires Valid(r) && RcAll(Enter(r), vs).Registered?
    ensures var u := Unwind(RcAll(Enter(r), vs).r);
            u.0 == Enter(r) && multiset(u.1) == multiset(vs)
  {
    var e := Enter(r);
    RcAllOutcome(e, vs);
    var r2 := RcAll(e, vs).r;
    assert Pending(r2) == vs;
    var u := Unwind(r2);
    assert u.0.slots == r.slots;
    ReverseMultiset(vs, u.1);
  }

  /** A sequence read backwards has the same elements. */
  lemma {:induction false} ReverseMultiset(s: seq<nat>, t: seq<nat>)
    requires |t| == |s| && forall k :: 0 <= k < |t| ==> t[k] == s[|s| - 1 - k]
    ensures multiset(t) == multiset(s)
    decreases |s|
  {
    if s != [] {
      var n := |s|;
      ReverseMultiset(s[..n - 1], t[1..]);
      assert s == s[..n - 1] + [s[n - 1]];
      assert t == [t[0]] + t[1..];
    }
  }

  /**
   * What `catch` does once the evaluation inside it ends: it restores both
   * pointers, returns the value, rethrows `err(4)` (out of memory must
   * reach the REPL), and turns any other error code into `(ERR . code)`.
   */
  datatype Caught = Value | Rethrow(code: nat) | ErrPair(code: nat)

  function Catch(r: Registry, code: nat): (c: (Registry, Caught))
    ensures c.0 == r
    ensures code == 0 <==> c.1 == Value
    ensures c.1.Rethrow? <==> code == OOM
    ensures c.1.ErrPair? ==> c.1.code == code
  {
    (r, if code == 0 then Value else if code == OOM then Rethrow(OOM) else ErrPair(code))
  }

  /**
   * What `setjmp` returns in `catch` after `err(i)` calls `longjmp(jb,i)`:
   * `i` itself, except that a `longjmp` with 0 makes `setjmp` return 1.
   */
  function Landed(i: nat): (j: nat)
    ensures j != 0
    ensures i != 0 ==> j == i
    ensures i == 0 ==> j == 1
  {
    if i == 0 then 1 else i
  }

  /**
   * A thrown error never looks like a normal return to `catch`: `(throw 0)`
   * answers `(ERR . 1)`, out of memory is passed on, and every other code
   * comes back as `(ERR . code)`.
   */
  lemma ThrowCaught(r: Registry, i: nat)
    ensures Catch(r, Landed(i)).1 != Value
    ensures i == 0 ==> Catch(r, Landed(i)).1 == ErrPair(1)
    ensures i != 0 && i != OOM ==> Catch(r, Landed(i)).1 == ErrPair(i)
  {
  }
}
