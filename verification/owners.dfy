/**
 * Reference counting shared by the free-list allocators of
 * `proto/tinylisp-gc.c`, `proto/tinylisp-opt-gc.c` and
 * `proto/tinylisp-extras-gc.c`.
 *
 * A pair occupies the even cell index `i` (its cdr) and `i+1` (its car).
 * Unused pairs form a linked free list threaded through the `ref` array: the
 * entry of a free pair holds the index of the next free pair, 0 ending the
 * list, and `fp` is its head. The entry of a used pair holds its reference
 * count. The two-slot files index `ref` by `i/2` (`half`), the extras file by
 * `i` itself.
 *
 * The invariant the allocators maintain is "count = number of owners": the
 * count of a used pair is the number of slots of used pairs that refer to it
 * plus the number of references held outside the pool (the roots: the global
 * environment, C locals, the registry). `Refs` counts the first, a multiset
 * of pair indices the second.
 */
module Owners {
  import B = Boxing

  type Word = B.Word

  /** An operation that returns a value or raises the error code it longjmps with. */
  datatype Out<P> = Ok(p: P, val: Word) | Fail(p: P, code: nat)

  /**
   * A release: it finishes, raises (the double-free check), recurses deeper
   * than the fuel it was given (C would run on or overflow its stack), or
   * follows cycle marks to a word that is not a pair (`Stray`: C would go on
   * indexing `ref` with that word's ordinal).
   */
  datatype Run<P> = Done(p: P) | Raise(p: P, code: nat) | Spent(p: P) | Stray(p: P)

  /**
   * The tag test that decides whether a word refers to a pair and so carries
   * a count: CONS, CLOS and MACR with macros, the CONS/CLOS mask otherwise.
   */
  predicate Owned(macros: bool, w: Word)
  {
    if macros then B.IsPairTag(B.Tag(w)) else B.MaskIsPair(B.Tag(w))
  }

  /** `w` refers to the pair at `j`. */
  predicate Refers(macros: bool, w: Word, j: nat)
  {
    Owned(macros, w) && B.Ord(w) == j
  }

  /** The references a word carries, as a multiset of pair indices. */
  function Ref(macros: bool, w: Word): (r: multiset<nat>)
    ensures |r| <= 1 && (Owned(macros, w) <==> B.Ord(w) in r)
  {
    if Owned(macros, w) then multiset{B.Ord(w)} else multiset{}
  }

  /**
   * The C decrement of an `unsigned` count (`--ref[i]`): 0 wraps to
   * 2^32-1, and for a count that fits in 32 bits an increment modulo 2^32
   * gives the count back.
   */
  function Dec(n: nat): (r: nat)
    ensures n > 0 ==> r + 1 == n
    ensures n == 0 ==> r == B.TWO32 - 1
    ensures n < B.TWO32 ==> r < B.TWO32 && (r + 1) % B.TWO32 == n
  {
    if n == 0 then B.TWO32 - 1 else n - 1
  }

  /** A pair index proper: even, not the reserved pair 0, inside `n` cells. */
  predicate Cell(n: nat, i: nat)
  {
    i % 2 == 0 && 2 <= i && i + 1 < n
  }

  /** The pair a slot belongs to. */
  function PairOf(k: nat): (q: nat)
    ensures q <= k && q % 2 == 0 && k - q < 2
  {
    k - k % 2
  }

  /** Where the `ref` entry of pair `i` sits. */
  function Idx(half: bool, i: nat): nat
  {
    if half then i / 2 else i
  }

  /** A word that refers to a pair refers to an even index inside the array. */
  predicate Points(macros: bool, n: nat, w: Word)
  {
    Owned(macros, w) ==> B.Ord(w) % 2 == 0 && B.Ord(w) + 1 < n
  }

  predicate AllPoint(macros: bool, cell: seq<Word>)
  {
    forall k :: 0 <= k < |cell| ==> Points(macros, |cell|, cell[k])
  }

  /** The successor of `fs[j]` on the free list; 0 after the last. */
  function Next(fs: seq<nat>, j: nat): nat
  {
    if j + 1 < |fs| then fs[j + 1] else 0
  }

  /**
   * `fs` is the free list: it starts at `fp`, each entry links to the next,
   * the last links to 0, its pairs are distinct proper pairs, and `fn` is one
   * more than its length.
   */
  predicate FreeList(ref: seq<nat>, half: bool, n: nat, fp: nat, fn: nat, fs: seq<nat>)
  {
    |fs| + 1 == fn &&
    fp == (if fs == [] then 0 else fs[0]) &&
    (forall j :: 0 <= j < |fs| ==>
       Cell(n, fs[j]) && Idx(half, fs[j]) < |ref| && ref[Idx(half, fs[j])] == Next(fs, j)) &&
    Distinct(fs)
  }

  /** No pair is on the list twice. */
  predicate Distinct(fs: seq<nat>)
  {
    fs == [] || (fs[0] !in fs[1..] && Distinct(fs[1..]))
  }

  /** The used pairs: every proper pair not on the free list. */
  function Used(n: nat, fs: seq<nat>): set<nat>
  {
    set i | 0 <= i < n && Cell(n, i) && i !in fs
  }

  /** The number of slots at `k` and above, of pairs in `s`, that refer to `j`. */
  function Refs(macros: bool, cell: seq<Word>, s: set<nat>, j: nat, k: nat): nat
    decreases |cell| - k
  {
    if k >= |cell| then 0
    else (if PairOf(k) in s && Refers(macros, cell[k], j) then 1 else 0) + Refs(macros, cell, s, j, k + 1)
  }

  /** The references the two slots of pair `q` hold to `j`. */
  function Own(macros: bool, cell: seq<Word>, q: nat, j: nat): nat
    requires q + 1 < |cell|
  {
    (if Refers(macros, cell[q + 1], j) then 1 else 0) + (if Refers(macros, cell[q], j) then 1 else 0)
  }

  /** Count = number of owners, for every used pair. */
  ghost predicate Counted(macros: bool, cell: seq<Word>, ref: seq<nat>, half: bool, s: set<nat>, roots: multiset<nat>)
  {
    forall i {:trigger Refs(macros, cell, s, i, 0)} :: i in s ==> Idx(half, i) < |ref| && ref[Idx(half, i)] == Refs(macros, cell, s, i, 0) + roots[i]
  }

  /** Used pairs and roots refer only to used pairs: nothing in use has been freed. */
  ghost predicate Closed(macros: bool, cell: seq<Word>, s: set<nat>, roots: multiset<nat>)
  {
    (forall k :: 0 <= k < |cell| && PairOf(k) in s && Owned(macros, cell[k]) ==> B.Ord(cell[k]) in s) &&
    (forall i :: i in roots ==> i in s)
  }

  /** `Refs` reads only the slots of pairs in the set. */
  lemma {:induction false} RefsFrame(macros: bool, c1: seq<Word>, c2: seq<Word>, s: set<nat>, t: set<nat>, j: nat, k: nat)
    requires |c1| == |c2|
    requires forall k' :: k <= k' < |c1| ==> (PairOf(k') in s <==> PairOf(k') in t)
    requires forall k' :: k <= k' < |c1| && PairOf(k') in s ==> c1[k'] == c2[k']
    ensures Refs(macros, c1, s, j, k) == Refs(macros, c2, t, j, k)
    decreases |c1| - k
  {
    if k < |c1| {
      RefsFrame(macros, c1, c2, s, t, j, k + 1);
    }
  }

  /** `Refs` adds up over disjoint sets of pairs. */
  lemma {:induction false} RefsUnion(macros: bool, cell: seq<Word>, s: set<nat>, t: set<nat>, j: nat, k: nat)
    requires s !! t
    ensures Refs(macros, cell, s + t, j, k) == Refs(macros, cell, s, j, k) + Refs(macros, cell, t, j, k)
    decreases |cell| - k
  {
    if k < |cell| {
      RefsUnion(macros, cell, s, t, j, k + 1);
    }
  }

  lemma {:induction false} RefsNone(macros: bool, cell: seq<Word>, j: nat, k: nat)
    ensures Refs(macros, cell, {}, j, k) == 0
    decreases |cell| - k
  {
    if k < |cell| {
      RefsNone(macros, cell, j, k + 1);
    }
  }

  /** One pair's slots, counted from below it. */
  lemma {:induction false} RefsOne(macros: bool, cell: seq<Word>, q: nat, j: nat, k: nat)
    requires q % 2 == 0 && q + 1 < |cell| && k <= q
    ensures Refs(macros, cell, {q}, j, k) == Own(macros, cell, q, j)
    decreases |cell| - k
  {
    if k < q {
      RefsOne(macros, cell, q, j, k + 1);
    } else {
      RefsFrame(macros, cell, cell, {q}, {}, j, q + 2);
      RefsNone(macros, cell, j, q + 2);
    }
  }

  /** Removing a pair from the set removes exactly its two slots' references. */
  lemma RefsDrop(macros: bool, cell: seq<Word>, s: set<nat>, q: nat, j: nat)
    requires q in s && q % 2 == 0 && q + 1 < |cell|
    ensures Refs(macros, cell, s, j, 0) == Refs(macros, cell, s - {q}, j, 0) + Own(macros, cell, q, j)
  {
    assert s == (s - {q}) + {q};
    RefsUnion(macros, cell, s - {q}, {q}, j, 0);
    RefsOne(macros, cell, q, j, 0);
  }

  /**
   * Claiming an unused pair `q` and filling its slots adds exactly the
   * references of the two words stored.
   */
  lemma RefsClaim(macros: bool, cell: seq<Word>, s: set<nat>, q: nat, x: Word, y: Word, j: nat)
    requires q !in s && q % 2 == 0 && q + 1 < |cell|
    ensures var c2 := cell[q + 1 := x][q := y];
            Refs(macros, c2, s + {q}, j, 0) ==
            Refs(macros, cell, s, j, 0) + (if Refers(macros, x, j) then 1 else 0) + (if Refers(macros, y, j) then 1 else 0)
  {
    var c2 := cell[q + 1 := x][q := y];
    RefsUnion(macros, c2, s, {q}, j, 0);
    RefsOne(macros, c2, q, j, 0);
    RefsFrame(macros, c2, cell, s, s, j, 0);
  }

  /** The free list and the used pairs partition the proper pairs. */
  lemma UsedPush(n: nat, fs: seq<nat>, q: nat)
    requires q in Used(n, fs)
    ensures Used(n, [q] + fs) == Used(n, fs) - {q}
  {
  }

  lemma UsedPop(n: nat, fs: seq<nat>)
    requires fs != [] && Cell(n, fs[0]) && fs[0] !in fs[1..]
    ensures Used(n, fs[1..]) == Used(n, fs) + {fs[0]}
  {
    assert fs == [fs[0]] + fs[1..];
  }

  /** A pair that is on the free list is not used, and a used pair is not on it. */
  lemma UsedNotFree(n: nat, fs: seq<nat>, q: nat)
    ensures q in Used(n, fs) <==> Cell(n, q) && q !in fs
  {
  }

  /** Pushing a used pair keeps the free list well formed. */
  lemma PushFree(ref: seq<nat>, half: bool, n: nat, fp: nat, fn: nat, fs: seq<nat>, q: nat)
    requires FreeList(ref, half, n, fp, fn, fs) && q in Used(n, fs) && Idx(half, q) < |ref|
    requires forall j :: 0 <= j < |fs| ==> Idx(half, fs[j]) != Idx(half, q)
    ensures FreeList(ref[Idx(half, q) := fp], half, n, q, fn + 1, [q] + fs)
  {
    var fs2 := [q] + fs;
    assert fs2[1..] == fs;
    var ref2 := ref[Idx(half, q) := fp];
    forall j | 0 <= j < |fs2|
      ensures Cell(n, fs2[j]) && Idx(half, fs2[j]) < |ref2| && ref2[Idx(half, fs2[j])] == Next(fs2, j)
    {
      if j > 0 {
        assert fs2[j] == fs[j - 1];
        assert Next(fs2, j) == Next(fs, j - 1);
      }
    }
  }

  /** No used pair and no root refers to a pair that is not used. */
  lemma {:induction false} RefsUnused(macros: bool, cell: seq<Word>, s: set<nat>, roots: multiset<nat>, j: nat, k: nat)
    requires Closed(macros, cell, s, roots) && j !in s
    ensures Refs(macros, cell, s, j, k) == 0
    decreases |cell| - k
  {
    if k < |cell| {
      RefsUnused(macros, cell, s, roots, j, k + 1);
    }
  }

  /** A slot that refers to `j` is counted. */
  lemma {:induction false} RefsPositive(macros: bool, cell: seq<Word>, s: set<nat>, j: nat, k: nat, k0: nat)
    requires k0 <= k < |cell| && PairOf(k) in s && Refers(macros, cell[k], j)
    ensures Refs(macros, cell, s, j, k0) >= 1
    decreases k - k0
  {
    if k0 < k {
      RefsPositive(macros, cell, s, j, k, k0 + 1);
    }
  }

  /** A subset is no larger. */
  lemma SubsetCard(a: set<nat>, b: set<nat>)
    requires a <= b
    ensures |a| <= |b|
    decreases |b|
  {
    if a != {} {
      var e :| e in a;
      SubsetCard(a - {e}, b - {e});
    }
  }

  /**
   * Freeing a used pair that nothing refers to but the released root: the
   * other used pairs stay closed, with the freed pair's slots as roots.
   */
  lemma DelClosed(macros: bool, cell: seq<Word>, u: set<nat>, rest: multiset<nat>, i: nat)
    requires i in u && i % 2 == 0 && i + 1 < |cell|
    requires Closed(macros, cell, u, rest + multiset{i}) && Refs(macros, cell, u, i, 0) == 0 && rest[i] == 0
    ensures Closed(macros, cell, u - {i}, rest + Ref(macros, cell[i]) + Ref(macros, cell[i + 1]))
  {
    DelSlots(macros, cell, u, rest, i);
    DelRoots(macros, cell, u, rest, i, i);
    DelRoots(macros, cell, u, rest, i, i + 1);
  }

  /** No used pair but `i` refers to `i`, so the other used pairs refer only to each other. */
  lemma DelSlots(macros: bool, cell: seq<Word>, u: set<nat>, rest: multiset<nat>, i: nat)
    requires i in u && Closed(macros, cell, u, rest + multiset{i}) && Refs(macros, cell, u, i, 0) == 0
    ensures forall k :: 0 <= k < |cell| && PairOf(k) in u - {i} && Owned(macros, cell[k]) ==> B.Ord(cell[k]) in u - {i}
  {
    forall k | 0 <= k < |cell| && PairOf(k) in u - {i} && Owned(macros, cell[k])
      ensures B.Ord(cell[k]) in u - {i}
    {
      if B.Ord(cell[k]) == i {
        RefsPositive(macros, cell, u, i, k, 0);
      }
    }
  }

  /** A slot of the freed pair refers to a used pair other than the freed one. */
  lemma DelRoots(macros: bool, cell: seq<Word>, u: set<nat>, rest: multiset<nat>, i: nat, k: nat)
    requires i in u && i % 2 == 0 && i <= k <= i + 1 < |cell|
    requires Closed(macros, cell, u, rest + multiset{i}) && Refs(macros, cell, u, i, 0) == 0 && rest[i] == 0
    ensures forall j :: j in rest ==> j in u - {i}
    ensures Owned(macros, cell[k]) ==> B.Ord(cell[k]) in u - {i}
  {
    assert forall j :: j in rest ==> j in rest + multiset{i};
    if Owned(macros, cell[k]) {
      assert PairOf(k) == i;
      if B.Ord(cell[k]) == i {
        RefsPositive(macros, cell, u, i, k, 0);
      }
    }
  }

  /** Removing a member drops the size by one. */
  lemma CardDrop(a: set<nat>, i: nat)
    requires i in a
    ensures |a - {i}| == |a| - 1
  {
  }
}
