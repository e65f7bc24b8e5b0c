/**
 * The atom heap: interned symbol names stored back to back, each followed by
 * a NUL byte, growing upward from offset 0 of the shared pool. `hp` is the
 * length of this byte sequence. An atom is boxed with the offset of its
 * name, so two atoms are the same symbol exactly when their offsets agree.
 */
module AtomHeap {
  const NUL: char := 0 as char

  /** A C string: no NUL inside. */
  predicate NoNul(s: string)
  {
    forall k :: 0 <= k < |s| ==> s[k] != NUL
  }

  /** Every name in the heap is closed by its NUL (the heap is empty or ends in NUL). */
  predicate Terminated(h: seq<char>)
  {
    |h| == 0 || h[|h| - 1] == NUL
  }

  /** The name stored at offset `i`: the bytes up to the next NUL. */
  function NameAt(h: seq<char>, i: nat): (s: string)
    requires i <= |h|
    ensures NoNul(s) && i + |s| <= |h|
    decreases |h| - i
  {
    if i == |h| || h[i] == NUL then [] else [h[i]] + NameAt(h, i + 1)
  }

  /** In a terminated heap every name found before the end stops at a NUL inside the heap. */
  lemma {:induction false} NameAtStops(h: seq<char>, i: nat)
    requires Terminated(h) && i < |h|
    ensures i + |NameAt(h, i)| < |h| && h[i + |NameAt(h, i)|] == NUL
    decreases |h| - i
  {
    if h[i] != NUL {
      NameAtStops(h, i + 1);
    }
  }

  /** The offset just past the name at `i` and its NUL: `i + strlen(A+i) + 1`. */
  function Next(h: seq<char>, i: nat): (j: nat)
    requires Terminated(h) && i < |h|
    ensures i < j <= |h|
  {
    NameAtStops(h, i);
    i + |NameAt(h, i)| + 1
  }

  /** The offsets at which names start, following the chain from `i`. */
  function Starts(h: seq<char>, i: nat): (r: set<nat>)
    requires Terminated(h) && i <= |h|
    ensures forall a :: a in r ==> i <= a < |h|
    ensures i < |h| <==> i in r
    decreases |h| - i
  {
    if i == |h| then {} else {i} + Starts(h, Next(h, i))
  }

  /** Interning invariant: no name is stored twice. */
  predicate Distinct(h: seq<char>)
    requires Terminated(h)
  {
    forall a, b :: a in Starts(h, 0) && b in Starts(h, 0) && NameAt(h, a) == NameAt(h, b) ==> a == b
  }

  /** `s` is already stored at some start of the heap. */
  predicate Interned(h: seq<char>, s: string)
    requires Terminated(h)
  {
    exists a :: a in Starts(h, 0) && NameAt(h, a) == s
  }

  /**
   * The lookup loop of `atom`: step from name to name until the name equals
   * `s` or the end of the heap is reached. The result is the first start
   * naming `s`, or the heap length when no start does.
   */
  function Find(h: seq<char>, s: string, i: nat): (r: nat)
    requires Terminated(h) && i <= |h|
    ensures i <= r <= |h|
    ensures r < |h| ==> r in Starts(h, i) && NameAt(h, r) == s
    ensures forall a :: a in Starts(h, i) && a < r ==> NameAt(h, a) != s
    decreases |h| - i
  {
    if i == |h| then i
    else if NameAt(h, i) == s then i
    else Find(h, s, Next(h, i))
  }

  /**
   * `atom(s)`: the offset of `s` in the heap, appending `s` and its NUL when
   * it is not there yet. The collision check against the cell region is the
   * caller's, since it differs between the allocators.
   */
  function Intern(h: seq<char>, s: string): (r: (nat, seq<char>))
    requires Terminated(h) && NoNul(s)
    ensures Terminated(r.1)
    ensures r.0 in Starts(r.1, 0) && NameAt(r.1, r.0) == s
    ensures Interned(h, s) ==> r.1 == h && r.0 < |h|
    ensures !Interned(h, s) ==> r.0 == |h| && r.1 == h + s + [NUL]
  {
    var i := Find(h, s, 0);
    if i == |h| then
      AppendName(h, s);
      (i, h + s + [NUL])
    else
      (i, h)
  }

  /** Appending a name leaves every earlier name where it was. */
  lemma {:induction false} NameAtPrefix(h: seq<char>, x: seq<char>, i: nat)
    requires Terminated(h) && i < |h|
    ensures NameAt(h + x, i) == NameAt(h, i)
    decreases |h| - i
  {
    if h[i] != NUL {
      assert i + 1 < |h|;
      NameAtPrefix(h, x, i + 1);
    }
  }

  lemma {:induction false} NameAtFresh(s: string, h: seq<char>, k: nat)
    requires NoNul(s) && k <= |s|
    ensures NameAt(h + s + [NUL], |h| + k) == s[k..]
    decreases |s| - k
  {
    var h2 := h + s + [NUL];
    if k == |s| {
      assert h2[|h| + k] == NUL;
    } else {
      assert h2[|h| + k] == s[k];
      NameAtFresh(s, h, k + 1);
      assert s[k..] == [s[k]] + s[k + 1..];
    }
  }

  /** The start chain of a heap with one more name has exactly one more start. */
  lemma {:induction false} StartsAppend(h: seq<char>, s: string, i: nat)
    requires Terminated(h) && NoNul(s) && i <= |h|
    requires i == |h| || i in Starts(h, i)
    ensures Terminated(h + s + [NUL])
    ensures Starts(h + s + [NUL], i) == Starts(h, i) + {|h|}
    decreases |h| - i
  {
    var h2 := h + s + [NUL];
    assert h2[|h2| - 1] == NUL;
    if i == |h| {
      NameAtFresh(s, h, 0);
      assert Next(h2, i) == |h2|;
    } else {
      NameAtPrefix(h, s + [NUL], i);
      assert h2 == h + (s + [NUL]);
      assert Next(h2, i) == Next(h, i);
      StartsAppend(h, s, Next(h, i));
    }
  }

  lemma AppendName(h: seq<char>, s: string)
    requires Terminated(h) && NoNul(s)
    ensures Terminated(h + s + [NUL])
    ensures Starts(h + s + [NUL], 0) == Starts(h, 0) + {|h|}
    ensures NameAt(h + s + [NUL], |h|) == s
    ensures forall a :: a in Starts(h, 0) ==> NameAt(h + s + [NUL], a) == NameAt(h, a)
  {
    StartsAppend(h, s, 0);
    NameAtFresh(s, h, 0);
    forall a | a in Starts(h, 0)
      ensures NameAt(h + s + [NUL], a) == NameAt(h, a)
    {
      assert h + s + [NUL] == h + (s + [NUL]);
      NameAtPrefix(h, s + [NUL], a);
    }
  }

  /** A heap extended at its end still has every start of the old one. */
  lemma {:induction false} StartsPrefix(h: seq<char>, x: seq<char>, i: nat)
    requires Terminated(h) && Terminated(h + x) && i <= |h|
    ensures Starts(h, i) <= Starts(h + x, i)
    decreases |h| - i
  {
    if i < |h| {
      NameAtPrefix(h, x, i);
      assert Next(h + x, i) == Next(h, i);
      StartsPrefix(h, x, Next(h, i));
    }
  }

  /** Growing the heap at its end never moves or changes an existing name. */
  lemma PrefixKeeps(h: seq<char>, h2: seq<char>)
    requires Terminated(h) && Terminated(h2) && h <= h2
    ensures Starts(h, 0) <= Starts(h2, 0)
    ensures forall a :: a in Starts(h, 0) ==> NameAt(h2, a) == NameAt(h, a)
  {
    var x := h2[|h|..];
    assert h2 == h + x;
    StartsPrefix(h, x, 0);
    forall a | a in Starts(h, 0)
      ensures NameAt(h2, a) == NameAt(h, a)
    {
      NameAtPrefix(h, x, a);
    }
  }

  /** Interning keeps names unique, and never moves or changes an existing name. */
  lemma InternPreserves(h: seq<char>, s: string)
    requires Terminated(h) && NoNul(s) && Distinct(h)
    ensures Distinct(Intern(h, s).1)
    ensures Starts(h, 0) <= Starts(Intern(h, s).1, 0)
    ensures forall a :: a in Starts(h, 0) ==> NameAt(Intern(h, s).1, a) == NameAt(h, a)
  {
    var i := Find(h, s, 0);
    if i == |h| {
      AppendName(h, s);
    }
  }

  /** In a heap without duplicates, the offset `atom` returns is the only start naming `s`. */
  lemma InternUnique(h: seq<char>, s: string, a: nat)
    requires Terminated(h) && NoNul(s) && Distinct(h)
    requires a in Starts(Intern(h, s).1, 0) && NameAt(Intern(h, s).1, a) == s
    ensures a == Intern(h, s).0
  {
    InternPreserves(h, s);
  }

  /** Interning the same name twice returns the same offset and leaves the heap alone. */
  lemma InternIdempotent(h: seq<char>, s: string)
    requires Terminated(h) && NoNul(s)
    ensures Intern(Intern(h, s).1, s) == Intern(h, s)
  {
    var (i, h2) := Intern(h, s);
    var (j, h3) := Intern(h2, s);
    assert h3 == h2;
    if i == |h| {
      AppendName(h, s);
      assert forall a :: a in Starts(h, 0) ==> NameAt(h, a) != s;
    }
    assert j == Find(h2, s, 0);
    assert j <= i;
  }

  /**
   * Equal names always yield the same atom and different names different
   * atoms: interning `s` and then `t` gives equal offsets exactly when the
   * names are equal.
   */
  lemma InternTwo(h: seq<char>, s: string, t: string)
    requires Terminated(h) && NoNul(s) && NoNul(t) && Distinct(h)
    ensures var (i, h2) := Intern(h, s);
            var (j, h3) := Intern(h2, t);
            (i == j <==> s == t) && NameAt(h3, i) == s
  {
    var (i, h2) := Intern(h, s);
    InternPreserves(h, s);
    InternPreserves(h2, t);
    var (j, h3) := Intern(h2, t);
    assert NameAt(h3, i) == s;
    if s == t {
      InternUnique(h2, t, i);
    }
  }

  /**
   * `gc` in tinylisp-extras.c shrinks the heap to end just past the name at
   * offset `m` (`hp = m; hp += strlen(A+hp)+1`). When `m` starts a name,
   * every name up to and including it survives unchanged.
   */
  function Shrink(h: seq<char>, m: nat): (r: seq<char>)
    requires Terminated(h) && m < |h|
    ensures Terminated(r) && m < |r| <= |h|
    ensures r == h[..|r|]
  {
    NameAtStops(h, m);
    h[..Next(h, m)]
  }

  lemma {:induction false} NameAtCut(h: seq<char>, n: nat, i: nat)
    requires i <= n <= |h| && Terminated(h[..n])
    requires i < n
    ensures NameAt(h[..n], i) == NameAt(h, i)
    decreases n - i
  {
    if h[i] != NUL {
      assert h[..n][i] != NUL;
      assert i + 1 < n;
      NameAtCut(h, n, i + 1);
    }
  }

  lemma {:induction false} StartsCut(h: seq<char>, m: nat, i: nat)
    requires Terminated(h) && m < |h| && i <= m
    requires i in Starts(h, i) && m in Starts(h, i)
    ensures Starts(Shrink(h, m), i) == set a | a in Starts(h, i) && a <= m
    ensures forall a :: a in Starts(Shrink(h, m), i) ==> NameAt(Shrink(h, m), a) == NameAt(h, a)
    decreases |h| - i
  {
    var r := Shrink(h, m);
    NameAtCut(h, |r|, i);
    assert Next(r, i) == Next(h, i);
    if i == m {
      assert Next(h, i) == |r|;
      assert Starts(r, Next(r, i)) == {};
      assert forall a :: a in Starts(h, Next(h, i)) ==> a > m;
    } else {
      assert m in Starts(h, Next(h, i));
      StartsCut(h, m, Next(h, i));
    }
  }

  /** Shrinking at a start keeps exactly the starts up to it, with their names. */
  lemma ShrinkKeeps(h: seq<char>, m: nat)
    requires Terminated(h) && m in Starts(h, 0)
    ensures Starts(Shrink(h, m), 0) == set a | a in Starts(h, 0) && a <= m
    ensures forall a :: a in Starts(h, 0) && a <= m ==> NameAt(Shrink(h, m), a) == NameAt(h, a)
    ensures Distinct(h) ==> Distinct(Shrink(h, m))
  {
    StartsCut(h, m, 0);
  }

  /** Dropping the first `k` bytes of a name gives the name that starts `k` bytes later. */
  lemma {:induction false} NameAtDrop(h: seq<char>, i: nat, k: nat)
    requires i <= |h| && k <= |NameAt(h, i)|
    ensures NameAt(h, i)[k..] == NameAt(h, i + k)
    decreases k
  {
    if k > 0 {
      NameAtDrop(h, i + 1, k - 1);
    }
  }

  /** `strlen(A+i)`: count bytes up to the NUL. */
  method StrLen(h: seq<char>, i: nat) returns (n: nat)
    requires Terminated(h) && i < |h|
    ensures n == |NameAt(h, i)|
  {
    NameAtStops(h, i);
    n := 0;
    while h[i + n] != NUL
      invariant i + n < |h|
      invariant |NameAt(h, i)| == n + |NameAt(h, i + n)|
      decreases |h| - (i + n)
    {
      n := n + 1;
    }
  }

  /** `strcmp(A+i,s) == 0`: byte-wise comparison up to the first difference or NUL. */
  method StrEq(h: seq<char>, i: nat, s: string) returns (eq: bool)
    requires Terminated(h) && i < |h| && NoNul(s)
    ensures eq <==> NameAt(h, i) == s
  {
    NameAtStops(h, i);
    var k := 0;
    while k < |s| && h[i + k] == s[k]
      invariant k <= |s| && k <= |NameAt(h, i)|
      invariant NameAt(h, i)[..k] == s[..k]
      decreases |s| - k
    {
      NameAtDrop(h, i, k);
      assert NameAt(h, i)[k] == h[i + k];
      k := k + 1;
    }
    NameAtDrop(h, i, k);
    eq := k == |s| && h[i + k] == NUL;
    if k == |s| && h[i + k] == NUL {
      assert NameAt(h, i) == NameAt(h, i)[..k] + NameAt(h, i)[k..];
    }
  }

  /**
   * The scanning loop of `atom` as the C writes it: walk from offset 0 by
   * `strlen+1` until the name matches or `hp` is reached; append on a miss.
   * It computes exactly what `Intern` defines.
   */
  /** A name other than `s` is skipped by the search. */
  lemma FindSkips(h: seq<char>, s: string, i: nat)
    requires Terminated(h) && i < |h| && NameAt(h, i) != s
    ensures Find(h, s, i) == Find(h, s, Next(h, i))
  {
  }

  /** The search stops at a name equal to `s`. */
  lemma FindHere(h: seq<char>, s: string, i: nat)
    requires Terminated(h) && i < |h| && NameAt(h, i) == s
    ensures Find(h, s, i) == i
  {
  }

  method InternScan(h: seq<char>, s: string) returns (i: nat, h2: seq<char>)
    requires Terminated(h) && NoNul(s)
    ensures (i, h2) == Intern(h, s)
  {
    i := 0;
    var found := false;
    while i < |h| && !found
      invariant i <= |h|
      invariant found ==> i < |h| && NameAt(h, i) == s
      invariant found || Find(h, s, i) == Find(h, s, 0)
      invariant found ==> i == Find(h, s, 0)
      decreases |h| - i, if found then 0 else 1
    {
      var eq := StrEq(h, i, s);
      if eq {
        FindHere(h, s, i);
        found := true;
      } else {
        var n := StrLen(h, i);
        assert i + n + 1 == Next(h, i);
        FindSkips(h, s, i);
        i := i + n + 1;
      }
    }
    if i == |h| {
      h2 := h + s + [NUL];
    } else {
      h2 := h;
    }
  }
}
