# tinylisp memory manager in Dafny

This project models the memory manager of the tinylisp interpreters and
proves properties of it. Each interpreter keeps Lisp values as NaN-boxed
64-bit words (32-bit in the float variant). Pairs live in one fixed
`cell[N]` array: a pair at index `i` keeps its cdr in `cell[i]` and its
car in `cell[i+1]`. Atom names are interned, NUL-terminated, in a byte
heap that grows up from the bottom of the same array. The interpreters
use two allocators:

- **The stack allocator** of `src/tinylisp*.c`. Pairs are pushed
  downward from `sp`, and `gc()` drops everything pushed since the last
  global `define` by setting `sp = ord(env)`. Environments are lists of
  `(name . value)` pairs, walked by `assoc`, `bind`, `assign` and
  `f_setq`. Both `tinylisp-extras.c` and `tinylisp-float-opt.c` reclaim
  the frames of a self tail call in `eval`.
- **The reference-counted free list** of `proto/*.c`. `alloc`/`cons`
  claim the head of the free list, and `dup`/`gc` count owners. At zero,
  `del`/`collect` push the pair back. A `rebuild` (mark and sweep from
  `env`) recomputes the counts, the free list, `lp` and `hp`.
  `tinylisp-extras-gc.c` adds three things:
  - a cycle detector for `letrec` closures (`cyclic`, `leave`, `scc`,
    `isocyclic`, `isoscc`, `gcscc`), which uses the VISIT/MARKY/MARKZ/MASK
    bits of a second word per pair;
  - a double-free check;
  - an exception registry (`rc`/`rg`/`rr` and the unwind loop of `err`)
    that releases what `eval`'s locals own when an error reaches a
    `catch`.

Modules:

- Values:
  - `Boxing` and `Boxing32` model the 64-bit and 32-bit word layouts.
  - `AtomHeap` models interning.
  - `Scanner` models the tokenizer.
- Stack family:
  - `StackPool` is the stack pool, parametrised by a `Flavor` that holds
    the per-file differences: 64- or 32-bit words, the three-tag or the
    mask pair test, the 16-byte margin, `err` or `abort`, and whether
    `gc` shrinks the atom heap.
  - `StackEnv` and `StackLive` model environments and `bind`.
  - `StackMutate` models `f_setq`, `assign`, `f_setcar` and `f_setcdr`.
  - `StackInit` and `StackInitProps` model `init_tinylisp`.
  - `StackGc` models `gc()`.
  - `TailCall` models the tail-call frame reclamation.
- Counted pools:
  - `RefPool`, `RefRebuild` and `RefBind` model `tinylisp-gc.c` and
    `tinylisp-opt-gc.c`, where counts sit in `ref[i/2]`.
  - `Owners` holds the ownership accounting shared by both counted pools:
    who refers to which pair, and the pool invariant "count = number of
    owners".
- `tinylisp-extras-gc.c`, where the count is in `ref[i]` and the upper
  word in `ref[i+1]`:
  - `RcBits` models the upper word.
  - `RcPool` models `atom`, `cons`, `car`, `cdr`, `dup` and the FREE
    marking.
  - `RcCollect` models `gc`, `collect` and `gcscc`.
  - `RcCycle` models the cycle detector.
  - `RcLetrec` holds the worked letrec heaps.
  - `RcRebuild` models `rebuild`.
  - `Exceptions` models the registry.
  - `RcUnwind` models the unwind of `err` over the pool.

## Model

| member | source | states |
|---|---|---|
| Boxing.Box | src/tinylisp.c:12 | `box(t,i)` keeps only the low 16 bits of the tag, in bits 48 and up, or-ed with a 32-bit ordinal: the tag and ordinal read back are exactly those. |
| Boxing.Tag | src/tinylisp.c:7 | `T(x)` is the upper 16 bits of the word: a tag below 2^16 with `2^48*T(x) <= x < 2^48*(T(x)+1)`. |
| Boxing.Ord | src/tinylisp.c:13 | `ord(x)` is a 32-bit `unsigned`, and a word below 2^32 is its own ordinal. |
| Boxing.OrdTruncates | src/tinylisp.c:13 | `ord(x)` truncates the word to 32 bits: it is below 2^32 and differs from the word by a multiple of 2^32. |
| Boxing.BoxRoundTrip | proto/tinylisp-extras-gc.c:74-75 | For every `t < 2^16` and `i < 2^32`, `T(box(t,i)) = t` and `ord(box(t,i)) = i`. |
| Boxing.EquBoxed | src/tinylisp.c:15 | `equ` on two boxed words holds exactly when both tag and ordinal agree. |
| Boxing.MaskIsPairExactly | src/tinylisp.c:22-23 | The mask test `(T(p)&~(CONS^CLOS)) == CONS` accepts exactly the CONS and CLOS tags. |
| Boxing.MaskBits | proto/tinylisp-gc.c:26-27 | The mask test computed on 16-bit vectors agrees with the arithmetic pair test. |
| Boxing32.Box | src/tinylisp-float-opt.c:12 | In the float layout `box(t,i)` shifts the tag by 20 within 32 bits and ors in the ordinal: the tag reads back modulo 2^12 and the ordinal exactly. |
| Boxing32.BoxRoundTrip | src/tinylisp-float-opt.c:12-13 | For `t < 2^12` and `i < 2^20`, `T(box(t,i)) = t` and `ord(box(t,i)) = i`, so boxing is injective. |
| Boxing32.OrdinalsFit | src/tinylisp-float-opt.c:9 | The bound on N in the comment keeps every cell index and heap offset the interpreter boxes below 2^20. |
| Boxing32.MaskIsPairExactly | src/tinylisp-float-opt.c:22-23 | In the 32-bit layout the mask test accepts exactly CONS and CLOS. |
| AtomHeap.NameAt | src/tinylisp.c:16-20 | The name stored at an offset holds no NUL and lies inside the heap. |
| AtomHeap.Find | src/tinylisp.c:17 | The search loop returns the first name start equal to `s`, or the end of the heap when no name matches. |
| AtomHeap.Intern | proto/tinylisp-extras-gc.c:79-92 | `atom(s)` returns the existing offset of a name already interned and leaves the heap alone. Otherwise it appends `s` and a NUL at `hp`, and the heap grows by `|s|+1`. |
| AtomHeap.InternPreserves | src/tinylisp-commented.c:72-82 | Interning keeps names unique and never moves or changes an existing name. |
| AtomHeap.InternUnique | src/tinylisp-tested.c:59-69 | In a heap without duplicates, the offset `atom` returns is the only start that spells `s`. |
| AtomHeap.InternIdempotent | src/tinylisp-readline.c:84-94 | Interning the same name twice returns the same offset and leaves the heap as the first call left it. |
| AtomHeap.InternTwo | src/tinylisp-opt.c:16-20 | Interning `s` then `t` gives equal offsets exactly when `s == t`, so equal names give bitwise-equal atoms and different names different ones. |
| AtomHeap.Shrink | src/tinylisp-extras.c:388-392 | `hp = max; hp += strlen(A+hp)+1`: the shrunk heap is a prefix of the old one, still NUL-terminated, that ends past the offset of the highest atom still referenced. |
| AtomHeap.ShrinkKeeps | src/tinylisp-extras.c:390-391 | Shrinking at a name start keeps exactly the starts up to it, each with its name. |
| AtomHeap.PrefixKeeps | proto/tinylisp-gc.c:19-22 | Growing the heap at its end never moves or changes an existing name. |
| AtomHeap.StrLen | src/tinylisp.c:18 | `strlen(A+i)` counts the bytes before the NUL, so the name at `i` has that length. |
| AtomHeap.StrEq | src/tinylisp.c:17 | `strcmp(A+i,s) == 0` holds exactly when the name at `i` is `s`. |
| AtomHeap.InternScan | src/tinylisp-float-opt.c:16-20 | The loop of `atom`, written with `strlen`/`strcmp`, returns the offset `Intern` defines and the same heap. |
| Scanner.Look | src/tinylisp-tested.c:286 | `look` advances one character and answers EOF at the end of the input. |
| Scanner.Scan | src/tinylisp-tested.c:305-316 | `scan` always returns a token of at least one character (the character it returns); `ScanReads` says which. |
| Scanner.ScanReads | src/tinylisp-tested.c:306-314 | `scan` skips characters 1..32. A parenthesis or quote is a token of its own. Otherwise the token is the longest run (at most `cap - 1` characters) ending before a parenthesis, white space or EOF; a quote inside it does not end it. |
| Scanner.ScanLetterBeforeParen | src/test-tl-tested.c:53-56 | `"a      ("` reads as the token `a`. |
| Scanner.ScanParenAlone | src/test-tl-tested.c:53-56 | `"(        )"` reads as the token `(` alone. |
| Scanner.ScanQuoteInside | src/test-tl-tested.c:57 | The test input `ao%vq"'(#` reads as the token `ao%vq"'`: a quote inside a token does not end it; the parenthesis does. |
| Scanner.ScanAtEnd | src/tinylisp-readline.c:353-362 | A token at the end of the input is read whole: EOF ends it. |
| StackPool.Atom | src/tinylisp.c:16-20 | `atom` leaves the cells, `sp` and `env` alone and only appends to the heap. It fails with the file's out-of-memory fault exactly when a new name pushes `hp` past `sp<<3` (`sp<<2` with 4-byte cells), and the append stays. On success the word is an ATOM that names `s`. |
| StackPool.Cons | src/tinylisp-extras.c:86 | `cons` lowers `sp` by 2, stores the car at `sp+1` and the cdr at `sp`, and changes no other cell. It fails exactly when `hp + margin > sp<<3`: margin 16 in tinylisp-extras.c, 4-byte cells in the float variant, `abort` or `err(4)` by file. The pushes survive a failure. With `sp < 2` it fails with `Overrun` instead of writing below `cell[0]`. |
| StackPool.Car | src/tinylisp.c:22 | `car` of a pair word is the cell above its index. Otherwise it is the ERR atom, or `err(1)` in tinylisp-extras.c, whose test also accepts MACR. |
| StackPool.Cdr | src/tinylisp-extras.c:90 | `cdr` of a pair word is the cell at its index. Otherwise it is the ERR atom, or `err(1)`. |
| StackPool.CarCdrCons | src/tinylisp-commented.c:85-101 | `car` and `cdr` of the pair `cons(x,y)` returns give back `x` and `y`. |
| StackPool.ConsKeepsWf | src/tinylisp-readline.c:99-105 | A successful `cons` of words that refer inside the array keeps the pool well formed and returns such a word. |
| StackPool.ConsKeepsHeapBelow | src/tinylisp-tested.c:74-80 | After a successful `cons` the heap (plus margin) stays below `sp<<3`. |
| StackPool.Pair | src/tinylisp.c:24 | `pair(v,x,e)` lowers `sp` by 4: `(v . x)` sits above the new list cell whose cdr is `e`. Cells outside the four pushed ones are unchanged. |
| StackPool.Closure | src/tinylisp.c:25 | `closure` returns a CLOS word on `((v . x) . e')`, where `e'` is nil when `e` is the global `env`. It fails exactly when the `pair` fails. |
| StackPool.Let | src/tinylisp-opt.c:28 | `let(x)` is 1 exactly when `x` and `cdr(x)` are both non-nil. |
| StackPool.Gc | src/tinylisp.c:93 | `gc()` sets `sp = ord(env)` and keeps every cell. The heap is untouched, except in tinylisp-extras.c, where it is cut after the highest atom a remaining cell holds. The pool stays well formed. |
| StackPool.MaxAtom | src/tinylisp-extras.c:390 | The scan of `gc` finds an upper bound of every ATOM offset in `cell[sp..N)`, and that bound is attained (or is 0). |
| StackGc.GcKeepsLive | src/tinylisp-opt.c:118 | After `gc()` the global environment and everything it refers to lie in the live region, provided they referred only among themselves. |
| StackGc.GcThenPair | src/tinylisp-commented.c:448-450 | The cells `gc()` drops are the ones the next `pair` reuses. The global environment reads the same before `gc()` and after that push, so no live binding is lost. |
| StackGc.PairOnLive | src/tinylisp-readline.c:425 | A pair pushed on a live list leaves the list as it was and extends it by one binding. |
| StackGc.GcShrinkKeepsNames | src/tinylisp-extras.c:388-392 | The heap shrink keeps every name a remaining cell refers to, at the same offset and with the same spelling. |
| StackEnv.Seek | src/tinylisp-extras.c:98 | The walk shared by `assoc`, `f_setq` and `assign` stops at a binding cell whose name is `v`; where the file raises, a cell on the way that is not a pair stops it with `err(1)`. |
| StackEnv.SeekIsLookup | src/tinylisp-extras.c:163 | The walk finds the innermost binding of `v`, and misses exactly when `v` is unbound. |
| StackEnv.Assoc | src/tinylisp-readline.c:120-123 | `assoc` returns a value in the files that answer ERR, and raises only `err(1)` or `err(2)` in tinylisp-extras.c; `AssocIsLookup` says which value. |
| StackEnv.AssocIsLookup | src/tinylisp.c:26 | `assoc` agrees with the reference lookup on every environment: the innermost binding's value, and the unbound answer exactly when there is none. |
| StackLive.Bind | src/tinylisp.c:56 | `bind(v,t,e)` keeps every cell of the live region as it was and closed, and returns an environment above it; it fails only by `abort` or by running out of cells. |
| StackLive.BindDecodes | src/tinylisp-commented.c:311-315 | The environment `bind` returns reads as the new bindings, in order, followed by the bindings of `e`. |
| StackLive.BindUnfold | src/tinylisp-tested.c:255 | `bind` over a variable list is one pushed pair followed by `bind` over the rest. |
| StackLive.ConsKeepsLive | src/tinylisp-readline.c:280 | A `cons` of live values keeps the live region as it was and closed. |
| StackLive.PairKeepsLive | src/tinylisp.c:24 | A `pair`, whether it succeeds or fails, keeps the live region as it was and closed. |
| StackLive.PushFrame | src/tinylisp-opt.c:24 | Pushing one binding on a live environment adds it at the front of the bindings. |
| StackMutate.Write | src/tinylisp-extras.c:164 | Overwriting one cell changes that cell only. |
| StackMutate.WriteThenAssoc | src/tinylisp-extras.c:163-164 | After overwriting an unread value cell, `assoc` returns the new value for the name bound there and the old answer for every other name. |
| StackMutate.Setq | src/tinylisp-extras.c:161-165 | `f_setq` overwrites the value of `v`'s innermost binding. It fails with `err(2)` exactly when `v` is unbound, and with `err(1)` when a binding on the way is not a pair. |
| StackMutate.SetqThenAssoc | src/tinylisp-extras.c:161-165 | After a successful `setq`, `v` looks up to the new value and every other name to what it did before. |
| StackMutate.Assign | src/tinylisp-extras.c:263 | `assign` overwrites the value cell of the innermost binding of a bound `v`. |
| StackMutate.AssignThenAssoc | src/tinylisp-float-opt.c:68 | After `assign`, `v` looks up to `x` and every other name to what it did before. |
| StackMutate.SetCar | src/tinylisp-extras.c:166-169 | `f_setcar` overwrites the car of a CONS. Any other word gives `err(1)`, closures and macros included. |
| StackMutate.SetCdr | src/tinylisp-extras.c:170-173 | `f_setcdr` overwrites the cdr of a CONS, and gives `err(1)` otherwise. |
| StackInit.Init | src/tinylisp-tested.c:392-405 | A successful `init_tinylisp` returns `env`, leaves `sp` exactly four cells per binding below N (the 20 primitives and `(#t . #t)`, 21 bindings), and has ERR interned at offset 0. |
| StackInit.AtomGrows | src/tinylisp-tested.c:59-69 | `atom` only appends: every existing name keeps its offset and spelling. |
| StackInitProps.InitAlike | src/tinylisp-tested.c:392-396 | The old cells, `sp`, heap and `env` do not matter: two pools of the same size end in the same state up to dead cells, or both fail. |
| StackInitProps.InitTwice | src/tinylisp-tested.c:392-405 | Calling `init_tinylisp` twice gives the state one call gives. |
| StackInitProps.InitDecodes | src/tinylisp-tested.c:397-404 | After a successful init, `env` holds exactly 21 bindings: the primitives from `define` back to `eval`, each bound to `box(PRIM,i)`, then `(#t . #t)`. |
| TailCall.AssignLookup | src/tinylisp-extras.c:263 | After `assign`, a bound `v` looks up to `x` and every other name as before. |
| TailCall.Pop | src/tinylisp-extras.c:304 | The second loop pops entries while each is at the stack top (`sp == ord(d)`) and is not the stop entry. `sp` rises by 4 per entry. |
| TailCall.PopAssign | src/tinylisp-extras.c:302 | The first loop as written pops each new entry at the stack top and `assign`s its value into `e`, at the first binding of the name there. |
| TailCall.Assign | src/tinylisp-extras.c:263 | `assign` changes only values: every entry keeps its name and cell (`AssignLookup` says which value). |
| TailCall.TailAsWritten | src/tinylisp-extras.c:300-305 | Both loops as written: the body's environment is a suffix of the entries with the same names and cells, and `sp` has risen by four cells per entry popped. |
| TailCall.TailFixed | src/tinylisp-extras.c:300-305 | The corrected loops (pop first, then assign): the same suffix and `sp` bounds as the code as written (`TailFixedStacked` says what the parameters hold). |
| TailCall.AssignAllLookup | src/tinylisp-extras.c:302 | After `assign`ing bound entries with distinct names, each name looks up to its entry's value and every other name as before. |
| TailCall.PopAssignStacked | src/tinylisp-extras.c:302 | With the new entries stacked on top, the first loop pops them all and amounts to `assign`ing each into `e`, innermost first. |
| TailCall.TailAsWrittenStacked | src/tinylisp-extras.c:300-306 | With the new entries and let-locals stacked on top, the code as written pops them all. The body runs in `h`, updated by `assign`s that went through the let-locals first. |
| TailCall.TailFixedStacked | src/tinylisp-extras.c:295-307 | The corrected loops pop every new entry and let-local. The body runs in `h`, where each parameter looks up to its new value and every other name as before. |
| TailCall.TailAsWrittenUnshadowed | src/tinylisp-float-opt.c:86-88 | When no let-local is named after a parameter, the code as written and the corrected order give the same environment and `sp`. |
| TailCall.TailAsWrittenLosesUpdate | src/tinylisp-extras.c:302-304 | A let-local `n` that shadows the parameter `n` takes the new value and is then popped. The parameter keeps its old value, so the update is lost. |
| Owners.Ref | proto/tinylisp-gc.c:33 | The references a word carries: one to its pair when it is CONS or CLOS (and MACR in tinylisp-extras-gc.c), none otherwise. |
| Owners.RefsUnion | proto/tinylisp-gc.c:35 | The references held by the slots of a set of pairs add up over disjoint sets. |
| Owners.RefsClaim | proto/tinylisp-gc.c:25 | Claiming an unused pair and filling its slots adds exactly the references of the two stored words. |
| Owners.RefsDrop | proto/tinylisp-gc.c:34-35 | Removing a pair from the used set removes exactly its two slots' references. |
| Owners.UsedPush | proto/tinylisp-gc.c:34 | The free list and the used pairs partition the proper pairs. |
| Owners.PushFree | proto/tinylisp-gc.c:34 | Pushing a used pair keeps the free list well formed. |
| Owners.RefsUnused | proto/tinylisp-gc.c:35 | Under the invariant no used pair and no root refers to a pair that is not used. |
| Owners.DelClosed | proto/tinylisp-opt-gc.c:34-35 | Freeing a used pair that only the released root refers to keeps the other used pairs closed, with its slots as the new roots. |
| RefPool.Alloc | proto/tinylisp-gc.c:23-24 | `alloc` pops `fp`, sets the count to 1 and decrements `fn`. It lowers `lp` to `min(lp,i)` and then raises `err(4)` when `hp > lp<<3`, after the claim. |
| RefPool.Atom | proto/tinylisp-opt-gc.c:18-22 | `atom` interns `s`. A new name that pushes `hp` past `lp<<3` raises the out-of-memory error, and the append stays. |
| RefPool.AtomKeeps | proto/tinylisp-gc.c:19-22 | A successful `atom` keeps the pool invariant and the heap below the pairs, and no earlier name moves. |
| RefPool.Cons | proto/tinylisp-gc.c:25 | `cons` stores the car at `cell[i+1]` and the cdr at `cell[i]` of the pair `alloc` claimed. |
| RefPool.Car | proto/tinylisp-gc.c:26 | `car` of a CONS or CLOS is the cell above it. Otherwise it is `err(1)` (tinylisp-gc.c) or the ERR atom (tinylisp-opt-gc.c). |
| RefPool.Cdr | proto/tinylisp-opt-gc.c:26-27 | `cdr` of a CONS or CLOS is the cell at it. Otherwise it is `err(1)` or the ERR atom. |
| RefPool.CarCdrCons | proto/tinylisp-gc.c:25-27 | `car` and `cdr` of a fresh pair give back what `cons` stored. |
| RefPool.AssocRaisesUnbound | proto/tinylisp-gc.c:30 | `assoc` returns the innermost binding's value, and raises `err(2)` exactly when `v` is unbound. |
| RefPool.Assoc | proto/tinylisp-gc.c:30 | `assoc` on the reference-counted pool raises only `err(1)` or `err(2)` (`AssocRaisesUnbound` says when). |
| RefPool.Dup | proto/tinylisp-gc.c:33 | `dup` adds one to the count of a CONS or CLOS and returns its argument; any other word changes nothing. |
| RefPool.Del | proto/tinylisp-gc.c:34 | `del(i)` links `i` to the old `fp`, makes it the head and adds one to `fn`. |
| RefPool.Gc | proto/tinylisp-opt-gc.c:35 | `gc` never raises and of a non-pair changes nothing; it leaves the cells, the heap and `lp` alone (`GcReleases` says what it frees). |
| RefPool.ConsKeeps | proto/tinylisp-gc.c:24-25 | A successful `cons` claims the free-list head. The new pair owns the references in `x` and `y`, the caller owns it once, and the invariant "count = number of owners" holds. |
| RefPool.DupKeeps | proto/tinylisp-opt-gc.c:33 | `dup` of a live value adds one owner and keeps the invariant. |
| RefPool.DecKeeps | proto/tinylisp-gc.c:35 | A release that leaves the count positive drops one root and keeps the invariant. |
| RefPool.DelKeeps | proto/tinylisp-gc.c:34-35 | A release that reaches zero frees a pair only the released root held. Pushing it and handing its slots' references to the caller keeps the invariant. |
| RefPool.GcReleases | proto/tinylisp-gc.c:35 | Given enough fuel `gc` finishes without error, and the invariant holds with the released root gone. The pairs it frees go on the free list, and `fn` grows by their number. |
| RefRebuild.Mark | proto/tinylisp-gc.c:100 | `mark(x)` only ever raises counts from zero, never back, and leaves the pair `x` refers to counted. |
| RefRebuild.MarkCounts | proto/tinylisp-gc.c:100 | `mark(x)` adds to each pair's entry its reference from `x`, plus one per slot of a newly marked pair that refers to it. |
| RefRebuild.MarkCloses | proto/tinylisp-opt-gc.c:138 | `mark(x)` marks the pair `x` refers to and every pair that a slot of a marked pair refers to. |
| RefRebuild.MarkedCounted | proto/tinylisp-gc.c:106 | On zeroed counts, `mark(env)` marks only proper pairs. Each count is its number of owners (slots of marked pairs, plus `env`), and the marked set is closed. |
| RefRebuild.SweepTop | proto/tinylisp-gc.c:102 | The first loop of `sweep` finds the highest atom offset in a cell of a marked pair, or 0. |
| RefRebuild.Trim | proto/tinylisp-gc.c:103 | `hp += strlen(A+hp)+1`: the cut heap is a prefix that ends past `top`, keeps every name up to `top` where it was, and is the single NUL when the heap was empty. |
| RefRebuild.SweptMembers | proto/tinylisp-gc.c:104 | After the pairs below `i`, the free list holds exactly the unmarked ones. |
| RefRebuild.SweepFree | proto/tinylisp-opt-gc.c:139-143 | The sweep loop over the even indices from 2 computes the free list and `lp` that `SweepTo` defines. |
| RefRebuild.Swept | proto/tinylisp-gc.c:101-105 | After `sweep` the free list holds exactly the unmarked pairs, highest first. Marked pairs keep their counts from `mark`, `lp` is the lowest marked pair or N-2, and `fn` is one more than the number of free pairs. |
| RefRebuild.Rebuild | proto/tinylisp-gc.c:106 | `rebuild` zeroes the counts, marks from `env` and sweeps. The pool satisfies the invariant with `env` its one root, and the cut heap keeps the name of every atom a used pair holds. |
| RefRebuild.NamesKept | proto/tinylisp-gc.c:102-103 | Cutting the heap after the highest atom of a marked pair keeps the name of every atom a marked pair holds. |
| RefRebuild.SweptNothing | proto/tinylisp-gc.c:106 | With `env` not a pair (the first `rebuild`), every pair is free and `lp` is N-2. |
| RefBind.ConsOwns | proto/tinylisp-gc.c:25 | On success `cons(x,y)` claims the free-list head, which now holds both references, and the caller owns the new pair instead. On failure it raises `err(4)`. |
| RefBind.Push | proto/tinylisp-gc.c:28 | `pair(v,dup(x),e)` keeps the heap and the sizes of the cell and count arrays (`PushOwns`, `PushWrites` say what it claims and who owns what). |
| RefBind.PushOwns | proto/tinylisp-gc.c:28 | A successful push claims the first two free pairs. The reference to `e` moves into the new pair, and the caller owns the new pair instead. |
| RefBind.PushWrites | proto/tinylisp-gc.c:28 | A push writes only the two claimed pairs. Every pair used before keeps its slots, and `x` gains exactly one owner. |
| RefBind.Bind | proto/tinylisp-gc.c:63 | `bind` keeps the heap and the sizes of the cell and count arrays (`BindOwns`, `BindCounts`, `BindArity` say what it binds and owns). |
| RefBind.BindOwns | proto/tinylisp-gc.c:63 | A successful `bind` moves the caller's reference to `e` into the environment it returns, which the caller owns instead. Nothing used before changes. |
| RefBind.BindCounts | proto/tinylisp-gc.c:63 | Every value `bind` binds gains exactly one owner. Pairs used before carry their old counts plus those references. |
| RefBind.BindArity | proto/tinylisp-gc.c:63 | `bind` fails exactly when the variables outnumber the arguments (`err(1)`) or a `cons` runs out of memory (`err(4)`). |
| RefBind.Enter | proto/tinylisp-gc.c:64 | The entry of `reduce` keeps the heap and the array sizes (`EnterOwns`, `EnterCounts` say what it owns). |
| RefBind.EnterOwns | proto/tinylisp-gc.c:64 | A successful entry leaves the caller's ownership as it was, plus the new environment. Nothing used before changes. |
| RefBind.EnterCounts | proto/tinylisp-gc.c:64 | After a successful entry the environment the closure extends gains exactly one owner, and each bound value one per binding. |
| RefBind.ReduceReleases | proto/tinylisp-gc.c:64 | The exit of `reduce`: `gc(e)` then `gc(t)` release the new environment and the argument list. The invariant holds with exactly those two roots gone. |
| RcBits.Definitions | proto/tinylisp-extras-gc.c:151 | FREE is `~0` and VISIT is `~(FREE>>1)`. MARKY and MARKZ are the next two bits, MARK is their union, and MASK is every lower bit. |
| RcBits.FreeFlags | proto/tinylisp-extras-gc.c:151 | FREE carries every flag, so a word without VISIT or without a mark is not FREE. |
| RcBits.UnvisitSetVisit | proto/tinylisp-extras-gc.c:176 | Clearing VISIT undoes setting it on a word that did not carry it. |
| RcBits.Fields | proto/tinylisp-extras-gc.c:151 | A word is determined by its three flags and its MASK count. |
| RcPool.Atom | proto/tinylisp-extras-gc.c:79-92 | `atom` finds `s`, or appends it and raises `err(4)` when the heap then reaches past `lp<<3`. |
| RcPool.AtomKeeps | proto/tinylisp-extras-gc.c:79-92 | A successful `atom` keeps the pool invariant and the heap below the pairs, and no earlier name moves. |
| RcPool.Cons | proto/tinylisp-extras-gc.c:111-120 | `cons` lowers `lp` to the head `i`. When `hp > lp<<3` it raises `err(4)` before touching the list, counts or cells. Otherwise `fp` becomes `ref[i]`, `ref[i] = 1`, `ref[i+1] = 0` and `fn` drops by one; the car goes in `cell[i+1]` and the cdr in `cell[i]`. |
| RcPool.Car | proto/tinylisp-extras-gc.c:122 | `car` of a CONS, CLOS or MACR is the cell above it. Otherwise it is `err(1)`. |
| RcPool.Cdr | proto/tinylisp-extras-gc.c:124 | `cdr` of a CONS, CLOS or MACR is the cell at it. Otherwise it is `err(1)`. |
| RcPool.CarCdrCons | proto/tinylisp-extras-gc.c:111-124 | `car` and `cdr` give back what `cons` stored, and CLOS and MACR words of the same pair answer alike. |
| RcPool.Dup | proto/tinylisp-extras-gc.c:139-147 | `dup` adds one owner for a CONS, CLOS or MACR and returns its argument. Any other word changes nothing. |
| RcPool.Reclaim | proto/tinylisp-extras-gc.c:248-249 | Reclaiming pair `i` links it to the old `fp`, makes it the head, adds one to `fn` and sets its upper word to FREE. |
| Owners.Dec | proto/tinylisp-extras-gc.c:240 | The decrement of an `unsigned` count (`--ref[i]`, also in tinylisp-gc.c and tinylisp-opt-gc.c): 0 wraps to 2^32-1, and for a 32-bit count an increment modulo 2^32 gives the count back. |
| RcPool.ConsKeeps | proto/tinylisp-extras-gc.c:111-120 | A successful `cons` claims the free-list head for a pair that owns `x` and `y` and is owned once, by the caller. The invariant holds, with the claimed pair off the list and its upper word 0. |
| RcPool.DupKeeps | proto/tinylisp-extras-gc.c:139-147 | `dup` of a live value adds one owner and keeps the invariant. |
| RcCollect.Gc | proto/tinylisp-extras-gc.c:148 | `gc` of a word that is not CONS, CLOS or MACR changes nothing. |
| RcCollect.Collect | proto/tinylisp-extras-gc.c:233-256 | `collect` of a pair whose upper word is already FREE raises `err(4)` (double free). Cells, heap and `lp` never change. |
| RcCollect.Isolated | proto/tinylisp-extras-gc.c:241-243 | When the count stays positive, a pair without MARKY/MARKZ is left as it is. |
| RcCollect.Release | proto/tinylisp-extras-gc.c:250-255 | The slots of a freed pair: with neither slot a pair nothing happens; otherwise the car is released by recursion and the cdr by going on. |
| RcCollect.Gcscc | proto/tinylisp-extras-gc.c:214-230 | `gcscc` stops at a FREE word and leaves the pool as it is. |
| RcCollect.SlotsPlain | proto/tinylisp-extras-gc.c:250-255 | The release loop of `collect` amounts to `gc` of the car followed by `gc` of the cdr. |
| RcCollect.GcPlain | proto/tinylisp-extras-gc.c:233-256 | On a pool where `letrec` marked no cycle, `gc` is the plain reference counting of tinylisp-gc.c, and the pool stays unmarked. |
| RcCollect.QuietGc | proto/tinylisp-extras-gc.c:233-256 | On a pool with no cycle marks, given enough fuel, `gc` releases one reference without error. The invariant holds with that root gone, free pairs stay marked FREE, and the heap stays below the pairs. |
| RcCollect.GcReleases | proto/tinylisp-extras-gc.c:148 | `gc` keeps the invariant "count = number of owners, FREE exactly on the free list" on a pool with no cycle marks. |
| RcCollect.DecKeeps | proto/tinylisp-extras-gc.c:240 | A release that leaves the count above zero keeps the invariant with that root gone. |
| RcCollect.ReclaimKeeps | proto/tinylisp-extras-gc.c:246-249 | A release that reaches zero frees a pair only the released root held. Reclaiming it and handing its slots' references to the caller keeps the invariant. |
| RcCycle.Leave | proto/tinylisp-extras-gc.c:171-181 | `leave` always ends and never sets a VISIT bit: the visited pairs afterwards are among those before. |
| RcCycle.LeaveClears | proto/tinylisp-extras-gc.c:171-181 | `leave` only clears VISIT bits; marks and counts stay as they were. |
| RcCycle.LeaveLeaves | proto/tinylisp-extras-gc.c:176 | A `leave` that returns leaves its starting pair unvisited. |
| RcCycle.Isocyclic | proto/tinylisp-extras-gc.c:191-204 | `isocyclic` always ends and never clears a VISIT bit: the unvisited pairs afterwards are among those before. |
| RcCycle.IsocyclicAdmits | proto/tinylisp-extras-gc.c:191-204 | `isocyclic` only sets VISIT, and only on pairs whose count is at most their cyclic count. |
| RcCycle.IsocyclicRefuses | proto/tinylisp-extras-gc.c:195 | A false answer names a pair, left unvisited, that more owners hold than its cyclic paths account for. |
| RcCycle.IsocyclicVisits | proto/tinylisp-extras-gc.c:191-204 | A true answer leaves the start pair visited. |
| RcCycle.Isoscc | proto/tinylisp-extras-gc.c:206-212 | A pair without MARKY/MARKZ answers false and changes nothing; a marked one runs `isocyclic` and then `leave`, which always end. |
| RcCycle.IsosccKeepsMarks | proto/tinylisp-extras-gc.c:206-212 | `isoscc` changes upper words only in their VISIT bit: every mark and cyclic count stays. |
| RcCycle.IsosccAnswers | proto/tinylisp-extras-gc.c:206-212 | After `isoscc` the start pair is unvisited, and a true answer means its count did not exceed its cyclic count. |
| RcCycle.Through | proto/tinylisp-extras-gc.c:164-167 | The end of `cyclic` for pair `j`: the path is cyclic exactly when `j` is the origin or already visited, and no other pair's word changes. |
| RcCycle.Cyclic | proto/tinylisp-extras-gc.c:154-169 | `cyclic` as written never strays and keeps the number of words; it reports a cyclic path only through a pair. On the letrec heap it runs out of any depth (`SccSpins`). |
| RcCycle.CyclicOnce | proto/tinylisp-extras-gc.c:154-169 | The corrected `cyclic`, which does not re-enter a pair under exploration, always ends with an answer: it never runs out of depth. |
| RcCycle.Scc | proto/tinylisp-extras-gc.c:183-188 | `scc` as written keeps the number of words; on the letrec heap it does not end (`SccSpins`). |
| RcCycle.SccOnce | proto/tinylisp-extras-gc.c:183-188 | `scc` over the corrected walk always ends. |
| RcCycle.CyclicOnceTouches | proto/tinylisp-extras-gc.c:157 | The corrected walk leaves alone every pair whose upper word is neither 0 nor visited, for example the marks and counts of another component. |
| RcCycle.ClosureSpins | proto/tinylisp-extras-gc.c:158-160 | On the `letrec*`/`let*`/`setq` heap, the walk from the closure re-enters the closure three levels down with its word unchanged. |
| RcCycle.SccSpins | proto/tinylisp-extras-gc.c:154-169 | On that heap `scc` as written does not end: it runs out of every fuel. |
| RcCycle.SccOnceEnds | proto/tinylisp-extras-gc.c:183-188 | With the fix, the walk ends on the same heap and marks the cycle E1 -> (f . C) -> C -> E2 -> E1, E1 with MARKY and the other three with MARKZ, one cyclic path each, with no VISIT left. |
| RcCycle.InnerSlotUnmarked | proto/tinylisp-extras-gc.c:160-167 | The marks are not "every slot leading back to the origin". The cdr of `(x . C)` leads back to E1 on marked pairs, yet that pair stays unmarked. |
| RcCycle.LeaveFromOrigin | proto/tinylisp-extras-gc.c:171-181 | On that heap, `leave` from E1 follows the marks round the cycle and clears each VISIT. |
| RcLetrec.LoopIsoscc | proto/tinylisp-extras-gc.c:206-212 | On the heap `(letrec (f (lambda () f)) ...)` leaves, with E's cdr the enclosing environment D, every count admits, and the marks come back unvisited. |
| RcLetrec.LoopGcscc | proto/tinylisp-extras-gc.c:214-230 | `gcscc` from the environment frees E. E's cdr D lies outside the component, so the `collect(x), x = y` branch drops E's reference to D, which keeps its other root. It then frees `(f . C)` and C along the marks, hands C's unmarked car to `collect`, which frees it too, and ends at the FREE word of E. |
| RcLetrec.BeforeInv | proto/tinylisp-extras-gc.c:382-389 | The pool `letrec` leaves satisfies the invariant: E's cdr is the enclosing environment D, owned by E and one more root; C is owned by `(f . C)` and by the extra roots its count names. |
| RcLetrec.AfterInv | proto/tinylisp-extras-gc.c:246-249 | After the release the free list runs 8, 6, 4, 2, only the enclosing environment D is used, and the invariant holds with its other root. |
| RcLetrec.LoopCollected | proto/tinylisp-extras-gc.c:233-243 | Releasing the caller's last reference to the letrec environment: the count drops to its one cyclic path, `isoscc` admits, and `gcscc` frees the whole component and the code only it held. E's reference to the enclosing environment D is released (count 2 to 1), and the invariant holds afterwards. |
| RcLetrec.StaleCountFrees | proto/tinylisp-extras-gc.c:195 | With a cyclic count of 2 on C and a second root holding C, `isoscc` still admits and `gcscc` frees C. Afterwards no free list makes the pool sound. |
| RcLetrec.Released | proto/tinylisp-extras-gc.c:240-243 | `gc` of E drops its count to 1, `isoscc` answers true, and `gcscc` runs. |
| RcLetrec.RootFree | proto/tinylisp-extras-gc.c:246 | A pool in which a root refers to a FREE pair is not sound, whatever the free list. |
| RcRebuild.Snapshot | proto/tinylisp-extras-gc.c:292 | The first loop saves each count in the upper word and zeroes the count. |
| RcRebuild.Clear | proto/tinylisp-extras-gc.c:307-308 | After the reset no used pair has a cycle mark or cyclic count. |
| RcRebuild.MarkFree | proto/tinylisp-extras-gc.c:308 | The last loop follows the free list from `fp` and marks each upper word on it FREE. |
| RcRebuild.Rebuild | proto/tinylisp-extras-gc.c:291-310 | The pool `rebuild` leaves satisfies the invariant with `env` its one root. Used pairs are those `mark(env)` reached, with its counts. Upper words are FREE exactly on the free list and 0 elsewhere, and `xb = xp = NULL`. |
| RcRebuild.RebuiltInv | proto/tinylisp-extras-gc.c:291-310 | After `rebuild` the invariant holds with `env` as root, and no used pair carries a mark. |
| RcRebuild.RebuiltCounts | proto/tinylisp-extras-gc.c:268-290 | The counts `sweep` keeps, read at `ref[i]`, count the owners of every used pair. |
| RcRebuild.RebuiltMarks | proto/tinylisp-extras-gc.c:307-308 | Upper words are FREE exactly on the free list and 0 on every other pair. |
| RcRebuild.SnapshotAgrees | proto/tinylisp-extras-gc.c:296-306 | When the counts were exact with `env` as the one root and `mark(env)` reaches every used pair, the saved and new counts agree on every used pair. |
| Exceptions.Rc | proto/tinylisp-extras-gc.c:259 | `rc` only assigns while no `catch` is active. Otherwise it pushes the variable, and raises `err(4)` exactly when 5*K entries are registered. |
| Exceptions.Rr | proto/tinylisp-extras-gc.c:265 | `rr(k)` drops the top `k` registrations without releasing them; it does nothing while no `catch` is active. |
| Exceptions.RcAll | proto/tinylisp-extras-gc.c:487 | Registering several variables in turn stops at the first `err(4)` and keeps `xb`. |
| Exceptions.RcAllOutcome | proto/tinylisp-extras-gc.c:259 | Registering `vs` fails exactly when a `catch` is active and fewer than `|vs|` entries are free. Otherwise it pushes `vs` in order. |
| Exceptions.RcRr | proto/tinylisp-extras-gc.c:259-265 | `rr(|vs|)` after registering `vs` gives back the registry as it was, so registrations pop LIFO. |
| Exceptions.EvalBalanced | proto/tinylisp-extras-gc.c:484-537 | `eval` registers its five locals on entry, and `rr(5)` on a normal exit restores the registry. Entry raises `err(4)` exactly when a `catch` is active and fewer than five entries are free. |
| Exceptions.Enter | proto/tinylisp-extras-gc.c:420-430 | `catch` starts the registry if needed and sets `xb = xp`, so nothing is pending. |
| Exceptions.Unwind | proto/tinylisp-extras-gc.c:106 | `err` pops every registration above `xb`, most recent first, and leaves `xp == xb`. |
| Exceptions.UnwindToCatch | proto/tinylisp-extras-gc.c:99-108 | An error inside a `catch` releases exactly what was registered after the `catch` was entered, and leaves the registry as `catch` set it up. |
| Exceptions.Catch | proto/tinylisp-extras-gc.c:420-430 | `catch` restores the pointers. Given what `setjmp` returned, it returns the value for 0, rethrows `err(4)`, and turns any other code into `(ERR . code)`. |
| Exceptions.Landed | proto/tinylisp-extras-gc.c:107 | What `setjmp` returns after `longjmp(jb,i)`: never 0, `i` for `i != 0`, and 1 for `i == 0`. |
| Exceptions.ThrowCaught | proto/tinylisp-extras-gc.c:426-431 | A thrown error never reaches `catch` as a normal return: `(throw 0)` answers `(ERR . 1)`, and a code other than 0 and 4 answers `(ERR . code)`. |
| RcUnwind.ReleaseExact | proto/tinylisp-extras-gc.c:106 | On a pool with no cycle marks and given enough fuel: when the invariant counts the references the popped values hold as roots, the loop raises nothing, keeps the error code, and releases exactly those roots. |
| RcUnwind.ErrReleasesPending | proto/tinylisp-extras-gc.c:99-108 | `err` inside a `catch`, on a pool with no cycle marks and given enough fuel: when each registration above `xb` holds one counted reference, the unwind releases exactly those and leaves `xp == xb`. |
| RcUnwind.Release | proto/tinylisp-extras-gc.c:106 | The release loop of `err` keeps the cells; with nothing popped it keeps the pool and the code (`ReleaseExact` says what it releases). |
| RcUnwind.OperatorAsWritten | proto/tinylisp-extras-gc.c:496 | The frame as written while the operator is evaluated: after `g = f`, `f` still holds the previous operator. |
| RcUnwind.OperatorAsWrittenFreesTwice | proto/tinylisp-extras-gc.c:496 | As written, an error raised while evaluating the operator releases the previous closure twice. The second `gc` meets its FREE word and raises `err(4)` in place of the original code. |
| RcUnwind.Operator | proto/tinylisp-extras-gc.c:496 | The corrected step: `g` takes over the reference `f` held, and `f` holds nothing until the new operator is assigned. |
| RcUnwind.OperatorReleasesExactly | proto/tinylisp-extras-gc.c:484-500 | With the corrected step, on a pool with no cycle marks and given enough fuel, an error raised by the operator's evaluation releases exactly the references the frame owns, and keeps its code. |

## Left out

- Console and file I/O is not modelled: `look`/`get`/`readline`, `print`, `trace`, `f_load`/`f_read`/`f_print`, the REPL loops, `stop`, the `LOG` output, and the diagnostic printing in `rebuild`. `Scanner` reads from a character sequence in place of the input stream.
- `setjmp`/`longjmp` are modelled as outcome values (`Fail`, `Raise`, `Throw`) that carry the state at the throw. C globals that a `longjmp` leaves mutated appear in that state.
- The atom heap is a byte sequence beside the cell array, not inside it. The collision checks (`hp > sp<<3`, `hp > lp<<3`) are modelled, but so is the write that precedes them. The cells that a failing write would overwrite in C are not.
- StackInit.Init: the look-ahead `see = ' '` that `init_tinylisp` also resets belongs to the reader and is not modelled.
- Floating-point arithmetic (`f_add` … `f_int`, `f_lt`) and number parsing are not modelled; numbers are opaque words.
- `src/lisp850.c` and `src/lisp850-opt.c` are not part of this model: their BCD boxing depends on float layout and endianness.
- Evaluator semantics are not modelled: `eval`, `apply`, `reduce` and the primitives. Only their calls into the allocator are, and ownership only in these places:
  - `bind`/`reduce` of tinylisp-gc.c (`RefBind`);
  - the five registered locals of the tinylisp-extras-gc.c `eval` (`Exceptions`, `RcUnwind`).
- The ownership bookkeeping of the following is not modelled, because each threads through the evaluator's unbounded recursion:
  - `evlis`, `evarg` and `eval` in tinylisp-opt-gc.c (opt-gc.c:37-48, 75-96);
  - `evlis`, `evarg`, `f_define`, `f_setq`, `f_setcar` and `eval` in tinylisp-extras-gc.c (extras-gc.c:313-327, 352-410, 484-537).
- `f_letrec`/`f_letreca` themselves are not modelled. Their effect is modelled as the heaps they leave (`RcCycle.LetrecShaped`, `RcLetrec.Before`).
- RefPool.Gc: recursion is bounded by a `fuel` argument. Where the C would overflow its stack on a corrupted pool, the model ends in `Spent`. This also applies to `RcCollect.Collect`, `RcCollect.Gcscc`, `RcCycle.Cyclic` and `RcCycle.Scc`.
- RcCollect.GcReleases: invariant preservation for `collect` is proved only on pools with no cycle marks. `isoscc`/`gcscc` on marked pools are proved on the letrec heaps only (`RcLetrec.LoopCollected`, `RcLetrec.StaleCountFrees`). The all-inputs claim "gcscc frees exactly the accepted component and keeps the invariant" does not hold: `StaleCountFrees` is a pool where it fails.
- RcCycle.SccOnce: its marks and counts are proved only on the letrec heap (`SccOnceEnds`, `InnerSlotUnmarked`). The general claim "no VISIT bit remains on any pair" is not proved. The general claim "a slot is marked iff it leads back to the origin" is false (`InnerSlotUnmarked`).
- Exceptions.Rr: it requires at least `k` registrations above `xb`. The C decrements `xp` unchecked; the model does not follow `xp` below `xb`.
- Exceptions.Rc: when `xstk` is full, `rc` raises `err(4)` before the assignment. The reference `y` the caller passed is then owned by nothing, and that leak is not modelled.
- RefBind.Bind: it requires parameter names that are not pairs. The C stores names without `dup`, so a pair-valued name would be an uncounted reference. Its own contract states only the frame; ownership and arity are stated by `BindOwns`, `BindCounts` and `BindArity`.
- StackPool.Gc: with the heap shrink (tinylisp-extras.c), it requires a non-empty heap and every ATOM word in the remaining cells to refer inside it, as they do in every state `atom` and `cons` produce.
- RcCollect.Gcscc: its own contract states only the frame (cells, heap and `lp` kept) and the stop at a FREE word. What it frees on a marked pool is proved on the letrec heaps only (`RcLetrec.LoopGcscc`, `RcLetrec.LoopCollected`); no all-inputs statement holds, as `RcLetrec.StaleCountFrees` shows.
- RcCycle.Scc: its own contract states only that the number of words is kept. The marks `scc` as written sets are not stated, because on the letrec heap it does not end (`SccSpins`); the corrected walk's marks are stated by `SccOnceEnds`.
- RcCycle.Cyclic: the marks and counts it leaves are not stated in general, for the same reason as `RcCycle.Scc`.
- RefBind.Push: its own contract states only the frame; the claimed pairs and the moved references are stated by `PushOwns` and `PushWrites`.
- RefBind.Enter: its own contract states only the frame; ownership is stated by `EnterOwns` and `EnterCounts`.
- RefPool.Assoc: its own contract states only which errors it raises; the value is stated by `AssocRaisesUnbound`.
- RcUnwind.Release: its own contract states only the frame and the empty case; the release on a pool with no cycle marks is stated by `ReleaseExact`. On a marked pool it is not stated (see `RcCollect.GcReleases`).
- TailCall.TailAsWritten: its own contract states the shape of the result; the values are stated by `TailAsWrittenStacked` and `TailAsWrittenLosesUpdate`.
- TailCall.TailFixed: its own contract states the shape of the result; the values are stated by `TailFixedStacked`.
- StackPool.Cons: a push below `cell[0]` (`sp < 2`, where the C would write outside the array) is the fault `Overrun`, which no C error code corresponds to.
- Exceptions.Catch: the conversion of the thrown number in `f_throw` (`num(car(t))` cast to `unsigned`) is floating point and not modelled; `catch` is given the code `setjmp` returns (`Landed`).
- TailCall.Assign: the C loop has no end-of-list test and would walk past the list for an unbound name. The model leaves the list unchanged, and every call site passes a bound name.

## Findings

| source | as written | input that shows it | evidently intended | confidence | as-written member | corrected member |
|---|---|---|---|---|---|---|
| src/tinylisp-extras.c:302-304 (same loop in src/tinylisp-float-opt.c:87-88) | In a self tail call, each new parameter value is `assign`ed to the FIRST binding of its name in `e`. A `let*` local that shadows the parameter takes the value, and the second loop then pops that local, so the parameter keeps its old value. | `(define f (lambda (n) (if (< n 1) 0 (let* (n (- n 1)) (f n)))))` then `(f 3)` does not terminate | Pop the new frames and the let-locals first, then assign each new value into the environment that is left | not executed | TailCall.TailAsWritten, TailCall.TailAsWrittenLosesUpdate | TailCall.TailFixed, TailCall.TailFixedStacked |
| proto/tinylisp-extras-gc.c:154-169 | `cyclic` explores any pair whose upper word is still 0. A pair under exploration keeps upper word 0 until its recursion returns, so a cycle not through the origin is entered again and again. | `(letrec* (f (let* (x 1) (setq x (lambda () x)))) f)`: `scc` recurses without end (a C stack overflow) | Do not enter a pair that is already on the exploration path | not executed | RcCycle.Scc, RcCycle.SccSpins | RcCycle.SccOnce, RcCycle.SccOnceEnds |
| proto/tinylisp-extras-gc.c:496 | `g = f; f = eval(car(x),e);`: while the operator is evaluated, registered `g` and `f` hold the same owned closure. An error inside a `catch` makes `err` release it twice; the second `gc` meets FREE and raises error 4. | `(catch ((lambda () ((car 1)))))` gives `ERR 4` instead of `(ERR . 1)` | `f` gives up its reference when `g` takes it over (`g = f; f = nil;` before evaluating the operator) | not executed | RcUnwind.OperatorAsWritten, RcUnwind.OperatorAsWrittenFreesTwice | RcUnwind.Operator, RcUnwind.OperatorReleasesExactly |
