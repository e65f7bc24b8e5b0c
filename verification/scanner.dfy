/**
 * The tokenizer `scan` of tinylisp-tested.c and tinylisp-readline.c. The
 * reader looks one character ahead (`see`); `look` replaces it by the next
 * character of the input, and by EOF once the input is exhausted. A `char`
 * is signed here, so `see` ranges over -128..127 and EOF is -1.
 */
module Scanner {
  type Ch = c: int | -128 <= c < 128

  const EOF: Ch := -1
  const LP: Ch := 40
  const RP: Ch := 41
  const QUOTE: Ch := 39
  const SPACE: Ch := 32

  /** The look-ahead character and the input not yet looked at. */
  datatype Reader = Reader(see: Ch, rest: seq<Ch>)

  /** `look`: advance to the next character, EOF at the end of the input. */
  function Look(r: Reader): (r2: Reader)
    ensures r.rest != [] ==> r2 == Reader(r.rest[0], r.rest[1..])
    ensures r.rest == [] ==> r2 == Reader(EOF, [])
  {
    if r.rest == [] then Reader(EOF, []) else Reader(r.rest[0], r.rest[1..])
  }

  /** The reader after `n` calls of `look`. */
  function Advance(r: Reader, n: nat): Reader
    decreases n
  {
    if n == 0 then r else Advance(Look(r), n - 1)
  }

  /** `seeing(' ')`: any control character or blank, 1..32 (NUL and EOF are not white space). */
  predicate Space(c: Ch)
  {
    0 < c <= SPACE
  }

  /** The characters that are tokens on their own. */
  predicate Single(c: Ch)
  {
    c == LP || c == RP || c == QUOTE
  }

  /**
   * The characters that end a longer token. The quote does not; EOF does
   * in tinylisp-tested.c (`eofEnds`) and not in tinylisp-readline.c, whose
   * `look` never yields EOF.
   */
  predicate Ends(c: Ch, eofEnds: bool)
  {
    c == LP || c == RP || Space(c) || (eofEnds && c == EOF)
  }

  function Measure(r: Reader): nat
  {
    |r.rest| + if r.see == EOF then 0 else 1
  }

  /** The number of `look`s the white-space loop of `scan` makes. */
  function Skip(r: Reader): (n: nat)
    ensures !Space(Advance(r, n).see)
    ensures forall j :: 0 <= j < n ==> Space(Advance(r, j).see)
    decreases Measure(r)
  {
    if Space(r.see) then
      var n := Skip(Look(r)) + 1;
      assert forall j :: 1 <= j < n ==> Advance(r, j) == Advance(Look(r), j - 1);
      n
    else 0
  }

  /**
   * The do-while loop collecting a longer token: `buf[i++] = get()` at least
   * once, then again while `i < cap - 1` and the look-ahead does not end
   * the token. Returns the characters collected and the reader after them.
   */
  function Collect(r: Reader, i: nat, cap: nat, eofEnds: bool): (res: (seq<Ch>, Reader))
    requires i < cap - 1
    ensures 1 <= |res.0| <= cap - 1 - i
    ensures res.1 == Advance(r, |res.0|)
    ensures forall j :: 0 <= j < |res.0| ==> res.0[j] == Advance(r, j).see
    ensures forall j :: 0 < j < |res.0| ==> !Ends(Advance(r, j).see, eofEnds)
    ensures i + |res.0| == cap - 1 || Ends(res.1.see, eofEnds)
    decreases cap - i
  {
    var r2 := Look(r);
    if i + 1 < cap - 1 && !Ends(r2.see, eofEnds) then
      var more := Collect(r2, i + 1, cap, eofEnds);
      var tok := [r.see] + more.0;
      assert forall j :: 1 <= j <= |tok| ==> Advance(r, j) == Advance(r2, j - 1);
      (tok, more.1)
    else ([r.see], r2)
  }

  /**
   * `scan` with a buffer of `cap` characters (MAX_SCAN_BUF in
   * tinylisp-tested.c, 40 in tinylisp-readline.c): the token read, whose
   * first character `scan` returns, and the reader after it.
   */
  function Scan(r: Reader, cap: nat, eofEnds: bool): (res: (seq<Ch>, Reader))
    requires cap >= 2
    ensures |res.0| >= 1
  {
    var s := Advance(r, Skip(r));
    if Single(s.see) then ([s.see], Look(s)) else Collect(s, 0, cap, eofEnds)
  }

  /**
   * What `scan` reads: it skips white space, returns a parenthesis or quote
   * as a token of its own, and otherwise the longest run of characters
   * (at most `cap - 1`) whose characters after the first do not end a
   * token. The token is exactly what was consumed.
   */
  lemma ScanReads(r: Reader, cap: nat, eofEnds: bool)
    requires cap >= 2
    ensures var n := Skip(r);
            var s := Advance(r, n);
            var res := Scan(r, cap, eofEnds);
            var tok := res.0;
            (forall j :: 0 <= j < n ==> Space(Advance(r, j).see)) && !Space(s.see) &&
            1 <= |tok| <= cap - 1 && tok[0] == s.see &&
            res.1 == Advance(s, |tok|) &&
            (forall j :: 0 <= j < |tok| ==> tok[j] == Advance(s, j).see) &&
            (Single(s.see) ==> |tok| == 1) &&
            (!Single(s.see) ==>
               (forall j :: 0 < j < |tok| ==> !Ends(tok[j], eofEnds)) &&
               (|tok| == cap - 1 || Ends(res.1.see, eofEnds)))
  {
    var s := Advance(r, Skip(r));
    assert Advance(s, 1) == Look(s);
  }

  /** The input as `look` will see it once `see` starts as a blank. */
  function Input(text: seq<Ch>): Reader
  {
    Reader(SPACE, text)
  }

  /** "a      (" reads as the token "a" (src/test-tl-tested.c, second case). */
  lemma ScanLetterBeforeParen()
    ensures Scan(Input([32, 32, 97, 32, 32, 40]), 40, true).0 == [97]
  {
    var r := Input([32, 32, 97, 32, 32, 40]);
    assert Skip(r) == 3;
  }

  /** "(        )" reads as the token "(" alone. */
  lemma ScanParenAlone()
    ensures Scan(Input([32, 40, 32, 41]), 40, true).0 == [LP]
  {
    var r := Input([32, 40, 32, 41]);
    assert Skip(r) == 2;
  }

  /** "ao%vq\"'(#" reads as "ao%vq\"'": a quote inside a token does not end it; the parenthesis does. */
  lemma ScanQuoteInside()
    ensures Scan(Input([97, 111, 37, 118, 113, 34, 39, 40, 35]), 40, true).0 == [97, 111, 37, 118, 113, 34, 39]
  {
    var t: seq<Ch> := [97, 111, 37, 118, 113, 34, 39, 40, 35];
    var r := Input(t);
    assert Skip(r) == 1;
    assert Advance(r, 1) == Look(r) == Reader(97, t[1..]);
    assert t[1..] == [111, 37, 118, 113, 34, 39, 40, 35];
    QuoteInsideCollects();
  }

  /** The token loop over "ao%vq\"'(#", one character at a time. */
  lemma QuoteInsideCollects()
    ensures Collect(Reader(97, [111, 37, 118, 113, 34, 39, 40, 35]), 0, 40, true) == ([97, 111, 37, 118, 113, 34, 39], Reader(40, [35]))
  {
    var end := Reader(40, [35]);
    assert Collect(Reader(39, [40, 35]), 6, 40, true) == ([39], end);
    assert Collect(Reader(34, [39, 40, 35]), 5, 40, true) == ([34, 39], end) by {
      var r2 := Look(Reader(34, [39, 40, 35]));
      assert r2 == Reader(39, [40, 35]) && !Ends(r2.see, true);
      assert [34] + [39] == [34, 39];
    }
    assert Collect(Reader(113, [34, 39, 40, 35]), 4, 40, true) == ([113, 34, 39], end) by {
      var r2 := Look(Reader(113, [34, 39, 40, 35]));
      assert r2 == Reader(34, [39, 40, 35]) && !Ends(r2.see, true);
      assert [113] + [34, 39] == [113, 34, 39];
    }
    assert Collect(Reader(118, [113, 34, 39, 40, 35]), 3, 40, true) == ([118, 113, 34, 39], end) by {
      var r2 := Look(Reader(118, [113, 34, 39, 40, 35]));
      assert r2 == Reader(113, [34, 39, 40, 35]) && !Ends(r2.see, true);
      assert [118] + [113, 34, 39] == [118, 113, 34, 39];
    }
    assert Collect(Reader(37, [118, 113, 34, 39, 40, 35]), 2, 40, true) == ([37, 118, 113, 34, 39], end) by {
      var r2 := Look(Reader(37, [118, 113, 34, 39, 40, 35]));
      assert r2 == Reader(118, [113, 34, 39, 40, 35]) && !Ends(r2.see, true);
      assert [37] + [118, 113, 34, 39] == [37, 118, 113, 34, 39];
    }
    assert Collect(Reader(111, [37, 118, 113, 34, 39, 40, 35]), 1, 40, true) == ([111, 37, 118, 113, 34, 39], end) by {
      var r2 := Look(Reader(111, [37, 118, 113, 34, 39, 40, 35]));
      assert r2 == Reader(37, [118, 113, 34, 39, 40, 35]) && !Ends(r2.see, true);
      assert [111] + [37, 118, 113, 34, 39] == [111, 37, 118, 113, 34, 39];
    }
    assert Collect(Reader(97, [111, 37, 118, 113, 34, 39, 40, 35]), 0, 40, true) == ([97, 111, 37, 118, 113, 34, 39], end) by {
      var r2 := Look(Reader(97, [111, 37, 118, 113, 34, 39, 40, 35]));
      assert r2 == Reader(111, [37, 118, 113, 34, 39, 40, 35]) && !Ends(r2.see, true);
      assert [97] + [111, 37, 118, 113, 34, 39] == [97, 111, 37, 118, 113, 34, 39];
    }
  }

  /** "define" at the end of the input reads whole: EOF ends the token. */
  lemma ScanAtEnd()
    ensures Scan(Input([100, 101, 102, 105, 110, 101]), 40, true).0 == [100, 101, 102, 105, 110, 101]
  {
    var r := Input([100, 101, 102, 105, 110, 101]);
    assert Skip(r) == 1;
  }
}
