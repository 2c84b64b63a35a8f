/**
 The Python string primitives the lookups in app.py rely on: `str.lower()`,
 the `in` operator on strings, `str.split()` with no separator and
 `str.join`. Strings are sequences of Unicode scalar values, as Python 3 strings are,
 apart from lone surrogates, which a Dafny `char` cannot hold.
 */
module Text {

  /** One character of `str.lower()`; only the ASCII capitals A-Z are folded. */
  function LowerChar(c: char): char {
    if 'A' <= c <= 'Z' then (c as int + 32) as char else c
  }

  /** `s.lower()`, character by character. */
  function Lower(s: string): (r: string)
    ensures |r| == |s|
    ensures forall i :: 0 <= i < |s| ==> r[i] == LowerChar(s[i])
  {
    if s == [] then [] else [LowerChar(s[0])] + Lower(s[1..])
  }

  /** Lowering a lowered string changes nothing. */
  lemma LowerIdempotent(s: string)
    ensures Lower(Lower(s)) == Lower(s)
  {
    var once := Lower(s);
    forall i | 0 <= i < |s|
      ensures Lower(once)[i] == once[i]
    {
      var c := s[i];
      assert once[i] == LowerChar(c);
    }
  }

  predicate IsPrefix(a: string, b: string) {
    |a| <= |b| && b[..|a|] == a
  }

  lemma IsPrefixAppend(a: string, b: string)
    ensures IsPrefix(a, a + b)
  {
    assert (a + b)[..|a|] == a;
  }

  /** Python's `a in b` on two strings: `a` occurs in `b` starting at some position. */
  predicate IsSubstring(a: string, b: string)
    decreases |b|
  {
    IsPrefix(a, b) || (b != [] && IsSubstring(a, b[1..]))
  }

  /** `a` occurs in `b` at position `k`. */
  predicate OccursAt(a: string, b: string, k: int) {
    0 <= k <= |b| - |a| && b[k..k + |a|] == a
  }

  /** The scan above finds `a` exactly when some window of `b` equals `a`. */
  lemma {:induction false} SubstringAt(a: string, b: string)
    ensures IsSubstring(a, b) <==> exists k :: OccursAt(a, b, k)
    decreases |b|
  {
    if IsSubstring(a, b) {
      if IsPrefix(a, b) {
        assert OccursAt(a, b, 0);
      } else {
        SubstringAt(a, b[1..]);
        var k :| OccursAt(a, b[1..], k);
        assert b[k + 1..k + 1 + |a|] == b[1..][k..k + |a|];
        assert OccursAt(a, b, k + 1);
      }
    }
    if exists k :: OccursAt(a, b, k) {
      var k :| OccursAt(a, b, k);
      if k == 0 {
        assert IsPrefix(a, b);
      } else {
        assert b[1..][k - 1..k - 1 + |a|] == b[k..k + |a|];
        assert OccursAt(a, b[1..], k - 1);
        SubstringAt(a, b[1..]);
      }
    }
  }

  /** The empty string is in every string, and every string is in itself. */
  lemma SubstringTrivial(a: string, b: string)
    ensures IsSubstring([], b)
    ensures IsSubstring(a, a)
  {
    assert IsPrefix([], b);
    assert IsPrefix(a, a);
  }

  /** `c.isspace()` as Python defines it: Unicode white space and the ASCII separators. */
  predicate IsSpace(c: char) {
    var n := c as int;
    (0x09 <= n <= 0x0D) || (0x1C <= n <= 0x20) || n == 0x85 || n == 0xA0 || n == 0x1680
    || (0x2000 <= n <= 0x200A) || n == 0x2028 || n == 0x2029 || n == 0x202F
    || n == 0x205F || n == 0x3000
  }

  predicate NoSpace(s: string) {
    forall i :: 0 <= i < |s| ==> !IsSpace(s[i])
  }

  /** Every character of `w` occurs in `s`. */
  predicate CharsIn(w: string, s: string) {
    forall j :: 0 <= j < |w| ==> w[j] in s
  }

  /** The characters of `s` that are not white space, in order. */
  function NonSpace(s: string): string {
    if s == [] then []
    else (if IsSpace(s[0]) then [] else [s[0]]) + NonSpace(s[1..])
  }

  /** All the strings of `ws`, one after the other. */
  function Concat(ws: seq<string>): string {
    if ws == [] then [] else ws[0] + Concat(ws[1..])
  }

  /** The longest prefix of `s` that holds no white space. */
  function WordAt(s: string): (r: string)
    ensures IsPrefix(r, s) && NoSpace(r)
    ensures |r| < |s| ==> IsSpace(s[|r|])
  {
    if s == [] || IsSpace(s[0]) then [] else [s[0]] + WordAt(s[1..])
  }

  /** `s.split()`: the maximal runs of non-white-space characters, in order. */
  function Words(s: string): (r: seq<string>)
    ensures forall k :: 0 <= k < |r| ==> r[k] != [] && NoSpace(r[k]) && CharsIn(r[k], s)
    decreases |s|
  {
    if s == [] then []
    else if IsSpace(s[0]) then Words(s[1..])
    else
      var w := WordAt(s);
      [w] + Words(s[|w|..])
  }

  lemma {:induction false} NonSpaceAppend(a: string, b: string)
    ensures NonSpace(a + b) == NonSpace(a) + NonSpace(b)
  {
    if a == [] {
      assert a + b == b;
    } else {
      assert (a + b)[1..] == a[1..] + b;
      NonSpaceAppend(a[1..], b);
    }
  }

  lemma {:induction false} NonSpaceOfWord(w: string)
    requires NoSpace(w)
    ensures NonSpace(w) == w
  {
    if w != [] {
      NonSpaceOfWord(w[1..]);
    }
  }

  /** Splitting loses exactly the white space: the words, put back together, are the
      non-white-space characters of `s`. */
  lemma {:induction false} WordsConcat(s: string)
    ensures Concat(Words(s)) == NonSpace(s)
    decreases |s|
  {
    if s == [] {
    } else if IsSpace(s[0]) {
      WordsConcat(s[1..]);
    } else {
      var w := WordAt(s);
      WordsConcat(s[|w|..]);
      assert s == w + s[|w|..];
      NonSpaceAppend(w, s[|w|..]);
      NonSpaceOfWord(w);
      assert Words(s)[1..] == Words(s[|w|..]);
    }
  }

  /** `s.split()` is empty exactly when `s` is nothing but white space. */
  lemma {:induction false} WordsEmpty(s: string)
    ensures Words(s) == [] <==> forall i :: 0 <= i < |s| ==> IsSpace(s[i])
    decreases |s|
  {
    if s != [] {
      WordsEmpty(s[1..]);
      if !IsSpace(s[0]) {
        assert Words(s) != [];
      } else {
        assert forall i :: 1 <= i < |s| ==> s[i] == s[1..][i - 1];
      }
    }
  }

  /** The word at the front of `a + t` is the word at the front of `a` when `a`
      holds white space, and the whole of `a` when `a` holds none and `t` is
      empty or opens with white space. */
  lemma {:induction false} WordAtAppend(a: string, t: string)
    requires !NoSpace(a) || t == [] || IsSpace(t[0])
    ensures WordAt(a + t) == if NoSpace(a) then a else WordAt(a)
  {
    if a == [] {
      assert a + t == t;
    } else if IsSpace(a[0]) {
    } else {
      assert (a + t)[1..] == a[1..] + t;
      assert !NoSpace(a) ==> !NoSpace(a[1..]);
      WordAtAppend(a[1..], t);
      assert [a[0]] + a[1..] == a;
    }
  }

  /** The words of a string that opens with a word: that word, then the words of the rest. */
  lemma WordsFront(s: string)
    requires s != [] && !IsSpace(s[0])
    ensures Words(s) == [WordAt(s)] + Words(s[|WordAt(s)|..])
  {
  }

  /** A white-space character separates the words on its two sides: it never
      joins them, and the words of each side stay whole. */
  lemma {:induction false} WordsSplitAt(a: string, c: char, b: string)
    requires IsSpace(c)
    ensures Words(a + [c] + b) == Words(a) + Words(b)
    decreases |a|, 1
  {
    var s := a + [c] + b;
    if a == [] {
      assert s == [c] + b;
      assert s[1..] == b;
    } else if IsSpace(a[0]) {
      assert s[1..] == a[1..] + [c] + b;
      WordsSplitAt(a[1..], c, b);
    } else if NoSpace(a) {
      WordsSplitLastWord(a, c, b);
    } else {
      WordsSplitAfterWord(a, c, b);
    }
  }

  /** The case of `WordsSplitAt` where `a` opens with a word followed by white space. */
  lemma {:induction false} WordsSplitAfterWord(a: string, c: char, b: string)
    requires a != [] && !IsSpace(a[0]) && !NoSpace(a) && IsSpace(c)
    ensures Words(a + [c] + b) == Words(a) + Words(b)
    decreases |a|, 0
  {
    var w := WordAt(a);
    var rest := a[|w|..];
    WordsFrontSplit(a, c, b);
    WordsFront(a);
    WordsSplitAt(rest, c, b);
    ConsAppend(w, Words(rest), Words(b));
  }

  /** An element put in front of `p + q` gives the same sequence as `[x] + p`, then `q`. */
  lemma ConsAppend<T>(x: T, p: seq<T>, q: seq<T>)
    ensures [x] + (p + q) == ([x] + p) + q
  {
  }

  /** When `a` opens with a word followed by white space, so does `a + [c] + b`,
      and what follows that word is the rest of `a`, then `c`, then `b`. */
  lemma WordsFrontSplit(a: string, c: char, b: string)
    requires a != [] && !IsSpace(a[0]) && !NoSpace(a)
    ensures Words(a + [c] + b) == [WordAt(a)] + Words(a[|WordAt(a)|..] + [c] + b)
  {
    var w, t := WordAt(a), [c] + b;
    WordAtAppend(a, t);
    WordsFront(a + t);
    assert (a + t)[|w|..] == a[|w|..] + t;
    assert a + [c] + b == a + t;
    assert a[|w|..] + [c] + b == a[|w|..] + t;
  }

  /** The case of `WordsSplitAt` where `a` is a single word. */
  lemma WordsSplitLastWord(a: string, c: char, b: string)
    requires a != [] && NoSpace(a) && IsSpace(c)
    ensures Words(a + [c] + b) == [a] + Words(b)
    ensures Words(a) == [a]
  {
    var s := a + [c] + b;
    WordAtAppend(a, [c] + b);
    assert s == a + ([c] + b);
    WordsFront(s);
    assert s[|a|..] == [c] + b;
    assert ([c] + b)[1..] == b;
    WordsOfWord(a);
  }

  /** A non-empty string without white space is one word. */
  lemma WordsOfWord(w: string)
    requires w != [] && NoSpace(w)
    ensures Words(w) == [w]
  {
    WordAtAppend(w, []);
    assert w + [] == w;
    assert w[|w|..] == [];
  }

  /** `sep.join(ws)` for a one-character separator. */
  function Join(ws: seq<string>, sep: char): string {
    if ws == [] then []
    else if |ws| == 1 then ws[0]
    else ws[0] + [sep] + Join(ws[1..], sep)
  }

  /** Splitting words joined by a space gives the words back: `split()` cuts
      exactly at white space and keeps each maximal run whole. */
  lemma {:induction false} WordsOfJoin(ws: seq<string>)
    requires forall k :: 0 <= k < |ws| ==> ws[k] != [] && NoSpace(ws[k])
    ensures Words(Join(ws, ' ')) == ws
  {
    if |ws| == 1 {
      WordsOfWord(ws[0]);
    } else if |ws| > 1 {
      WordsOfJoin(ws[1..]);
      WordsOfWord(ws[0]);
      WordsSplitAt(ws[0], ' ', Join(ws[1..], ' '));
      assert [ws[0]] + ws[1..] == ws;
    }
  }
}
