/**
 * `tokenize_text` (test.py:57-60): delete every character that is neither a
 * word character nor white space, then split on runs of white space.
 */
module Tokenizer {
  import opened Chars

  /** The characters that survive `re.sub(r'[^\w\s]', '', text)`. */
  predicate Kept(c: char) {
    IsWordChar(c) || IsSpace(c)
  }

  predicate NotSpace(c: char) {
    !IsSpace(c)
  }

  /** The characters of `s` that satisfy `p`, in their original order. */
  function Filter(p: char -> bool, s: string): (r: string)
    ensures |r| <= |s|
    ensures forall c :: c in r <==> c in s && p(c)
  {
    if s == [] then [] else (if p(s[0]) then [s[0]] else []) + Filter(p, s[1..])
  }

  lemma {:induction false} FilterAppend(p: char -> bool, a: string, b: string)
    ensures Filter(p, a + b) == Filter(p, a) + Filter(p, b)
  {
    if a != [] {
      var head := if p(a[0]) then [a[0]] else [];
      assert (a + b)[0] == a[0];
      assert (a + b)[1..] == a[1..] + b;
      assert Filter(p, a + b) == head + Filter(p, a[1..] + b);
      FilterAppend(p, a[1..], b);
    } else {
      assert a + b == b;
    }
  }

  lemma {:induction false} FilterKeepsAll(p: char -> bool, s: string)
    requires forall c :: c in s ==> p(c)
    ensures Filter(p, s) == s
  {
    if s != [] {
      FilterKeepsAll(p, s[1..]);
    }
  }

  /** Filtering by `p` and then by `q` is filtering once by their conjunction `pq`. */
  lemma {:induction false} FilterTwice(p: char -> bool, q: char -> bool, pq: char -> bool, s: string)
    requires forall c :: pq(c) == (p(c) && q(c))
    ensures Filter(q, Filter(p, s)) == Filter(pq, s)
  {
    if s != [] {
      FilterTwice(p, q, pq, s[1..]);
      if p(s[0]) {
        assert Filter(p, s) == [s[0]] + Filter(p, s[1..]);
        FilterAppend(q, [s[0]], Filter(p, s[1..]));
        assert [s[0]][1..] == [];
        var head := if q(s[0]) then [s[0]] else [];
        assert Filter(q, [s[0]]) == head + Filter(q, []);
        assert Filter(q, [s[0]]) == head;
        assert Filter(pq, s) == head + Filter(pq, s[1..]);
      } else {
        assert Filter(p, s) == [] + Filter(p, s[1..]) == Filter(p, s[1..]);
        assert Filter(pq, s) == [] + Filter(pq, s[1..]) == Filter(pq, s[1..]);
      }
    }
  }

  /** The punctuation-stripping substitution of test.py:58. */
  function RemovePunctuation(s: string): (r: string)
    ensures forall c :: c in r <==> c in s && Kept(c)
  {
    Filter(Kept, s)
  }

  /** Removing punctuation from two texts one after the other is removing it from each. */
  lemma RemovePunctuationAppend(a: string, b: string)
    ensures RemovePunctuation(a + b) == RemovePunctuation(a) + RemovePunctuation(b)
  {
    FilterAppend(Kept, a, b);
  }

  /** A single character survives the substitution exactly when it is a word or white-space character. */
  lemma RemovePunctuationChar(c: char)
    ensures RemovePunctuation([c]) == if Kept(c) then [c] else []
  {
    assert [c][1..] == [];
  }

  /** The length of the word `s` starts with: its longest prefix free of white space. */
  function WordLength(s: string): (n: nat)
    ensures n <= |s|
    ensures forall i :: 0 <= i < n ==> !IsSpace(s[i])
    ensures n == |s| || IsSpace(s[n])
  {
    if s == [] || IsSpace(s[0]) then 0 else 1 + WordLength(s[1..])
  }

  /** A non-empty text without white space. */
  predicate IsWord(w: string) {
    w != [] && forall c :: c in w ==> !IsSpace(c)
  }

  /** Every character of `w` occurs in `s`. */
  predicate CharsFrom(w: string, s: string) {
    forall c :: c in w ==> c in s
  }

  /** `str.split()` with no separator: the maximal runs of non-white-space characters. */
  function Split(s: string): (ws: seq<string>)
    ensures forall w :: w in ws ==> IsWord(w)
    ensures forall w :: w in ws ==> CharsFrom(w, s)
    decreases |s|
  {
    if s == [] then []
    else if IsSpace(s[0]) then Split(s[1..])
    else
      var n := WordLength(s);
      assert forall c :: c in s[n..] ==> c in s;
      assert forall c :: c in s[..n] ==> c in s;
      [s[..n]] + Split(s[n..])
  }

  /** White space in front of a text adds no pieces. */
  lemma {:induction false} SplitDropsBlank(g: string, b: string)
    requires IsBlank(g)
    ensures Split(g + b) == Split(b)
    decreases |g|
  {
    if g == [] {
      assert g + b == b;
    } else {
      assert g[0] in g;
      assert (g + b)[0] == g[0];
      assert (g + b)[1..] == g[1..] + b;
      SplitDropsBlank(g[1..], b);
    }
  }

  /** A text of white space alone splits into no pieces. */
  lemma SplitBlank(g: string)
    requires IsBlank(g)
    ensures Split(g) == []
  {
    SplitDropsBlank(g, []);
    assert g + [] == g;
  }

  /** A non-empty text without white space is a single piece. */
  lemma SplitWord(w: string)
    requires w != [] && forall c :: c in w ==> !IsSpace(c)
    ensures Split(w) == [w]
  {
    assert w[0] in w;
    WordLengthOfWord(w, []);
    assert w + [] == w;
    assert w[..|w|] == w && w[|w|..] == [];
  }

  /** A word followed by white space, or by nothing, is the first piece. */
  lemma SplitWordThen(w: string, rest: string)
    requires IsWord(w)
    requires rest == [] || IsSpace(rest[0])
    ensures Split(w + rest) == [w] + Split(rest)
  {
    var s := w + rest;
    assert w[0] in w;
    assert s[0] == w[0];
    WordLengthOfWord(w, rest);
    assert s[..|w|] == w && s[|w|..] == rest;
  }

  /**
   * Any non-empty run of white space separates pieces: the pieces of
   * `a + g + b` are those of `a` followed by those of `b`. With
   * `SplitBlank` and `SplitWord` this determines `str.split()` on every
   * text, whatever white space and however much of it separates the words.
   */
  lemma {:induction false} SplitGap(a: string, g: string, b: string)
    requires g != [] && IsBlank(g)
    ensures Split(a + g + b) == Split(a) + Split(b)
    decreases |a|
  {
    if a == [] {
      assert a + g + b == g + b;
      SplitDropsBlank(g, b);
    } else if IsSpace(a[0]) {
      SplitGap(a[1..], g, b);
      SplitGapAfterSpace(a, g, b);
    } else {
      var n := WordLength(a);
      var w := a[..n];
      var rest := a[n..];
      WordThenRest(a);
      SplitGap(rest, g, b);
      SplitGapAfterWord(w, rest, g, b);
      assert a + g + b == w + rest + g + b;
    }
  }

  /** The step of `SplitGap` for a text that starts with white space. */
  lemma SplitGapAfterSpace(a: string, g: string, b: string)
    requires a != [] && IsSpace(a[0])
    requires Split(a[1..] + g + b) == Split(a[1..]) + Split(b)
    ensures Split(a + g + b) == Split(a) + Split(b)
  {
    HeadTail(a, g, b);
    SplitSpaceHead(a + g + b);
    SplitSpaceHead(a);
  }

  /**
   * A plain sequence identity. It is stated as a lemma of its own so that
   * the verifier proves it where no recursive definition is in view; the
   * proofs that call it then stay within the solver's resource limit.
   */
  lemma HeadTail(a: string, g: string, b: string)
    requires a != []
    ensures (a + g + b)[0] == a[0] && (a + g + b)[1..] == a[1..] + g + b
  {
  }

  /** Leading white space is dropped one character at a time. */
  lemma SplitSpaceHead(s: string)
    requires s != [] && IsSpace(s[0])
    ensures Split(s) == Split(s[1..])
  {
  }

  /** The step of `SplitGap` for a text that starts with the word `w`. */
  lemma SplitGapAfterWord(w: string, rest: string, g: string, b: string)
    requires IsWord(w)
    requires rest == [] || IsSpace(rest[0])
    requires g != [] && IsBlank(g)
    requires Split(rest + g + b) == Split(rest) + Split(b)
    ensures Split(w + rest + g + b) == ([w] + Split(rest)) + Split(b)
  {
    SplitWordThenGap(w, rest, g, b);
    ConsAppend(w, Split(rest), Split(b));
  }

  /** A word followed by a gap is the first piece of what follows. */
  lemma SplitWordThenGap(w: string, rest: string, g: string, b: string)
    requires IsWord(w)
    requires rest == [] || IsSpace(rest[0])
    requires g != [] && IsBlank(g)
    ensures Split(w + rest + g + b) == [w] + Split(rest + g + b)
  {
    var after := rest + g + b;
    assert w + rest + g + b == w + after;
    GapStartsBlank(rest, g, b);
    SplitWordThen(w, after);
  }

  /** A plain sequence identity, kept apart from the recursive definitions for the same reason as `HeadTail`. */
  lemma ConsAppend(w: string, p: seq<string>, q: seq<string>)
    ensures [w] + (p + q) == ([w] + p) + q
  {
  }

  /** A text that starts with a word is that word followed by white space or by nothing. */
  lemma WordThenRest(a: string)
    requires a != [] && !IsSpace(a[0])
    ensures var n := WordLength(a);
      && IsWord(a[..n])
      && a == a[..n] + a[n..]
      && (a[n..] == [] || IsSpace(a[n..][0]))
      && Split(a) == [a[..n]] + Split(a[n..])
  {
  }

  lemma GapStartsBlank(rest: string, g: string, b: string)
    requires rest == [] || IsSpace(rest[0])
    requires g != [] && IsBlank(g)
    ensures IsSpace((rest + g + b)[0])
  {
    if rest == [] {
      assert (rest + g + b)[0] == g[0] && g[0] in g;
    } else {
      assert (rest + g + b)[0] == rest[0];
    }
  }

  /** `tokenize_text`: the words of `text` once its punctuation is gone. */
  function Tokenize(text: string): (ts: seq<string>)
    ensures forall t :: t in ts ==> t != [] && forall c :: c in t ==> IsWordChar(c)
  {
    Split(RemovePunctuation(text))
  }

  /** The tokens written one after the other. */
  function Concat(ws: seq<string>): string {
    if ws == [] then [] else ws[0] + Concat(ws[1..])
  }

  /** Splitting keeps every non-space character, in order, and drops only white space. */
  lemma {:induction false} SplitConcat(s: string)
    ensures Concat(Split(s)) == Filter(NotSpace, s)
    decreases |s|
  {
    if s == [] {
    } else if IsSpace(s[0]) {
      SplitConcat(s[1..]);
    } else {
      var n := WordLength(s);
      var ws := Split(s);
      assert ws == [s[..n]] + Split(s[n..]);
      assert ws[1..] == Split(s[n..]);
      SplitConcat(s[n..]);
      assert s == s[..n] + s[n..];
      FilterAppend(NotSpace, s[..n], s[n..]);
      FilterKeepsAll(NotSpace, s[..n]);
    }
  }

  /**
   * `tokenize_text` keeps order: its tokens, written one after the other,
   * are the input's word characters and nothing else.
   */
  lemma TokenizeConcat(text: string)
    ensures Concat(Tokenize(text)) == Filter(IsWordChar, text)
  {
    SplitConcat(RemovePunctuation(text));
    FilterTwice(Kept, NotSpace, IsWordChar, text);
  }

  lemma {:induction false} WordLengthOfWord(w: string, rest: string)
    requires forall c :: c in w ==> !IsSpace(c)
    requires rest == [] || IsSpace(rest[0])
    ensures WordLength(w + rest) == |w|
  {
    if w != [] {
      assert (w + rest)[1..] == w[1..] + rest;
      WordLengthOfWord(w[1..], rest);
    }
  }

  /** Splitting undoes joining with spaces, for words that are non-empty and free of white space. */
  lemma {:induction false} SplitJoin(ws: seq<string>)
    requires forall w :: w in ws ==> w != [] && forall c :: c in w ==> !IsSpace(c)
    ensures Split(JoinOn(ws, " ")) == ws
  {
    if ws == [] {
    } else if |ws| == 1 {
      var w := ws[0];
      assert w in ws;
      WordLengthOfWord(w, []);
      assert w + [] == w;
      assert w[|w|..] == [];
    } else {
      var w := ws[0];
      assert w in ws;
      assert forall v :: v in ws[1..] ==> v in ws;
      var rest := " " + JoinOn(ws[1..], " ");
      var s := JoinOn(ws, " ");
      assert s == w + rest;
      WordLengthOfWord(w, rest);
      assert s[..|w|] == w;
      assert s[|w|..] == rest;
      assert rest[1..] == JoinOn(ws[1..], " ");
      SplitJoin(ws[1..]);
    }
  }

  lemma {:induction false} JoinChars(ws: seq<string>, p: char -> bool)
    requires p(' ')
    requires forall w :: w in ws ==> forall c :: c in w ==> p(c)
    ensures forall c :: c in JoinOn(ws, " ") ==> p(c)
  {
    if |ws| == 1 {
      assert ws[0] in ws;
    } else if |ws| > 1 {
      assert ws[0] in ws;
      assert forall v :: v in ws[1..] ==> v in ws;
      JoinChars(ws[1..], p);
      assert JoinOn(ws, " ") == ws[0] + " " + JoinOn(ws[1..], " ");
    }
  }

  /** Tokenizing undoes joining with spaces, for non-empty tokens made of word characters. */
  lemma TokenizeJoin(ts: seq<string>)
    requires forall t :: t in ts ==> t != [] && forall c :: c in t ==> IsWordChar(c)
    ensures Tokenize(JoinOn(ts, " ")) == ts
  {
    JoinChars(ts, Kept);
    FilterKeepsAll(Kept, JoinOn(ts, " "));
    SplitJoin(ts);
  }

  /** Re-tokenizing the tokens joined by spaces gives the same tokens back. */
  lemma TokenizeIdempotent(text: string)
    ensures Tokenize(JoinOn(Tokenize(text), " ")) == Tokenize(text)
  {
    TokenizeJoin(Tokenize(text));
  }
}
