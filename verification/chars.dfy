/**
 * The character classes and whole-string operations of Python's `str` that
 * the scanner relies on: `\w`, `\s` / `str.isspace()`, `str.lower()`,
 * `str.strip()` and `str.join`.
 */
module Chars {

  /** `\w`: a letter, a digit or `_` (restricted here to ASCII). */
  predicate IsWordChar(c: char) {
    ('a' <= c <= 'z') || ('A' <= c <= 'Z') || ('0' <= c <= '9') || c == '_'
  }

  /**
   * `str.isspace()`, which is also what `\s` in a `str` pattern and the
   * separator-less `str.split()` use: the Unicode white-space characters.
   */
  predicate IsSpace(c: char) {
    var n := c as int;
    (0x09 <= n <= 0x0D) || (0x1C <= n <= 0x20) || n == 0x85 || n == 0xA0 || n == 0x1680
    || (0x2000 <= n <= 0x200A) || n == 0x2028 || n == 0x2029 || n == 0x202F
    || n == 0x205F || n == 0x3000
  }

  predicate IsUpper(c: char) {
    'A' <= c <= 'Z'
  }

  /** `str.lower()` on one character (ASCII letters only). */
  function LowerChar(c: char): (d: char)
    ensures !IsUpper(d)
    ensures IsSpace(d) == IsSpace(c) && IsWordChar(d) == IsWordChar(c)
    ensures !IsUpper(c) ==> d == c
    ensures IsUpper(c) ==> 'a' <= d <= 'z' && d as int - 'a' as int == c as int - 'A' as int
  {
    if IsUpper(c) then (c as int + 32) as char else c
  }

  /** `str.lower()`: every character lowered in place, nothing added or removed. */
  function Lower(s: string): (r: string)
    ensures |r| == |s|
    ensures forall i :: 0 <= i < |s| ==> r[i] == LowerChar(s[i])
  {
    if s == [] then [] else [LowerChar(s[0])] + Lower(s[1..])
  }

  /** `sep.join(parts)`: the parts with `sep` between each two neighbours. */
  function JoinOn(parts: seq<string>, sep: string): string {
    if parts == [] then []
    else if |parts| == 1 then parts[0]
    else parts[0] + sep + JoinOn(parts[1..], sep)
  }

  /** A string `str.strip()` empties: white space only. */
  predicate IsBlank(s: string) {
    forall c :: c in s ==> IsSpace(c)
  }

  /** `str.lstrip()`: drops the leading white space and nothing else. */
  function TrimStart(s: string): (r: string)
    ensures |r| <= |s| && r == s[|s| - |r|..]
    ensures IsBlank(s[..|s| - |r|])
    ensures r == [] || !IsSpace(r[0])
  {
    if s != [] && IsSpace(s[0]) then TrimStart(s[1..]) else s
  }

  /** `str.rstrip()`: drops the trailing white space and nothing else. */
  function TrimEnd(s: string): (r: string)
    ensures |r| <= |s| && r == s[..|r|]
    ensures IsBlank(s[|r|..])
    ensures r == [] || !IsSpace(r[|r| - 1])
  {
    if s != [] && IsSpace(s[|s| - 1]) then TrimEnd(s[..|s| - 1]) else s
  }

  /** How many white-space characters `lstrip()` removes from the front of `s`. */
  function LeadingBlank(s: string): (k: nat)
    ensures k <= |s| && IsBlank(s[..k]) && TrimStart(s) == s[k..]
  {
    |s| - |TrimStart(s)|
  }

  /** `r` is the slice of `s` from `k` on, with only white space before and after it. */
  predicate CutFrom(s: string, k: nat, r: string) {
    && k + |r| <= |s|
    && r == s[k..k + |r|]
    && IsBlank(s[..k])
    && IsBlank(s[k + |r|..])
  }

  /**
   * `str.strip()`: the text between the leading and the trailing white
   * space. What is cut off on either side is blank, and what is kept
   * neither starts nor ends with white space.
   */
  function Strip(s: string): (r: string)
    ensures |r| <= |s|
    ensures CutFrom(s, LeadingBlank(s), r)
    ensures r != [] ==> !IsSpace(r[0]) && !IsSpace(r[|r| - 1])
  {
    var t := TrimStart(s);
    var r := TrimEnd(t);
    CutBothEnds(s, LeadingBlank(s), t, r);
    r
  }

  /** Cutting a blank head and then a blank tail leaves a slice of the original between two blank parts. */
  lemma CutBothEnds(s: string, k: nat, t: string, r: string)
    requires k <= |s| && t == s[k..] && IsBlank(s[..k])
    requires |r| <= |t| && r == t[..|r|] && IsBlank(t[|r|..])
    requires t == [] || !IsSpace(t[0])
    requires r == [] || !IsSpace(r[|r| - 1])
    ensures CutFrom(s, k, r)
    ensures r != [] ==> !IsSpace(r[0]) && !IsSpace(r[|r| - 1])
  {
    assert s[k + |r|..] == t[|r|..];
    assert r != [] ==> r[0] == t[0];
  }

  /** Every text is `s.strip()` with blank padding on either side. */
  lemma StripPadding(s: string) returns (lead: string, trail: string)
    ensures IsBlank(lead) && IsBlank(trail)
    ensures s == lead + Strip(s) + trail
  {
    var r := Strip(s);
    var k := LeadingBlank(s);
    assert CutFrom(s, k, r);
    lead := s[..k];
    trail := s[k + |r|..];
    ThreeSlices(s, k, k + |r|);
  }

  /**
   * A plain sequence identity. It is stated as a lemma of its own so that
   * the verifier proves it where no recursive definition is in view; the
   * proofs that call it then stay within the solver's resource limit.
   */
  lemma ThreeSlices(s: string, i: nat, j: nat)
    requires i <= j <= |s|
    ensures s == s[..i] + s[i..j] + s[j..]
  {
  }

  /** Leading white space in front of a text that does not start with white space is all `lstrip` removes. */
  lemma {:induction false} TrimStartBlankPrefix(g: string, x: string)
    requires IsBlank(g)
    requires x == [] || !IsSpace(x[0])
    ensures TrimStart(g + x) == x
  {
    if g == [] {
      assert g + x == x;
    } else {
      assert g[0] in g;
      assert (g + x)[1..] == g[1..] + x;
      TrimStartBlankPrefix(g[1..], x);
    }
  }

  /** Trailing white space after a text that does not end with white space is all `rstrip` removes. */
  lemma {:induction false} TrimEndBlankSuffix(x: string, g: string)
    requires IsBlank(g)
    requires x == [] || !IsSpace(x[|x| - 1])
    ensures TrimEnd(x + g) == x
    decreases |g|
  {
    if g == [] {
      assert x + g == x;
    } else {
      var h := g[..|g| - 1];
      assert g[|g| - 1] in g;
      assert (x + g)[..|x + g| - 1] == x + h;
      TrimEndBlankSuffix(x, h);
    }
  }

  /**
   * Blank padding around a text that neither starts nor ends with white
   * space is exactly what `strip()` removes: with the contract of `Strip`
   * this determines `s.strip()` for every `s`.
   */
  lemma StripPadded(lead: string, m: string, trail: string)
    requires IsBlank(lead) && IsBlank(trail)
    requires m == [] || (!IsSpace(m[0]) && !IsSpace(m[|m| - 1]))
    ensures Strip(lead + m + trail) == m
  {
    if m == [] {
      assert lead + m + trail == (lead + trail) + [];
      assert IsBlank(lead + trail);
      TrimStartBlankPrefix(lead + trail, []);
    } else {
      assert lead + m + trail == lead + (m + trail);
      TrimStartBlankPrefix(lead, m + trail);
      TrimEndBlankSuffix(m, trail);
    }
  }

  /** `s.strip()` is empty exactly when `s` holds nothing but white space. */
  lemma StripEmptyIffBlank(s: string)
    ensures Strip(s) == [] <==> IsBlank(s)
  {
    var t := TrimStart(s);
    if Strip(s) == [] {
      assert s == s[..|s| - |t|] + t;
      assert t == t[|Strip(s)|..];
      forall c | c in s ensures IsSpace(c) {
        assert c in s[..|s| - |t|] || c in t;
      }
    } else {
      var r := Strip(s);
      assert r[0] in s by {
        assert t == s[|s| - |t|..];
        assert r == t[..|r|];
        assert r[0] == t[0];
        assert t[0] == s[|s| - |t|];
      }
      if t != [] {
        assert !IsSpace(t[0]);
      }
    }
  }

  /** Lower-casing never turns white space into text or text into white space. */
  lemma {:induction false} LowerKeepsBlank(s: string)
    ensures IsBlank(Lower(s)) == IsBlank(s)
  {
    var r := Lower(s);
    if IsBlank(s) {
      forall c | c in r ensures IsSpace(c) {
        var i :| 0 <= i < |r| && r[i] == c;
        assert s[i] in s;
      }
    } else {
      var c :| c in s && !IsSpace(c);
      var i :| 0 <= i < |s| && s[i] == c;
      assert r[i] in r;
    }
  }
}
