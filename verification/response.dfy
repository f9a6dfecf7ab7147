/**
 * Reading the match value out of the language model's reply
 * (test.py:122, 125, 143): the text after the first
 * `"Job Description Match":"` up to the next `"`, then either the sentinel
 * `N/A` or a number with its trailing `%` signs removed.
 */
module ResponseParser {
  import opened Wrappers
  import opened Chars

  const Marker: string := "\"Job Description Match\":\""
  const Quote: string := "\""
  const SentinelText: string := "N/A"

  /** `pat` appears in `s` starting at index `i`. */
  predicate OccursAt(s: string, pat: string, i: nat) {
    i + |pat| <= |s| && s[i..i + |pat|] == pat
  }

  /** `i` is where `pat` first appears in `s`. */
  predicate FirstOccurrence(s: string, pat: string, i: nat) {
    OccursAt(s, pat, i) && forall j: nat :: j < i ==> !OccursAt(s, pat, j)
  }

  /** The first index from `from` on where `pat` appears in `s`, if any. */
  function FindFrom(s: string, pat: string, from: nat): (r: Option<nat>)
    ensures r.Some? ==> from <= r.value && OccursAt(s, pat, r.value)
    ensures r.Some? ==> forall j: nat :: from <= j < r.value ==> !OccursAt(s, pat, j)
    ensures r.None? ==> forall j: nat :: from <= j ==> !OccursAt(s, pat, j)
    decreases |s| + 1 - from
  {
    if from + |pat| > |s| then None
    else if OccursAt(s, pat, from) then Some(from)
    else FindFrom(s, pat, from + 1)
  }

  /** `s.find(pat)`: where `pat` first appears in `s`, if anywhere. */
  function Find(s: string, pat: string): (r: Option<nat>)
    ensures r.Some? ==> FirstOccurrence(s, pat, r.value)
    ensures r.None? ==> forall j: nat :: !OccursAt(s, pat, j)
  {
    FindFrom(s, pat, 0)
  }

  /** The first occurrence of `sep` in `s` comes right after `s[..i]`, and none overlaps it from the left. */
  lemma FirstSeparator(s: string, sep: string, i: nat)
    requires sep != []
    requires FirstOccurrence(s, sep, i)
    ensures Find(s[..i], sep).None?
    ensures Find(s[..i] + sep, sep) == Some(i)
  {
    var head := s[..i];
    forall j: nat ensures !OccursAt(head, sep, j) {
      if j + |sep| <= |head| {
        assert j < i && !OccursAt(s, sep, j);
        assert head[j..j + |sep|] == s[j..j + |sep|];
      }
    }
    var cut := head + sep;
    assert cut == s[..i + |sep|];
    forall j: nat | j < i ensures !OccursAt(cut, sep, j) {
      assert !OccursAt(s, sep, j);
      if j + |sep| <= |cut| {
        assert cut[j..j + |sep|] == s[j..j + |sep|];
      }
    }
    assert OccursAt(cut, sep, i);
  }

  /**
   * `s.split(sep)`: the pieces between the occurrences of `sep`, found left
   * to right without overlap. Joining them back with `sep` gives `s`, no
   * piece holds `sep`, and each separator is the first occurrence of `sep`
   * after the piece before it, so the split is the leftmost one.
   */
  function SplitOn(s: string, sep: string): (parts: seq<string>)
    requires sep != []
    ensures |parts| >= 1
    ensures JoinOn(parts, sep) == s
    ensures forall p :: p in parts ==> Find(p, sep).None?
    ensures forall k :: 0 <= k < |parts| - 1 ==> Find(parts[k] + sep, sep) == Some(|parts[k]|)
    decreases |s|
  {
    match Find(s, sep)
    case None => [s]
    case Some(i) =>
      var head := s[..i];
      FirstSeparator(s, sep, i);
      var tail := SplitOn(s[i + |sep|..], sep);
      assert s == head + sep + s[i + |sep|..];
      var parts := [head] + tail;
      assert parts[1..] == tail;
      assert forall k :: 1 <= k < |parts| ==> parts[k] == tail[k - 1];
      parts
  }

  /**
   * The contract of `SplitOn` leaves no choice: any pieces that rejoin to
   * `s`, hold no `sep`, and are each followed by the first `sep` after them
   * are Python's split.
   */
  lemma {:induction false} SplitOnUnique(s: string, sep: string, parts: seq<string>)
    requires sep != []
    requires |parts| >= 1
    requires JoinOn(parts, sep) == s
    requires forall p :: p in parts ==> Find(p, sep).None?
    requires forall k :: 0 <= k < |parts| - 1 ==> Find(parts[k] + sep, sep) == Some(|parts[k]|)
    ensures SplitOn(s, sep) == parts
    decreases |parts|
  {
    assert parts[0] in parts;
    if |parts| == 1 {
      assert s == parts[0];
    } else {
      var head := parts[0];
      var tail := parts[1..];
      var rest := JoinOn(tail, sep);
      assert s == head + sep + rest;
      var cut := head + sep;
      assert Find(cut, sep) == Some(|head|);
      assert s[..|cut|] == cut;
      forall j: nat | j < |head| ensures !OccursAt(s, sep, j) {
        assert !OccursAt(cut, sep, j);
        assert s[j..j + |sep|] == cut[j..j + |sep|];
      }
      assert OccursAt(s, sep, |head|) by {
        assert s[|head|..|head| + |sep|] == sep;
      }
      assert Find(s, sep) == Some(|head|);
      assert s[..|head|] == head && s[|head| + |sep|..] == rest;
      forall p | p in tail ensures Find(p, sep).None? {
        assert p in parts;
      }
      forall k | 0 <= k < |tail| - 1 ensures Find(tail[k] + sep, sep) == Some(|tail[k]|) {
        assert tail[k] == parts[k + 1];
      }
      SplitOnUnique(rest, sep, tail);
      assert parts == [head] + tail;
    }
  }

  /** What `SplitOn` yields before the first separator and, when there is one, right after it. */
  lemma SplitHead(s: string, sep: string)
    requires sep != []
    ensures var p := SplitOn(s, sep)[0];
      && p == s[..|p|]
      && (Find(s, sep).None? ==> p == s && |SplitOn(s, sep)| == 1)
      && (Find(s, sep).Some? ==>
            && |p| == Find(s, sep).value
            && |SplitOn(s, sep)| >= 2
            && SplitOn(s, sep)[1] == SplitOn(s[|p| + |sep|..], sep)[0])
  {
  }

  /** `rest[..|v|]` is `v`, `v` holds no `"`, and a `"` or the end of `rest` follows it. */
  predicate ValueFollows(rest: string, v: string) {
    && |v| <= |rest|
    && v == rest[..|v|]
    && '"' !in v
    && (|v| == |rest| || rest[|v|] == '"')
  }

  /** At most one value follows a given position. */
  lemma ValueFollowsUnique(rest: string, v: string, w: string)
    requires ValueFollows(rest, v) && ValueFollows(rest, w)
    ensures v == w
  {
  }

  lemma NoQuote(v: string)
    requires Find(v, Quote).None?
    ensures '"' !in v
  {
    forall k | 0 <= k < |v| ensures v[k] != '"' {
      assert !OccursAt(v, Quote, k);
      assert v[k..k + 1] == [v[k]];
    }
  }

  /** The text before the first marker is followed by a `"` or by the end. */
  lemma PieceBeforeMarker(rest: string)
    ensures var piece := SplitOn(rest, Marker)[0];
      && piece == rest[..|piece|]
      && (|piece| == |rest| || rest[|piece|] == '"')
  {
    var piece := SplitOn(rest, Marker)[0];
    SplitHead(rest, Marker);
    if |piece| < |rest| {
      assert OccursAt(rest, Marker, |piece|);
      assert rest[|piece|..|piece| + |Marker|] == Marker;
    }
  }

  /** The text before the first `"` is the value that follows. */
  lemma ValueBeforeQuote(piece: string)
    ensures ValueFollows(piece, SplitOn(piece, Quote)[0])
  {
    var v := SplitOn(piece, Quote)[0];
    SplitHead(piece, Quote);
    assert v in SplitOn(piece, Quote);
    NoQuote(v);
    if |v| < |piece| {
      assert OccursAt(piece, Quote, |v|);
      assert piece[|v|..|v| + 1] == Quote;
    }
  }

  /** The piece before the next marker, cut at its first `"`, is the value that follows. */
  lemma QuotedValueFollows(rest: string)
    ensures ValueFollows(rest, SplitOn(SplitOn(rest, Marker)[0], Quote)[0])
  {
    var piece := SplitOn(rest, Marker)[0];
    PieceBeforeMarker(rest);
    ValueBeforeQuote(piece);
    var v := SplitOn(piece, Quote)[0];
    assert v == rest[..|v|];
    if |v| < |piece| {
      assert piece[|v|] == rest[|v|];
    }
  }

  /** After the first marker, Python's second piece is the text up to the next marker. */
  lemma SecondPiece(response: string, i: nat)
    requires FirstOccurrence(response, Marker, i)
    ensures |SplitOn(response, Marker)| >= 2
    ensures SplitOn(response, Marker)[1] == SplitOn(response[i + |Marker|..], Marker)[0]
  {
    SplitHead(response, Marker);
  }

  /**
   * `response.split('"Job Description Match":"')[1].split('"')[0]`: `None`
   * exactly when the marker is absent (where Python raises `IndexError`),
   * otherwise the text after the first marker up to the next `"`, or to
   * the end when no `"` follows.
   */
  function ExtractField(response: string): (r: Option<string>)
    ensures r.None? <==> forall i: nat :: !OccursAt(response, Marker, i)
    ensures forall i: nat :: FirstOccurrence(response, Marker, i) ==>
      r.Some? && ValueFollows(response[i + |Marker|..], r.value)
  {
    var parts := SplitOn(response, Marker);
    SplitHead(response, Marker);
    if |parts| < 2 then None
    else
      var v := SplitOn(parts[1], Quote)[0];
      var i := Find(response, Marker).value;
      SecondPiece(response, i);
      QuotedValueFollows(response[i + |Marker|..]);
      Some(v)
  }

  /**
   * A reply laid out as the prompt asks, `…"Job Description Match":"<value>"…`,
   * gives back its value when the marker written is the first one and the
   * value holds no `"`.
   */
  lemma ExtractFieldOfFormattedReply(prefix: string, value: string, suffix: string)
    requires FirstOccurrence(prefix + Marker, Marker, |prefix|)
    requires '"' !in value
    ensures ExtractField(prefix + Marker + value + Quote + suffix) == Some(value)
  {
    var reply := prefix + Marker + value + Quote + suffix;
    var i := |prefix|;
    assert reply[i..i + |Marker|] == Marker;
    forall j: nat | j < i ensures !OccursAt(reply, Marker, j) {
      assert !OccursAt(prefix + Marker, Marker, j);
      assert reply[j..j + |Marker|] == (prefix + Marker)[j..j + |Marker|];
    }
    assert FirstOccurrence(reply, Marker, i);
    var rest := reply[i + |Marker|..];
    assert rest == value + Quote + suffix;
    assert ValueFollows(rest, value);
    ValueFollowsUnique(rest, ExtractField(reply).value, value);
  }

  /** `value.rstrip('%')`: `value` without all of its trailing `%` signs. */
  function RStripPercent(value: string): (r: string)
    ensures |r| <= |value| && r == value[..|r|]
    ensures forall i :: |r| <= i < |value| ==> value[i] == '%'
    ensures r == [] || r[|r| - 1] != '%'
  {
    if value != [] && value[|value| - 1] == '%' then RStripPercent(value[..|value| - 1]) else value
  }

  /** Only one prefix of `value` is free of a trailing `%` and followed by `%` signs alone. */
  lemma RStripPercentUnique(value: string, t: string)
    requires |t| <= |value| && t == value[..|t|]
    requires forall i :: |t| <= i < |value| ==> value[i] == '%'
    requires t == [] || t[|t| - 1] != '%'
    ensures t == RStripPercent(value)
  {
  }

  /** What the reply says about the match (test.py:122-125, 143). */
  datatype MatchField =
    | MissingMarker                          // the marker is absent: `[1]` raises IndexError
    | Sentinel                               // the value is exactly `N/A`
    | Numeric(shown: string, number: string) // any other value, and the text handed to `float`

  /**
   * Classifies the reply: only the exact value `N/A` is the sentinel; any
   * other value loses all its trailing `%` signs before it is read as a
   * number.
   */
  function ParseMatchField(response: string): (m: MatchField)
    ensures m.MissingMarker? <==> ExtractField(response).None?
    ensures m.Sentinel? <==> ExtractField(response) == Some(SentinelText)
    ensures m.Numeric? ==> ExtractField(response) == Some(m.shown) && m.shown != SentinelText
    ensures m.Numeric? ==>
      && |m.number| <= |m.shown|
      && m.number == m.shown[..|m.number|]
      && (forall i :: |m.number| <= i < |m.shown| ==> m.shown[i] == '%')
      && (m.number == [] || m.number[|m.number| - 1] != '%')
  {
    match ExtractField(response)
    case None => MissingMarker
    case Some(v) => if v == SentinelText then Sentinel else Numeric(v, RStripPercent(v))
  }

  /** `N/A%` is not the sentinel: it is read as the number `N/A`. */
  lemma SentinelWithPercentIsNumeric(response: string)
    requires ExtractField(response) == Some("N/A%")
    ensures ParseMatchField(response) == Numeric("N/A%", "N/A")
  {
    RStripPercentUnique("N/A%", "N/A");
  }
}
