/** The Python `str` operations the process listing and the menu are built
    from: `isspace`, `strip()`, `strip(chars)`, `startswith`, `in`,
    `split(sep)`, `split(maxsplit=1)` and `lower()`, each with the contract
    that pins down Python's behaviour. */
module PyStr {
  import opened Seqs

  /** Python's `str.isspace()` for a single character: the characters that
      `strip()` and `split()` without arguments treat as whitespace. */
  predicate IsSpace(c: char) {
    || ('\t' <= c <= '\r')
    || ('\U{1C}' <= c <= ' ')
    || c == '\U{85}' || c == '\U{A0}' || c == '\U{1680}'
    || ('\U{2000}' <= c <= '\U{200A}')
    || c == '\U{2028}' || c == '\U{2029}' || c == '\U{202F}' || c == '\U{205F}' || c == '\U{3000}'
  }

  predicate IsQuote(c: char) {
    c == '"'
  }

  /** Every character of `s` satisfies `p`. */
  predicate All(s: string, p: char -> bool) {
    forall k :: 0 <= k < |s| ==> p(s[k])
  }

  /** A non-empty run of non-whitespace characters: one field of `split()`. */
  predicate IsWord(w: string) {
    w != [] && forall k :: 0 <= k < |w| ==> !IsSpace(w[k])
  }

  /** `s` neither starts nor ends with a character `drop` removes. */
  predicate Trimmed(s: string, drop: char -> bool) {
    s == [] || (!drop(s[0]) && !drop(s[|s| - 1]))
  }

  // ---------------------------------------------------------------------
  // strip
  // ---------------------------------------------------------------------

  /** Length of the longest prefix of `s` whose characters all satisfy `p`. */
  function Span(s: string, p: char -> bool): (n: nat)
    ensures n <= |s|
    ensures forall k :: 0 <= k < n ==> p(s[k])
    ensures n < |s| ==> !p(s[n])
    decreases |s|
  {
    if |s| > 0 && p(s[0]) then 1 + Span(s[1..], p) else 0
  }

  /** Length of `s` once its trailing characters satisfying `drop` are cut off. */
  function KeptLength(s: string, drop: char -> bool): (n: nat)
    ensures n <= |s|
    ensures forall k :: n <= k < |s| ==> drop(s[k])
    ensures n > 0 ==> !drop(s[n - 1])
    decreases |s|
  {
    if |s| > 0 && drop(s[|s| - 1]) then KeptLength(s[..|s| - 1], drop) else |s|
  }

  /** The run-length function is determined by its contract. */
  lemma {:induction false} SpanOf(s: string, p: char -> bool, k: nat)
    requires k <= |s|
    requires forall j :: 0 <= j < k ==> p(s[j])
    requires k == |s| || !p(s[k])
    ensures Span(s, p) == k
    decreases k
  {
    if k > 0 {
      SpanOf(s[1..], p, k - 1);
    }
  }

  /** `s` without its leading characters satisfying `drop`. */
  function TrimStart(s: string, drop: char -> bool): string {
    s[Span(s, drop)..]
  }

  /** `s` without its trailing characters satisfying `drop`. */
  function TrimEnd(s: string, drop: char -> bool): string {
    s[..KeptLength(s, drop)]
  }

  /** `r` is the piece `s[i..i + |r|]` of `s`, and everything of `s` around it
      satisfies `drop`. */
  ghost predicate CutFrom(s: string, r: string, i: int, drop: char -> bool) {
    && 0 <= i <= |s| - |r|
    && r == s[i..i + |r|]
    && (forall k :: 0 <= k < i ==> drop(s[k]))
    && (forall k :: i + |r| <= k < |s| ==> drop(s[k]))
  }

  /** Python's `s.strip(chars)`, the characters given by `drop`: the
      piece of `s` left after removing every leading and trailing character
      in the set. */
  function StripWith(s: string, drop: char -> bool): (r: string)
    ensures Trimmed(r, drop)
    ensures exists i :: CutFrom(s, r, i, drop)
  {
    var i := Span(s, drop);
    var t := s[i..];
    var r := TrimEnd(t, drop);
    assert CutFrom(s, r, i, drop) by {
      assert r == s[i..i + |r|];
      assert forall k :: i + |r| <= k < |s| ==> s[k] == t[k - i];
    }
    r
  }

  /** Python's `s.strip()`. */
  function Strip(s: string): string {
    StripWith(s, IsSpace)
  }

  /** Python's `s.strip('"')`. */
  function StripQuotes(s: string): string {
    StripWith(s, IsQuote)
  }

  /** The contract of `StripWith` determines its result: any trimmed piece
      of `s` whose surroundings are all dropped characters is the strip. */
  lemma StripUnique(s: string, drop: char -> bool, r: string, i: int)
    requires Trimmed(r, drop) && CutFrom(s, r, i, drop)
    ensures StripWith(s, drop) == r
  {
    var r' := StripWith(s, drop);
    var i' :| CutFrom(s, r', i', drop);
    if r != [] && r' != [] {
      assert !drop(s[i]) && !drop(s[i']);
      assert i == i';
      assert !drop(s[i + |r| - 1]) && !drop(s[i' + |r'| - 1]);
      assert |r| == |r'|;
    }
  }

  /** Stripping twice is stripping once. */
  lemma StripIdempotent(s: string, drop: char -> bool)
    ensures StripWith(StripWith(s, drop), drop) == StripWith(s, drop)
  {
    var r := StripWith(s, drop);
    StripUnique(r, drop, r, 0);
  }

  // ---------------------------------------------------------------------
  // startswith, in
  // ---------------------------------------------------------------------

  /** Python's `s.startswith(prefix)`. */
  predicate StartsWith(s: string, prefix: string) {
    |prefix| <= |s| && s[..|prefix|] == prefix
  }

  /** `sub` occurs in `s` at index `i`. */
  predicate OccursAt(s: string, sub: string, i: int) {
    0 <= i && i + |sub| <= |s| && s[i..i + |sub|] == sub
  }

  /** Python's `sub in s`. */
  predicate Contains(s: string, sub: string) {
    exists i | 0 <= i <= |s| - |sub| :: OccursAt(s, sub, i)
  }

  /** An occurrence in `s[1..]` is one in `s`, one place further on. */
  lemma OccursShift(s: string, sub: string, j: int)
    requires 1 <= j && |s| >= 1
    ensures OccursAt(s, sub, j) <==> OccursAt(s[1..], sub, j - 1)
  {
    if j + |sub| <= |s| {
      assert s[1..][j - 1..j - 1 + |sub|] == s[j..j + |sub|];
    }
  }

  /** An occurrence ending within the first `m` characters is one in `s[..m]`. */
  lemma OccursPrefix(s: string, sub: string, m: int, j: int)
    requires 0 <= j && j + |sub| <= m <= |s|
    ensures OccursAt(s[..m], sub, j) <==> OccursAt(s, sub, j)
  {
    assert s[..m][j..j + |sub|] == s[j..j + |sub|];
  }

  /** An occurrence in the piece `s[lo..hi]` is one in `s`. */
  lemma OccursInPiece(s: string, sub: string, lo: int, hi: int, j: int)
    requires 0 <= lo <= hi <= |s|
    ensures OccursAt(s[lo..hi], sub, j) ==> OccursAt(s, sub, lo + j)
  {
    if OccursAt(s[lo..hi], sub, j) {
      var inner := s[lo..hi][j..j + |sub|];
      var outer := s[lo + j..lo + j + |sub|];
      assert forall m :: 0 <= m < |sub| ==> inner[m] == outer[m];
      assert inner == outer;
    }
  }

  /** The leftmost occurrence of a non-empty `sep` in `s`, if any. */
  function Find(s: string, sep: string): (r: Option<nat>)
    requires sep != []
    ensures r.Some? ==> OccursAt(s, sep, r.value)
    ensures r.Some? ==> forall j :: 0 <= j < r.value ==> !OccursAt(s, sep, j)
    ensures r.None? ==> !Contains(s, sep)
    decreases |s|
  {
    if |s| < |sep| then None
    else if s[..|sep|] == sep then Some(0)
    else
      var r := Find(s[1..], sep);
      assert forall j :: 1 <= j ==> (OccursAt(s, sep, j) <==> OccursAt(s[1..], sep, j - 1)) by {
        forall j | 1 <= j
          ensures OccursAt(s, sep, j) <==> OccursAt(s[1..], sep, j - 1)
        {
          OccursShift(s, sep, j);
        }
      }
      assert !OccursAt(s, sep, 0);
      match r
      case None => None
      case Some(k) => Some(k + 1)
  }

  // ---------------------------------------------------------------------
  // split(sep) and its inverse, sep.join
  // ---------------------------------------------------------------------

  /** Python's `sep.join(parts)`. */
  function Join(parts: seq<string>, sep: string): string
    decreases |parts|
  {
    if |parts| == 0 then []
    else if |parts| == 1 then parts[0]
    else parts[0] + sep + Join(parts[1..], sep)
  }

  /** The pieces `split` cuts at are leftmost occurrences: no part contains
      `sep`, and no occurrence starts inside a part and runs into the
      separator after it. */
  predicate SplitPieces(parts: seq<string>, sep: string)
    requires sep != []
  {
    && |parts| >= 1
    && (forall i :: 0 <= i < |parts| ==> !Contains(parts[i], sep))
    && (forall i :: 0 <= i < |parts| - 1 ==> !Contains(parts[i] + sep[..|sep| - 1], sep))
  }

  /** The leftmost occurrence of `sep` in `s` is at `i`, so the text before
      it, even extended by all of `sep` but its last character, holds no
      occurrence. */
  lemma LeftmostPiece(s: string, sep: string, i: nat)
    requires sep != [] && OccursAt(s, sep, i)
    requires forall j :: 0 <= j < i ==> !OccursAt(s, sep, j)
    ensures !Contains(s[..i], sep)
    ensures !Contains(s[..i] + sep[..|sep| - 1], sep)
  {
    var n := |sep|;
    assert s[..i] + sep[..n - 1] == s[..i + n - 1];
    forall j | 0 <= j
      ensures !OccursAt(s[..i], sep, j)
    {
      if j + n <= i {
        OccursPrefix(s, sep, i, j);
      }
    }
    var m := i + n - 1;
    forall j | 0 <= j
      ensures !OccursAt(s[..m], sep, j)
    {
      if j + n <= m {
        OccursPrefix(s, sep, m, j);
      }
    }
  }

  /** Python's `s.split(sep)` for a non-empty separator: joining the parts
      with `sep` gives back `s`, and every cut is at a leftmost occurrence. */
  function Split(s: string, sep: string): (parts: seq<string>)
    requires sep != []
    ensures SplitPieces(parts, sep)
    ensures Join(parts, sep) == s
    decreases |s|
  {
    match Find(s, sep)
    case None => [s]
    case Some(i) =>
      LeftmostPiece(s, sep, i);
      var rest := Split(s[i + |sep|..], sep);
      var parts := [s[..i]] + rest;
      assert parts[1..] == rest;
      assert s == s[..i] + sep + s[i + |sep|..];
      parts
  }

  /** `Split` inverts `Join`: parts that satisfy the leftmost-cut condition
      come back unchanged from splitting their join. */
  lemma {:induction false} SplitJoin(parts: seq<string>, sep: string)
    requires sep != [] && SplitPieces(parts, sep)
    ensures Split(Join(parts, sep), sep) == parts
    decreases |parts|
  {
    var s := Join(parts, sep);
    if |parts| == 1 {
      assert Find(s, sep).None?;
    } else {
      var p := parts[0];
      var tail := Join(parts[1..], sep);
      assert s == p + sep + tail;
      FindAfterPiece(p, sep, tail);
      assert s[|p| + |sep|..] == tail;
      assert SplitPieces(parts[1..], sep) by {
        forall i | 0 <= i < |parts[1..]| ensures !Contains(parts[1..][i], sep) {
          assert parts[1..][i] == parts[i + 1];
        }
      }
      SplitJoin(parts[1..], sep);
      assert Split(s, sep) == [p] + parts[1..];
    }
  }

  /** After a piece that holds no occurrence, not even one running into
      the separator, the leftmost occurrence is the separator itself. */
  lemma FindAfterPiece(p: string, sep: string, tail: string)
    requires sep != [] && !Contains(p + sep[..|sep| - 1], sep)
    ensures Find(p + sep + tail, sep) == Some(|p|)
  {
    var s := p + sep + tail;
    var n := |sep|;
    assert s[|p|..|p| + n] == sep;
    assert s[..|p| + n - 1] == p + sep[..n - 1];
    forall j | 0 <= j < |p|
      ensures !OccursAt(s, sep, j)
    {
      OccursPrefix(s, sep, |p| + n - 1, j);
    }
    assert OccursAt(s, sep, |p|);
  }

  // ---------------------------------------------------------------------
  // split(maxsplit=1)
  // ---------------------------------------------------------------------

  predicate NotSpace(c: char) {
    !IsSpace(c)
  }

  /** Python's `s.split(maxsplit=1)`: the first whitespace-delimited word,
      then the remainder with its leading whitespace removed (its trailing
      whitespace kept), if it is not empty. */
  function SplitOnce(s: string): (parts: seq<string>)
    ensures |parts| <= 2
    ensures parts == [] <==> All(s, IsSpace)
    ensures |parts| >= 1 ==> IsWord(parts[0])
    ensures |parts| == 2 ==> parts[1] != [] && !IsSpace(parts[1][0])
  {
    var t := TrimStart(s, IsSpace);
    if t == [] then []
    else
      var k := Span(t, NotSpace);
      var word := t[..k];
      var rest := TrimStart(t[k..], IsSpace);
      assert !All(s, IsSpace) by {
        assert !IsSpace(s[Span(s, IsSpace)]);
      }
      assert IsWord(word) by {
        assert NotSpace(t[0]);
        assert forall j :: 0 <= j < k ==> word[j] == t[j];
      }
      if rest == [] then [word] else [word, rest]
  }

  /** `t` is the word `word`, then a non-empty whitespace gap, then `rest`,
      which starts with non-whitespace. */
  ghost predicate WordGapRest(t: string, word: string, gap: string, rest: string) {
    && t == word + gap + rest
    && IsWord(word)
    && gap != [] && All(gap, IsSpace)
    && rest != [] && !IsSpace(rest[0])
  }

  /** A text with no whitespace at either end that splits once into two
      parts is its first word, a non-empty whitespace gap, and the rest. */
  lemma SplitOnceParts(t: string, word: string, rest: string) returns (gap: string)
    requires Trimmed(t, IsSpace) && SplitOnce(t) == [word, rest]
    ensures WordGapRest(t, word, gap, rest)
  {
    assert Span(t, IsSpace) == 0;
    var k := Span(t, NotSpace);
    assert word == t[..k] && rest == TrimStart(t[k..], IsSpace);
    gap := WordThenGap(t, k);
  }

  /** The text after the leading word of length `k` of `t` is a whitespace
      gap followed by the rest of `t` from its next non-whitespace. */
  lemma WordThenGap(t: string, k: nat) returns (gap: string)
    requires 0 < k < |t|
    requires forall j :: 0 <= j < k ==> !IsSpace(t[j])
    requires IsSpace(t[k]) && TrimStart(t[k..], IsSpace) != []
    ensures WordGapRest(t, t[..k], gap, TrimStart(t[k..], IsSpace))
  {
    var after := t[k..];
    var g := Span(after, IsSpace);
    var rest := after[g..];
    gap := after[..g];
    assert t == t[..k] + gap + rest by {
      assert after == gap + rest;
      assert t == t[..k] + after;
    }
    assert IsWord(t[..k]) by {
      assert forall j :: 0 <= j < k ==> t[..k][j] == t[j];
    }
    assert gap != [] && All(gap, IsSpace) by {
      assert IsSpace(after[0]);
      assert forall j :: 0 <= j < g ==> gap[j] == after[j];
    }
  }

  /** Conversely, a word, a whitespace gap and a rest starting with
      non-whitespace split once into the word and the rest. */
  lemma SplitOnceOfParts(t: string, word: string, gap: string, rest: string)
    requires WordGapRest(t, word, gap, rest)
    ensures SplitOnce(t) == [word, rest]
  {
    assert t[0] == word[0];
    SpanOf(t, IsSpace, 0);
    assert t[|word|] == gap[0];
    assert forall j :: 0 <= j < |word| ==> t[j] == word[j];
    SpanOf(t, NotSpace, |word|);
    assert t[..|word|] == word;
    var after := t[|word|..];
    assert after == gap + rest;
    assert forall j :: 0 <= j < |gap| ==> after[j] == gap[j];
    assert after[|gap|] == rest[0];
    SpanOf(after, IsSpace, |gap|);
    assert after[|gap|..] == rest;
  }

  // ---------------------------------------------------------------------
  // lower
  // ---------------------------------------------------------------------

  /** Lower-casing of one character, for the ASCII letters. */
  function LowerChar(c: char): char {
    if 'A' <= c <= 'Z' then (c as int - 'A' as int + 'a' as int) as char else c
  }

  /** Python's `s.lower()` restricted to ASCII case folding. */
  function Lower(s: string): (r: string)
    ensures |r| == |s|
  {
    seq(|s|, k requires 0 <= k < |s| => LowerChar(s[k]))
  }
}
