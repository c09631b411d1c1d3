/** Python `unicode` values and the handful of `str` methods the fact generator
    relies on: `find`, `split(sep, 1)[0]`, `split()`, `strip`, `lstrip`,
    `startswith`, `replace`, `upper` and `lower`.

    The Unicode character database that Python consults (for `\w` and `\d` in
    regular expressions compiled with `re.UNICODE`, for whitespace and for case
    mappings) is not modelled: it is a parameter, a `CharInfo`, about which only
    the behaviour on ASCII is fixed (`CharInfo.Valid`). */
module PyStr {

  /** Python's `None` or a value. */
  datatype Option<T> = None | Some(value: T)

  /** The Unicode tables: `word` is the set of characters `\w` matches, `digit`
      those `\d` matches, `space` those `unicode.split()` and `unicode.lstrip()`
      treat as whitespace; `upper` and `lower` are the per-character case
      mappings, as strings, for the characters that have one (every other
      character maps to itself). */
  datatype CharInfo = CharInfo(
    word: set<char>,
    digit: set<char>,
    space: set<char>,
    upper: map<char, string>,
    lower: map<char, string>)
  {
    function Upper(c: char): string { if c in upper then upper[c] else [c] }
    function Lower(c: char): string { if c in lower then lower[c] else [c] }

    /** What every version of the tables agrees on for the ASCII range, plus
        the one fact about case mapping the grammar text depends on: no
        character other than `"` itself upper-cases to something holding `"`. */
    ghost predicate Valid() {
      && (forall c: char :: IsAscii(c) ==> (c in word <==> IsAsciiAlnum(c) || c == '_'))
      && (forall c: char :: IsAscii(c) ==> (c in digit <==> IsAsciiDigit(c)))
      && (forall c: char :: IsAscii(c) ==> (c in space <==> c in AsciiUnicodeSpace))
      && (forall c: char :: IsAscii(c) ==> Upper(c) == [if 'a' <= c <= 'z' then c - 'a' + 'A' else c])
      && (forall c: char :: IsAscii(c) ==> Lower(c) == [if 'A' <= c <= 'Z' then c - 'A' + 'a' else c])
      && (forall c: char :: c != '"' ==> '"' !in Upper(c))
    }
  }

  predicate IsAscii(c: char) { c < 128 as char }
  predicate IsAsciiDigit(c: char) { '0' <= c <= '9' }
  predicate IsAsciiLetter(c: char) { 'A' <= c <= 'Z' || 'a' <= c <= 'z' }
  predicate IsAsciiAlnum(c: char) { IsAsciiDigit(c) || IsAsciiLetter(c) }

  /** The ASCII characters `unicode.isspace()` accepts. */
  const AsciiUnicodeSpace: set<char> :=
    {' ', '\t', '\n', '\r', '\U{000B}', '\U{000C}', '\U{001C}', '\U{001D}', '\U{001E}', '\U{001F}'}

  /** The bytes `str.strip()` removes from a byte string. */
  const ByteSpace: set<char> := {' ', '\t', '\n', '\r', '\U{000B}', '\U{000C}'}

  // ---------------------------------------------------------------------------
  // Occurrences

  predicate StartsWith(s: string, p: string) {
    |p| <= |s| && s[..|p|] == p
  }

  predicate OccursAt(s: string, p: string, i: nat) {
    i + |p| <= |s| && s[i..i + |p|] == p
  }

  /** `s.find(p, i)`: the first position at or after `i` where `p` occurs, or -1. */
  function FindFrom(s: string, p: string, i: nat): (r: int)
    requires i <= |s|
    ensures r == -1 || (i <= r && OccursAt(s, p, r as nat))
    ensures forall j :: i <= j && (r == -1 || j < r) ==> !OccursAt(s, p, j)
    decreases |s| - i
  {
    if i + |p| > |s| then -1
    else if s[i..i + |p|] == p then i
    else if i == |s| then -1
    else FindFrom(s, p, i + 1)
  }

  function Find(s: string, p: string): (r: int)
    ensures r == -1 || (0 <= r && OccursAt(s, p, r as nat))
    ensures forall j: nat :: r == -1 || j < r ==> !OccursAt(s, p, j)
  {
    FindFrom(s, p, 0)
  }

  /** `p in s` */
  predicate Contains(s: string, p: string) {
    Find(s, p) != -1
  }

  lemma ContainsIff(s: string, p: string)
    ensures Contains(s, p) <==> exists j: nat :: OccursAt(s, p, j)
  {
  }

  /** `s.split(p, 1)[0]`: what precedes the first occurrence of `p`, or all of `s`. */
  function Before(s: string, p: string): (r: string)
    requires p != []
    ensures StartsWith(s, r)
    ensures !Contains(r, p)
    ensures Contains(s, p) ==> OccursAt(s, p, |r|)
    ensures !Contains(s, p) ==> r == s
  {
    var k := Find(s, p);
    if k == -1 then s
    else
      var r := s[..k];
      assert forall j: nat :: OccursAt(r, p, j) ==> OccursAt(s, p, j) by {
        forall j: nat | OccursAt(r, p, j) ensures OccursAt(s, p, j) {
          assert s[j..j + |p|] == r[j..j + |p|];
        }
      }
      r
  }

  // ---------------------------------------------------------------------------
  // Stripping

  /** Every character of `s` satisfies `f`. */
  ghost predicate All(s: string, f: set<char>) {
    forall k :: 0 <= k < |s| ==> s[k] in f
  }

  /** `s.lstrip(...)`: drop leading characters for which `drop` holds. */
  function LStrip(s: string, drop: set<char>): (r: string)
    ensures |r| <= |s| && r == s[|s| - |r|..]
    ensures All(s[..|s| - |r|], drop)
    ensures r != [] ==> r[0] !in drop
  {
    if s != [] && s[0] in drop then
      var r := LStrip(s[1..], drop);
      assert s[..|s| - |r|] == [s[0]] + s[1..][..|s| - 1 - |r|];
      r
    else s
  }

  /** `s.rstrip(...)`: drop trailing characters for which `drop` holds. */
  function RStrip(s: string, drop: set<char>): (r: string)
    ensures |r| <= |s| && r == s[..|r|]
    ensures All(s[|r|..], drop)
    ensures r != [] ==> r[|r| - 1] !in drop
  {
    if s != [] && s[|s| - 1] in drop then
      var r := RStrip(s[..|s| - 1], drop);
      assert s[|r|..] == s[..|s| - 1][|r|..] + [s[|s| - 1]];
      r
    else s
  }

  /** `s.strip(...)`: both ends. */
  function Strip(s: string, drop: set<char>): (r: string)
  {
    RStrip(LStrip(s, drop), drop)
  }

  /** What `strip` keeps is one contiguous piece `s[a..a + |r|]` of `s`,
      everything cut away around it satisfies `drop`, and neither end of the
      result does. */
  lemma StripShape(s: string, drop: set<char>)
    ensures Strip(s, drop) != [] ==> Strip(s, drop)[0] !in drop
    ensures Strip(s, drop) != [] ==> Strip(s, drop)[|Strip(s, drop)| - 1] !in drop
    ensures IsInfix(Strip(s, drop), s)
  {
    var l := LStrip(s, drop);
    var r := RStrip(l, drop);
    var a := |s| - |l|;
    assert r != [] ==> r[0] == l[0];
    InfixOfSuffix(s, a, |r|);
  }

  /** `lstrip` removes exactly a stripped prefix that is followed by a kept
      character. */
  lemma {:induction false} LStripPast(p: string, t: string, drop: set<char>)
    requires All(p, drop) && (t != [] ==> t[0] !in drop)
    ensures LStrip(p + t, drop) == t
  {
    if p != [] {
      assert (p + t)[1..] == p[1..] + t;
      LStripPast(p[1..], t, drop);
    } else {
      assert p + t == t;
    }
  }

  /** `rstrip` removes exactly a stripped suffix that follows a kept character. */
  lemma {:induction false} RStripPast(t: string, q: string, drop: set<char>)
    requires All(q, drop) && (t != [] ==> t[|t| - 1] !in drop)
    ensures RStrip(t + q, drop) == t
  {
    if q != [] {
      assert (t + q)[..|t + q| - 1] == t + q[..|q| - 1];
      RStripPast(t, q[..|q| - 1], drop);
    } else {
      assert t + q == t;
    }
  }

  /** `strip` of a text framed by stripped characters on both sides is the
      text, when its two ends are kept. */
  lemma StripBetween(p: string, t: string, q: string, drop: set<char>)
    requires All(p, drop) && All(q, drop)
    requires t != [] && t[0] !in drop && t[|t| - 1] !in drop
    ensures Strip(p + t + q, drop) == t
  {
    assert p + t + q == p + (t + q);
    LStripPast(p, t + q, drop);
    RStripPast(t, q, drop);
  }

  lemma InfixOfSuffix(s: string, a: nat, n: nat)
    requires a + n <= |s|
    ensures s[a..][..n] == s[a..a + n]
    ensures IsInfix(s[a..a + n], s)
  {
  }

  /** `t` occurs somewhere in `s`. */
  ghost predicate IsInfix(t: string, s: string) {
    exists a, b :: 0 <= a <= b <= |s| && t == s[a..b]
  }

  // ---------------------------------------------------------------------------
  // Whitespace splitting: `s.split()`

  /** Length of the run of non-space characters at the start of `s`. */
  function WordLength(s: string, space: set<char>): (n: nat)
    ensures n <= |s|
    ensures forall k :: 0 <= k < n ==> s[k] !in space
    ensures n < |s| ==> s[n] in space
  {
    if s == [] || s[0] in space then 0 else 1 + WordLength(s[1..], space)
  }

  /** A word of `split()`: non-empty, no whitespace. */
  ghost predicate IsWord(w: string, space: set<char>) {
    w != [] && forall m :: 0 <= m < |w| ==> w[m] !in space
  }

  /** `s.split()`: the maximal runs of non-space characters, in order. */
  function Words(s: string, space: set<char>): (ws: seq<string>)
    ensures forall k :: 0 <= k < |ws| ==> IsWord(ws[k], space)
    ensures ws == [] <==> All(s, space)
    decreases |s|
  {
    if s == [] then []
    else if s[0] in space then
      assert forall k :: 1 <= k < |s| ==> s[k] == s[1..][k - 1];
      Words(s[1..], space)
    else
      var n := WordLength(s, space);
      assert IsWord(s[..n], space);
      [s[..n]] + Words(s[n..], space)
  }

  /** The runs of whitespace around and between the words: `s` is
      `gaps[0] + words[0] + gaps[1] + ... + words[n-1] + gaps[n]`. */
  function Gaps(s: string, space: set<char>): (gs: seq<string>)
    ensures |gs| == |Words(s, space)| + 1
    ensures forall k :: 0 <= k < |gs| ==> All(gs[k], space)
    ensures gs[0] != [] <==> s != [] && s[0] in space
    decreases |s|
  {
    if s == [] then [[]]
    else if s[0] in space then
      var g := Gaps(s[1..], space);
      [[s[0]] + g[0]] + g[1..]
    else
      [[]] + Gaps(s[WordLength(s, space)..], space)
  }

  function Interleave(gaps: seq<string>, words: seq<string>): string
    requires |gaps| == |words| + 1
  {
    if words == [] then gaps[0] else gaps[0] + (words[0] + Interleave(gaps[1..], words[1..]))
  }

  /** `split()` loses nothing but whitespace, and separates words by at least one
      space character: this pins down the words of `s` exactly. */
  lemma WordsAndGaps(s: string, space: set<char>)
    ensures s == Interleave(Gaps(s, space), Words(s, space))
    ensures forall k :: 0 < k < |Words(s, space)| ==> Gaps(s, space)[k] != []
  {
    WordsCover(s, space);
    WordsSeparated(s, space);
  }

  lemma {:induction false} WordsCover(s: string, space: set<char>)
    ensures s == Interleave(Gaps(s, space), Words(s, space))
    decreases |s|
  {
    if s == [] {
    } else if s[0] in space {
      WordsCover(s[1..], space);
      var g, w := Gaps(s[1..], space), Words(s[1..], space);
      assert Words(s, space) == w;
      assert Gaps(s, space) == [[s[0]] + g[0]] + g[1..];
      InterleaveWiderGap(s[0], g, w);
      assert s == [s[0]] + s[1..];
    } else {
      var n := WordLength(s, space);
      var u := s[n..];
      WordsCover(u, space);
      CoverAfterWord(s, space);
    }
  }

  /** The step of `WordsCover` at a leading word. */
  lemma CoverAfterWord(s: string, space: set<char>)
    requires s != [] && s[0] !in space
    requires var u := s[WordLength(s, space)..]; u == Interleave(Gaps(u, space), Words(u, space))
    ensures s == Interleave(Gaps(s, space), Words(s, space))
  {
    var n := WordLength(s, space);
    var u := s[n..];
    DropCons([], Gaps(u, space));
    DropCons(s[..n], Words(u, space));
    SplitAt(s, n);
    EmptyAppend(s[..n] + Interleave(Gaps(u, space), Words(u, space)));
  }

  /** Widening the first gap by one character widens the text by it. */
  lemma InterleaveWiderGap(c: char, g: seq<string>, w: seq<string>)
    requires |g| == |w| + 1
    ensures Interleave([[c] + g[0]] + g[1..], w) == [c] + Interleave(g, w)
  {
    var h := [[c] + g[0]] + g[1..];
    if w != [] {
      DropCons([c] + g[0], g[1..]);
      AppendAssoc([c], g[0], w[0] + Interleave(g[1..], w[1..]));
    }
  }

  lemma DropCons<T>(x: T, t: seq<T>)
    ensures ([x] + t)[0] == x && ([x] + t)[1..] == t
  {
  }

  lemma EmptyAppend<T>(a: seq<T>)
    ensures [] + a == a
  {
  }

  lemma SplitAt<T>(a: seq<T>, n: nat)
    requires n <= |a|
    ensures a[..n] + a[n..] == a
  {
  }

  lemma SplitLast<T>(a: seq<T>)
    requires a != []
    ensures a == a[..|a| - 1] + [a[|a| - 1]]
  {
  }

  lemma TakeAppend<T>(a: seq<T>, b: seq<T>)
    ensures (a + b)[..|a|] == a && (a + b)[|a|..] == b
    ensures a + [] == a
  {
  }

  /** The prefixes a loop over `a` walks through. */
  lemma Prefixes<T>(a: seq<T>, n: nat)
    requires n < |a|
    ensures a[..n + 1][..n] == a[..n] && a[..n + 1][n] == a[n]
  {
  }

  lemma TakeAll<T>(a: seq<T>)
    ensures a[..|a|] == a
  {
  }

  lemma AppendAssoc<T>(a: seq<T>, b: seq<T>, c: seq<T>)
    ensures (a + b) + c == a + (b + c)
  {
  }

  lemma {:induction false} WordsSeparated(s: string, space: set<char>)
    ensures forall k :: 0 < k < |Words(s, space)| ==> Gaps(s, space)[k] != []
    decreases |s|
  {
    if s == [] {
    } else if s[0] in space {
      WordsSeparated(s[1..], space);
      var g, w := Gaps(s[1..], space), Words(s[1..], space);
      assert Words(s, space) == w;
      assert Gaps(s, space)[1..] == g[1..];
    } else {
      var n := WordLength(s, space);
      var u := s[n..];
      WordsSeparated(u, space);
      var ws, gs := Words(s, space), Gaps(s, space);
      assert ws[1..] == Words(u, space);
      assert gs[1..] == Gaps(u, space);
      forall k | 0 < k < |ws| ensures gs[k] != [] {
        assert gs[k] == Gaps(u, space)[k - 1];
        if k == 1 {
          assert u != [] && u[0] == s[n];
        }
      }
    }
  }

  // ---------------------------------------------------------------------------
  // Character-wise rewrites

  /** `s.replace(a, b)` for single characters. */
  function ReplaceChar(s: string, a: char, b: char): (r: string)
    ensures |r| == |s|
    ensures forall k :: 0 <= k < |s| ==> r[k] == (if s[k] == a then b else s[k])
  {
    if s == [] then [] else [if s[0] == a then b else s[0]] + ReplaceChar(s[1..], a, b)
  }

  /** `s.upper()`: the per-character case mapping, as a string, concatenated. */
  function Upper(cc: CharInfo, s: string): string
  {
    if s == [] then [] else cc.Upper(s[0]) + Upper(cc, s[1..])
  }

  /** `s.lower()` */
  function Lower(cc: CharInfo, s: string): string
  {
    if s == [] then [] else cc.Lower(s[0]) + Lower(cc, s[1..])
  }

  /** Upper-casing never introduces a double quote into a string that has none. */
  lemma {:induction false} UpperAvoidsQuote(cc: CharInfo, s: string)
    requires cc.Valid()
    requires '"' !in s
    ensures '"' !in Upper(cc, s)
  {
    if s != [] {
      UpperAvoidsQuote(cc, s[1..]);
      assert s[0] != '"';
    }
  }
}
