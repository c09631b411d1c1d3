/** `WikiNameListExtractor`: pulls names out of Wikipedia list pages, one line
    of wikitext at a time, and `get_corpus_text_names`, which names each corpus
    file after its base name.

    The two regular expressions are written out as scans: `re.search` tries
    each start position from the left and, at a start where the opening
    delimiter matches, the lazy group `[\w'. -]*?` with 0, 1, 2, ... characters
    until the closing delimiter follows. */
module Corpus {
  import opened PyStr

  /** `NAME_LENGTH`: the most words a name may have. */
  const NameLength: nat := 4

  /** What `strip(u"'[]\" ")` removes from both ends of a name. */
  const NameStrip: set<char> := {'\'', '[', ']', '"', ' '}

  /** The characters the group `[\w'. -]` accepts besides `\w`. */
  const GroupPunct: set<char> := {'\'', '.', ' ', '-'}

  /** The list delimiters, in the order a list item is cut at them: an em
      dash, a spaced en dash, a comma, a colon and a spaced hyphen. */
  const Delimiters: seq<string> := ["\U{2014}", " \U{2013} ", ", ", ": ", " - "]

  /** What `lstrip(u' *')` removes from a list item. */
  const ListStrip: set<char> := {' ', '*'}

  /** What `lstrip(u' |')` removes from a table row. */
  const TableStrip: set<char> := {' ', '|'}

  predicate InGroup(cc: CharInfo, c: char) {
    c in cc.word || c in GroupPunct
  }

  // ---------------------------------------------------------------------------
  // The two patterns

  /** `LINE_LINKED_RE`, `[\[\|]([\w'. -]*?)\]\]`, and `LINE_BOLD_RE`,
      `''([\w'. -]*?)''`. */
  datatype Pattern = Linked | Bold

  /** The pattern's opening delimiter occurs at `i`. */
  predicate Opens(p: Pattern, s: string, i: nat) {
    match p
    case Linked => i < |s| && (s[i] == '[' || s[i] == '|')
    case Bold => OccursAt(s, "''", i)
  }

  function OpenLength(p: Pattern): nat {
    if p.Linked? then 1 else 2
  }

  function Close(p: Pattern): string {
    if p.Linked? then "]]" else "''"
  }

  /** `m` group characters from `j` on, followed by `close`. */
  ghost predicate GroupAt(cc: CharInfo, s: string, close: string, j: nat, m: nat) {
    && j + m <= |s|
    && (forall k :: j <= k < j + m ==> InGroup(cc, s[k]))
    && OccursAt(s, close, j + m)
  }

  /** The pattern matches at `i`, capturing `n` characters. */
  ghost predicate MatchAt(cc: CharInfo, p: Pattern, s: string, i: nat, n: nat) {
    Opens(p, s, i) && GroupAt(cc, s, Close(p), i + OpenLength(p), n)
  }

  /** The match `re.search` reports: the leftmost start, and there the
      shortest group. */
  ghost predicate FirstMatch(cc: CharInfo, p: Pattern, s: string, i: nat, n: nat) {
    && MatchAt(cc, p, s, i, n)
    && (forall j: nat, m: nat :: j < i ==> !MatchAt(cc, p, s, j, m))
    && (forall m: nat :: m < n ==> !MatchAt(cc, p, s, i, m))
  }

  /** The lazy group from `j`, tried with `n`, `n + 1`, ... characters until
      `close` follows; `None` once a character outside the group is reached. */
  function Shortest(cc: CharInfo, s: string, close: string, j: nat, n: nat): (r: Option<nat>)
    requires j + n <= |s|
    ensures r.Some? ==> n <= r.value && j + r.value <= |s|
    decreases |s| - j - n
  {
    if OccursAt(s, close, j + n) then Some(n)
    else if j + n < |s| && InGroup(cc, s[j + n]) then Shortest(cc, s, close, j, n + 1)
    else None
  }

  /** `Shortest` finds the shortest group of at least `n` characters, if any. */
  lemma {:induction false} ShortestFinds(cc: CharInfo, s: string, close: string, j: nat, n: nat)
    requires j + n <= |s|
    requires forall k :: j <= k < j + n ==> InGroup(cc, s[k])
    ensures var r := Shortest(cc, s, close, j, n);
      r.Some? ==> GroupAt(cc, s, close, j, r.value)
    ensures var r := Shortest(cc, s, close, j, n);
      forall m: nat :: n <= m && (r.None? || m < r.value) ==> !GroupAt(cc, s, close, j, m)
    decreases |s| - j - n
  {
    if OccursAt(s, close, j + n) {
    } else if j + n < |s| && InGroup(cc, s[j + n]) {
      ShortestFinds(cc, s, close, j, n + 1);
    } else {
      forall m: nat | n < m ensures !GroupAt(cc, s, close, j, m) {
        if j + m <= |s| {
          assert !InGroup(cc, s[j + n]);
        }
      }
    }
  }

  /** `re.search(pattern, s)` from start position `i` on: the start and the
      group length of the match, or `None`. */
  function Search(cc: CharInfo, p: Pattern, s: string, i: nat): (r: Option<(nat, nat)>)
    ensures r.Some? ==> i <= r.value.0 && r.value.0 + OpenLength(p) + r.value.1 <= |s|
    decreases |s| - i
  {
    if i >= |s| then None
    else if Opens(p, s, i) && i + OpenLength(p) <= |s| then
      match Shortest(cc, s, Close(p), i + OpenLength(p), 0)
      case Some(n) => Some((i, n))
      case None => Search(cc, p, s, i + 1)
    else Search(cc, p, s, i + 1)
  }

  /** `Search` reports the leftmost match and, there, the shortest group. */
  lemma SearchFinds(cc: CharInfo, p: Pattern, s: string, i: nat)
    ensures var r := Search(cc, p, s, i);
      r.Some? ==> && MatchAt(cc, p, s, r.value.0, r.value.1)
                  && (forall j: nat, m: nat :: i <= j < r.value.0 ==> !MatchAt(cc, p, s, j, m))
                  && (forall m: nat :: m < r.value.1 ==> !MatchAt(cc, p, s, r.value.0, m))
  {
    var r := Search(cc, p, s, i);
    SearchStopsAtOpening(cc, p, s, i);
    SearchLeftmost(cc, p, s, i);
    if r.Some? {
      MatchHere(cc, p, s, r.value.0);
    }
  }

  /** `Search` stops where the opening delimiter is followed by a group. */
  lemma {:induction false} SearchStopsAtOpening(cc: CharInfo, p: Pattern, s: string, i: nat)
    ensures var r := Search(cc, p, s, i);
      r.Some? ==> && Opens(p, s, r.value.0) && r.value.0 + OpenLength(p) <= |s|
                  && Shortest(cc, s, Close(p), r.value.0 + OpenLength(p), 0) == Some(r.value.1)
    decreases |s| - i
  {
    if i < |s| && !(Opens(p, s, i) && i + OpenLength(p) <= |s| && Shortest(cc, s, Close(p), i + OpenLength(p), 0).Some?) {
      SearchStopsAtOpening(cc, p, s, i + 1);
    }
  }

  /** No match starts before the one `Search` reports. */
  lemma {:induction false} SearchLeftmost(cc: CharInfo, p: Pattern, s: string, i: nat)
    ensures var r := Search(cc, p, s, i);
      r.Some? ==> forall j: nat, m: nat :: i <= j < r.value.0 ==> !MatchAt(cc, p, s, j, m)
    decreases |s| - i
  {
    if i < |s| && !(Opens(p, s, i) && i + OpenLength(p) <= |s| && Shortest(cc, s, Close(p), i + OpenLength(p), 0).Some?) {
      NoMatchHere(cc, p, s, i);
      SearchLeftmost(cc, p, s, i + 1);
      var r := Search(cc, p, s, i);
      assert r == Search(cc, p, s, i + 1);
      if r.Some? {
        forall j: nat, m: nat | i <= j < r.value.0 ensures !MatchAt(cc, p, s, j, m) {
          if j == i {
            assert !MatchAt(cc, p, s, i, m);
          }
        }
      }
    }
  }

  /** `Search` reports no match only when there is none. */
  lemma {:induction false} SearchFailsOnlyWithoutMatch(cc: CharInfo, p: Pattern, s: string, i: nat)
    ensures Search(cc, p, s, i).None? ==> forall j: nat, m: nat :: i <= j ==> !MatchAt(cc, p, s, j, m)
    decreases |s| - i
  {
    if i >= |s| {
      NoMatchAtEnd(cc, p, s, i);
    } else if Opens(p, s, i) && i + OpenLength(p) <= |s| && Shortest(cc, s, Close(p), i + OpenLength(p), 0).Some? {
    } else {
      NoMatchHere(cc, p, s, i);
      SearchFailsOnlyWithoutMatch(cc, p, s, i + 1);
    }
  }

  lemma NoMatchAtEnd(cc: CharInfo, p: Pattern, s: string, i: nat)
    requires i >= |s|
    ensures forall j: nat, m: nat :: i <= j ==> !MatchAt(cc, p, s, j, m)
  {
  }

  /** Where the opening delimiter and a group fit, the scan stops. */
  lemma MatchHere(cc: CharInfo, p: Pattern, s: string, i: nat)
    requires Opens(p, s, i) && i + OpenLength(p) <= |s|
    requires Shortest(cc, s, Close(p), i + OpenLength(p), 0).Some?
    ensures var n := Shortest(cc, s, Close(p), i + OpenLength(p), 0).value;
      && MatchAt(cc, p, s, i, n)
      && (forall m: nat :: m < n ==> !MatchAt(cc, p, s, i, m))
  {
    ShortestFinds(cc, s, Close(p), i + OpenLength(p), 0);
  }

  /** Where they do not, nothing matches at `i`. */
  lemma NoMatchHere(cc: CharInfo, p: Pattern, s: string, i: nat)
    requires i < |s|
    requires !(Opens(p, s, i) && i + OpenLength(p) <= |s| && Shortest(cc, s, Close(p), i + OpenLength(p), 0).Some?)
    ensures forall m: nat :: !MatchAt(cc, p, s, i, m)
  {
    if Opens(p, s, i) && i + OpenLength(p) <= |s| {
      ShortestFinds(cc, s, Close(p), i + OpenLength(p), 0);
    }
  }

  /** The captured text `match_obj.group(1)` of a search result. */
  function Group(p: Pattern, s: string, m: (nat, nat)): string
    requires m.0 + OpenLength(p) + m.1 <= |s|
  {
    s[m.0 + OpenLength(p)..m.0 + OpenLength(p) + m.1]
  }

  /** `extract_line_fragment`'s source text: the linked group if that pattern
      matches, else the bold group if that one does, else the whole fragment. */
  function Source(cc: CharInfo, fragment: string): (src: string)
    ensures IsInfix(src, fragment)
  {
    assert fragment == fragment[0..|fragment|];
    var linked := Search(cc, Linked, fragment, 0);
    if linked.Some? then Group(Linked, fragment, linked.value)
    else
      var bold := Search(cc, Bold, fragment, 0);
      if bold.Some? then Group(Bold, fragment, bold.value)
      else fragment
  }

  /** The order in which the source text is chosen, in terms of the matches
      `re.search` reports. */
  lemma SourceOrder(cc: CharInfo, f: string)
    ensures (exists i: nat, n: nat :: MatchAt(cc, Linked, f, i, n)) ==>
      exists i: nat, n: nat :: FirstMatch(cc, Linked, f, i, n)
    ensures forall i: nat, n: nat :: FirstMatch(cc, Linked, f, i, n) ==>
      Source(cc, f) == f[i + 1..i + 1 + n]
    ensures (forall i: nat, n: nat :: !MatchAt(cc, Linked, f, i, n)) ==>
      forall i: nat, n: nat :: FirstMatch(cc, Bold, f, i, n) ==> Source(cc, f) == f[i + 2..i + 2 + n]
    ensures (forall i: nat, n: nat :: !MatchAt(cc, Linked, f, i, n) && !MatchAt(cc, Bold, f, i, n)) ==>
      Source(cc, f) == f
  {
    SearchFinds(cc, Linked, f, 0);
    SearchFinds(cc, Bold, f, 0);
    SearchFailsOnlyWithoutMatch(cc, Linked, f, 0);
    SearchFailsOnlyWithoutMatch(cc, Bold, f, 0);
    var linked := Search(cc, Linked, f, 0);
    if linked.Some? {
      assert FirstMatch(cc, Linked, f, linked.value.0, linked.value.1);
      forall i: nat, n: nat | FirstMatch(cc, Linked, f, i, n) ensures i == linked.value.0 && n == linked.value.1 {
        assert !(i < linked.value.0) && !(linked.value.0 < i);
        assert !(n < linked.value.1) && !(linked.value.1 < n);
      }
    } else {
      var bold := Search(cc, Bold, f, 0);
      if bold.Some? {
        forall i: nat, n: nat | FirstMatch(cc, Bold, f, i, n) ensures i == bold.value.0 && n == bold.value.1 {
          assert !(i < bold.value.0) && !(bold.value.0 < i);
          assert !(n < bold.value.1) && !(bold.value.1 < n);
        }
      } else {
        assert !MatchAt(cc, Bold, f, 0, 0);
      }
    }
  }

  /** In `LINE_LINKED_RE` the group cannot hold `]`, so at a given start
      there is at most one group length: the lazy and the greedy group agree. */
  lemma LinkedGroupUnique(cc: CharInfo, s: string, i: nat, n: nat, m: nat)
    requires cc.Valid()
    requires MatchAt(cc, Linked, s, i, n) && MatchAt(cc, Linked, s, i, m)
    ensures n == m
  {
    BracketOutsideGroup(cc);
    CloseAtBracket(s, i + 1 + n);
    CloseAtBracket(s, i + 1 + m);
  }

  lemma BracketOutsideGroup(cc: CharInfo)
    requires cc.Valid()
    ensures !InGroup(cc, ']')
  {
    assert IsAscii(']') && !IsAsciiAlnum(']');
  }

  lemma CloseAtBracket(s: string, k: nat)
    requires OccursAt(s, "]]", k)
    ensures s[k] == ']'
  {
    assert s[k] == s[k..k + 2][0];
  }

  /** `LINE_BOLD_RE` stops at the first `''` after the opening one, even
      though its group may hold a single quote. */
  lemma BoldStopsAtFirstClose(cc: CharInfo, s: string, i: nat, n: nat)
    requires FirstMatch(cc, Bold, s, i, n)
    ensures forall k: nat :: i + 2 <= k < i + 2 + n ==> !OccursAt(s, "''", k)
  {
    forall k: nat | i + 2 <= k < i + 2 + n ensures !OccursAt(s, "''", k) {
      if OccursAt(s, "''", k) {
        assert MatchAt(cc, Bold, s, i, k - i - 2);
      }
    }
  }

  // ---------------------------------------------------------------------------
  // Pieces of strings

  /** For a single character, `in` on strings is membership. */
  lemma CharContains(s: string, c: char)
    ensures Contains(s, [c]) <==> c in s
  {
    ContainsIff(s, [c]);
    forall j: nat | OccursAt(s, [c], j) ensures c in s {
      assert s[j] == s[j..j + 1][0];
    }
    if c in s {
      var k :| 0 <= k < |s| && s[k] == c;
      assert OccursAt(s, [c], k);
    }
  }

  lemma PrefixInfix(s: string, r: string)
    requires StartsWith(s, r)
    ensures IsInfix(r, s)
  {
    assert r == s[0..|r|];
  }

  lemma InfixTrans(t: string, u: string, s: string)
    requires IsInfix(t, u) && IsInfix(u, s)
    ensures IsInfix(t, s)
  {
    var a, b :| 0 <= a <= b <= |u| && t == u[a..b];
    var c, d :| 0 <= c <= d <= |s| && u == s[c..d];
    assert forall x :: 0 <= x < b - a ==> t[x] == u[a + x] == s[c + a + x];
    assert t == s[c + a..c + b];
  }

  /** A piece of a string without an occurrence of `d` has none either. */
  lemma InfixNotContains(t: string, s: string, d: string)
    requires IsInfix(t, s) && !Contains(s, d)
    ensures !Contains(t, d)
  {
    var a, b :| 0 <= a <= b <= |s| && t == s[a..b];
    ContainsIff(t, d);
    ContainsIff(s, d);
    forall j: nat | OccursAt(t, d, j) ensures OccursAt(s, d, a + j) {
      var u, v := t[j..j + |d|], s[a + j..a + j + |d|];
      forall x | 0 <= x < |d| ensures u[x] == v[x] {
        assert u[x] == t[j + x] == s[a..b][j + x];
      }
      assert u == v;
    }
  }

  lemma InfixAvoids(t: string, s: string, c: char)
    requires IsInfix(t, s) && c !in s
    ensures c !in t
  {
  }

  // ---------------------------------------------------------------------------
  // extract_line_fragment

  /** `word_count(s)`: `len(s.split())`. */
  function WordCount(cc: CharInfo, s: string): (n: nat)
    ensures n == 0 <==> All(s, cc.space)
  {
    |Words(s, cc.space)|
  }

  /** The number of positions where a word begins: a non-space character at
      the start, or after a space (`afterSpace` says whether what precedes
      `s` counts as a space). */
  function WordStarts(s: string, space: set<char>, afterSpace: bool): nat
  {
    if s == [] then 0
    else (if s[0] !in space && afterSpace then 1 else 0) + WordStarts(s[1..], space, s[0] in space)
  }

  /** `split()` yields one word per word start. */
  lemma {:induction false} WordCountIsWordStarts(cc: CharInfo, s: string)
    ensures WordCount(cc, s) == WordStarts(s, cc.space, true)
    decreases |s|
  {
    if s != [] {
      if s[0] in cc.space {
        WordCountIsWordStarts(cc, s[1..]);
      } else {
        var n := WordLength(s, cc.space);
        WordCountIsWordStarts(cc, s[n..]);
        InsideWord(s[1..], n - 1, cc.space);
        assert s[1..][n - 1..] == s[n..];
      }
    }
  }

  /** Inside a word no further word begins. */
  lemma {:induction false} InsideWord(t: string, m: nat, space: set<char>)
    requires m <= |t|
    requires forall k :: 0 <= k < m ==> t[k] !in space
    requires m == |t| || t[m] in space
    ensures WordStarts(t, space, false) == WordStarts(t[m..], space, true)
  {
    if m == 0 {
      assert t[m..] == t;
    } else {
      InsideWord(t[1..], m - 1, space);
      assert t[1..][m - 1..] == t[m..];
    }
  }

  /** The shape every accepted name has. */
  ghost predicate IsName(cc: CharInfo, s: string) {
    && s != []
    && WordCount(cc, s) <= NameLength
    && '(' !in s && '<' !in s
    && s[0] !in NameStrip && s[|s| - 1] !in NameStrip
  }

  /** The source text cut before its first `(` and its first `<`, then
      stripped: a piece of the fragment, holding neither character, and not
      beginning or ending with one of the stripped characters. */
  function Candidate(cc: CharInfo, fragment: string): (c: string)
    ensures '(' !in c && '<' !in c
    ensures c != [] ==> c[0] !in NameStrip && c[|c| - 1] !in NameStrip
    ensures IsInfix(c, fragment)
  {
    var src := Source(cc, fragment);
    var a := Before(src, "(");
    var b := Before(a, "<");
    CandidateShape(cc, fragment, src, a, b);
    Strip(b, NameStrip)
  }

  lemma CandidateShape(cc: CharInfo, fragment: string, src: string, a: string, b: string)
    requires src == Source(cc, fragment) && a == Before(src, "(") && b == Before(a, "<")
    ensures '(' !in Strip(b, NameStrip) && '<' !in Strip(b, NameStrip)
    ensures var c := Strip(b, NameStrip);
      c != [] ==> c[0] !in NameStrip && c[|c| - 1] !in NameStrip
    ensures IsInfix(Strip(b, NameStrip), fragment)
  {
    var c := Strip(b, NameStrip);
    StripShape(b, NameStrip);
    CandidateChars(src, a, b, c);
    CandidateInfix(cc, fragment, src, a, b, c);
  }

  lemma CandidateChars(src: string, a: string, b: string, c: string)
    requires a == Before(src, "(") && b == Before(a, "<") && IsInfix(c, b)
    ensures '(' !in c && '<' !in c
  {
    CharContains(a, '(');
    CharContains(b, '<');
    PrefixInfix(a, b);
    InfixTrans(c, b, a);
  }

  lemma CandidateInfix(cc: CharInfo, fragment: string, src: string, a: string, b: string, c: string)
    requires src == Source(cc, fragment) && StartsWith(src, a) && StartsWith(a, b) && IsInfix(c, b)
    ensures IsInfix(c, fragment)
  {
    PrefixInfix(a, b);
    PrefixInfix(src, a);
    InfixTrans(c, b, a);
    InfixTrans(c, a, src);
    InfixTrans(c, src, fragment);
  }

  /** `extract_line_fragment(fragment)`: the candidate, when it is not empty
      and has at most `NAME_LENGTH` words; otherwise `None`. */
  function ExtractLineFragment(cc: CharInfo, fragment: string): (r: Option<string>)
    ensures r.Some? ==> IsName(cc, r.value) && IsInfix(r.value, fragment)
    ensures r.Some? <==> Candidate(cc, fragment) != [] && WordCount(cc, Candidate(cc, fragment)) <= NameLength
  {
    var s := Candidate(cc, fragment);
    if s != [] && WordCount(cc, s) <= NameLength then Some(s) else None
  }

  // ---------------------------------------------------------------------------
  // extract_line

  /** Cut `s` before the first occurrence of each delimiter in turn. */
  function CutAt(s: string, ds: seq<string>): string
    requires forall k :: 0 <= k < |ds| ==> ds[k] != []
  {
    if ds == [] then s
    else
      var t := CutAt(s, ds[..|ds| - 1]);
      var d := ds[|ds| - 1];
      if Contains(t, d) then Before(t, d) else t
  }

  /** One more delimiter cuts what the earlier ones left. */
  lemma CutAtNext(s: string, ds: seq<string>, n: nat)
    requires forall k :: 0 <= k < |ds| ==> ds[k] != []
    requires n < |ds|
    ensures var t := CutAt(s, ds[..n]);
      CutAt(s, ds[..n + 1]) == if Contains(t, ds[n]) then Before(t, ds[n]) else t
  {
    Prefixes(ds, n);
  }

  /** What is left is a prefix of the item holding none of the delimiters. */
  lemma {:induction false} CutAtShape(s: string, ds: seq<string>)
    requires forall k :: 0 <= k < |ds| ==> ds[k] != []
    ensures StartsWith(s, CutAt(s, ds))
    ensures forall k :: 0 <= k < |ds| ==> !Contains(CutAt(s, ds), ds[k])
  {
    if ds != [] {
      var init := ds[..|ds| - 1];
      var t := CutAt(s, init);
      var d := ds[|ds| - 1];
      CutAtShape(s, init);
      if Contains(t, d) {
        var r := Before(t, d);
        PrefixInfix(t, r);
        forall k | 0 <= k < |init| ensures !Contains(r, ds[k]) {
          assert ds[k] == init[k];
          InfixNotContains(r, t, ds[k]);
        }
        assert r == t[..|r|] && t == s[..|t|];
      } else {
        forall k | 0 <= k < |init| ensures !Contains(t, ds[k]) {
          assert ds[k] == init[k];
        }
      }
    }
  }

  lemma DelimitersNonEmpty()
    ensures forall k :: 0 <= k < |Delimiters| ==> Delimiters[k] != []
  {
  }

  /** The text of a list item: without its leading bullets and spaces, cut
      at the delimiters. */
  function ListItemText(line: string): string
  {
    DelimitersNonEmpty();
    CutAt(LStrip(line, ListStrip), Delimiters)
  }

  /** A list item: left-stripped of whitespace, it begins with `*`. */
  predicate IsListItem(cc: CharInfo, line: string) {
    StartsWith(LStrip(line, cc.space), "*")
  }

  /** The first column of a table: the line after a `|-` row separator that
      begins with `|`. */
  predicate IsTableCell(prev: string, line: string) {
    StartsWith(prev, "|-") && StartsWith(line, "|")
  }

  /** `extract_line(line)` with `_prev_line` equal to `prev`. */
  function LineName(cc: CharInfo, prev: string, line: string): (r: Option<string>)
    ensures r.Some? ==> IsName(cc, r.value)
    ensures r.Some? ==> IsListItem(cc, line) || IsTableCell(prev, line)
  {
    if IsListItem(cc, line) then ExtractLineFragment(cc, ListItemText(line))
    else if IsTableCell(prev, line) then ExtractLineFragment(cc, LStrip(line, TableStrip))
    else None
  }

  /** A name taken from a list item holds none of the delimiters: it comes
      from the part of the item before all of them. */
  lemma ListItemName(cc: CharInfo, prev: string, line: string)
    requires IsListItem(cc, line) && LineName(cc, prev, line).Some?
    ensures forall k :: 0 <= k < |Delimiters| ==> !Contains(LineName(cc, prev, line).value, Delimiters[k])
  {
    DelimitersNonEmpty();
    var cut := ListItemText(line);
    CutAtShape(LStrip(line, ListStrip), Delimiters);
    var name := LineName(cc, prev, line).value;
    forall k | 0 <= k < |Delimiters| ensures !Contains(name, Delimiters[k]) {
      InfixNotContains(name, cut, Delimiters[k]);
    }
  }

  /** A table row is read only right after a row separator: on any other
      line that is not a list item nothing is extracted. */
  lemma TableNeedsSeparator(cc: CharInfo, prev: string, line: string)
    requires !IsListItem(cc, line)
    ensures LineName(cc, prev, line).Some? ==> StartsWith(prev, "|-") && StartsWith(line, "|")
    ensures IsTableCell(prev, line) ==> LineName(cc, prev, line) == ExtractLineFragment(cc, LStrip(line, TableStrip))
  {
  }

  // ---------------------------------------------------------------------------
  // The extract loop

  /** `_prev_line` and `_names`. */
  datatype ExtractorState = ExtractorState(prevLine: string, names: set<string>)

  /** `filter_text and name and filter_text.lower() in name.lower()` */
  predicate Filtered(cc: CharInfo, filter: Option<string>, name: string) {
    filter.Some? && filter.value != [] && name != [] && Contains(Lower(cc, name), Lower(cc, filter.value))
  }

  /** One pass of the loop in `extract` on `line`. A filtered name ends the
      pass with `continue`, before `_prev_line` is updated. */
  function Step(cc: CharInfo, st: ExtractorState, line: string, filter: Option<string>): (next: ExtractorState)
    ensures st.names <= next.names && |next.names| <= |st.names| + 1
    ensures forall n :: n in next.names - st.names ==>
      LineName(cc, st.prevLine, line) == Some(n) && !Filtered(cc, filter, n)
    ensures next == st || next.prevLine == line
    ensures var n := LineName(cc, st.prevLine, line);
      n.Some? && Filtered(cc, filter, n.value) ==> next == st
    ensures var n := LineName(cc, st.prevLine, line);
      !(n.Some? && Filtered(cc, filter, n.value)) ==>
        next.prevLine == line && (n.Some? && n.value != [] ==> n.value in next.names)
  {
    var name := LineName(cc, st.prevLine, line);
    if name.Some? && Filtered(cc, filter, name.value) then st
    else ExtractorState(line, if name.Some? && name.value != [] then st.names + {name.value} else st.names)
  }

  /** The loop over `lines`, from state `st`. */
  function Run(cc: CharInfo, st: ExtractorState, lines: seq<string>, filter: Option<string>): (end: ExtractorState)
    ensures st.names <= end.names && |end.names| <= |st.names| + |lines|
  {
    if lines == [] then st
    else Step(cc, Run(cc, st, lines[..|lines| - 1], filter), lines[|lines| - 1], filter)
  }

  /** Names are only ever added; each added one has the shape of a name, is
      not filtered out, and was extracted from one of the lines. */
  lemma {:induction false} RunNames(cc: CharInfo, st: ExtractorState, lines: seq<string>, filter: Option<string>)
    ensures st.names <= Run(cc, st, lines, filter).names
    ensures forall n :: n in Run(cc, st, lines, filter).names - st.names ==>
      && IsName(cc, n)
      && !Filtered(cc, filter, n)
      && exists k, prev :: 0 <= k < |lines| && LineName(cc, prev, lines[k]) == Some(n)
  {
    if lines != [] {
      var init := lines[..|lines| - 1];
      RunNames(cc, st, init, filter);
      var mid := Run(cc, st, init, filter);
      forall n | n in Run(cc, st, lines, filter).names - st.names
        ensures exists k, prev :: 0 <= k < |lines| && LineName(cc, prev, lines[k]) == Some(n)
      {
        if n in mid.names {
          var k, prev :| 0 <= k < |init| && LineName(cc, prev, init[k]) == Some(n);
          assert lines[k] == init[k];
        } else {
          assert LineName(cc, mid.prevLine, lines[|lines| - 1]) == Some(n);
        }
      }
    }
  }

  /** Running over `a + b` is running over `a`, then over `b`. */
  lemma {:induction false} RunAppend(cc: CharInfo, st: ExtractorState, a: seq<string>, b: seq<string>, filter: Option<string>)
    ensures Run(cc, st, a + b, filter) == Run(cc, Run(cc, st, a, filter), b, filter)
    decreases |b|
  {
    if b == [] {
      assert a + b == a;
    } else {
      var init := b[..|b| - 1];
      assert (a + b)[..|a + b| - 1] == a + init;
      assert (a + b)[|a + b| - 1] == b[|b| - 1];
      RunAppend(cc, st, a, init, filter);
    }
  }

  /** The converse of `RunNames`: a non-empty name that line `k` yields, given
      `_prev_line` as the earlier lines leave it, and that the filter does not
      exclude, is in the final set. */
  lemma RunCollects(cc: CharInfo, st: ExtractorState, lines: seq<string>, filter: Option<string>, k: nat)
    requires k < |lines|
    ensures var n := LineName(cc, Run(cc, st, lines[..k], filter).prevLine, lines[k]);
      n.Some? && n.value != [] && !Filtered(cc, filter, n.value) ==> n.value in Run(cc, st, lines, filter).names
  {
    var head, rest := lines[..k + 1], lines[k + 1..];
    assert head[..|head| - 1] == lines[..k];
    assert lines == head + rest;
    RunAppend(cc, st, head, rest, filter);
  }

  /** A filtered-out first cell leaves `_prev_line` at the row separator, so
      the next line beginning with `|` (the row's second cell) is read as a
      first cell too. */
  lemma FilteredCellKeepsSeparator(cc: CharInfo, st: ExtractorState, line: string, next: string, filter: Option<string>)
    requires StartsWith(st.prevLine, "|-")
    requires LineName(cc, st.prevLine, line).Some? && Filtered(cc, filter, LineName(cc, st.prevLine, line).value)
    requires StartsWith(next, "|") && !IsListItem(cc, next)
    ensures Step(cc, st, line, filter) == st
    ensures LineName(cc, Step(cc, st, line, filter).prevLine, next) == ExtractLineFragment(cc, LStrip(next, TableStrip))
  {
  }

  /** `WikiNameListExtractor`. */
  class WikiNameListExtractor {
    var prevLine: string
    var names: set<string>

    /** The source's constructor leaves both fields unset until `reset`; here
        they start out as `reset` leaves them. */
    constructor ()
      ensures prevLine == [] && names == {}
    {
      prevLine := [];
      names := {};
    }

    /** `reset()` */
    method Reset()
      modifies this
      ensures prevLine == [] && names == {}
    {
      prevLine := [];
      names := {};
    }

    /** `extract_line(line)` */
    method ExtractLine(cc: CharInfo, line: string) returns (name: Option<string>)
      ensures name == LineName(cc, prevLine, line)
    {
      if StartsWith(LStrip(line, cc.space), "*") {
        var strippedLine := CutListItem(line);
        var s := ExtractLineFragment(cc, strippedLine);
        if s.Some? {
          return s;
        }
        return None;
      } else if StartsWith(prevLine, "|-") && StartsWith(line, "|") {
        var strippedLine := LStrip(line, TableStrip);
        var s := ExtractLineFragment(cc, strippedLine);
        if s.Some? {
          return s;
        }
        return None;
      }
      return None;
    }

    /** The list-item branch of `extract_line`: strip the bullets, then cut
        at each delimiter in turn. */
    static method CutListItem(line: string) returns (strippedLine: string)
      ensures strippedLine == ListItemText(line)
    {
      DelimitersNonEmpty();
      strippedLine := LStrip(line, ListStrip);
      strippedLine := CutEach(strippedLine, Delimiters);
    }

    /** The loop over the delimiters: each one present cuts the text before it. */
    static method CutEach(s: string, ds: seq<string>) returns (r: string)
      requires forall k :: 0 <= k < |ds| ==> ds[k] != []
      ensures r == CutAt(s, ds)
    {
      r := s;
      for d := 0 to |ds|
        invariant r == CutAt(s, ds[..d])
      {
        var delim := ds[d];
        CutAtNext(s, ds, d);
        if Contains(r, delim) {
          r := Before(r, delim);
        }
      }
      TakeAll(ds);
    }

    /** The body of the loop in `extract`, for one line read. */
    method ExtractStep(cc: CharInfo, line: string, filter: Option<string>)
      modifies this
      ensures ExtractorState(prevLine, names) == Step(cc, old(ExtractorState(prevLine, names)), line, filter)
    {
      var name := ExtractLine(cc, line);
      ghost var st := ExtractorState(prevLine, names);
      assert name == LineName(cc, st.prevLine, line);
      if name.Some? && Filtered(cc, filter, name.value) {
        assert Step(cc, st, line, filter) == st;
        return;
      }
      assert Step(cc, st, line, filter)
        == ExtractorState(line, if name.Some? && name.value != [] then names + {name.value} else names);
      if name.Some? && name.value != [] {
        names := names + {name.value};
      }
      prevLine := line;
    }

    /** `extract(filter_text=filter)` over the lines read from standard input. */
    method Extract(cc: CharInfo, lines: seq<string>, filter: Option<string>)
      modifies this
      ensures ExtractorState(prevLine, names) == Run(cc, ExtractorState([], {}), lines, filter)
    {
      Reset();
      for i := 0 to |lines|
        invariant ExtractorState(prevLine, names) == Run(cc, ExtractorState([], {}), lines[..i], filter)
      {
        Prefixes(lines, i);
        ExtractStep(cc, lines[i], filter);
      }
      TakeAll(lines);
    }
  }

  // ---------------------------------------------------------------------------
  // get_corpus_text_names

  /** `os.path.basename(path)`: what follows the last `/`. */
  function Basename(path: string): (b: string)
    ensures '/' !in b
    ensures |b| <= |path| && b == path[|path| - |b|..]
    ensures |b| < |path| ==> path[|path| - |b| - 1] == '/'
  {
    if path == [] || path[|path| - 1] == '/' then []
    else Basename(path[..|path| - 1]) + [path[|path| - 1]]
  }

  /** The corpus name of a file: its base name up to the first `.`. */
  function CorpusName(path: string): (name: string)
    ensures '.' !in name && '/' !in name
    ensures StartsWith(Basename(path), name)
    ensures '.' in Basename(path) ==> Basename(path)[|name|] == '.'
    ensures '.' !in Basename(path) ==> name == Basename(path)
  {
    var b := Basename(path);
    BeforeDot(b);
    Before(b, ".")
  }

  lemma BeforeDot(b: string)
    ensures '.' !in Before(b, ".")
    ensures '.' in b ==> b[|Before(b, ".")|] == '.'
    ensures '.' !in b ==> Before(b, ".") == b
  {
    var r := Before(b, ".");
    CharContains(r, '.');
    CharContains(b, '.');
    if '.' in b {
      assert b[|r|] == b[|r|..|r| + 1][0];
    }
  }

  /** The base name is everything after the last `/`. */
  lemma {:induction false} BasenameAfterSlash(dir: string, file: string)
    requires '/' !in file
    ensures Basename(dir + "/" + file) == file
  {
    var path := dir + "/" + file;
    if file != [] {
      var init := file[..|file| - 1];
      BasenameAfterSlash(dir, init);
      assert path[..|path| - 1] == dir + "/" + init;
      assert file == init + [file[|file| - 1]];
    }
  }

  /** A corpus file `dir/stem.ext`, where the stem holds no `.`, is named
      after its stem, whatever the extension holds (`os.2.corpus_text` is
      named `os`). */
  lemma CorpusNameOfStem(dir: string, stem: string, ext: string)
    requires '/' !in stem && '/' !in ext && '.' !in stem
    ensures CorpusName(dir + "/" + (stem + "." + ext)) == stem
  {
    BasenameAfterSlash(dir, stem + "." + ext);
    FirstDot(stem, ext);
  }

  /** The part before the first `.` of `stem.ext` is the stem. */
  lemma FirstDot(stem: string, ext: string)
    requires '.' !in stem
    ensures Before(stem + "." + ext, ".") == stem
  {
    var file := stem + "." + ext;
    var r := Before(file, ".");
    BeforeDot(file);
    assert file[|stem|] == '.';
    assert r == file[..|r|];
    assert forall k :: 0 <= k < |r| ==> file[k] == r[k] != '.';
    assert forall k :: 0 <= k < |stem| ==> file[k] == stem[k] != '.';
    assert |r| == |stem|;
    assert r == file[..|stem|] == stem;
  }
}
