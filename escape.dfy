/** `escape_for_twitter`: a single `re.sub` over the pattern
    `([@#][\w])|([$][A-Za-z])|([\dA-Za-z]\.[A-Za-z][A-Za-z])` with `re.UNICODE`,
    whose callback puts a backtick after the first character of a mention or
    hashtag (`@x`, `#x`) or of a cashtag (`$x`), and after the first two
    characters of something that looks like a domain name (`a.bc`).

    `re.sub` scans leftmost-first and resumes after each match, so the matches
    never overlap. None of the alternatives looks behind or ahead, so whether one
    matches at position `i` depends only on `s[i..]`. */
module TwitterEscape {
  import opened PyStr

  /** The three alternatives of the pattern, tried in this order. */
  datatype Alt = Mention | Cashtag | Domain

  /** A match of the pattern at `start`. */
  datatype Hit = Hit(start: nat, alt: Alt)

  /** The backtick that neutralises a match. */
  const Separator: char := '`'

  /** Characters a match covers. */
  function Width(a: Alt): nat { if a == Domain then 4 else 2 }

  /** Characters of a match that stay before the backtick. */
  function Kept(a: Alt): nat { if a == Domain then 2 else 1 }

  /** The alternative that matches at position `i` of `s`, if any. */
  function MatchAt(cc: CharInfo, s: string, i: nat): (r: Option<Alt>)
    ensures r.Some? ==> i + Width(r.value) <= |s|
  {
    if i + 2 <= |s| && (s[i] == '@' || s[i] == '#') && s[i + 1] in cc.word then Some(Mention)
    else if i + 2 <= |s| && s[i] == '$' && IsAsciiLetter(s[i + 1]) then Some(Cashtag)
    else if i + 4 <= |s| && (s[i] in cc.digit || IsAsciiLetter(s[i])) && s[i + 1] == '.'
      && IsAsciiLetter(s[i + 2]) && IsAsciiLetter(s[i + 3]) then Some(Domain)
    else None
  }

  /** The substitution from position `i` on: copy unmatched characters, rewrite
      each match, resume after it. */
  function EscapeFrom(cc: CharInfo, s: string, i: nat): (r: string)
    requires i <= |s|
    decreases |s| - i
  {
    if i == |s| then []
    else match MatchAt(cc, s, i)
      case None => [s[i]] + EscapeFrom(cc, s, i + 1)
      case Some(a) =>
        s[i..i + Kept(a)] + [Separator] + s[i + Kept(a)..i + Width(a)] + EscapeFrom(cc, s, i + Width(a))
  }

  /** `escape_for_twitter(text)`: nothing is removed, and every backtick
      added stands for a match of at least two characters. */
  function Escape(cc: CharInfo, s: string): (r: string)
    ensures |s| <= |r| && 2 * |r| <= 3 * |s|
  {
    EscapeFromGrowth(cc, s, 0);
    EscapeFrom(cc, s, 0)
  }

  lemma {:induction false} EscapeFromGrowth(cc: CharInfo, s: string, i: nat)
    requires i <= |s|
    ensures |s| - i <= |EscapeFrom(cc, s, i)| && 2 * |EscapeFrom(cc, s, i)| <= 3 * (|s| - i)
    decreases |s| - i
  {
    if i < |s| {
      match MatchAt(cc, s, i)
      case None => EscapeFromGrowth(cc, s, i + 1);
      case Some(a) => EscapeFromGrowth(cc, s, i + Width(a));
    }
  }

  // ---------------------------------------------------------------------------
  // The matches `re.sub` rewrites, as `re.finditer` would report them

  /** Each hit is a genuine match lying at or after `i` inside `s`. */
  ghost predicate Genuine(cc: CharInfo, s: string, i: nat, hs: seq<Hit>) {
    forall k :: 0 <= k < |hs| ==>
      i <= hs[k].start && MatchAt(cc, s, hs[k].start) == Some(hs[k].alt)
  }

  /** Hits are in order and never overlap. */
  ghost predicate Disjoint(hs: seq<Hit>) {
    forall j, k :: 0 <= j < k < |hs| ==> hs[j].start + Width(hs[j].alt) <= hs[k].start
  }

  /** Position `p` lies inside one of the hits. */
  ghost predicate Covered(hs: seq<Hit>, p: nat) {
    exists k :: 0 <= k < |hs| && hs[k].start <= p < hs[k].start + Width(hs[k].alt)
  }

  /** Leftmost-first: the scan found no match at any position it did not skip. */
  ghost predicate Leftmost(cc: CharInfo, s: string, i: nat, hs: seq<Hit>) {
    forall p: nat :: i <= p < |s| && !Covered(hs, p) ==> MatchAt(cc, s, p) == None
  }

  function HitsFrom(cc: CharInfo, s: string, i: nat): (hs: seq<Hit>)
    requires i <= |s|
    decreases |s| - i
  {
    if i == |s| then []
    else match MatchAt(cc, s, i)
      case None => HitsFrom(cc, s, i + 1)
      case Some(a) => [Hit(i, a)] + HitsFrom(cc, s, i + Width(a))
  }

  lemma {:induction false} HitsFromSound(cc: CharInfo, s: string, i: nat)
    requires i <= |s|
    ensures Genuine(cc, s, i, HitsFrom(cc, s, i))
    ensures Disjoint(HitsFrom(cc, s, i))
    decreases |s| - i
  {
    if i < |s| {
      match MatchAt(cc, s, i)
      case None =>
        HitsFromSound(cc, s, i + 1);
      case Some(a) =>
        var rest := HitsFrom(cc, s, i + Width(a));
        HitsFromSound(cc, s, i + Width(a));
        var hs := [Hit(i, a)] + rest;
        assert forall k :: 0 < k < |hs| ==> hs[k] == rest[k - 1];
    }
  }

  lemma {:induction false} EscapeFromLength(cc: CharInfo, s: string, i: nat)
    requires i <= |s|
    ensures |EscapeFrom(cc, s, i)| == |s| - i + |HitsFrom(cc, s, i)|
    decreases |s| - i
  {
    if i < |s| {
      match MatchAt(cc, s, i)
      case None => EscapeFromLength(cc, s, i + 1);
      case Some(a) => EscapeFromLength(cc, s, i + Width(a));
    }
  }

  /** The matches of the escape pattern in `s`, leftmost-first and non-overlapping. */
  function Hits(cc: CharInfo, s: string): seq<Hit>
  {
    HitsFrom(cc, s, 0)
  }

  lemma {:induction false} HitsFromLeftmost(cc: CharInfo, s: string, i: nat)
    requires i <= |s|
    ensures Leftmost(cc, s, i, HitsFrom(cc, s, i))
    decreases |s| - i
  {
    if i < |s| {
      var hs := HitsFrom(cc, s, i);
      match MatchAt(cc, s, i)
      case None =>
        HitsFromLeftmost(cc, s, i + 1);
      case Some(a) =>
        var rest := HitsFrom(cc, s, i + Width(a));
        HitsFromLeftmost(cc, s, i + Width(a));
        forall p: nat | i <= p < |s| && !Covered(hs, p) ensures MatchAt(cc, s, p) == None {
          assert hs[0] == Hit(i, a);
          assert p >= i + Width(a);
          forall k | 0 <= k < |rest| ensures !(rest[k].start <= p < rest[k].start + Width(rest[k].alt)) {
            assert hs[k + 1] == rest[k];
          }
        }
    }
  }

  /** The hits of `Hits` are exactly those of a leftmost, non-overlapping scan. */
  lemma HitsAreLeftmostMatches(cc: CharInfo, s: string)
    ensures Genuine(cc, s, 0, Hits(cc, s))
    ensures Disjoint(Hits(cc, s))
    ensures Leftmost(cc, s, 0, Hits(cc, s))
  {
    HitsFromSound(cc, s, 0);
    HitsFromLeftmost(cc, s, 0);
  }

  // ---------------------------------------------------------------------------
  // Inserting backticks at given positions

  /** Cut positions, in order, between `from` and the end of `s`. */
  ghost predicate CutsWithin(s: string, from: nat, cuts: seq<nat>)
    decreases |cuts|
  {
    cuts == [] || (from <= cuts[0] <= |s| && CutsWithin(s, cuts[0], cuts[1..]))
  }

  /** `s[from..]` with a backtick inserted before each position of `cuts`. */
  function InsertAt(s: string, from: nat, cuts: seq<nat>): (r: string)
    requires from <= |s|
    requires CutsWithin(s, from, cuts)
    ensures |r| == |s| - from + |cuts|
    decreases |cuts|
  {
    if cuts == [] then s[from..]
    else s[from..cuts[0]] + ([Separator] + InsertAt(s, cuts[0], cuts[1..]))
  }

  /** Where the callback puts the backtick for each hit. */
  function Cuts(hs: seq<Hit>): (cs: seq<nat>)
    ensures |cs| == |hs|
  {
    if hs == [] then [] else [hs[0].start + Kept(hs[0].alt)] + Cuts(hs[1..])
  }

  /** The backtick for a hit goes after the characters it keeps. */
  lemma {:induction false} CutsPositions(hs: seq<Hit>)
    ensures forall k :: 0 <= k < |hs| ==> Cuts(hs)[k] == hs[k].start + Kept(hs[k].alt)
  {
    if hs != [] {
      CutsPositions(hs[1..]);
      DropCons(hs[0].start + Kept(hs[0].alt), Cuts(hs[1..]));
      assert forall k :: 0 < k < |hs| ==> hs[k] == hs[1..][k - 1];
    }
  }

  /** Moving the start of an insertion past a stretch with no cut in it. */
  lemma InsertShift(s: string, a: nat, b: nat, cuts: seq<nat>)
    requires a <= b <= |s|
    requires CutsWithin(s, b, cuts)
    ensures CutsWithin(s, a, cuts)
    ensures InsertAt(s, a, cuts) == s[a..b] + InsertAt(s, b, cuts)
  {
    if cuts == [] {
      SliceSplit(s, a, b, |s|);
    } else {
      var c := cuts[0];
      var rest := [Separator] + InsertAt(s, c, cuts[1..]);
      SliceSplit(s, a, b, c);
      assert InsertAt(s, a, cuts) == s[a..c] + rest;
      assert InsertAt(s, b, cuts) == s[b..c] + rest;
      AppendAssoc(s[a..b], s[b..c], rest);
    }
  }

  lemma SliceSplit(s: string, a: nat, b: nat, c: nat)
    requires a <= b <= c <= |s|
    ensures s[a..c] == s[a..b] + s[b..c]
  {
  }

  lemma {:induction false} EscapeFromInserts(cc: CharInfo, s: string, i: nat)
    requires i <= |s|
    ensures CutsWithin(s, i, Cuts(HitsFrom(cc, s, i)))
    ensures EscapeFrom(cc, s, i) == InsertAt(s, i, Cuts(HitsFrom(cc, s, i)))
    decreases |s| - i
  {
    if i < |s| {
      match MatchAt(cc, s, i)
      case None =>
        EscapeFromInserts(cc, s, i + 1);
        InsertAtMiss(cc, s, i);
      case Some(a) =>
        EscapeFromInserts(cc, s, i + Width(a));
        HitsFromHit(cc, s, i, a);
        InsertAtHit(s, i, a, HitsFrom(cc, s, i + Width(a)));
    }
  }

  /** The step of `EscapeFromInserts` where nothing matches. */
  lemma InsertAtMiss(cc: CharInfo, s: string, i: nat)
    requires i < |s| && MatchAt(cc, s, i) == None
    requires CutsWithin(s, i + 1, Cuts(HitsFrom(cc, s, i + 1)))
    ensures CutsWithin(s, i, Cuts(HitsFrom(cc, s, i)))
    ensures InsertAt(s, i, Cuts(HitsFrom(cc, s, i))) == [s[i]] + InsertAt(s, i + 1, Cuts(HitsFrom(cc, s, i + 1)))
  {
    var cs := Cuts(HitsFrom(cc, s, i + 1));
    assert HitsFrom(cc, s, i) == HitsFrom(cc, s, i + 1);
    InsertShift(s, i, i + 1, cs);
    assert s[i..i + 1] == [s[i]];
  }

  /** The step of `EscapeFromInserts` at a match. */
  lemma InsertAtHit(s: string, i: nat, a: Alt, rest: seq<Hit>)
    requires i + Width(a) <= |s|
    requires CutsWithin(s, i + Width(a), Cuts(rest))
    ensures CutsWithin(s, i, Cuts([Hit(i, a)] + rest))
    ensures InsertAt(s, i, Cuts([Hit(i, a)] + rest))
      == s[i..i + Kept(a)] + [Separator] + s[i + Kept(a)..i + Width(a)] + InsertAt(s, i + Width(a), Cuts(rest))
  {
    var k, j, cs := i + Kept(a), i + Width(a), Cuts(rest);
    CutsCons(Hit(i, a), rest);
    InsertAtCons(s, i, k, cs);
    InsertShift(s, k, j, cs);
    Regroup(s[i..k], s[k..j], InsertAt(s, j, cs));
  }

  lemma HitsFromHit(cc: CharInfo, s: string, i: nat, a: Alt)
    requires i < |s| && MatchAt(cc, s, i) == Some(a)
    ensures HitsFrom(cc, s, i) == [Hit(i, a)] + HitsFrom(cc, s, i + Width(a))
  {
  }

  lemma CutsCons(h: Hit, hs: seq<Hit>)
    ensures Cuts([h] + hs) == [h.start + Kept(h.alt)] + Cuts(hs)
  {
    DropCons(h, hs);
  }

  lemma InsertAtCons(s: string, i: nat, k: nat, cs: seq<nat>)
    requires i <= k <= |s| && CutsWithin(s, k, cs)
    ensures CutsWithin(s, i, [k] + cs)
    ensures InsertAt(s, i, [k] + cs) == s[i..k] + ([Separator] + InsertAt(s, k, cs))
  {
    DropCons(k, cs);
  }

  lemma Regroup(x: string, y: string, z: string)
    ensures x + ([Separator] + (y + z)) == x + [Separator] + y + z
  {
    AppendAssoc([Separator], y, z);
    AppendAssoc(x, [Separator] + y, z);
    AppendAssoc(x, [Separator], y);
  }

  /** The escaped text is the input with exactly one backtick inserted per match:
      after the first character of a mention or cashtag, after the first two of a
      domain-like token. */
  lemma EscapeIsInsertion(cc: CharInfo, s: string)
    ensures CutsWithin(s, 0, Cuts(Hits(cc, s)))
    ensures Escape(cc, s) == InsertAt(s, 0, Cuts(Hits(cc, s)))
  {
    EscapeFromInserts(cc, s, 0);
  }

  /** One backtick per match, so escaping never shortens a text. */
  lemma EscapeLength(cc: CharInfo, s: string)
    ensures |Escape(cc, s)| == |s| + |Hits(cc, s)|
    ensures |Escape(cc, s)| >= |s|
  {
    EscapeFromLength(cc, s, 0);
  }

  /** A text is left alone exactly when the pattern does not match in it. */
  lemma EscapeUnchangedIff(cc: CharInfo, s: string)
    ensures Escape(cc, s) == s <==> Hits(cc, s) == []
  {
    EscapeLength(cc, s);
    if Hits(cc, s) == [] {
      EscapeIsInsertion(cc, s);
    }
  }

  /** Every match starts with `@`, `#` or `$` or has `.` as its second character. */
  ghost predicate NoTrigger(s: string) {
    forall k :: 0 <= k < |s| ==> s[k] != '@' && s[k] != '#' && s[k] != '$' && s[k] != '.'
  }

  lemma {:induction false} NoTriggerNoHits(cc: CharInfo, s: string, i: nat)
    requires i <= |s| && NoTrigger(s)
    ensures HitsFrom(cc, s, i) == []
    decreases |s| - i
  {
    if i < |s| {
      assert MatchAt(cc, s, i) == None by {
        assert s[i] != '@' && s[i] != '#' && s[i] != '$';
        assert i + 1 < |s| ==> s[i + 1] != '.';
      }
      NoTriggerNoHits(cc, s, i + 1);
    }
  }

  /** Text without `@`, `#`, `$` or `.` is returned unchanged. */
  lemma NoTriggerUnchanged(cc: CharInfo, s: string)
    requires NoTrigger(s)
    ensures Escape(cc, s) == s
  {
    NoTriggerNoHits(cc, s, 0);
    EscapeUnchangedIff(cc, s);
  }

  // ---------------------------------------------------------------------------
  // The cases the source tests check, for any Unicode tables that agree with ASCII


  /** No `@`, `#` or `$` in `s[i..]`, and no `.` right after any of its
      characters but the first: a stretch in which no alternative can start,
      whatever the tables say, provided what follows it does not start with `.`. */
  predicate Quiet(s: string, i: nat)
    requires i <= |s|
    decreases |s| - i
  {
    i == |s| ||
    (s[i] != '@' && s[i] != '#' && s[i] != '$' && (i + 1 == |s| || s[i + 1] != '.')
     && Quiet(s, i + 1))
  }

  /** Whether a match starts at `i` depends only on what follows `i`. */
  lemma MatchAtSuffix(cc: CharInfo, s: string, i: nat, k: nat)
    requires i + k <= |s|
    ensures MatchAt(cc, s, i + k) == MatchAt(cc, s[i..], k)
  {
  }

  /** So escaping from `i + k` in `s` is escaping from `k` in `s[i..]`. */
  lemma {:induction false} EscapeFromSuffix(cc: CharInfo, s: string, i: nat, k: nat)
    requires i + k <= |s|
    ensures EscapeFrom(cc, s, i + k) == EscapeFrom(cc, s[i..], k)
    decreases |s| - i - k
  {
    if i + k < |s| {
      var n := Skip(cc, s[i..], k);
      EscapeFromSuffix(cc, s, i, n);
      SuffixStep(cc, s, s[i..], i, k);
    }
  }

  /** Where the scan resumes after position `i`: one past a character no match
      starts at, or just after the match. */
  function Skip(cc: CharInfo, s: string, i: nat): (n: nat)
    requires i < |s|
    ensures i < n <= |s|
  {
    match MatchAt(cc, s, i)
    case None => i + 1
    case Some(a) => i + Width(a)
  }

  /** What the scan writes for position `i`: the character itself, or the
      match with the backtick after its first `Kept` characters. */
  function Emit(cc: CharInfo, s: string, i: nat): string
    requires i < |s|
  {
    match MatchAt(cc, s, i)
    case None => [s[i]]
    case Some(a) => s[i..i + Kept(a)] + [Separator] + s[i + Kept(a)..i + Width(a)]
  }

  /** Each step of the scan writes `Emit` and resumes at `Skip`. */
  lemma EscapeFromStep(cc: CharInfo, s: string, i: nat)
    requires i < |s|
    ensures EscapeFrom(cc, s, i) == Emit(cc, s, i) + EscapeFrom(cc, s, Skip(cc, s, i))
  {
  }

  /** A step taken inside `s[i..]` writes the same and resumes at the same place. */
  lemma EmitSuffix(cc: CharInfo, s: string, i: nat, k: nat)
    requires i + k < |s|
    ensures Emit(cc, s, i + k) == Emit(cc, s[i..], k)
    ensures Skip(cc, s, i + k) == i + Skip(cc, s[i..], k)
  {
    MatchAtSuffix(cc, s, i, k);
    match MatchAt(cc, s, i + k)
    case None =>
      assert s[i + k] == s[i..][k];
    case Some(a) =>
      SliceOfSuffix(s, i, k, k + Kept(a));
      SliceOfSuffix(s, i, k + Kept(a), k + Width(a));
  }

  /** One step of `EscapeFromSuffix` on `t == s[i..]`, given the equation where
      the scan resumes. */
  lemma SuffixStep(cc: CharInfo, s: string, t: string, i: nat, k: nat)
    requires i + k < |s| && t == s[i..]
    requires EscapeFrom(cc, s, i + Skip(cc, t, k)) == EscapeFrom(cc, t, Skip(cc, t, k))
    ensures EscapeFrom(cc, s, i + k) == EscapeFrom(cc, t, k)
  {
    EscapeFromStep(cc, s, i + k);
    EscapeFromStep(cc, t, k);
    EmitSuffix(cc, s, i, k);
  }

  lemma SliceOfSuffix(s: string, i: nat, a: nat, b: nat)
    requires i + a <= i + b <= |s|
    ensures s[i..][a..b] == s[i + a..i + b]
  {
  }

  lemma EscapeEmpty(cc: CharInfo)
    ensures Escape(cc, []) == []
  {
  }

  /** A stretch in which no match starts is copied as it is. */
  lemma {:induction false} SkipPrefix(cc: CharInfo, p: string, r: string)
    requires Quiet(p, 0)
    requires r == [] || r[0] != '.'
    ensures Escape(cc, p + r) == p + Escape(cc, r)
    decreases |p|
  {
    if p != [] {
      var h, t := [p[0]], p[1..] + r;
      assert p + r == h + t;
      assert MatchAt(cc, h + t, 0) == None by {
        assert (h + t)[0] == p[0];
        assert |h + t| > 1 ==> (h + t)[1] == (if |p| > 1 then p[1] else r[0]);
      }
      MissPrefix(cc, h, t);
      QuietShift(p, 1, 0);
      SkipPrefix(cc, p[1..], r);
      assert p + Escape(cc, r) == h + (p[1..] + Escape(cc, r));
    } else {
      assert p + r == r;
    }
  }

  lemma {:induction false} QuietShift(s: string, k: nat, m: nat)
    requires k + m <= |s| && Quiet(s, k + m)
    ensures Quiet(s[k..], m)
    decreases |s| - k - m
  {
    if k + m < |s| {
      QuietShift(s, k, m + 1);
    }
  }

  /** A match that makes up all of `m` gets its backtick, and the scan resumes
      after it. */
  lemma HitPrefix(cc: CharInfo, m: string, r: string, a: Alt)
    requires |m| == Width(a) && MatchAt(cc, m, 0) == Some(a)
    ensures Escape(cc, m + r) == m[..Kept(a)] + [Separator] + m[Kept(a)..] + Escape(cc, r)
  {
    var s := m + r;
    assert MatchAt(cc, s, 0) == Some(a) by {
      assert forall k :: 0 <= k < |m| ==> s[k] == m[k];
    }
    EscapeFromSuffix(cc, s, Width(a), 0);
    assert s[Width(a)..] == r;
    assert s[..Kept(a)] == m[..Kept(a)];
    assert s[Kept(a)..Width(a)] == m[Kept(a)..];
  }

  /** A character at which nothing matches is copied. */
  lemma MissPrefix(cc: CharInfo, p: string, r: string)
    requires |p| == 1 && MatchAt(cc, p + r, 0) == None
    ensures Escape(cc, p + r) == p + Escape(cc, r)
  {
    var s := p + r;
    EscapeFromSuffix(cc, s, 1, 0);
    assert s[1..] == r;
    assert [s[0]] == p;
  }

  // Each example below is cut into stretches, escaped right to left; the
  // Unicode tables matter only through `cc.Valid()`, which fixes their ASCII
  // part. The facts about the literal strings are stated on their own.

  lemma MentionCut()
    ensures "someth" + ("ing " + ("@k" + ("itten " + ("functi" + ("on" + ""))))) == "something @kitten function"
  {
  }

  lemma MentionGlued()
    ensures "someth" + ("ing " + ("@`k" + ("itten " + ("functi" + ("on" + ""))))) == "something @`kitten function"
  {
  }

  lemma MentionFrom4(cc: CharInfo)
    ensures Escape(cc, "functi" + ("on" + "")) == "functi" + ("on" + "")
  {
    EscapeEmpty(cc);
    SkipPrefix(cc, "on", "");
    SkipPrefix(cc, "functi", "on" + "");
  }

  lemma MentionFrom2(cc: CharInfo)
    requires cc.Valid()
    ensures Escape(cc, "@k" + ("itten " + ("functi" + ("on" + "")))) == "@`k" + ("itten " + ("functi" + ("on" + "")))
  {
    assert "@k"[..1] + [Separator] + "@k"[1..] == "@`k";
    MentionFrom4(cc);
    SkipPrefix(cc, "itten ", "functi" + ("on" + ""));
    HitPrefix(cc, "@k", "itten " + ("functi" + ("on" + "")), Mention);
  }

  lemma MentionFrom0(cc: CharInfo)
    requires cc.Valid()
    ensures Escape(cc, "someth" + ("ing " + ("@k" + ("itten " + ("functi" + ("on" + "")))))) == "someth" + ("ing " + ("@`k" + ("itten " + ("functi" + ("on" + "")))))
  {
    MentionFrom2(cc);
    SkipPrefix(cc, "ing ", "@k" + ("itten " + ("functi" + ("on" + ""))));
    SkipPrefix(cc, "someth", "ing " + ("@k" + ("itten " + ("functi" + ("on" + "")))));
  }

  lemma EscapeMentionExample(cc: CharInfo)
    requires cc.Valid()
    ensures Escape(cc, "something @kitten function") == "something @`kitten function"
  {
    MentionCut();
    MentionGlued();
    MentionFrom0(cc);
  }

  lemma MultiCut()
    ensures "Gam" + ("e.co" + ("m " + ("$u" + ("per f" + ("@n" + ("tastic" + "")))))) == "Game.com $uper f@ntastic"
  {
  }

  lemma MultiGlued()
    ensures "Gam" + ("e.`co" + ("m " + ("$`u" + ("per f" + ("@`n" + ("tastic" + "")))))) == "Game.`com $`uper f@`ntastic"
  {
  }

  lemma MultiFrom6(cc: CharInfo)
    ensures Escape(cc, "tastic" + "") == "tastic" + ""
  {
    EscapeEmpty(cc);
    SkipPrefix(cc, "tastic", "");
  }

  lemma MultiFrom4(cc: CharInfo)
    requires cc.Valid()
    ensures Escape(cc, "per f" + ("@n" + ("tastic" + ""))) == "per f" + ("@`n" + ("tastic" + ""))
  {
    assert "@n"[..1] + [Separator] + "@n"[1..] == "@`n";
    MultiFrom6(cc);
    HitPrefix(cc, "@n", "tastic" + "", Mention);
    SkipPrefix(cc, "per f", "@n" + ("tastic" + ""));
  }

  lemma MultiFrom2(cc: CharInfo)
    requires cc.Valid()
    ensures Escape(cc, "m " + ("$u" + ("per f" + ("@n" + ("tastic" + ""))))) == "m " + ("$`u" + ("per f" + ("@`n" + ("tastic" + ""))))
  {
    assert "$u"[..1] + [Separator] + "$u"[1..] == "$`u";
    MultiFrom4(cc);
    HitPrefix(cc, "$u", "per f" + ("@n" + ("tastic" + "")), Cashtag);
    SkipPrefix(cc, "m ", "$u" + ("per f" + ("@n" + ("tastic" + ""))));
  }

  lemma MultiFrom0(cc: CharInfo)
    requires cc.Valid()
    ensures Escape(cc, "Gam" + ("e.co" + ("m " + ("$u" + ("per f" + ("@n" + ("tastic" + ""))))))) == "Gam" + ("e.`co" + ("m " + ("$`u" + ("per f" + ("@`n" + ("tastic" + ""))))))
  {
    assert "e.co"[..2] + [Separator] + "e.co"[2..] == "e.`co";
    MultiFrom2(cc);
    HitPrefix(cc, "e.co", "m " + ("$u" + ("per f" + ("@n" + ("tastic" + "")))), Domain);
    SkipPrefix(cc, "Gam", "e.co" + ("m " + ("$u" + ("per f" + ("@n" + ("tastic" + ""))))));
  }

  lemma EscapeMultiExample(cc: CharInfo)
    requires cc.Valid()
    ensures Escape(cc, "Game.com $uper f@ntastic") == "Game.`com $`uper f@`ntastic"
  {
    MultiCut();
    MultiGlued();
    MultiFrom0(cc);
  }

  lemma NumericCut()
    ensures "$" + ("12" + ("3" + (".456 m" + ("oney " + ("#1" + (" perso" + ("n " + ("@0" + ("x0000" + ""))))))))) == "$123.456 money #1 person @0x0000"
  {
  }

  lemma NumericGlued()
    ensures "$" + ("12" + ("3" + (".456 m" + ("oney " + ("#`1" + (" perso" + ("n " + ("@`0" + ("x0000" + ""))))))))) == "$123.456 money #`1 person @`0x0000"
  {
  }

  lemma NumericFrom8(cc: CharInfo)
    requires cc.Valid()
    ensures Escape(cc, "@0" + ("x0000" + "")) == "@`0" + ("x0000" + "")
  {
    assert "@0"[..1] + [Separator] + "@0"[1..] == "@`0";
    EscapeEmpty(cc);
    SkipPrefix(cc, "x0000", "");
    HitPrefix(cc, "@0", "x0000" + "", Mention);
  }

  lemma NumericFrom6(cc: CharInfo)
    requires cc.Valid()
    ensures Escape(cc, " perso" + ("n " + ("@0" + ("x0000" + "")))) == " perso" + ("n " + ("@`0" + ("x0000" + "")))
  {
    NumericFrom8(cc);
    SkipPrefix(cc, "n ", "@0" + ("x0000" + ""));
    SkipPrefix(cc, " perso", "n " + ("@0" + ("x0000" + "")));
  }

  lemma NumericFrom4(cc: CharInfo)
    requires cc.Valid()
    ensures Escape(cc, "oney " + ("#1" + (" perso" + ("n " + ("@0" + ("x0000" + "")))))) == "oney " + ("#`1" + (" perso" + ("n " + ("@`0" + ("x0000" + "")))))
  {
    assert "#1"[..1] + [Separator] + "#1"[1..] == "#`1";
    NumericFrom6(cc);
    HitPrefix(cc, "#1", " perso" + ("n " + ("@0" + ("x0000" + ""))), Mention);
    SkipPrefix(cc, "oney ", "#1" + (" perso" + ("n " + ("@0" + ("x0000" + "")))));
  }

  lemma NumericFrom2(cc: CharInfo)
    requires cc.Valid()
    ensures Escape(cc, "3" + (".456 m" + ("oney " + ("#1" + (" perso" + ("n " + ("@0" + ("x0000" + "")))))))) == "3" + (".456 m" + ("oney " + ("#`1" + (" perso" + ("n " + ("@`0" + ("x0000" + "")))))))
  {
    NumericFrom4(cc);
    SkipPrefix(cc, ".456 m", "oney " + ("#1" + (" perso" + ("n " + ("@0" + ("x0000" + ""))))));
    MissPrefix(cc, "3", ".456 m" + ("oney " + ("#1" + (" perso" + ("n " + ("@0" + ("x0000" + "")))))));
  }

  lemma NumericFrom0(cc: CharInfo)
    requires cc.Valid()
    ensures Escape(cc, "$" + ("12" + ("3" + (".456 m" + ("oney " + ("#1" + (" perso" + ("n " + ("@0" + ("x0000" + "")))))))))) == "$" + ("12" + ("3" + (".456 m" + ("oney " + ("#`1" + (" perso" + ("n " + ("@`0" + ("x0000" + "")))))))))
  {
    NumericFrom2(cc);
    SkipPrefix(cc, "12", "3" + (".456 m" + ("oney " + ("#1" + (" perso" + ("n " + ("@0" + ("x0000" + ""))))))));
    MissPrefix(cc, "$", "12" + ("3" + (".456 m" + ("oney " + ("#1" + (" perso" + ("n " + ("@0" + ("x0000" + "")))))))));
  }

  /** A dollar before a digit, and digits around a dot, are not escaped. */
  lemma EscapeNumericExample(cc: CharInfo)
    requires cc.Valid()
    ensures Escape(cc, "$123.456 money #1 person @0x0000") == "$123.456 money #`1 person @`0x0000"
  {
    NumericCut();
    NumericGlued();
    NumericFrom0(cc);
  }

  lemma OnceCut()
    ensures "x.ab" + (".cd" + "") == "x.ab.cd"
  {
  }

  lemma OnceGlued()
    ensures "x.`ab" + (".cd" + "") == "x.`ab.cd"
  {
  }

  lemma OnceFrom0(cc: CharInfo)
    ensures Escape(cc, "x.ab" + (".cd" + "")) == "x.`ab" + (".cd" + "")
  {
    assert "x.ab"[..2] + [Separator] + "x.ab"[2..] == "x.`ab";
    EscapeEmpty(cc);
    SkipPrefix(cc, ".cd", "");
    HitPrefix(cc, "x.ab", ".cd" + "", Domain);
  }

  lemma DomainOnce(cc: CharInfo)
    ensures Escape(cc, "x.ab.cd") == "x.`ab.cd"
  {
    OnceCut();
    OnceGlued();
    OnceFrom0(cc);
  }

  lemma TwiceCut()
    ensures "x" + (".`a" + ("b.cd" + "")) == "x.`ab.cd"
  {
  }

  lemma TwiceGlued()
    ensures "x" + (".`a" + ("b.`cd" + "")) == "x.`ab.`cd"
  {
  }

  lemma TwiceFrom2(cc: CharInfo)
    ensures Escape(cc, "b.cd" + "") == "b.`cd" + ""
  {
    assert "b.cd"[..2] + [Separator] + "b.cd"[2..] == "b.`cd";
    EscapeEmpty(cc);
    HitPrefix(cc, "b.cd", "", Domain);
  }

  lemma TwiceFrom0(cc: CharInfo)
    ensures Escape(cc, "x" + (".`a" + ("b.cd" + ""))) == "x" + (".`a" + ("b.`cd" + ""))
  {
    TwiceFrom2(cc);
    SkipPrefix(cc, ".`a", "b.cd" + "");
    MissPrefix(cc, "x", ".`a" + ("b.cd" + ""));
  }

  /** Escaping is not idempotent: a second pass finds a domain-like token the
      first pass skipped because it overlapped an earlier match. */
  lemma EscapeNotIdempotent(cc: CharInfo)
    ensures Escape(cc, "x.ab.cd") == "x.`ab.cd"
    ensures Escape(cc, Escape(cc, "x.ab.cd")) == "x.`ab.`cd"
    ensures Escape(cc, Escape(cc, "x.ab.cd")) != Escape(cc, "x.ab.cd")
  {
    DomainOnce(cc);
    TwiceCut();
    TwiceGlued();
    TwiceFrom0(cc);
    assert |"x.`ab.`cd"| != |"x.`ab.cd"|;
  }
}
