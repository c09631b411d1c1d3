/** `FactBuilder.build_grammar_text`: the grammar text handed to the CFG
    parser. The hand-written grammar files are copied line by line; every line
    of every corpus file becomes one rule `name -> "LINE"` of the corpus's
    nonterminal. Blank lines and `#` comments are dropped from both.

    Files are given by their lines as read from disk (each with its line
    terminator); reading them, and finding them with `glob`, is not modelled. */
module GrammarText {
  import opened PyStr
  import Corpus

  /** What a double quote in a corpus line is replaced with: U+201C, LEFT
      DOUBLE QUOTATION MARK. */
  const CurlyQuote: char := '\U{201C}'

  /** `line.strip().decode('utf8')`: the byte string loses its ASCII
      whitespace at both ends (the line terminator among it). */
  function Stripped(raw: string): (line: string)
    ensures line != [] ==> line[0] !in ByteSpace && line[|line| - 1] !in ByteSpace
  {
    StripShape(raw, ByteSpace);
    Strip(raw, ByteSpace)
  }

  /** The lines the loops skip: comments and blank lines. */
  predicate Skipped(line: string) {
    StartsWith(line, "#") || line == []
  }

  /** The stripped lines of a file that the loops keep, in file order. */
  function Kept(raws: seq<string>): (ls: seq<string>)
    ensures |ls| <= |raws|
  {
    if raws == [] then []
    else
      var line := Stripped(raws[|raws| - 1]);
      Kept(raws[..|raws| - 1]) + (if Skipped(line) then [] else [line])
  }

  /** The kept lines after one more line is read. */
  lemma KeptSnoc(raws: seq<string>, raw: string)
    ensures Kept(raws + [raw]) == Kept(raws) + (if Skipped(Stripped(raw)) then [] else [Stripped(raw)])
  {
    TakeAppend(raws, [raw]);
  }

  /** Each line contributes on its own: the kept lines of two stretches of a
      file are those of the first followed by those of the second. */
  lemma {:induction false} KeptAppend(a: seq<string>, b: seq<string>)
    ensures Kept(a + b) == Kept(a) + Kept(b)
    decreases |b|
  {
    if b == [] {
      TakeAppend(a, b);
    } else {
      var init, raw := b[..|b| - 1], b[|b| - 1];
      var last := Stripped(raw);
      var tail: seq<string> := if Skipped(last) then [] else [last];
      KeptAppend(a, init);
      SplitLast(b);
      AppendAssoc(a, init, [raw]);
      KeptSnoc(a + init, raw);
      KeptSnoc(init, raw);
      AppendAssoc(Kept(a), Kept(init), tail);
    }
  }

  /** No kept line is blank or a comment. */
  lemma {:induction false} KeptNotSkipped(raws: seq<string>)
    ensures forall k :: 0 <= k < |Kept(raws)| ==> !Skipped(Kept(raws)[k])
  {
    if raws != [] {
      KeptNotSkipped(raws[..|raws| - 1]);
    }
  }

  /** A single line contributes its stripped form, unless that is blank or
      a comment, when it contributes nothing. */
  lemma KeptLine(raw: string)
    ensures Skipped(Stripped(raw)) ==> Kept([raw]) == []
    ensures !Skipped(Stripped(raw)) ==> Kept([raw]) == [Stripped(raw)]
  {
    assert [raw][..0] == [];
  }

  lemma Regroup<T>(a: seq<T>, b: seq<T>, c: seq<T>, d: seq<T>)
    ensures a + b + c + d == a + (b + c + d)
  {
  }

  /** The kept lines of a hand-written grammar file, each followed by a newline. */
  function Lines(ls: seq<string>): string
  {
    if ls == [] then [] else Lines(ls[..|ls| - 1]) + ls[|ls| - 1] + "\n"
  }

  /** The terminal a corpus line becomes: double quotes replaced, then
      `upper()`. It never holds a double quote, which would end the terminal
      early when the grammar is parsed. */
  function Terminal(cc: CharInfo, line: string): (t: string)
    ensures cc.Valid() ==> '"' !in t
  {
    var q := ReplaceChar(line, '"', CurlyQuote);
    QuoteFreeUpper(cc, q);
    Upper(cc, q)
  }

  lemma QuoteFreeUpper(cc: CharInfo, q: string)
    ensures cc.Valid() && '"' !in q ==> '"' !in Upper(cc, q)
  {
    if cc.Valid() && '"' !in q {
      UpperAvoidsQuote(cc, q);
    }
  }

  /** The rule line written for one kept corpus line. */
  function Rule(cc: CharInfo, name: string, line: string): (r: string)
    ensures StartsWith(r, name + " -> \"")
    ensures |r| >= |name| + 7 && r[|r| - 2..] == "\"\n"
  {
    name + " -> " + "\"" + Terminal(cc, line) + "\"\n"
  }

  /** The terminal of a rule is delimited by exactly two double quotes: the
      one after `->` and the one before the newline. */
  lemma RuleQuotes(cc: CharInfo, name: string, line: string)
    requires cc.Valid() && '"' !in name
    ensures var r := Rule(cc, name, line);
      forall k :: 0 <= k < |r| ==> (r[k] == '"' <==> k == |name| + 4 || k == |r| - 2)
    ensures var r := Rule(cc, name, line);
      r[|name| + 5..|r| - 2] == Terminal(cc, line)
  {
    var t := Terminal(cc, line);
    var r := Rule(cc, name, line);
    assert r == name + " -> \"" + t + "\"\n";
    forall k | 0 <= k < |r| ensures r[k] == '"' <==> k == |name| + 4 || k == |r| - 2 {
      if k < |name| {
        assert r[k] == name[k];
      } else if |name| + 5 <= k < |name| + 5 + |t| {
        assert r[k] == t[k - |name| - 5];
      }
    }
  }

  /** `upper()` on ASCII: the 26 small letters become capitals. */
  function AsciiUpper(s: string): (u: string)
    ensures |u| == |s|
  {
    seq(|s|, k requires 0 <= k < |s| => if 'a' <= s[k] <= 'z' then s[k] - 'a' + 'A' else s[k])
  }

  /** On an ASCII line without double quotes the terminal is the line in
      ASCII capitals. */
  lemma TerminalOfAscii(cc: CharInfo, line: string)
    requires cc.Valid()
    requires forall k :: 0 <= k < |line| ==> IsAscii(line[k]) && line[k] != '"'
    ensures Terminal(cc, line) == AsciiUpper(line)
  {
    UpperOfAscii(cc, line);
    assert ReplaceChar(line, '"', CurlyQuote) == line;
  }

  lemma {:induction false} UpperOfAscii(cc: CharInfo, s: string)
    requires cc.Valid()
    requires forall k :: 0 <= k < |s| ==> IsAscii(s[k])
    ensures Upper(cc, s) == AsciiUpper(s)
  {
    if s != [] {
      UpperOfAscii(cc, s[1..]);
      assert cc.Upper(s[0]) == [AsciiUpper(s)[0]];
      assert AsciiUpper(s) == [AsciiUpper(s)[0]] + AsciiUpper(s[1..]);
    }
  }

  /** The rules of one corpus, one per kept line, in file order. */
  function Rules(cc: CharInfo, name: string, ls: seq<string>): string
  {
    if ls == [] then [] else Rules(cc, name, ls[..|ls| - 1]) + Rule(cc, name, ls[|ls| - 1])
  }

  /** What the first loop writes: every hand-written grammar file, in order. */
  function GrammarFilesText(files: seq<seq<string>>): string
  {
    if files == [] then []
    else GrammarFilesText(files[..|files| - 1]) + Lines(Kept(files[|files| - 1]))
  }

  /** What the second loop writes: the rules of every corpus file, in order,
      each under the name its path gives it. */
  function CorporaText(cc: CharInfo, corpora: seq<(string, seq<string>)>): string
  {
    if corpora == [] then []
    else
      var c := corpora[|corpora| - 1];
      CorporaText(cc, corpora[..|corpora| - 1]) + Rules(cc, Corpus.CorpusName(c.0), Kept(c.1))
  }

  /** `build_grammar_text()`: `grammarFiles` are the lines of the main grammar
      file followed by those of the other grammar files; `corpora` pairs each
      corpus file's path with its lines. */
  method BuildGrammarText(cc: CharInfo, grammarFiles: seq<seq<string>>, corpora: seq<(string, seq<string>)>)
    returns (buf: string)
    ensures buf == GrammarFilesText(grammarFiles) + CorporaText(cc, corpora)
  {
    buf := [];
    for f := 0 to |grammarFiles|
      invariant buf == GrammarFilesText(grammarFiles[..f])
    {
      Prefixes(grammarFiles, f);
      buf := WriteGrammarFile(buf, grammarFiles[f]);
    }
    TakeAll(grammarFiles);
    ghost var grammarText := buf;
    for c := 0 to |corpora|
      invariant buf == grammarText + CorporaText(cc, corpora[..c])
    {
      var (filename, raws) := corpora[c];
      var name := Corpus.CorpusName(filename);
      Prefixes(corpora, c);
      AppendAssoc(grammarText, CorporaText(cc, corpora[..c]), Rules(cc, name, Kept(raws)));
      buf := WriteCorpus(cc, buf, name, raws);
    }
    TakeAll(corpora);
  }

  /** The first loop's body for one grammar file: every kept line and a newline. */
  method WriteGrammarFile(buf: string, raws: seq<string>) returns (out: string)
    ensures out == buf + Lines(Kept(raws))
  {
    out := buf;
    for i := 0 to |raws|
      invariant out == buf + Lines(Kept(raws[..i]))
    {
      var line := Stripped(raws[i]);
      Prefixes(raws, i);
      ghost var kept := Kept(raws[..i]);
      if StartsWith(line, "#") || line == [] {
        assert Kept(raws[..i + 1]) == kept;
        continue;
      }
      ghost var ls := Kept(raws[..i + 1]);
      assert ls == kept + [line];
      assert ls[..|ls| - 1] == kept && ls[|ls| - 1] == line;
      assert Lines(ls) == Lines(kept) + line + "\n";
      Regroup(buf, Lines(kept), line, "\n");
      out := out + line + "\n";
    }
    TakeAll(raws);
  }

  /** The second loop's body for one corpus file: a rule per kept line. */
  method WriteCorpus(cc: CharInfo, buf: string, name: string, raws: seq<string>) returns (out: string)
    ensures out == buf + Rules(cc, name, Kept(raws))
  {
    out := buf;
    for i := 0 to |raws|
      invariant out == buf + Rules(cc, name, Kept(raws[..i]))
    {
      var line := Stripped(raws[i]);
      Prefixes(raws, i);
      ghost var kept := Kept(raws[..i]);
      if StartsWith(line, "#") || line == [] {
        assert Kept(raws[..i + 1]) == kept;
        continue;
      }
      ghost var ls := Kept(raws[..i + 1]);
      assert ls == kept + [line];
      assert ls[..|ls| - 1] == kept && ls[|ls| - 1] == line;
      assert Rules(cc, name, ls) == Rules(cc, name, kept) + Rule(cc, name, line);
      ghost var rule := Rule(cc, name, line);
      line := ReplaceChar(line, '"', CurlyQuote);
      assert rule == name + " -> " + "\"" + Upper(cc, line) + "\"\n";
      AppendAssoc(buf, Rules(cc, name, kept), rule);
      out := out + (name + " -> " + "\"" + Upper(cc, line) + "\"\n");
    }
    TakeAll(raws);
  }
}
