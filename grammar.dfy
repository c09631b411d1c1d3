/** The fact grammar: a context-free grammar whose start symbol expands, by
    random choices, into a computer "fact".

    A grammar maps each nonterminal to the right-hand sides of its productions,
    in the order the grammar text lists them. `check_grammar` walks every
    nonterminal reachable from the start symbol and rejects one that has no
    productions; `produce` expands a nonterminal by choosing one production at
    random and expanding its symbols left to right, where a nonterminal named
    `__CONTINUEnn__` is a gate that lets the rest of the production through
    only nn percent of the time.

    Python's random number stream is an input here: the sequence of the values
    `random.random()` would return, each in `[0, 1)`. */
module Grammar {
  import opened PyStr

  /** A symbol on the right-hand side of a production. */
  datatype Symbol = T(text: string) | N(name: string)

  /** Nonterminal name to the right-hand sides of its productions. */
  type Rules = map<string, seq<seq<Symbol>>>

  /** `grammar.productions(lhs=x)`, as right-hand sides. */
  function Productions(g: Rules, x: string): seq<seq<Symbol>> {
    if x in g then g[x] else []
  }

  // ---------------------------------------------------------------------------
  // Reachability

  /** `y` occurs as a nonterminal on the right-hand side of a production of `x`. */
  ghost predicate Edge(g: Rules, x: string, y: string) {
    exists i, j :: 0 <= i < |Productions(g, x)| && 0 <= j < |Productions(g, x)[i]|
      && Productions(g, x)[i][j] == N(y)
  }

  ghost predicate IsPath(g: Rules, p: seq<string>) {
    |p| >= 1 && forall k :: 0 <= k < |p| - 1 ==> Edge(g, p[k], p[k + 1])
  }

  /** `y` can be reached from `x` through right-hand-side nonterminals. */
  ghost predicate Reachable(g: Rules, x: string, y: string) {
    exists p :: IsPath(g, p) && p[0] == x && p[|p| - 1] == y
  }

  lemma ReachSelf(g: Rules, x: string)
    ensures Reachable(g, x, x)
  {
    assert IsPath(g, [x]);
  }

  lemma ReachStep(g: Rules, x: string, y: string, z: string)
    requires Edge(g, x, y) && Reachable(g, y, z)
    ensures Reachable(g, x, z)
  {
    var p :| IsPath(g, p) && p[0] == y && p[|p| - 1] == z;
    var q := [x] + p;
    assert forall k :: 1 <= k < |q| ==> q[k] == p[k - 1];
    assert IsPath(g, q);
  }

  /** `x` has productions and every nonterminal they mention is in `seen`. */
  ghost predicate Closed(g: Rules, x: string, seen: set<string>) {
    Productions(g, x) != [] && forall y :: Edge(g, x, y) ==> y in seen
  }

  /** A set closed in this way holds everything reachable from its members. */
  lemma {:induction false} ClosedHoldsReachable(g: Rules, seen: set<string>, p: seq<string>)
    requires forall x :: x in seen ==> Closed(g, x, seen)
    requires IsPath(g, p) && p[0] in seen
    ensures p[|p| - 1] in seen
    decreases |p|
  {
    if |p| > 1 {
      assert Edge(g, p[0], p[1]);
      var q := p[1..];
      assert forall k :: 0 <= k < |q| ==> q[k] == p[k + 1];
      assert IsPath(g, q);
      ClosedHoldsReachable(g, seen, q);
    }
  }

  // ---------------------------------------------------------------------------
  // check_grammar

  /** `check_grammar(grammar, nt, _memo)`. `nonempty` is `grammar.is_nonempty()`;
      `memo` is the set of nonterminals already checked, and `seen` is that set
      when the call returns. `err` is the nonterminal `EmptyProductionsError`
      is raised for. `walked` lists the nonterminals whose productions this
      call walked, in order. */
  method CheckGrammar(g: Rules, nonempty: bool, nt: string, memo: set<string>)
    returns (seen: set<string>, err: Option<string>, ghost walked: seq<string>)
    ensures memo <= seen <= memo + g.Keys
    ensures !nonempty ==> seen == memo && err == None && walked == []
    ensures err.None? && nonempty ==> nt in seen
    ensures err.None? ==> forall x :: x in seen - memo ==> Closed(g, x, seen)
    ensures err.Some? ==> nonempty && Reachable(g, nt, err.value) && Productions(g, err.value) == []
    // Each nonterminal's productions are walked at most once.
    ensures forall i :: 0 <= i < |walked| ==> walked[i] !in memo && walked[i] in seen
    ensures forall i, j :: 0 <= i < j < |walked| ==> walked[i] != walked[j]
    decreases g.Keys - memo
  {
    walked := [];
    if !nonempty {
      return memo, None, walked;
    }
    if nt in memo {
      return memo, None, walked;
    }
    var productions: seq<seq<Symbol>> := Productions(g, nt);
    if productions == [] {
      ReachSelf(g, nt);
      return memo, Some(nt), walked;
    }
    seen := memo + {nt};
    walked := [nt];
    for i := 0 to |productions|
      invariant memo + {nt} <= seen <= memo + g.Keys
      invariant forall x :: x in seen - memo - {nt} ==> Closed(g, x, seen)
      invariant forall a, b :: 0 <= a < i && 0 <= b < |productions[a]| && productions[a][b].N? ==>
        productions[a][b].name in seen
      invariant walked != [] && walked[0] == nt
      invariant forall k :: 0 <= k < |walked| ==> walked[k] !in memo && walked[k] in seen
      invariant forall k, l :: 0 <= k < l < |walked| ==> walked[k] != walked[l]
    {
      var rhs: seq<Symbol> := productions[i];
      for j := 0 to |rhs|
        invariant memo + {nt} <= seen <= memo + g.Keys
        invariant forall x :: x in seen - memo - {nt} ==> Closed(g, x, seen)
        invariant forall a, b :: 0 <= a < i && 0 <= b < |productions[a]| && productions[a][b].N? ==>
          productions[a][b].name in seen
        invariant forall b :: 0 <= b < j && rhs[b].N? ==> rhs[b].name in seen
        invariant walked != [] && walked[0] == nt
        invariant forall k :: 0 <= k < |walked| ==> walked[k] !in memo && walked[k] in seen
        invariant forall k, l :: 0 <= k < l < |walked| ==> walked[k] != walked[l]
      {
        if rhs[j].N? {
          var child := rhs[j].name;
          assert Edge(g, nt, child) by {
            assert Productions(g, nt)[i][j] == N(child);
          }
          var after, e, w := CheckGrammar(g, nonempty, child, seen);
          if e.Some? {
            ReachStep(g, nt, child, e.value);
            return after, e, walked + w;
          }
          forall x | x in after - memo - {nt} ensures Closed(g, x, after) {
            if x in seen {
              assert Closed(g, x, seen);
            }
          }
          DistinctAppend(walked, w, seen);
          seen := after;
          walked := walked + w;
        }
      }
    }
    forall y | Edge(g, nt, y) ensures y in seen {
      var a, b :| 0 <= a < |productions| && 0 <= b < |productions[a]| && productions[a][b] == N(y);
    }
    err := None;
  }

  /** Appending nonterminals walked later, none of them seen before, keeps the
      list free of repeats. */
  lemma DistinctAppend(walked: seq<string>, w: seq<string>, seen: set<string>)
    requires forall k, l :: 0 <= k < l < |walked| ==> walked[k] != walked[l]
    requires forall k, l :: 0 <= k < l < |w| ==> w[k] != w[l]
    requires forall k :: 0 <= k < |walked| ==> walked[k] in seen
    requires forall k :: 0 <= k < |w| ==> w[k] !in seen
    ensures forall k, l :: 0 <= k < l < |walked + w| ==> (walked + w)[k] != (walked + w)[l]
  {
  }

  /** `FactBuilder.__init__` checks the grammar from its start symbol with a
      fresh memo: it raises exactly when the grammar is non-empty and some
      nonterminal reachable from the start symbol has no productions. */
  method ValidateGrammar(g: Rules, nonempty: bool, start: string) returns (err: Option<string>)
    ensures err.Some? <==> nonempty && exists x :: Reachable(g, start, x) && Productions(g, x) == []
    ensures err.Some? ==> Reachable(g, start, err.value) && Productions(g, err.value) == []
  {
    var seen;
    ghost var walked;
    seen, err, walked := CheckGrammar(g, nonempty, start, {});
    if err.None? && nonempty {
      forall x | Reachable(g, start, x) ensures Productions(g, x) != [] {
        var p :| IsPath(g, p) && p[0] == start && p[|p| - 1] == x;
        ClosedHoldsReachable(g, seen, p);
        assert Closed(g, x, seen);
      }
    }
  }

  // ---------------------------------------------------------------------------
  // produce

  /** Every value is one `random.random()` could return. */
  ghost predicate UnitDraws(draws: seq<real>) {
    forall k :: 0 <= k < |draws| ==> 0.0 <= draws[k] < 1.0
  }

  /** `random.choice(seq)` on a list of length `n`: `seq[int(random() * n)]`. */
  function Choose(u: real, n: nat): (k: nat)
    requires 0.0 <= u < 1.0 && n > 0
    ensures k < n
  {
    var x := u * n as real;
    BelowBound(u, n as real);
    assert 0.0 <= x < n as real;
    assert x.Floor as real <= x && 0.0.Floor <= x.Floor;
    x.Floor
  }

  lemma BelowBound(u: real, n: real)
    requires 0.0 <= u < 1.0 && n > 0.0
    ensures 0.0 <= u * n < n
  {
  }

  /** A nonterminal whose symbol starts with `__CONTINUE` is a gate. */
  predicate IsGate(x: string) {
    StartsWith(x, "__CONTINUE")
  }

  /** The characters `strip('_CONTINUE')` removes from both ends. */
  const GateChars: set<char> := {'_', 'C', 'O', 'N', 'T', 'I', 'U', 'E'}

  function DigitValue(c: char): nat
    requires IsAsciiDigit(c)
  {
    (c - '0') as nat
  }

  /** The value of a non-empty run of ASCII digits, read in base 10. */
  function DigitsValue(s: string): nat
    requires forall k :: 0 <= k < |s| ==> IsAsciiDigit(s[k])
  {
    if s == [] then 0 else 10 * DigitsValue(s[..|s| - 1]) + DigitValue(s[|s| - 1])
  }

  /** `int(s)` for an optional sign followed by ASCII digits; `None` where
      `int` raises `ValueError`. */
  function ParseInt(s: string): (r: Option<int>)
    ensures s != [] && s[0] != '-' && s[0] != '+' && (forall k :: 0 <= k < |s| ==> IsAsciiDigit(s[k]))
      ==> r == Some(DigitsValue(s) as int)
    ensures |s| > 1 && s[0] == '-' && (forall k :: 1 <= k < |s| ==> IsAsciiDigit(s[k]))
      ==> r == Some(-(DigitsValue(s[1..]) as int))
    ensures |s| > 1 && s[0] == '+' && (forall k :: 1 <= k < |s| ==> IsAsciiDigit(s[k]))
      ==> r == Some(DigitsValue(s[1..]) as int)
    ensures s == [] || s == "-" || s == "+" ==> r == None
    ensures (exists k :: 0 <= k < |s| && !IsAsciiDigit(s[k]) && !(k == 0 && (s[0] == '-' || s[0] == '+')))
      ==> r == None
  {
    if s == [] then None
    else if s[0] == '-' || s[0] == '+' then
      var d := s[1..];
      if d != [] && forall k :: 0 <= k < |d| ==> IsAsciiDigit(d[k]) then
        Some(if s[0] == '-' then -(DigitsValue(d) as int) else DigitsValue(d) as int)
      else None
    else if forall k :: 0 <= k < |s| ==> IsAsciiDigit(s[k]) then Some(DigitsValue(s) as int)
    else None
  }

  /** `int(x.strip('_CONTINUE'))`: the gate's percentage. */
  function GatePercent(x: string): Option<int> {
    ParseInt(Strip(x, GateChars))
  }

  /** Why `produce` raises, or stops in this model. */
  datatype Failure =
    | NoProductions(nonterminal: string) // `random.choice([])` raises `IndexError`
    | BadGate(symbol: string)            // `int(...)` raises `ValueError`
    | OutOfDraws                         // the stream given to the model ran out

  /** What a run of the generator yields, and the draws it leaves unused. */
  datatype Produced = Produced(items: seq<string>, rest: seq<real>) | Raised(failure: Failure)

  /** `xs` yielded before whatever `r` yields. */
  function Prepend(xs: seq<string>, r: Produced): Produced {
    if r.Produced? then Produced(xs + r.items, r.rest) else r
  }

  /** `rest` is what is left of `draws` after taking some from the front. */
  ghost predicate SuffixOf(rest: seq<real>, draws: seq<real>) {
    |rest| <= |draws| && rest == draws[|draws| - |rest|..]
  }

  /** `produce(grammar, nt)`: choose a production with the first draw, then
      expand its right-hand side. */
  function Produce(g: Rules, nt: string, draws: seq<real>): (r: Produced)
    requires UnitDraws(draws)
    ensures r.Produced? ==> SuffixOf(r.rest, draws) && |r.rest| < |draws|
    decreases |draws|, 0
  {
    if draws == [] then Raised(OutOfDraws)
    else
      var ps := Productions(g, nt);
      if ps == [] then Raised(NoProductions(nt))
      else
        var r := ProduceSeq(g, ps[Choose(draws[0], |ps|)], draws[1..]);
        SuffixTrans(r, draws[1..], draws);
        r
  }

  /** The loop of `produce` over the chosen right-hand side: terminals are
      yielded as they are, a nonterminal's expansion is spliced in at its
      position, and a gate either lets the loop go on or yields `''` and ends
      it (`break`). */
  function ProduceSeq(g: Rules, rhs: seq<Symbol>, draws: seq<real>): (r: Produced)
    requires UnitDraws(draws)
    ensures r.Produced? ==> SuffixOf(r.rest, draws)
    decreases |draws|, |rhs| + 1
  {
    if rhs == [] then Produced([], draws)
    else match rhs[0]
      case T(text) =>
        Prepend([text], ProduceSeq(g, rhs[1..], draws))
      case N(x) =>
        if IsGate(x) then
          match GatePercent(x)
          case None => Raised(BadGate(x))
          case Some(v) =>
            if draws == [] then Raised(OutOfDraws)
            else if draws[0] > v as real / 100.0 then Produced([""], draws[1..])
            else
              var r := ProduceSeq(g, rhs[1..], draws[1..]);
              SuffixTrans(r, draws[1..], draws);
              r
        else
          match Produce(g, x, draws)
          case Raised(f) => Raised(f)
          case Produced(a, d) =>
            var r := ProduceSeq(g, rhs[1..], d);
            SuffixTrans(r, d, draws);
            Prepend(a, r)
  }

  /** A suffix of a suffix of `draws` is a suffix of `draws`. */
  lemma SuffixTrans(r: Produced, d: seq<real>, draws: seq<real>)
    requires SuffixOf(d, draws)
    requires r.Produced? ==> SuffixOf(r.rest, d)
    ensures r.Produced? ==> SuffixOf(r.rest, draws) && |r.rest| <= |d|
  {
    if r.Produced? {
      assert r.rest == d[|d| - |r.rest|..] == draws[|draws| - |r.rest|..];
    }
  }

  /** `u''.join(items)` */
  function Join(items: seq<string>): string {
    if items == [] then [] else items[0] + Join(items[1..])
  }

  /** `FactBuilder.fact()`: everything `produce` yields for the start symbol,
      joined; a fact is always the text of a derivation that follows the
      grammar. */
  function Fact(g: Rules, start: string, draws: seq<real>): (r: Option<string>)
    requires UnitDraws(draws)
    ensures r.Some? <==> Produce(g, start, draws).Produced?
    ensures r.Some? ==> exists t: Tree :: t.name == start && Fits(g, t) && Join(Yield(t)) == r.value
  {
    var r := Produce(g, start, draws);
    if r.Produced? then
      FactSound(g, start, draws);
      Some(Join(r.items))
    else None
  }

  lemma FactSound(g: Rules, start: string, draws: seq<real>)
    requires UnitDraws(draws) && Produce(g, start, draws).Produced?
    ensures exists t: Tree :: t.name == start && Fits(g, t) && Yield(t) == Produce(g, start, draws).items
  {
    var t := ProduceSound(g, start, draws);
  }

  // ---------------------------------------------------------------------------
  // Derivations: what `produce` can yield, independently of the draws

  /** A run of the generator: the production chosen for `name` (its index
      among the nonterminal's productions) and what became of each symbol of
      its right-hand side. */
  datatype Tree = Expand(name: string, alt: nat, parts: Parts)

  /** What became of the symbols of a right-hand side, left to right: a
      terminal as it is, the expansion of a nonterminal, a gate let through,
      or a gate that pruned the rest of the production. */
  datatype Parts =
    | End
    | Word(text: string, next: Parts)
    | Sub(tree: Tree, next: Parts)
    | Pass(next: Parts)
    | Prune

  /** Some draw in `[0, 1)` lets gate `x` through: the percentage is not negative. */
  predicate GateCanPass(x: string) {
    IsGate(x) && GatePercent(x).Some? && GatePercent(x).value >= 0
  }

  /** Some draw in `[0, 1)` makes gate `x` prune: the percentage is below 100. */
  predicate GateCanPrune(x: string) {
    IsGate(x) && GatePercent(x).Some? && GatePercent(x).value < 100
  }

  /** `t` follows the grammar: its production exists and its parts match it. */
  ghost predicate Fits(g: Rules, t: Tree)
    decreases t
  {
    t.alt < |Productions(g, t.name)| && PartsFit(g, Productions(g, t.name)[t.alt], t.parts)
  }

  /** The parts match the right-hand side symbol by symbol; a pruning gate ends
      the parts and leaves the rest of the right-hand side unexpanded. */
  ghost predicate PartsFit(g: Rules, rhs: seq<Symbol>, parts: Parts)
    decreases parts
  {
    match parts
    case End => rhs == []
    case Word(w, next) => rhs != [] && rhs[0] == T(w) && PartsFit(g, rhs[1..], next)
    case Sub(t, next) =>
      rhs != [] && rhs[0] == N(t.name) && !IsGate(t.name) && Fits(g, t) && PartsFit(g, rhs[1..], next)
    case Pass(next) => rhs != [] && rhs[0].N? && GateCanPass(rhs[0].name) && PartsFit(g, rhs[1..], next)
    case Prune => rhs != [] && rhs[0].N? && GateCanPrune(rhs[0].name)
  }

  /** The items a derivation yields, left to right. */
  function Yield(t: Tree): seq<string>
    decreases t
  {
    YieldParts(t.parts)
  }

  function YieldParts(parts: Parts): seq<string>
    decreases parts
  {
    match parts
    case End => []
    case Word(w, next) => [w] + YieldParts(next)
    case Sub(t, next) => Yield(t) + YieldParts(next)
    case Pass(next) => YieldParts(next)
    case Prune => [""]
  }

  /** Whatever `produce` yields is the yield of a derivation of `nt`. */
  lemma {:induction false} ProduceSound(g: Rules, nt: string, draws: seq<real>) returns (t: Tree)
    requires UnitDraws(draws) && Produce(g, nt, draws).Produced?
    ensures t.name == nt && Fits(g, t) && Yield(t) == Produce(g, nt, draws).items
    decreases |draws|, 0
  {
    var ps := Productions(g, nt);
    var alt := Choose(draws[0], |ps|);
    var parts := ProduceSeqSound(g, ps[alt], draws[1..]);
    t := Expand(nt, alt, parts);
  }

  lemma {:induction false} ProduceSeqSound(g: Rules, rhs: seq<Symbol>, draws: seq<real>) returns (parts: Parts)
    requires UnitDraws(draws) && ProduceSeq(g, rhs, draws).Produced?
    ensures PartsFit(g, rhs, parts) && YieldParts(parts) == ProduceSeq(g, rhs, draws).items
    decreases |draws|, |rhs| + 1
  {
    if rhs == [] {
      return End;
    }
    match rhs[0]
    case T(text) =>
      var next := ProduceSeqSound(g, rhs[1..], draws);
      parts := Word(text, next);
    case N(x) =>
      if IsGate(x) {
        var v := GatePercent(x).value;
        if draws[0] > v as real / 100.0 {
          parts := Prune;
        } else {
          var next := ProduceSeqSound(g, rhs[1..], draws[1..]);
          parts := Pass(next);
        }
      } else {
        var sub := ProduceSound(g, x, draws);
        var next := ProduceSeqSound(g, rhs[1..], Produce(g, x, draws).rest);
        parts := Sub(sub, next);
      }
  }

  /** A draw that makes `random.choice` pick index `alt` of `n`. */
  function ChoiceDraw(alt: nat, n: nat): real {
    if n == 0 then 0.0 else alt as real / n as real
  }

  /** A draw above `v / 100` and below 1, which makes a gate of percentage `v` prune. */
  function PruneDraw(v: int): real {
    if v < 0 then 0.0 else (v as real + 100.0) / 200.0
  }

  /** Draws that make `produce` follow the derivation `t`. */
  function TreeDraws(g: Rules, t: Tree): seq<real>
    decreases t
  {
    var ps := Productions(g, t.name);
    [ChoiceDraw(t.alt, |ps|)] + PartsDraws(g, if t.alt < |ps| then ps[t.alt] else [], t.parts)
  }

  function PartsDraws(g: Rules, rhs: seq<Symbol>, parts: Parts): seq<real>
    decreases parts
  {
    match parts
    case End => []
    case Word(_, next) => PartsDraws(g, if rhs == [] then [] else rhs[1..], next)
    case Sub(t, next) => TreeDraws(g, t) + PartsDraws(g, if rhs == [] then [] else rhs[1..], next)
    case Pass(next) => [0.0] + PartsDraws(g, if rhs == [] then [] else rhs[1..], next)
    case Prune =>
      if rhs != [] && rhs[0].N? && GatePercent(rhs[0].name).Some? then [PruneDraw(GatePercent(rhs[0].name).value)]
      else [0.0]
  }

  lemma ChoiceDrawChooses(alt: nat, n: nat)
    requires alt < n
    ensures 0.0 <= ChoiceDraw(alt, n) < 1.0 && Choose(ChoiceDraw(alt, n), n) == alt
  {
    var u := ChoiceDraw(alt, n);
    assert u * n as real == alt as real;
  }

  lemma UnitAppend(a: seq<real>, b: seq<real>)
    requires UnitDraws(a) && UnitDraws(b)
    ensures UnitDraws(a + b)
  {
  }

  /** Every derivation is produced, by the draws `TreeDraws` gives, whatever
      draws follow them. */
  lemma {:induction false} ProduceComplete(g: Rules, t: Tree, extra: seq<real>)
    requires Fits(g, t) && UnitDraws(extra)
    ensures UnitDraws(TreeDraws(g, t) + extra)
    ensures Produce(g, t.name, TreeDraws(g, t) + extra) == Produced(Yield(t), extra)
    decreases t
  {
    var ps := Productions(g, t.name);
    var u := ChoiceDraw(t.alt, |ps|);
    ChoiceDrawChooses(t.alt, |ps|);
    var tail := PartsDraws(g, ps[t.alt], t.parts);
    PartsComplete(g, ps[t.alt], t.parts, extra);
    var all := TreeDraws(g, t) + extra;
    AppendAssoc([u], tail, extra);
    assert all == [u] + (tail + extra);
    DropCons(u, tail + extra);
  }

  lemma {:induction false} PartsComplete(g: Rules, rhs: seq<Symbol>, parts: Parts, extra: seq<real>)
    requires PartsFit(g, rhs, parts) && UnitDraws(extra)
    ensures UnitDraws(PartsDraws(g, rhs, parts) + extra)
    ensures ProduceSeq(g, rhs, PartsDraws(g, rhs, parts) + extra) == Produced(YieldParts(parts), extra)
    decreases parts
  {
    match parts
    case End =>
    case Word(w, next) =>
      PartsComplete(g, rhs[1..], next, extra);
      WordComplete(g, rhs, w, next, extra);
    case Sub(t, next) =>
      var tail := PartsDraws(g, rhs[1..], next);
      PartsComplete(g, rhs[1..], next, extra);
      ProduceComplete(g, t, tail + extra);
      SubComplete(g, rhs, t, next, extra);
    case Pass(next) =>
      PartsComplete(g, rhs[1..], next, extra);
      PassComplete(g, rhs, next, extra);
    case Prune =>
      PruneComplete(g, rhs, extra);
  }

  lemma WordComplete(g: Rules, rhs: seq<Symbol>, w: string, next: Parts, extra: seq<real>)
    requires rhs != [] && rhs[0] == T(w)
    requires UnitDraws(PartsDraws(g, rhs[1..], next) + extra)
    requires ProduceSeq(g, rhs[1..], PartsDraws(g, rhs[1..], next) + extra) == Produced(YieldParts(next), extra)
    ensures UnitDraws(PartsDraws(g, rhs, Word(w, next)) + extra)
    ensures ProduceSeq(g, rhs, PartsDraws(g, rhs, Word(w, next)) + extra) == Produced(YieldParts(Word(w, next)), extra)
  {
  }

  lemma SubComplete(g: Rules, rhs: seq<Symbol>, t: Tree, next: Parts, extra: seq<real>)
    requires rhs != [] && rhs[0] == N(t.name) && !IsGate(t.name)
    requires UnitDraws(PartsDraws(g, rhs[1..], next) + extra)
    requires ProduceSeq(g, rhs[1..], PartsDraws(g, rhs[1..], next) + extra) == Produced(YieldParts(next), extra)
    requires UnitDraws(TreeDraws(g, t) + (PartsDraws(g, rhs[1..], next) + extra))
    requires Produce(g, t.name, TreeDraws(g, t) + (PartsDraws(g, rhs[1..], next) + extra))
      == Produced(Yield(t), PartsDraws(g, rhs[1..], next) + extra)
    ensures UnitDraws(PartsDraws(g, rhs, Sub(t, next)) + extra)
    ensures ProduceSeq(g, rhs, PartsDraws(g, rhs, Sub(t, next)) + extra) == Produced(YieldParts(Sub(t, next)), extra)
  {
    AppendAssoc(TreeDraws(g, t), PartsDraws(g, rhs[1..], next), extra);
  }

  lemma PassComplete(g: Rules, rhs: seq<Symbol>, next: Parts, extra: seq<real>)
    requires rhs != [] && rhs[0].N? && GateCanPass(rhs[0].name)
    requires UnitDraws(PartsDraws(g, rhs[1..], next) + extra)
    requires ProduceSeq(g, rhs[1..], PartsDraws(g, rhs[1..], next) + extra) == Produced(YieldParts(next), extra)
    ensures UnitDraws(PartsDraws(g, rhs, Pass(next)) + extra)
    ensures ProduceSeq(g, rhs, PartsDraws(g, rhs, Pass(next)) + extra) == Produced(YieldParts(Pass(next)), extra)
  {
    var tail := PartsDraws(g, rhs[1..], next);
    var d := PartsDraws(g, rhs, Pass(next)) + extra;
    assert PartsDraws(g, rhs, Pass(next)) == [0.0] + tail;
    AppendAssoc([0.0], tail, extra);
    assert d == [0.0] + (tail + extra);
    GatePassStep(g, rhs, tail + extra);
    assert YieldParts(Pass(next)) == YieldParts(next);
  }

  /** A draw of `0.0` lets a gate with a percentage of at least 0 through. */
  lemma GatePassStep(g: Rules, rhs: seq<Symbol>, rest: seq<real>)
    requires rhs != [] && rhs[0].N? && GateCanPass(rhs[0].name) && UnitDraws(rest)
    ensures UnitDraws([0.0] + rest)
    ensures ProduceSeq(g, rhs, [0.0] + rest) == ProduceSeq(g, rhs[1..], rest)
  {
    DropCons(0.0, rest);
  }

  lemma PruneComplete(g: Rules, rhs: seq<Symbol>, extra: seq<real>)
    requires rhs != [] && rhs[0].N? && GateCanPrune(rhs[0].name)
    requires UnitDraws(extra)
    ensures UnitDraws(PartsDraws(g, rhs, Prune) + extra)
    ensures ProduceSeq(g, rhs, PartsDraws(g, rhs, Prune) + extra) == Produced([""], extra)
  {
    var v := GatePercent(rhs[0].name).value;
    var u := PruneDraw(v);
    PruneDrawPrunes(v);
    assert PartsDraws(g, rhs, Prune) == [u];
    GatePruneStep(g, rhs, u, extra);
  }

  /** `PruneDraw(v)` is a possible draw, and above `v / 100` when `v < 100`. */
  lemma PruneDrawPrunes(v: int)
    requires v < 100
    ensures 0.0 <= PruneDraw(v) < 1.0 && PruneDraw(v) > v as real / 100.0
  {
  }

  /** A draw above the gate's `nn / 100` yields `''` and ends the production. */
  lemma GatePruneStep(g: Rules, rhs: seq<Symbol>, u: real, rest: seq<real>)
    requires rhs != [] && rhs[0].N? && IsGate(rhs[0].name) && GatePercent(rhs[0].name).Some?
    requires UnitDraws(rest) && 0.0 <= u < 1.0 && u > GatePercent(rhs[0].name).value as real / 100.0
    ensures UnitDraws([u] + rest)
    ensures ProduceSeq(g, rhs, [u] + rest) == Produced([""], rest)
  {
    DropCons(u, rest);
  }

  /** `fact()` joins the yield of the derivation the draws follow. */
  lemma FactOfDerivation(g: Rules, t: Tree, extra: seq<real>)
    requires Fits(g, t) && UnitDraws(extra)
    ensures UnitDraws(TreeDraws(g, t) + extra)
    ensures Fact(g, t.name, TreeDraws(g, t) + extra) == Some(Join(Yield(t)))
  {
    ProduceComplete(g, t, extra);
  }

  // ---------------------------------------------------------------------------
  // Gates

  /** A draw above `nn / 100` yields `''` and abandons the rest of the current
      production, which is not even looked at; the draws after it are left to
      the enclosing production. */
  lemma PruneEndsProduction(g: Rules, x: string, rest: seq<Symbol>, draws: seq<real>)
    requires UnitDraws(draws) && draws != []
    requires IsGate(x) && GatePercent(x).Some? && draws[0] > GatePercent(x).value as real / 100.0
    ensures ProduceSeq(g, [N(x)] + rest, draws) == Produced([""], draws[1..])
  {
    DropCons(N(x), rest);
  }

  /** A gate of 100 percent or more never prunes: `random()` is below 1. */
  lemma FullGatePasses(g: Rules, x: string, rest: seq<Symbol>, draws: seq<real>)
    requires UnitDraws(draws) && draws != []
    requires IsGate(x) && GatePercent(x).Some? && GatePercent(x).value >= 100
    ensures UnitDraws(draws[1..])
    ensures ProduceSeq(g, [N(x)] + rest, draws) == ProduceSeq(g, rest, draws[1..])
  {
    DropCons(N(x), rest);
  }

  /** A gate written `__CONTINUEnn__` has the percentage `nn`: the strip stops
      at the digits. */
  lemma GatePercentOfDigits(d: string)
    requires d != [] && forall k :: 0 <= k < |d| ==> IsAsciiDigit(d[k])
    ensures IsGate("__CONTINUE" + d + "__")
    ensures GatePercent("__CONTINUE" + d + "__") == Some(DigitsValue(d) as int)
  {
    GateStrip(d);
    assert d[0] != '-' && d[0] != '+';
    assert ParseInt(d) == Some(DigitsValue(d) as int);
  }

  lemma GateStrip(d: string)
    requires d != [] && forall k :: 0 <= k < |d| ==> IsAsciiDigit(d[k])
    ensures IsGate("__CONTINUE" + d + "__")
    ensures Strip("__CONTINUE" + d + "__", GateChars) == d
  {
    var p, q := "__CONTINUE", "__";
    GateFrame();
    DigitNotGate(d[0]);
    DigitNotGate(d[|d| - 1]);
    StripBetween(p, d, q, GateChars);
    assert (p + d + q)[..|p|] == p;
  }

  lemma DigitNotGate(c: char)
    requires IsAsciiDigit(c)
    ensures c !in GateChars
  {
  }

  lemma GateFrame()
    ensures All("__CONTINUE", GateChars) && All("__", GateChars)
  {
  }

  /** The symbol `__CONTINUE100__` is a gate of 100 percent. */
  lemma Gate100()
    ensures IsGate("__CONTINUE100__") && GatePercent("__CONTINUE100__") == Some(100)
  {
    var d := "100";
    assert "__CONTINUE" + d + "__" == "__CONTINUE100__";
    var d1, d2 := d[..1], d[..2];
    assert d1[..0] == [] && d2[..1] == d1;
    assert d1[0] == '1' && d2[1] == '0' && d[2] == '0';
    assert DigitsValue(d1) == 1;
    assert DigitsValue(d2) == 10;
    assert DigitsValue(d) == 100;
    GatePercentOfDigits(d);
  }

  /** The symbol `__CONTINUE50__` is a gate of 50 percent. */
  lemma Gate50()
    ensures IsGate("__CONTINUE50__") && GatePercent("__CONTINUE50__") == Some(50)
  {
    var d := "50";
    assert "__CONTINUE" + d + "__" == "__CONTINUE50__";
    var d1 := d[..1];
    assert d1[..0] == [] && d1[0] == '5' && d[1] == '0';
    assert DigitsValue(d1) == 5;
    assert DigitsValue(d) == 50;
    GatePercentOfDigits(d);
  }

  /** `__CONTINUE100__` never prunes: it consumes one draw and the production
      goes on. */
  lemma Continue100Passes(g: Rules, rest: seq<Symbol>, draws: seq<real>)
    requires UnitDraws(draws) && draws != []
    ensures UnitDraws(draws[1..])
    ensures ProduceSeq(g, [N("__CONTINUE100__")] + rest, draws) == ProduceSeq(g, rest, draws[1..])
  {
    Gate100();
    FullGatePasses(g, "__CONTINUE100__", rest, draws);
  }

  /** `__CONTINUE50__` prunes the production whenever the draw is above one
      half. */
  lemma Continue50Prunes(g: Rules, rest: seq<Symbol>, draws: seq<real>)
    requires UnitDraws(draws) && draws != [] && draws[0] > 0.5
    ensures ProduceSeq(g, [N("__CONTINUE50__")] + rest, draws) == Produced([""], draws[1..])
  {
    Gate50();
    PruneEndsProduction(g, "__CONTINUE50__", rest, draws);
  }
}
