/** The compressed tables of the generated parser in parse.c, the grammar they were generated from, and
    parse trees. The contents of the tables are a parameter. */
module LrTables {

  const YYNOCODE: nat := 278
  const YYWILDCARD: nat := 91
  const YYNSTATE: nat := 528
  const YYNRULE: nat := 369
  const YYNTOKEN: nat := 155
  const YYSTACKDEPTH: nat := 100
  const YY_MAX_SHIFT: nat := 527
  const YY_MIN_SHIFTREDUCE: nat := 764
  const YY_MAX_SHIFTREDUCE: nat := 1132
  const YY_ERROR_ACTION: nat := 1133
  const YY_ACCEPT_ACTION: nat := 1134
  const YY_MIN_REDUCE: nat := 1136
  const YY_MAX_REDUCE: nat := 1504

  /** yy_action, yy_lookahead, yy_shift_ofst, yy_reduce_ofst, yy_default, yyFallback, yyRuleInfoLhs and
      yyRuleInfoNRhs, which holds the negated lengths. */
  datatype Tables = Tables(action: seq<nat>, lookahead: seq<nat>, shiftOfst: seq<nat>, reduceOfst: seq<int>,
                           dflt: seq<nat>, fallback: seq<nat>, ruleLhs: seq<nat>, ruleNRhs: seq<int>)

  /** The sizes that the generator promises: a shift lookup that hits stays inside yy_action, and a
      fallback token has no fallback itself. */
  predicate Shaped(t: Tables) {
    && |t.shiftOfst| == YYNSTATE && |t.dflt| == YYNSTATE && |t.reduceOfst| <= YYNSTATE
    && |t.ruleLhs| == YYNRULE && |t.ruleNRhs| == YYNRULE && |t.action| <= |t.lookahead|
    && (forall i :: |t.action| <= i < |t.lookahead| ==> t.lookahead[i] >= YYNTOKEN)
    && (forall x :: 0 <= x < |t.fallback| ==> t.fallback[x] < YYNTOKEN && FallbackOf(t, t.fallback[x]) == 0)
    && FallbackOf(t, 0) == 0
    && (forall r :: 0 <= r < YYNRULE ==> YYNTOKEN <= t.ruleLhs[r] < YYNOCODE && t.ruleNRhs[r] <= 0)
  }

  function FallbackOf(t: Tables, tok: nat): nat {
    if tok < |t.fallback| then t.fallback[tok] else 0
  }

  /** An action and the terminal it was found under: the token, its fallback or the wildcard. */
  datatype Lookup = Lookup(action: nat, symbol: nat)

  /** yy_find_shift_action */
  function FindShift(t: Tables, stateno: nat, tok: nat): Lookup
    requires Shaped(t) && tok < YYNTOKEN
    decreases FallbackOf(t, tok) != 0
  {
    if stateno > YY_MAX_SHIFT then Lookup(stateno, YYNOCODE)
    else
      var i := t.shiftOfst[stateno] + tok;
      if i < |t.lookahead| && t.lookahead[i] == tok then Lookup(t.action[i], tok)
      else if FallbackOf(t, tok) != 0 then FindShift(t, stateno, FallbackOf(t, tok))
      else
        var j := t.shiftOfst[stateno] + YYWILDCARD;
        if j < |t.lookahead| && t.lookahead[j] == YYWILDCARD && tok > 0 then Lookup(t.action[j], YYWILDCARD)
        else Lookup(t.dflt[stateno], YYNOCODE)
  }

  datatype Slot = Empty | Act(action: nat)

  /** The uncompressed table: what is stored for a state and a terminal. */
  function Stored(t: Tables, stateno: nat, x: nat): Slot
    requires Shaped(t) && stateno <= YY_MAX_SHIFT && x < YYNTOKEN
  {
    var i := t.shiftOfst[stateno] + x;
    if i < |t.lookahead| && t.lookahead[i] == x then Act(t.action[i]) else Empty
  }

  /** The lookup in the uncompressed table: an action for the token itself comes first, then one for its
      fallback, then one for the wildcard, unless the token is the end of input, then the default. */
  lemma {:induction false} LookupOrder(t: Tables, stateno: nat, tok: nat)
    requires Shaped(t) && stateno <= YY_MAX_SHIFT && tok < YYNTOKEN
    ensures var own, other, wild := Stored(t, stateno, tok), FallbackOf(t, tok), Stored(t, stateno, YYWILDCARD);
            FindShift(t, stateno, tok).action ==
            if own.Act? then own.action
            else if other != 0 && Stored(t, stateno, other).Act? then Stored(t, stateno, other).action
            else if wild.Act? && tok > 0 then wild.action
            else t.dflt[stateno]
  {
    var other := FallbackOf(t, tok);
    if Stored(t, stateno, tok).Empty? && other != 0 {
      assert FallbackOf(t, other) == 0;
      assert FindShift(t, stateno, tok) == FindShift(t, stateno, other);
    }
  }

  /** The loop of yy_find_shift_action. */
  method FindShiftAction(t: Tables, tok: nat, stateno: nat) returns (action: nat)
    requires Shaped(t) && tok < YYNTOKEN
    ensures action == FindShift(t, stateno, tok).action
  {
    if stateno > YY_MAX_SHIFT { return stateno; }
    var iLookAhead: nat := tok;
    while true
      invariant iLookAhead < YYNTOKEN
      invariant FindShift(t, stateno, iLookAhead) == FindShift(t, stateno, tok)
      decreases FallbackOf(t, iLookAhead) != 0
    {
      var i := t.shiftOfst[stateno];
      i := i + iLookAhead;
      if i >= |t.lookahead| || t.lookahead[i] != iLookAhead {
        if iLookAhead < |t.fallback| && t.fallback[iLookAhead] != 0 {
          iLookAhead := t.fallback[iLookAhead];
          continue;
        }
        var j := i - iLookAhead + YYWILDCARD;
        if j < |t.lookahead| && t.lookahead[j] == YYWILDCARD && iLookAhead > 0 {
          return t.action[j];
        }
        return t.dflt[stateno];
      } else {
        return t.action[i];
      }
    }
  }

  /** The asserts of yy_find_reduce_action: the lookup hits. */
  predicate ReduceHits(t: Tables, stateno: nat, symbol: nat) {
    && stateno < |t.reduceOfst| && |t.action| <= |t.lookahead|
    && 0 <= t.reduceOfst[stateno] + symbol < |t.action|
    && t.lookahead[t.reduceOfst[stateno] + symbol] == symbol
  }

  /** yy_find_reduce_action */
  function FindReduce(t: Tables, stateno: nat, symbol: nat): nat
    requires ReduceHits(t, stateno, symbol)
  {
    t.action[t.reduceOfst[stateno] + symbol]
  }

  // ----- Grammar and trees

  /** Rule r rewrites lhs[r] to one symbol of each set of rhs[r]; most sets have one member. Some rules
      that rename one symbol are elided: the tables go on from the renamed symbol as from the other. */
  datatype Grammar = Grammar(lhs: seq<nat>, rhs: seq<seq<set<nat>>>, start: nat, elided: set<nat>)

  /** The tables know the left-hand sides and the lengths of the right-hand sides. */
  ghost predicate Matches(t: Tables, g: Grammar) {
    && g.lhs == t.ruleLhs && |g.rhs| == |t.ruleNRhs|
    && forall r :: 0 <= r < |g.rhs| ==> |g.rhs[r]| == -t.ruleNRhs[r]
  }

  /** What the parser builds: a token with its value, or a rule applied to what its right-hand side
      became. It stands for whatever the semantic actions would make of it. */
  datatype Tree = Leaf(token: nat, value: int) | Node(rule: nat, children: seq<Tree>)

  /** A token may be read as itself, as its fallback, or as the wildcard unless it is end of input. */
  predicate StandsFor(t: Tables, tok: nat, symbol: nat) {
    || symbol == tok
    || (FallbackOf(t, tok) != 0 && symbol == FallbackOf(t, tok))
    || (tok > 0 && symbol == YYWILDCARD)
  }

  /** Tree x is a parse tree for the symbol. */
  ghost predicate Derives(t: Tables, g: Grammar, x: Tree, symbol: nat)
    decreases x, 0
  {
    match x
    case Leaf(tok, _) => tok < YYNTOKEN && symbol < YYNTOKEN && StandsFor(t, tok, symbol)
    case Node(r, children) =>
      && r < |g.rhs| && r < |g.lhs| && g.lhs[r] == symbol && |children| == |g.rhs[r]|
      && forall i :: 0 <= i < |children| ==> DerivesOneOf(t, g, children[i], g.rhs[r][i])
  }

  /** Tree x is a parse tree for one of the symbols, up to elided rules. */
  ghost predicate DerivesOneOf(t: Tables, g: Grammar, x: Tree, symbols: set<nat>)
    decreases x, 1
  {
    exists z :: StandsIn(g, z, symbols) && Derives(t, g, x, z)
  }

  /** Symbol z is what one of the symbols became by elided rules. */
  ghost predicate StandsIn(g: Grammar, z: nat, symbols: set<nat>) {
    exists y, path :: y in symbols && Renames(g, y, path, z)
  }

  /** The elided rules of the path rewrite y to z. */
  ghost predicate Renames(g: Grammar, y: nat, path: seq<nat>, z: nat)
    decreases |path|
  {
    if |path| == 0 then y == z
    else
      var r := path[0];
      && r in g.elided && r < |g.lhs| && r < |g.rhs| && g.lhs[r] == y && |g.rhs[r]| == 1
      && exists c :: c in g.rhs[r][0] && Renames(g, c, path[1..], z)
  }

  datatype Token = Token(major: nat, value: int)

  /** The tokens at the leaves. */
  function Yield(x: Tree): seq<Token> {
    match x
    case Leaf(tok, value) => [Token(tok, value)]
    case Node(_, children) => YieldAll(children)
  }

  function YieldAll(xs: seq<Tree>): seq<Token> {
    if |xs| == 0 then [] else YieldAll(xs[..|xs| - 1]) + Yield(xs[|xs| - 1])
  }

  lemma {:induction false} YieldConcat(xs: seq<Tree>, ys: seq<Tree>)
    ensures YieldAll(xs + ys) == YieldAll(xs) + YieldAll(ys)
  {
    if |ys| == 0 {
      assert xs + ys == xs;
    } else {
      var n := |ys| - 1;
      assert (xs + ys)[..|xs + ys| - 1] == xs + ys[..n];
      YieldConcat(xs, ys[..n]);
    }
  }

  /** What is found under a terminal is what the token stands for. */
  lemma {:induction false} FoundStandsFor(t: Tables, stateno: nat, tok: nat)
    requires Shaped(t) && tok < YYNTOKEN
    ensures var s := FindShift(t, stateno, tok).symbol;
            s == YYNOCODE || (s < YYNTOKEN && StandsFor(t, tok, s))
    decreases FallbackOf(t, tok) != 0
  {
    if FallbackOf(t, tok) != 0 { FoundStandsFor(t, stateno, FallbackOf(t, tok)); }
  }
}
