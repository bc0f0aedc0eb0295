/** Tables for a small grammar, which meet all conditions, and a run over them that accepts:
    input ::= opt expr, an empty rule for opt, term ::= TOKEN, the elided rule expr ::= term, and further rules
    that make a term of nothing and never apply. After a term the tables go on as after an expr. */
module LrExample {
  import opened LrTables
  import opened LrMachine
  import opened LrRuns

  const TOKEN: nat := 1
  const TERM: nat := 155
  const INPUT: nat := 156
  const EXPR: nat := 157
  const OPT: nat := 158

  /** State 0 reduces nothing to opt, whatever the token; state 2 shift-reduces TOKEN to term; state 1 takes
      the term for an expr and reduces both to input at the end. */
  function ExprTables(): Tables {
    Tables([YY_ERROR_ACTION, YY_MIN_SHIFTREDUCE + 1, YY_MIN_REDUCE, 1, YY_ACCEPT_ACTION, YY_ERROR_ACTION, 2],
           [YYNOCODE, TOKEN, 0, TERM, INPUT, YYNOCODE, OPT],
           seq(YYNSTATE, s requires 0 <= s => if s == 2 then 0 else if s == 1 then 2 else 7),
           [-152, -152, -152],
           seq(YYNSTATE, s requires 0 <= s => if s == 0 then YY_MIN_REDUCE + 3 else YY_ERROR_ACTION),
           [],
           seq(YYNRULE, r requires 0 <= r => RuleLhs(r)),
           seq(YYNRULE, r requires 0 <= r => if r == 0 then -2 else if r < 3 then -1 else 0))
  }

  function RuleLhs(r: nat): nat {
    if r == 0 then INPUT else if r == 2 then EXPR else if r == 3 then OPT else TERM
  }

  function ExprGrammar(): Grammar {
    Grammar(ExprTables().ruleLhs,
            seq(YYNRULE, r requires 0 <= r =>
              if r == 0 then [{OPT}, {EXPR}] else if r == 1 then [{TOKEN}] else if r == 2 then [{TERM}] else []),
            INPUT, {2})
  }

  function ExprNotes(): Annotation {
    Annotation(seq(YY_MAX_REDUCE + 1, c requires 0 <= c =>
                 if c == 1 || c == YY_MIN_REDUCE then [{TERM}, {OPT}]
                 else if c == 2 then [{OPT}]
                 else if c == YY_MIN_REDUCE + 1 then [{TOKEN}]
                 else if c == YY_ACCEPT_ACTION then [{INPUT}] else []),
               seq(YY_MAX_REDUCE + 1, c requires 0 <= c =>
                 if c == 1 || c == YY_MIN_REDUCE then [{2}, {0}]
                 else if c == YY_MIN_REDUCE + 1 then [{2}]
                 else if c == 2 || c == YY_ACCEPT_ACTION then [{0}] else []))
  }

  function ExprWeights(): Potential {
    Potential(1, seq(YYNOCODE, x requires 0 <= x =>
                 if x == TERM || x == OPT then 1 else if x == EXPR then 2 else if x == INPUT then 4 else 0), 4)
  }

  // ----- The conditions hold

  /** A term stands in for an expr, by the elided rule; the others for themselves. */
  lemma Stands()
    ensures AllStandIn(ExprGrammar(), {TERM}, {EXPR})
    ensures AllStandIn(ExprGrammar(), {OPT}, {OPT}) && AllStandIn(ExprGrammar(), {TOKEN}, {TOKEN})
  {
    var g := ExprGrammar();
    assert Renames(g, TERM, [], TERM) && Renames(g, TOKEN, [], TOKEN) && Renames(g, OPT, [], OPT);
    assert [2][1..] == [] && TERM in g.rhs[2][0];
    assert Renames(g, EXPR, [2], TERM);
  }

  lemma Gotos()
    ensures GotoOk(ExprTables(), ExprGrammar(), ExprNotes(), 0, 0)
            && GotoOk(ExprTables(), ExprGrammar(), ExprNotes(), 2, 1)
            && GotoOk(ExprTables(), ExprGrammar(), ExprNotes(), 0, 3)
  {
  }

  predicate Reduced(c: nat, r: nat) {
    (r == 0 && (c == 1 || c == YY_MIN_REDUCE)) || (r == 1 && c == YY_MIN_REDUCE + 1) || (r == 3 && c == 0)
  }

  lemma Reduces(c: nat, r: nat)
    requires Reduced(c, r)
    ensures ReduceOk(ExprTables(), ExprGrammar(), ExprNotes(), c, r)
  {
    hide GotoOk, AllStandIn;
    Gotos();
    Stands();
    assert ExprGrammar().rhs[r] == if r == 0 then [{OPT}, {EXPR}] else if r == 1 then [{TOKEN}] else [];
    assert r == 0 ==> ExprNotes().syms[c] == [{TERM}, {OPT}] && ExprNotes().below[c] == [{2}, {0}];
    assert r == 1 ==> ExprNotes().syms[c] == [{TOKEN}] && ExprNotes().below[c] == [{2}];
  }

  lemma Found(s: nat, tok: nat)
    requires s <= YY_MAX_SHIFT && tok < YYNTOKEN
    ensures Shaped(ExprTables())
    ensures FindShift(ExprTables(), s, tok) ==
            if s == 0 then Lookup(YY_MIN_REDUCE + 3, YYNOCODE)
            else if s == 2 && tok == TOKEN then Lookup(YY_MIN_SHIFTREDUCE + 1, TOKEN)
            else if s == 1 && tok == 0 then Lookup(YY_MIN_REDUCE, 0)
            else Lookup(YY_ERROR_ACTION, YYNOCODE)
  {
  }

  lemma Shifts()
    ensures Edge(ExprGrammar(), ExprNotes(), 2, TOKEN, YY_MIN_REDUCE + 1)
  {
  }

  lemma Actions(s: nat, tok: nat)
    requires s <= YY_MAX_SHIFT && tok < YYNTOKEN
    ensures Shaped(ExprTables()) && ActionOk(ExprTables(), ExprGrammar(), ExprNotes(), s, tok)
  {
    Reduces(1, 0);
    Reduces(0, 3);
    Shifts();
    Found(s, tok);
    hide FindShift, Edge, ReduceOk, ExprTables, ExprGrammar, ExprNotes;
  }

  lemma TablesValid()
    ensures Valid(ExprTables(), ExprGrammar(), ExprNotes())
  {
    forall s, tok | 0 <= s <= YY_MAX_SHIFT && 0 <= tok < YYNTOKEN
      ensures ActionOk(ExprTables(), ExprGrammar(), ExprNotes(), s, tok)
    {
      Actions(s, tok);
    }
    forall r | 0 <= r < YYNRULE && Applies(ExprGrammar(), r)
      ensures PendingOk(ExprTables(), ExprGrammar(), ExprNotes(), r)
    {
      Reduces(YY_MIN_REDUCE + r, r);
    }
  }

  lemma WeightsFit()
    ensures Grounded(ExprGrammar(), ExprWeights())
  {
    forall r, xs | 0 <= r < |ExprGrammar().rhs| && |xs| == |ExprGrammar().rhs[r]| && Chosen(ExprGrammar(), r, xs)
      ensures 1 + Weights(ExprWeights(), xs) <= ExprWeights().beta[ExprGrammar().lhs[r]]
    {
      if |xs| == 1 { assert xs[..0] == []; }
      if |xs| == 2 {
        assert xs[..1][..0] == [];
        assert Weights(ExprWeights(), xs[..1]) == ExprWeights().beta[xs[0]];
      }
    }
  }

  /** The start symbol is reduced to only at the end of the input. */
  lemma AcceptsAtEnd()
    ensures Shaped(ExprTables()) && EndOnly(ExprTables(), ExprGrammar())
  {
    Found(0, 0);
    forall s, tok | 0 <= s <= YY_MAX_SHIFT && 0 <= tok < YYNTOKEN
      ensures EndOnlyAt(ExprTables(), ExprGrammar(), s, tok)
    {
      Found(s, tok);
    }
  }

  // ----- A run

  const NOTHING: Tree := Node(3, [])
  const SHIFTED: nat := YY_MIN_REDUCE + 1

  function Term(value: int): Tree { Node(1, [Leaf(TOKEN, value)]) }

  /** The stack after the empty rule. */
  function WithOpt(): Stack { INITIAL + [Entry(2, OPT, NOTHING)] }

  /** The empty rule is reduced with one entry on the stack, and nothing overflows. */
  lemma EmptyStep(tok: Token)
    requires tok.major < YYNTOKEN
    ensures CanStep(ExprTables(), INITIAL, tok)
    ensures Step(ExprTables(), INITIAL, tok) == Move(WithOpt(), Continue)
  {
    Found(0, tok.major);
    assert ExprTables().ruleNRhs[3] == 0 && ExprTables().ruleLhs[3] == OPT;
    assert ReduceHits(ExprTables(), 0, OPT) && FindReduce(ExprTables(), 0, OPT) == 2;
    hide FindShift, ExprTables, ReduceHits, FindReduce;
    assert INITIAL[..1] == INITIAL && Minors(INITIAL[1..]) == [];
  }

  lemma ShiftStep(value: int)
    ensures CanStep(ExprTables(), WithOpt(), Token(TOKEN, value))
    ensures Step(ExprTables(), WithOpt(), Token(TOKEN, value))
            == Move(WithOpt() + [Entry(SHIFTED, TOKEN, Leaf(TOKEN, value))], Consumed)
  {
    Found(2, TOKEN);
    hide FindShift, ExprTables;
  }

  lemma TermStep(value: int)
    ensures var s := WithOpt() + [Entry(SHIFTED, TOKEN, Leaf(TOKEN, value))];
            && CanStep(ExprTables(), s, Token(0, 0))
            && Step(ExprTables(), s, Token(0, 0)) == Move(WithOpt() + [Entry(1, TERM, Term(value))], Continue)
  {
    var s := WithOpt() + [Entry(SHIFTED, TOKEN, Leaf(TOKEN, value))];
    Found(0, 0);
    assert FindShift(ExprTables(), Top(s), 0).action == YY_MIN_REDUCE + 1;
    assert ExprTables().ruleNRhs[1] == -1 && ExprTables().ruleLhs[1] == TERM;
    assert ReduceHits(ExprTables(), 2, TERM) && FindReduce(ExprTables(), 2, TERM) == 1;
    hide FindShift, ExprTables, ReduceHits, FindReduce;
    assert s[..2] == WithOpt() && Minors(s[2..]) == [Leaf(TOKEN, value)];
  }

  /** What the run accepts. */
  function Result(value: int): Tree { Node(0, [NOTHING, Term(value)]) }

  lemma InputStep(value: int)
    ensures var s := WithOpt() + [Entry(1, TERM, Term(value))];
            && CanStep(ExprTables(), s, Token(0, 0))
            && Step(ExprTables(), s, Token(0, 0))
               == Move(INITIAL + [Entry(YY_ACCEPT_ACTION, INPUT, Result(value))], Continue)
  {
    var s := WithOpt() + [Entry(1, TERM, Term(value))];
    Found(1, 0);
    assert ExprTables().ruleNRhs[0] == -2 && ExprTables().ruleLhs[0] == INPUT;
    assert ReduceHits(ExprTables(), 0, INPUT) && FindReduce(ExprTables(), 0, INPUT) == YY_ACCEPT_ACTION;
    hide FindShift, ExprTables, ReduceHits, FindReduce, Term;
    assert s[..1] == INITIAL && Minors(s[1..]) == [NOTHING, Term(value)];
  }

  lemma AcceptStep(s: Stack)
    requires |s| == 2 && s[0] == INITIAL[0] && Top(s) == YY_ACCEPT_ACTION
    ensures CanStep(ExprTables(), s, Token(0, 0))
    ensures Step(ExprTables(), s, Token(0, 0)) == Move(INITIAL, Accepted(s[1].minor))
  {
    Found(0, 0);
    assert FindShift(ExprTables(), Top(s), 0).action == YY_ACCEPT_ACTION;
    assert s[..1] == INITIAL;
  }

  /** The run over TOKEN and the end of input accepts, with the tree one expects. */
  lemma Accepts(value: int)
    ensures Ready(ExprTables(), ExprGrammar(), ExprNotes(), ExprWeights(), INITIAL)
    ensures Run(ExprTables(), ExprGrammar(), ExprNotes(), ExprWeights(), INITIAL,
                [Token(TOKEN, value), Token(0, 0)]).outcome
            == Accepted(Result(value))
  {
    TablesValid();
    WeightsFit();
    InitOk(ExprTables(), ExprGrammar(), ExprNotes());
    assert Ready(ExprTables(), ExprGrammar(), ExprNotes(), ExprWeights(), INITIAL);
    hide Ready, Parse, CanStep, Step, ExprTables, ExprGrammar, ExprNotes, ExprWeights, Term, Result;
    var a, b := Token(TOKEN, value), Token(0, 0);
    EmptyStep(a);
    ParseStep(ExprTables(), ExprGrammar(), ExprNotes(), ExprWeights(), INITIAL, a);
    ShiftStep(value);
    ParseStep(ExprTables(), ExprGrammar(), ExprNotes(), ExprWeights(), WithOpt(), a);
    var s1 := Step(ExprTables(), WithOpt(), a).stack;
    TermStep(value);
    ParseStep(ExprTables(), ExprGrammar(), ExprNotes(), ExprWeights(), s1, b);
    var s2 := Step(ExprTables(), s1, b).stack;
    InputStep(value);
    ParseStep(ExprTables(), ExprGrammar(), ExprNotes(), ExprWeights(), s2, b);
    var s3 := Step(ExprTables(), s2, b).stack;
    AcceptStep(s3);
    ParseStep(ExprTables(), ExprGrammar(), ExprNotes(), ExprWeights(), s3, b);
    assert [a, b][1..] == [b];
  }

  /** It is a parse tree of the grammar only because the elided rule is put back. */
  lemma RuleIsElided(value: int)
    ensures Derives(ExprTables(), ExprGrammar(), Result(value), INPUT)
    ensures !Derives(ExprTables(), ExprGrammar().(elided := {}), Result(value), INPUT)
  {
    var t, g := ExprTables(), ExprGrammar();
    Stands();
    TermDerives(value);
    assert StandsIn(g, OPT, g.rhs[0][0]) && Derives(t, g, NOTHING, OPT);
    assert DerivesOneOf(t, g, NOTHING, g.rhs[0][0]);
    assert StandsIn(g, TERM, g.rhs[0][1]) && Derives(t, g, Term(value), TERM);
    assert DerivesOneOf(t, g, Term(value), g.rhs[0][1]);
    NoneElided(value);
  }

  lemma TermDerives(value: int)
    ensures Derives(ExprTables(), ExprGrammar(), Term(value), TERM)
  {
    var t, g, leaf := ExprTables(), ExprGrammar(), Leaf(TOKEN, value);
    Stands();
    assert StandsIn(g, TOKEN, g.rhs[1][0]) && Derives(t, g, leaf, TOKEN);
    assert DerivesOneOf(t, g, leaf, g.rhs[1][0]);
  }

  lemma NoneElided(value: int)
    ensures !DerivesOneOf(ExprTables(), ExprGrammar().(elided := {}), Term(value), ExprGrammar().rhs[0][1])
  {
    var t, g := ExprTables(), ExprGrammar().(elided := {});
    forall z | StandsIn(g, z, g.rhs[0][1]) ensures !Derives(t, g, Term(value), z) {
      var y, path :| y in g.rhs[0][1] && Renames(g, y, path, z);
      assert z == EXPR;
    }
  }
}
