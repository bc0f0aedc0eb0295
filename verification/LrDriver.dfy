/** The parser of parse.c as it runs: an array for the stack, an index for its top, and the loop of
    sqlite3Parser, proved to follow the machine of LrMachine pass by pass and to end. */
module LrDriver {
  import opened LrTables
  import opened LrMachine
  import opened LrRuns

  class Parser {
    const t: Tables
    ghost const g: Grammar
    ghost const n: Annotation
    ghost const p: Potential
    const yystack: array<Entry>
    var yytos: nat
    /** What yy_destructor was called for, in order. */
    var destroyed: seq<Tree>

    ghost predicate Valid()
      reads this, yystack
    {
      yystack.Length == YYSTACKDEPTH && yytos < YYSTACKDEPTH && Ready(t, g, n, p, View())
    }

    /** The stack as a value. */
    ghost function View(): Stack
      reads this, yystack
      requires yytos < yystack.Length
    {
      yystack[..yytos + 1]
    }

    /** sqlite3ParserInit */
    constructor (t: Tables, ghost g: Grammar, ghost n: Annotation, ghost p: Potential)
      requires LrMachine.Valid(t, g, n) && Grounded(g, p)
      ensures Valid() && fresh(yystack) && View() == INITIAL && destroyed == []
      ensures this.t == t && this.g == g && this.n == n && this.p == p
    {
      this.t, this.g, this.n, this.p := t, g, n, p;
      yystack := new Entry[YYSTACKDEPTH](_ => Entry(0, 0, Leaf(0, 0)));
      yytos, destroyed := 0, [];
      new;
      yystack[0] := Entry(0, 0, Leaf(0, 0));
      assert View() == INITIAL;
      InitOk(t, g, n);
    }

    /** yy_pop_parser_stack */
    method PopParserStack()
      requires 0 < yytos < yystack.Length
      modifies this`yytos, this`destroyed
      ensures yytos == old(yytos) - 1
      ensures destroyed == old(destroyed) + [yystack[old(yytos)].minor]
    {
      var tos := yytos;
      yytos := yytos - 1;
      destroyed := destroyed + [yystack[tos].minor];
    }

    /** sqlite3ParserFinalize: every entry above the bottom is destroyed once, from the top down. */
    method Finalize()
      requires yytos < yystack.Length
      modifies this`yytos, this`destroyed
      ensures yytos == 0
      ensures destroyed == old(destroyed) + Reversed(Minors(old(View())[1..]))
    {
      ghost var s, k := View(), 0;
      while yytos > 0
        invariant 0 <= yytos < yystack.Length && yytos + k == |s| - 1
        invariant destroyed == old(destroyed) + Reversed(Minors(s[1..]))[..k]
      {
        ReversedAt(Minors(s[1..]), k);
        PopParserStack();
        k := k + 1;
      }
      assert Reversed(Minors(s[1..]))[..k] == Reversed(Minors(s[1..]));
    }

    /** yyStackOverflow */
    method StackOverflow()
      requires yytos < yystack.Length
      modifies this`yytos, this`destroyed
      ensures yytos == 0
      ensures destroyed == old(destroyed) + Reversed(Minors(old(View())[1..]))
    {
      ghost var s, k := View(), 0;
      while yytos > 0
        invariant 0 <= yytos < yystack.Length && yytos + k == |s| - 1
        invariant destroyed == old(destroyed) + Reversed(Minors(s[1..]))[..k]
      {
        ReversedAt(Minors(s[1..]), k);
        PopParserStack();
        k := k + 1;
      }
      assert Reversed(Minors(s[1..]))[..k] == Reversed(Minors(s[1..]));
    }

    /** yy_shift */
    method YyShift(newState: nat, tok: Token) returns (ghost m: Move)
      requires yystack.Length == YYSTACKDEPTH && yytos < YYSTACKDEPTH
      modifies this`yytos, this`destroyed, yystack
      ensures yytos < YYSTACKDEPTH
      ensures m == Shift(old(View()), newState, tok) && View() == m.stack
      ensures destroyed == old(destroyed) + if m.outcome.Overflowed? then Reversed(Minors(old(View())[1..])) else []
    {
      hide Reversed, Minors;
      ghost var s := View();
      m := Shift(s, newState, tok);
      yytos := yytos + 1;
      if yytos > YYSTACKDEPTH - 1 {
        yytos := yytos - 1;
        StackOverflow();
        return;
      }
      var code := newState;
      if newState > YY_MAX_SHIFT { code := code + (YY_MIN_REDUCE - YY_MIN_SHIFTREDUCE); }
      yystack[yytos] := Entry(code, tok.major, Leaf(tok.major, tok.value));
      assert yystack[..yytos] == s && yystack[..yytos + 1] == s + [yystack[yytos]];
    }

    /** yy_reduce, with the semantic action that builds a node. */
    method YyReduce(ruleno: nat) returns (act: nat, ghost m: Move)
      requires yystack.Length == YYSTACKDEPTH && yytos < YYSTACKDEPTH && CanReduce(t, View(), ruleno)
      modifies this`yytos, this`destroyed, yystack
      ensures yytos < YYSTACKDEPTH
      ensures m == Reduce(t, old(View()), ruleno) && View() == m.stack
      ensures m.outcome.Continue? ==> act == yystack[yytos].stateno && yytos > 0
      ensures destroyed == old(destroyed) + if m.outcome.Overflowed? then Reversed(Minors(old(View())[1..])) else []
    {
      ghost var s := View();
      m := Reduce(t, s, ruleno);
      if t.ruleNRhs[ruleno] == 0 {
        if yytos >= YYSTACKDEPTH - 1 {
          StackOverflow();
          return 0, m;
        }
      }
      var yysize := t.ruleNRhs[ruleno];
      var yymsp: nat := yytos;
      var children := Collect(yymsp, -yysize);
      var yygoto := t.ruleLhs[ruleno];
      act := FindReduceAction(t, yystack[yymsp + yysize].stateno, yygoto);
      yymsp := yymsp + yysize + 1;
      yytos := yymsp;
      yystack[yymsp] := Entry(act, yygoto, Node(ruleno, children));
      assert yystack[..yymsp] == s[..yymsp];
    }

    /** The trees of the k entries up to the top one. */
    method Collect(top: nat, k: nat) returns (children: seq<Tree>)
      requires k <= top < yystack.Length
      ensures children == Minors(yystack[top + 1 - k..top + 1])
    {
      children := [];
      var i := top + 1 - k;
      while i <= top
        invariant top + 1 - k <= i <= top + 1
        invariant children == Minors(yystack[top + 1 - k..i])
      {
        children := children + [yystack[i].minor];
        i := i + 1;
      }
    }

    /** sqlite3Parser */
    method Parse(tok: Token) returns (outcome: Outcome)
      requires Valid() && tok.major < YYNTOKEN
      modifies this`yytos, this`destroyed, yystack
      ensures Valid()
      ensures var m := LrRuns.Parse(t, g, n, p, old(View()), tok);
              View() == m.stack && outcome == m.outcome
      ensures outcome.Consumed? || outcome.Accepted? ==> destroyed == old(destroyed)
      ensures outcome.Rejected? ==> destroyed == old(destroyed) + [Leaf(tok.major, tok.value)]
      ensures outcome.Overflowed? ==> yytos == 0 && Discarded(old(destroyed), destroyed, Shifted(old(View())))
    {
      hide Ready, LrMachine.Valid, Grounded, StackOk, CanStep, CanReduce, Reduce, Shift, Step, FindShift,
        Slack, Derives, YieldAll, Minors, Reversed;
      var yyact := yystack[yytos].stateno;
      while true
        invariant Valid() && destroyed == old(destroyed) && yyact == yystack[yytos].stateno
        invariant LrRuns.Parse(t, g, n, p, View(), tok) == LrRuns.Parse(t, g, n, p, old(View()), tok)
        invariant Shifted(View()) == Shifted(old(View()))
        decreases Slack(p, View())
      {
        PassOk(t, g, n, p, View(), tok);
        ghost var lost := Minors(View()[1..]);
        yyact := FindShiftAction(t, tok.major, yyact);
        if yyact >= YY_MIN_REDUCE {
          var act, m := YyReduce(yyact - YY_MIN_REDUCE);
          yyact := act;
          if yytos == 0 {
            assert destroyed == old(destroyed) + Reversed(lost);
            return Overflowed;
          }
        } else if yyact <= YY_MAX_SHIFTREDUCE {
          ghost var m := YyShift(yyact, tok);
          if yytos == 0 {
            assert destroyed == old(destroyed) + Reversed(lost);
            return Overflowed;
          }
          return Consumed;
        } else if yyact == YY_ACCEPT_ACTION {
          ghost var s := View();
          var x := yystack[yytos].minor;
          yytos := yytos - 1;
          assert View() == s[..1];
          return Accepted(x);
        } else {
          destroyed := destroyed + [Leaf(tok.major, tok.value)];
          return Rejected;
        }
      }
    }
  }

  /** Trees for exactly these tokens were destroyed, each once, the last one first. */
  ghost predicate Discarded(before: seq<Tree>, after: seq<Tree>, toks: seq<Token>) {
    exists lost :: YieldAll(lost) == toks && after == before + Reversed(lost)
  }

  function Reversed(xs: seq<Tree>): (r: seq<Tree>)
    ensures |r| == |xs|
  {
    if xs == [] then [] else [xs[|xs| - 1]] + Reversed(xs[..|xs| - 1])
  }

  lemma {:induction false} ReversedAt(xs: seq<Tree>, k: nat)
    requires k < |xs|
    ensures Reversed(xs)[k] == xs[|xs| - 1 - k]
  {
    if k > 0 { ReversedAt(xs[..|xs| - 1], k - 1); }
  }

  /** yy_find_reduce_action: its asserts hold. */
  method FindReduceAction(t: Tables, stateno: nat, symbol: nat) returns (act: nat)
    requires ReduceHits(t, stateno, symbol)
    ensures act == FindReduce(t, stateno, symbol)
  {
    var i := t.reduceOfst[stateno];
    i := i + symbol;
    act := t.action[i];
  }

  /** What the loop knows in each pass. */
  lemma PassOk(t: Tables, g: Grammar, n: Annotation, p: Potential, s: Stack, tok: Token)
    requires Ready(t, g, n, p, s) && tok.major < YYNTOKEN
    ensures Shaped(t) && CanStep(t, s, tok)
    ensures StepCases(t, s, tok, FindShift(t, Top(s), tok.major).action)
    ensures var m := Step(t, s, tok);
            && Ready(t, g, n, p, m.stack)
            && LrRuns.Parse(t, g, n, p, s, tok)
               == (if m.outcome.Continue? then LrRuns.Parse(t, g, n, p, m.stack, tok) else m)
            && (m.outcome.Continue? ==> 0 <= Slack(p, m.stack) < Slack(p, s) && Shifted(m.stack) == Shifted(s))
  {
    hide Grounded, StackOk, Slack, Derives, Step, StepCases;
    StepKeeps(t, g, n, s, tok);
    StepUses(t, g, n, p, s, tok);
    StepIs(t, s, tok);
  }

  /** The pass, case by case. */
  predicate StepCases(t: Tables, s: Stack, tok: Token, act: nat)
    requires CanStep(t, s, tok)
  {
    var m := Step(t, s, tok);
    && (act >= YY_MIN_REDUCE ==>
          && CanReduce(t, s, act - YY_MIN_REDUCE) && m == Reduce(t, s, act - YY_MIN_REDUCE)
          && if m.outcome.Continue? then |m.stack| > 1 else m.outcome.Overflowed? && |m.stack| == 1)
    && (act <= YY_MAX_SHIFTREDUCE ==>
          && m == Shift(s, act, tok)
          && if m.outcome.Consumed? then |m.stack| > 1 else m.outcome.Overflowed? && |m.stack| == 1)
    && (act == YY_ACCEPT_ACTION ==> |s| == 2 && m == Move(s[..1], Accepted(s[1].minor)))
    && (YY_MAX_SHIFTREDUCE < act < YY_MIN_REDUCE && act != YY_ACCEPT_ACTION ==> m == Move(s, Rejected))
  }

  lemma StepIs(t: Tables, s: Stack, tok: Token)
    requires CanStep(t, s, tok)
    ensures StepCases(t, s, tok, FindShift(t, Top(s), tok.major).action)
  {
  }
}
