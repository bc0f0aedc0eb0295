/** The same machine without pending reductions: a shift-reduce shifts and reduces at once. It reaches
    the same stacks and outcomes as the delayed one. */
module LrEager {
  import opened LrTables
  import opened LrMachine
  import opened LrRuns

  /** All pending reductions on top carried out. */
  ghost function Settle(t: Tables, g: Grammar, n: Annotation, p: Potential, s: Stack): (r: Stack)
    requires Ready(t, g, n, p, s)
    ensures Ready(t, g, n, p, r) && !Pending(Top(r)) && Shifted(r) == Shifted(s) && Slack(p, r) <= Slack(p, s)
    decreases Slack(p, s)
  {
    hide Grounded, StackOk, Valid, Step, Slack, Derives, CanReduce, ReduceOk, Reduce;
    if !Pending(Top(s)) then s
    else
      PendingGoesOn(t, g, n, p, s, Token(0, 0));
      Settle(t, g, n, p, Reduce(t, s, Top(s) - YY_MIN_REDUCE).stack)
  }

  /** A pending reduction is what the next pass does, whatever the token, and it cannot overflow. */
  lemma PendingGoesOn(t: Tables, g: Grammar, n: Annotation, p: Potential, s: Stack, tok: Token)
    requires Ready(t, g, n, p, s) && Pending(Top(s)) && tok.major < YYNTOKEN
    ensures var r := Top(s) - YY_MIN_REDUCE;
            && CanReduce(t, s, r) && CanStep(t, s, tok) && Step(t, s, tok) == Reduce(t, s, r)
            && Reduce(t, s, r).outcome.Continue?
            && Ready(t, g, n, p, Reduce(t, s, r).stack)
            && 0 <= Slack(p, Reduce(t, s, r).stack) < Slack(p, s)
            && Shifted(Reduce(t, s, r).stack) == Shifted(s)
  {
    hide Grounded, StackOk, Slack, Derives, CanReduce, ReduceOk, ActionOk, PendingOk, Shifted;
    StepKeeps(t, g, n, s, tok);
    StepUses(t, g, n, p, s, tok);
    PendingReduce(t, g, n, s);
  }

  /** The eager parser: no action is ever looked up for a pending reduction. */
  ghost function Parse(t: Tables, g: Grammar, n: Annotation, p: Potential, s: Stack, tok: Token): (m: Move)
    requires Ready(t, g, n, p, s) && !Pending(Top(s)) && tok.major < YYNTOKEN
    ensures Ready(t, g, n, p, m.stack) && (m.outcome.Consumed? ==> !Pending(Top(m.stack)))
    decreases Slack(p, s)
  {
    hide Grounded, StackOk, Valid, Step, Slack, Derives;
    StepKeeps(t, g, n, s, tok);
    StepUses(t, g, n, p, s, tok);
    var m := Step(t, s, tok);
    if m.outcome.Continue? then Parse(t, g, n, p, Settle(t, g, n, p, m.stack), tok)
    else if m.outcome.Consumed? then m.(stack := Settle(t, g, n, p, m.stack))
    else m
  }

  /** Pending reductions carried out first make no difference to the delayed parser. */
  lemma {:induction false} SettledFirst(t: Tables, g: Grammar, n: Annotation, p: Potential, s: Stack, tok: Token)
    requires Ready(t, g, n, p, s) && tok.major < YYNTOKEN
    ensures LrRuns.Parse(t, g, n, p, Settle(t, g, n, p, s), tok) == LrRuns.Parse(t, g, n, p, s, tok)
    decreases Slack(p, s)
  {
    hide Grounded, StackOk, Valid, Step, Slack, Derives, CanReduce, Reduce, Ready;
    if Pending(Top(s)) {
      PendingGoesOn(t, g, n, p, s, tok);
      SettledFirst(t, g, n, p, Reduce(t, s, Top(s) - YY_MIN_REDUCE).stack, tok);
    }
  }

  /** One token: the outcomes agree, and the stacks up to pending reductions. */
  lemma {:induction false} SameToken(t: Tables, g: Grammar, n: Annotation, p: Potential, s: Stack, tok: Token)
    requires Ready(t, g, n, p, s) && !Pending(Top(s)) && tok.major < YYNTOKEN
    ensures var delayed, eager := LrRuns.Parse(t, g, n, p, s, tok), Parse(t, g, n, p, s, tok);
            && delayed.outcome == eager.outcome
            && eager.stack == if delayed.outcome.Consumed? then Settle(t, g, n, p, delayed.stack) else delayed.stack
    decreases Slack(p, s)
  {
    hide Grounded, StackOk, Valid, Step, Slack, Derives, CanReduce, Reduce, Ready, Settle;
    StepReady(t, g, n, p, s, tok);
    var m := Step(t, s, tok);
    if m.outcome.Continue? {
      SettledFirst(t, g, n, p, m.stack, tok);
      SameToken(t, g, n, p, Settle(t, g, n, p, m.stack), tok);
    }
  }

  lemma StepReady(t: Tables, g: Grammar, n: Annotation, p: Potential, s: Stack, tok: Token)
    requires Ready(t, g, n, p, s) && tok.major < YYNTOKEN
    ensures CanStep(t, s, tok) && Ready(t, g, n, p, Step(t, s, tok).stack) && Slack(p, s) >= 0
    ensures Step(t, s, tok).outcome.Continue? ==> 0 <= Slack(p, Step(t, s, tok).stack) < Slack(p, s)
  {
    hide Grounded, StackOk, Valid, Step, Slack, Derives;
    StepKeeps(t, g, n, s, tok);
    StepUses(t, g, n, p, s, tok);
  }

  ghost function Run(t: Tables, g: Grammar, n: Annotation, p: Potential, s: Stack, toks: seq<Token>): (m: Move)
    requires Ready(t, g, n, p, s) && !Pending(Top(s)) && forall i :: 0 <= i < |toks| ==> toks[i].major < YYNTOKEN
    ensures Ready(t, g, n, p, m.stack)
    decreases |toks|
  {
    hide Ready;
    if |toks| == 0 then Move(s, Consumed)
    else
      var m := Parse(t, g, n, p, s, toks[0]);
      if m.outcome.Consumed? then Run(t, g, n, p, m.stack, toks[1..]) else m
  }

  /** Delayed shift-reduce refines shift-then-reduce on every input. */
  lemma {:induction false} DelayedIsEager(t: Tables, g: Grammar, n: Annotation, p: Potential, s: Stack,
                                         toks: seq<Token>)
    requires Ready(t, g, n, p, s) && forall i :: 0 <= i < |toks| ==> toks[i].major < YYNTOKEN
    ensures var delayed, eager := LrRuns.Run(t, g, n, p, s, toks), Run(t, g, n, p, Settle(t, g, n, p, s), toks);
            && delayed.outcome == eager.outcome
            && eager.stack == if delayed.outcome.Consumed? then Settle(t, g, n, p, delayed.stack) else delayed.stack
    decreases |toks|
  {
    hide Ready, Settle, Parse, LrRuns.Parse;
    if |toks| > 0 {
      SettledFirst(t, g, n, p, s, toks[0]);
      SameToken(t, g, n, p, Settle(t, g, n, p, s), toks[0]);
      var m := LrRuns.Parse(t, g, n, p, s, toks[0]);
      if m.outcome.Consumed? { DelayedIsEager(t, g, n, p, m.stack, toks[1..]); }
    }
  }
}
