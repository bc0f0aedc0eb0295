/** The parser against one whose stack has no limit: they take the same passes until the stack is full and
    one more entry would be pushed, and only then does the parser of parse.c report an overflow. */
module LrDepth {
  import opened LrTables
  import opened LrMachine
  import opened LrRuns

  // ----- A machine without a limit

  /** The unlimited machine between two passes: its stack, the tokens not consumed, and whether it goes on. */
  datatype Config = Config(stack: Stack, rest: seq<Token>, outcome: Outcome)

  /** The state on top of what is left when rule r is taken off. */
  predicate Reducible(t: Tables, s: Stack, r: nat) {
    && r < |t.ruleLhs| && r < |t.ruleNRhs| && 0 <= -t.ruleNRhs[r] < |s|
    && ReduceHits(t, s[|s| - 1 + t.ruleNRhs[r]].stateno, t.ruleLhs[r])
  }

  /** A new entry on top of the first n. */
  function Pushed(s: Stack, n: nat, stateno: nat, major: nat, minor: Tree): Stack
    requires 0 < n <= |s|
  {
    s[..n] + [Entry(stateno, major, minor)]
  }

  /** One pass. A shift pushes the token, a reduction replaces the right-hand side of its rule; a machine that
      cannot go on stays. */
  function Pass(t: Tables, c: Config): Config
    requires Shaped(t)
  {
    if !c.outcome.Continue? || c.rest == [] || c.rest[0].major >= YYNTOKEN then c
    else
      var s, tok := c.stack, c.rest[0];
      var act := FindShift(t, Top(s), tok.major).action;
      if act == YY_ERROR_ACTION then c.(outcome := Rejected)
      else if act == YY_ACCEPT_ACTION then
        if |s| == 2 then Config(s[..1], c.rest, Accepted(s[1].minor)) else c
      else if act < YY_ERROR_ACTION then
        Config(Pushed(s, |s|, ShiftCode(act), tok.major, Leaf(tok.major, tok.value)), c.rest[1..], Continue)
      else if YY_MIN_REDUCE <= act && Reducible(t, s, act - YY_MIN_REDUCE) then
        var r := act - YY_MIN_REDUCE;
        var n := |s| + t.ruleNRhs[r];
        c.(stack := Pushed(s, n, FindReduce(t, s[n - 1].stateno, t.ruleLhs[r]), t.ruleLhs[r], Node(r, Minors(s[n..]))))
      else c
  }

  function Passes(t: Tables, c: Config, k: nat): Config
    requires Shaped(t)
    decreases k
  {
    if k == 0 then c else Passes(t, Pass(t, c), k - 1)
  }

  // ----- One pass of both

  /** What the pass of the limited machine makes of a configuration. */
  function Next(m: Move, toks: seq<Token>): Config
    requires toks != []
  {
    match m.outcome
    case Consumed => Config(m.stack, toks[1..], Continue)
    case _ => Config(m.stack, toks, m.outcome)
  }

  /** Per pass: the machines agree while the next stack fits; otherwise the stack is full, and the limited one
      overflows and keeps its bottom entry. */
  lemma StepExactly(t: Tables, g: Grammar, n: Annotation, s: Stack, toks: seq<Token>)
    requires Valid(t, g, n) && StackOk(t, g, n, s) && toks != [] && toks[0].major < YYNTOKEN
    ensures CanStep(t, s, toks[0])
    ensures var m, c := Step(t, s, toks[0]), Pass(t, Config(s, toks, Continue));
            && (m.outcome.Overflowed? <==> |c.stack| > YYSTACKDEPTH)
            && (m.outcome.Overflowed? ==> |s| == YYSTACKDEPTH && |c.stack| == YYSTACKDEPTH + 1 && m.stack == s[..1])
            && (!m.outcome.Overflowed? ==> c == Next(m, toks))
  {
    StepKeeps(t, g, n, s, toks[0]);
    StepReducible(t, g, n, s, toks[0]);
    WithinDepth(t, g, n, s);
    ValidShaped(t, g, n);
    hide Valid, StackOk, Derives, ReduceHits, FindReduce, FindShift, Shifted;
    assert s[..|s|] == s;
  }

  lemma WithinDepth(t: Tables, g: Grammar, n: Annotation, s: Stack)
    requires Shaped(t) && StackOk(t, g, n, s)
    ensures |s| <= YYSTACKDEPTH
  {
  }

  /** The actions there are, and that a reduction finds its right-hand side and its goto even when the stack
      is full. */
  lemma StepReducible(t: Tables, g: Grammar, n: Annotation, s: Stack, tok: Token)
    requires Valid(t, g, n) && StackOk(t, g, n, s) && tok.major < YYNTOKEN
    ensures var act := FindShift(t, Top(s), tok.major).action;
            && (act <= YY_MAX_SHIFTREDUCE || act == YY_ERROR_ACTION || act == YY_ACCEPT_ACTION || act >= YY_MIN_REDUCE)
            && (act >= YY_MIN_REDUCE ==> Reducible(t, s, act - YY_MIN_REDUCE))
  {
    hide Edge, Derives, Reduce, AllStandIn, Shift, EntryOk;
    Known(t, g, n, s, |s| - 1, 0);
    var act := FindShift(t, Top(s), tok.major).action;
    if Top(s) <= YY_MAX_SHIFT {
      StateActs(t, g, n, s, tok);
      KnownAction(t, g, n, s, tok);
    } else if Pending(Top(s)) {
      PendingReduce(t, g, n, s);
    }
    if act >= YY_MIN_REDUCE { RuleReducible(t, g, n, s, act - YY_MIN_REDUCE); }
  }

  lemma KnownAction(t: Tables, g: Grammar, n: Annotation, s: Stack, tok: Token)
    requires Valid(t, g, n) && tok.major < YYNTOKEN && Top(s) <= YY_MAX_SHIFT
    ensures var act := FindShift(t, Top(s), tok.major).action;
            act <= YY_MAX_SHIFTREDUCE || act == YY_ERROR_ACTION || act >= YY_MIN_REDUCE
  {
    hide Edge, GotoOk, FindShift, ReduceOk;
    assert ActionOk(t, g, n, Top(s), tok.major);
  }

  lemma RuleReducible(t: Tables, g: Grammar, n: Annotation, s: Stack, r: nat)
    requires Valid(t, g, n) && StackOk(t, g, n, s) && ReduceOk(t, g, n, Top(s), r)
    ensures Reducible(t, s, r)
  {
    ReduceReady(t, g, n, s, r);
    var k := |g.rhs[r]|;
    assert GotoOk(t, g, n, s[|s| - 1 - k].stateno, r);
    hide Edge, StackOk, Valid, ReduceOk;
  }

  // ----- Runs of both

  /** The first k passes stay within the depth of the stack. */
  ghost predicate Fits(t: Tables, c: Config, k: nat)
    requires Shaped(t)
  {
    forall j :: 0 <= j < k ==> |Passes(t, c, j).stack| <= YYSTACKDEPTH
  }

  lemma FitsCons(t: Tables, c: Config, k: nat)
    requires Shaped(t) && |c.stack| <= YYSTACKDEPTH && Fits(t, Pass(t, c), k)
    ensures Fits(t, c, k + 1)
  {
    hide Pass;
    forall j | 0 <= j < k + 1 ensures |Passes(t, c, j).stack| <= YYSTACKDEPTH {
      if j > 0 { assert |Passes(t, Pass(t, c), j - 1).stack| <= YYSTACKDEPTH; }
    }
  }

  lemma {:induction false} PassesAdd(t: Tables, c: Config, j: nat, k: nat)
    requires Shaped(t)
    ensures Passes(t, c, j + k) == Passes(t, Passes(t, c, j), k)
    decreases j
  {
    hide Pass;
    if j > 0 { PassesAdd(t, Pass(t, c), j - 1, k); }
  }

  lemma FitsAppend(t: Tables, c: Config, j: nat, k: nat)
    requires Shaped(t) && Fits(t, c, j) && Fits(t, Passes(t, c, j), k)
    ensures Fits(t, c, j + k)
  {
    forall i | 0 <= i < j + k ensures |Passes(t, c, i).stack| <= YYSTACKDEPTH {
      if i >= j { PassesAdd(t, c, j, i - j); }
    }
  }

  /** The limited machine ended with m after k passes of the unlimited one from c. */
  ghost predicate Follows(t: Tables, c: Config, m: Move, k: nat)
    requires Shaped(t) && c.rest != []
  {
    && Fits(t, c, k)
    && if m.outcome.Overflowed? then |Passes(t, c, k).stack| == YYSTACKDEPTH + 1
       else Passes(t, c, k) == Next(m, c.rest)
  }

  lemma {:induction false} ParseFollows(t: Tables, g: Grammar, n: Annotation, p: Potential, s: Stack, toks: seq<Token>)
    returns (k: nat)
    requires Ready(t, g, n, p, s) && toks != [] && toks[0].major < YYNTOKEN
    ensures Shaped(t) && Follows(t, Config(s, toks, Continue), Parse(t, g, n, p, s, toks[0]), k)
    decreases Slack(p, s)
  {
    hide Grounded, StackOk, Valid, Step, Slack, Derives, Pass, Ready, Parse, Follows, CanStep, Shaped;
    ReadyParts(t, g, n, p, s);
    ParseStep(t, g, n, p, s, toks[0]);
    StepExactly(t, g, n, s, toks);
    StepUses(t, g, n, p, s, toks[0]);
    var c, m := Config(s, toks, Continue), Step(t, s, toks[0]);
    if m.outcome.Continue? {
      k := ParseFollows(t, g, n, p, m.stack, toks);
      FollowsCons(t, c, Parse(t, g, n, p, m.stack, toks[0]), k);
      k := k + 1;
    } else {
      FollowsOne(t, c, m);
      k := 1;
    }
  }

  /** A pass that goes on in front. */
  lemma FollowsCons(t: Tables, c: Config, m: Move, k: nat)
    requires Shaped(t) && c.rest != [] && |c.stack| <= YYSTACKDEPTH
    requires Pass(t, c).rest == c.rest && Follows(t, Pass(t, c), m, k)
    ensures Follows(t, c, m, k + 1)
  {
    hide Pass;
    FitsCons(t, c, k);
  }

  /** A pass that ends it. */
  lemma FollowsOne(t: Tables, c: Config, m: Move)
    requires Shaped(t) && c.rest != [] && |c.stack| <= YYSTACKDEPTH
    requires if m.outcome.Overflowed? then |Pass(t, c).stack| == YYSTACKDEPTH + 1 else Pass(t, c) == Next(m, c.rest)
    ensures Follows(t, c, m, 1)
  {
    hide Pass;
    assert Passes(t, c, 1) == Passes(t, Pass(t, c), 0);
  }

  lemma ReadyParts(t: Tables, g: Grammar, n: Annotation, p: Potential, s: Stack)
    requires Ready(t, g, n, p, s)
    ensures Valid(t, g, n) && StackOk(t, g, n, s) && Shaped(t) && |s| <= YYSTACKDEPTH && Grounded(g, p)
  {
  }

  /** The same for any number of tokens. */
  ghost predicate EndsAlike(t: Tables, c: Config, m: Move, k: nat)
    requires Shaped(t)
  {
    && Fits(t, c, k)
    && var d := Passes(t, c, k);
       match m.outcome
       case Continue => false
       case Overflowed => |d.stack| == YYSTACKDEPTH + 1
       case Consumed => d == Config(m.stack, [], Continue)
       case _ => d.stack == m.stack && d.outcome == m.outcome && |m.stack| <= YYSTACKDEPTH
  }

  lemma {:induction false} RunFollows(t: Tables, g: Grammar, n: Annotation, p: Potential, s: Stack, toks: seq<Token>)
    returns (k: nat)
    requires Ready(t, g, n, p, s) && forall i :: 0 <= i < |toks| ==> toks[i].major < YYNTOKEN
    ensures Shaped(t) && EndsAlike(t, Config(s, toks, Continue), Run(t, g, n, p, s, toks), k)
    decreases |toks|
  {
    ReadyParts(t, g, n, p, s);
    hide Grounded, StackOk, Valid, Slack, Derives, Pass, Ready, Parse, Fits;
    var c := Config(s, toks, Continue);
    if |toks| == 0 {
      k := 0;
      NoPasses(t, c);
    } else {
      var m := Parse(t, g, n, p, s, toks[0]);
      ReadyParts(t, g, n, p, m.stack);
      k := ParseFollows(t, g, n, p, s, toks);
      if m.outcome.Consumed? {
        var k' := RunFollows(t, g, n, p, m.stack, toks[1..]);
        FitsAppend(t, c, k, k');
        PassesAdd(t, c, k, k');
        k := k + k';
      }
    }
  }

  lemma NoPasses(t: Tables, c: Config)
    requires Shaped(t)
    ensures Fits(t, c, 0) && Passes(t, c, 0) == c
  {
  }

  /** A machine that has ended stays where it is. */
  lemma {:induction false} Stays(t: Tables, c: Config, k: nat)
    requires Shaped(t) && (!c.outcome.Continue? || c.rest == [])
    ensures Passes(t, c, k) == c
    decreases k
  {
    if k > 0 { Stays(t, c, k - 1); }
  }

  /** A run of the parser overflows if and only if the machine without a limit, on the same tokens, comes to a
      stack that does not fit; then it had a full stack before. In all other cases both end alike. */
  lemma OverflowExactly(t: Tables, g: Grammar, n: Annotation, p: Potential, s: Stack, toks: seq<Token>)
    requires Ready(t, g, n, p, s) && forall i :: 0 <= i < |toks| ==> toks[i].major < YYNTOKEN
    ensures Shaped(t)
    ensures Run(t, g, n, p, s, toks).outcome.Overflowed?
            <==> exists k: nat :: |Passes(t, Config(s, toks, Continue), k).stack| > YYSTACKDEPTH
    ensures exists k: nat :: EndsAlike(t, Config(s, toks, Continue), Run(t, g, n, p, s, toks), k)
  {
    ReadyParts(t, g, n, p, s);
    var m := Run(t, g, n, p, s, toks);
    ReadyParts(t, g, n, p, m.stack);
    var k := RunFollows(t, g, n, p, s, toks);
    var c := Config(s, toks, Continue);
    assert EndsAlike(t, c, m, k);
    if !m.outcome.Overflowed? {
      NeverDeeper(t, c, m, k);
    } else {
      assert |Passes(t, c, k).stack| > YYSTACKDEPTH;
    }
    hide Grounded, StackOk, Valid, Derives, Passes, Ready, Parse, Run, Fits;
  }

  lemma NeverDeeper(t: Tables, c: Config, m: Move, k: nat)
    requires Shaped(t) && EndsAlike(t, c, m, k) && !m.outcome.Overflowed? && |m.stack| <= YYSTACKDEPTH
    ensures forall j: nat :: |Passes(t, c, j).stack| <= YYSTACKDEPTH
  {
    hide Pass;
    forall j: nat ensures |Passes(t, c, j).stack| <= YYSTACKDEPTH {
      if j >= k {
        PassesAdd(t, c, k, j - k);
        Stays(t, Passes(t, c, k), j - k);
      }
    }
  }
}
