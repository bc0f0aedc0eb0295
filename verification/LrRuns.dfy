/** Runs of the parser of parse.c: every pass of its loop keeps parse trees on the stack, the loop ends,
    and an accepted input derives from the start symbol. Delaying the reduction of a shift-reduce to the
    next token changes nothing. */
module LrRuns {
  import opened Arith
  import opened LrTables
  import opened LrMachine

  // ----- One pass

  /** One pass of the loop: no assert fails, and the trees on the stack hold the tokens so far. */
  lemma StepKeeps(t: Tables, g: Grammar, n: Annotation, s: Stack, tok: Token)
    requires Valid(t, g, n) && StackOk(t, g, n, s) && tok.major < YYNTOKEN
    ensures CanStep(t, s, tok)
    ensures var act := FindShift(t, Top(s), tok.major).action;
            act >= YY_MIN_REDUCE ==> act - YY_MIN_REDUCE !in g.elided
    ensures var m := Step(t, s, tok);
            && StackOk(t, g, n, m.stack)
            && match m.outcome
               case Continue => Shifted(m.stack) == Shifted(s)
               case Consumed => Shifted(m.stack) == Shifted(s) + [tok]
               case Accepted(x) => |m.stack| == 1 && Derives(t, g, x, g.start) && Yield(x) == Shifted(s)
               case Rejected => m.stack == s
               case Overflowed => |m.stack| == 1
  {
    hide Edge, Derives, Reduce, CanReduce, GotoOk, AllStandIn, Shift, ActionOk, ReduceOk, EntryOk;
    Known(t, g, n, s, |s| - 1, 0);
    var act := FindShift(t, Top(s), tok.major).action;
    if Top(s) <= YY_MAX_SHIFT {
      StateActs(t, g, n, s, tok);
      if act >= YY_MIN_REDUCE {
        ReduceKeeps(t, g, n, s, act - YY_MIN_REDUCE);
        ReduceOutcome(t, s, act - YY_MIN_REDUCE);
      } else if act <= YY_MAX_SHIFTREDUCE {
        ShiftOk(t, g, n, s, tok);
        ShiftOutcome(s, act, tok);
      }
    } else if Pending(Top(s)) {
      PendingReduce(t, g, n, s);
      ReduceKeeps(t, g, n, s, act - YY_MIN_REDUCE);
      ReduceOutcome(t, s, act - YY_MIN_REDUCE);
    } else {
      AcceptTree(t, g, n, s);
    }
  }

  /** What the table can say for a state. */
  lemma StateActs(t: Tables, g: Grammar, n: Annotation, s: Stack, tok: Token)
    requires Valid(t, g, n) && tok.major < YYNTOKEN && Top(s) <= YY_MAX_SHIFT
    ensures var act := FindShift(t, Top(s), tok.major).action;
            && act != YY_ACCEPT_ACTION
            && (act >= YY_MIN_REDUCE ==>
                  ReduceOk(t, g, n, Top(s), act - YY_MIN_REDUCE) && act - YY_MIN_REDUCE !in g.elided)
  {
    hide Edge, GotoOk, FindShift;
    assert ActionOk(t, g, n, Top(s), tok.major);
  }

  lemma ShiftOutcome(s: Stack, act: nat, tok: Token)
    ensures var m := Shift(s, act, tok);
            m.outcome.Consumed? || (m.outcome.Overflowed? && |m.stack| == 1)
  {
  }

  /** Acceptance stands right above the bottom, for a tree of the start symbol with all tokens. */
  lemma AcceptTree(t: Tables, g: Grammar, n: Annotation, s: Stack)
    requires Shaped(t) && StackOk(t, g, n, s) && Top(s) == YY_ACCEPT_ACTION
    ensures |s| == 2 && Derives(t, g, s[1].minor, g.start) && Yield(s[1].minor) == Shifted(s)
    ensures StackOk(t, g, n, s[..1])
  {
    hide Edge, Derives;
    assert EntryOk(t, g, n, s, |s| - 1);
    PrefixOk(t, g, n, s, 1);
    assert Minors(s[1..]) == [s[1].minor];
    YieldOne(s[1].minor);
  }

  lemma ReduceOutcome(t: Tables, s: Stack, r: nat)
    requires CanReduce(t, s, r)
    ensures var m := Reduce(t, s, r);
            m.outcome.Continue? || (m.outcome.Overflowed? && |m.stack| == 1)
  {
  }

  lemma PendingReduce(t: Tables, g: Grammar, n: Annotation, s: Stack)
    requires Valid(t, g, n) && StackOk(t, g, n, s) && Pending(Top(s))
    ensures ReduceOk(t, g, n, Top(s), Top(s) - YY_MIN_REDUCE)
    ensures Top(s) - YY_MIN_REDUCE < |g.rhs| && |g.rhs[Top(s) - YY_MIN_REDUCE]| > 0
    ensures Top(s) - YY_MIN_REDUCE !in g.elided
  {
    assert EntryOk(t, g, n, s, |s| - 1);
    assert PendingOk(t, g, n, Top(s) - YY_MIN_REDUCE);
  }

  // ----- The loop ends

  function Size(x: Tree): nat {
    match x
    case Leaf(_, _) => 1
    case Node(_, children) => 1 + SizeAll(children)
  }

  function SizeAll(xs: seq<Tree>): nat {
    if |xs| == 0 then 0 else SizeAll(xs[..|xs| - 1]) + Size(xs[|xs| - 1])
  }

  lemma {:induction false} SizeConcat(xs: seq<Tree>, ys: seq<Tree>)
    ensures SizeAll(xs + ys) == SizeAll(xs) + SizeAll(ys)
  {
    if |ys| == 0 {
      assert xs + ys == xs;
    } else {
      var n := |ys| - 1;
      assert (xs + ys)[..|xs + ys| - 1] == xs + ys[..n];
      SizeConcat(xs, ys[..n]);
    }
  }

  /** A weight per symbol, such that a tree for x has at most alpha nodes per token plus beta[x]. */
  datatype Potential = Potential(alpha: nat, beta: seq<int>, most: nat)

  function Weights(p: Potential, xs: seq<nat>): int
    requires forall i :: 0 <= i < |xs| ==> xs[i] < |p.beta|
  {
    if |xs| == 0 then 0 else Weights(p, xs[..|xs| - 1]) + p.beta[xs[|xs| - 1]]
  }

  /** One symbol of each set of the right-hand side. */
  ghost predicate Chosen(g: Grammar, r: nat, xs: seq<nat>)
    requires r < |g.rhs|
  {
    |xs| <= |g.rhs[r]| && forall i :: 0 <= i < |xs| ==> xs[i] in g.rhs[r][i] && xs[i] < YYNOCODE
  }

  /** The weights fit every rule, which no grammar with a cyclic derivation allows. */
  ghost predicate Grounded(g: Grammar, p: Potential) {
    && |p.beta| == YYNOCODE && |g.lhs| == |g.rhs|
    && (forall x :: 0 <= x < YYNOCODE ==> p.beta[x] <= p.most)
    && (forall x :: 0 <= x < YYNTOKEN ==> 1 <= p.alpha + p.beta[x])
    && (forall r :: 0 <= r < |g.lhs| ==> g.lhs[r] < YYNOCODE)
    && (forall r, i, y :: 0 <= r < |g.rhs| && 0 <= i < |g.rhs[r]| && y in g.rhs[r][i] ==> y < YYNOCODE)
    && (forall r, xs :: 0 <= r < |g.rhs| && |xs| == |g.rhs[r]| && Chosen(g, r, xs) ==>
          1 + Weights(p, xs) <= p.beta[g.lhs[r]])
  }

  lemma {:induction false} SizeBound(t: Tables, g: Grammar, p: Potential, x: Tree, symbol: nat)
    requires Grounded(g, p) && Derives(t, g, x, symbol)
    ensures symbol < YYNOCODE && Size(x) <= p.alpha * |Yield(x)| + p.beta[symbol]
    decreases x, 1, 0
  {
    match x
    case Leaf(_, _) =>
      assert p.alpha * 1 == p.alpha;
    case Node(r, children) =>
      assert symbol == g.lhs[r];
      var xs := SizeBoundAll(t, g, p, x, |children|);
      assert children[..|children|] == children;
  }

  /** An elided rule does not lower the weight. */
  lemma {:induction false} RenamedWeight(g: Grammar, p: Potential, y: nat, path: seq<nat>, z: nat)
    requires Grounded(g, p) && Renames(g, y, path, z) && y < YYNOCODE
    ensures z < YYNOCODE && p.beta[z] <= p.beta[y]
    decreases |path|
  {
    if |path| > 0 {
      var r := path[0];
      var c :| c in g.rhs[r][0] && Renames(g, c, path[1..], z);
      assert Chosen(g, r, [c]) && [c][..0] == [];
      assert Weights(p, [c]) == p.beta[c];
      RenamedWeight(g, p, c, path[1..], z);
    }
  }

  lemma {:induction false} ChildBound(t: Tables, g: Grammar, p: Potential, x: Tree, i: nat) returns (y: nat)
    requires Grounded(g, p) && x.Node? && i < |x.children| && x.rule < |g.lhs| && Derives(t, g, x, g.lhs[x.rule])
    ensures y in g.rhs[x.rule][i] && y < YYNOCODE
    ensures Size(x.children[i]) <= p.alpha * |Yield(x.children[i])| + p.beta[y]
    decreases x, 0, 0
  {
    var child := x.children[i];
    assert DerivesOneOf(t, g, child, g.rhs[x.rule][i]);
    var z :| StandsIn(g, z, g.rhs[x.rule][i]) && Derives(t, g, child, z);
    var path: seq<nat>;
    y, path :| y in g.rhs[x.rule][i] && Renames(g, y, path, z);
    SizeBound(t, g, p, child, z);
    RenamedWeight(g, p, y, path, z);
  }

  /** The trees have no more nodes than their tokens and the weights of their symbols allow. */
  ghost predicate Within(p: Potential, children: seq<Tree>, xs: seq<nat>) {
    && (forall i :: 0 <= i < |xs| ==> xs[i] < |p.beta|)
    && SizeAll(children) <= p.alpha * |YieldAll(children)| + Weights(p, xs)
  }

  lemma {:induction false} SizeBoundAll(t: Tables, g: Grammar, p: Potential, x: Tree, m: nat) returns (xs: seq<nat>)
    requires Grounded(g, p) && x.Node? && m <= |x.children| && x.rule < |g.lhs| && Derives(t, g, x, g.lhs[x.rule])
    ensures |xs| == m && Chosen(g, x.rule, xs) && Within(p, x.children[..m], xs)
    decreases x, 0, m + 1
  {
    DerivedShape(t, g, p, x);
    hide Grounded, Derives, Within;
    xs := [];
    if m > 0 {
      var ys := SizeBoundAll(t, g, p, x, m - 1);
      var y := ChildBound(t, g, p, x, m - 1);
      xs := ys + [y];
      WithinSnoc(p, x.children[..m - 1], ys, x.children[m - 1], y);
      assert x.children[..m] == x.children[..m - 1] + [x.children[m - 1]];
    } else {
      assert x.children[..0] == [];
      WithinNone(p);
    }
  }

  lemma WithinNone(p: Potential)
    ensures Within(p, [], [])
  {
  }

  lemma WithinSnoc(p: Potential, children: seq<Tree>, xs: seq<nat>, child: Tree, y: nat)
    requires Within(p, children, xs) && y < |p.beta|
    requires Size(child) <= p.alpha * |Yield(child)| + p.beta[y]
    ensures Within(p, children + [child], xs + [y])
  {
    var all, ys := children + [child], xs + [y];
    assert all[..|children|] == children && ys[..|xs|] == xs;
    Distribute(p.alpha, |YieldAll(children)|, |Yield(child)|);
  }

  lemma DerivedShape(t: Tables, g: Grammar, p: Potential, x: Tree)
    requires Grounded(g, p) && x.Node? && x.rule < |g.lhs| && Derives(t, g, x, g.lhs[x.rule])
    ensures |p.beta| == YYNOCODE && x.rule < |g.rhs| && |g.rhs[x.rule]| == |x.children|
  {
  }

  /** The nodes on the stack. */
  function Work(s: Stack): nat { SizeAll(Minors(s[1..])) }

  lemma EntryDerives(t: Tables, g: Grammar, n: Annotation, s: Stack, k: nat)
    requires Shaped(t) && StackOk(t, g, n, s) && 0 < k < |s|
    ensures Derives(t, g, s[k].minor, SymbolAt(t, s, k)) && |s| <= YYSTACKDEPTH
  {
    assert EntryOk(t, g, n, s, k);
  }

  lemma YieldOne(x: Tree)
    ensures YieldAll([x]) == Yield(x)
  {
    assert [x][..0] == [];
  }

  lemma SizeOne(x: Tree)
    ensures SizeAll([x]) == Size(x)
  {
    assert [x][..0] == [];
  }

  lemma {:induction false} WorkBound(t: Tables, g: Grammar, n: Annotation, p: Potential, s: Stack)
    requires Shaped(t) && StackOk(t, g, n, s) && Grounded(g, p)
    ensures Work(s) <= p.alpha * |Shifted(s)| + p.most * (|s| - 1)
  {
    hide StackOk, EntryOk, Edge, Derives;
    if |s| > 1 {
      var m := |s| - 1;
      PrefixOk(t, g, n, s, m);
      WorkBound(t, g, n, p, s[..m]);
      EntryDerives(t, g, n, s, m);
      SizeBound(t, g, p, s[m].minor, SymbolAt(t, s, m));
      YieldOne(s[m].minor);
      SizeConcat(Minors(s[..m][1..]), [s[m].minor]);
      SizeOne(s[m].minor);
      assert Minors(s[1..]) == Minors(s[..m][1..]) + [s[m].minor];
      assert Minors(s[m..]) == [s[m].minor];
      Distribute(p.alpha, |Shifted(s[..m])|, |Yield(s[m].minor)|);
      Distribute(p.most, m - 1, 1);
    }
  }

  /** How many more nodes the tokens so far can support. */
  ghost function Slack(p: Potential, s: Stack): int {
    p.alpha * |Shifted(s)| + p.most * YYSTACKDEPTH - Work(s)
  }

  lemma SlackPositive(t: Tables, g: Grammar, n: Annotation, p: Potential, s: Stack)
    requires Shaped(t) && StackOk(t, g, n, s) && Grounded(g, p)
    ensures Slack(p, s) >= 0
  {
    WorkBound(t, g, n, p, s);
    Monotone(p.most, |s| - 1, YYSTACKDEPTH);
  }

  /** The top k entries replaced by one whose tree has their trees as children. */
  lemma GroupedWork(s: Stack, k: nat, e: Entry, r: nat)
    requires k < |s| && e.minor == Node(r, Minors(s[|s| - k..]))
    ensures Work(s[..|s| - k] + [e]) == Work(s) + 1
  {
    hide SizeAll;
    var rest, children := s[..|s| - k], Minors(s[|s| - k..]);
    assert Minors(s[1..]) == Minors(rest[1..]) + children;
    SizeConcat(Minors(rest[1..]), children);
    assert Minors((rest + [e])[1..]) == Minors(rest[1..]) + [e.minor];
    SizeConcat(Minors(rest[1..]), [e.minor]);
    SizeOne(e.minor);
  }

  lemma ReduceWorks(t: Tables, s: Stack, r: nat)
    requires CanReduce(t, s, r) && Reduce(t, s, r).outcome.Continue?
    ensures Work(Reduce(t, s, r).stack) == Work(s) + 1
  {
    hide Work;
    var m := Reduce(t, s, r).stack;
    GroupedWork(s, -t.ruleNRhs[r], m[|m| - 1], r);
  }

  /** Every pass that goes on uses up slack. */
  lemma StepUses(t: Tables, g: Grammar, n: Annotation, p: Potential, s: Stack, tok: Token)
    requires Valid(t, g, n) && StackOk(t, g, n, s) && tok.major < YYNTOKEN && Grounded(g, p)
    ensures CanStep(t, s, tok) && Slack(p, s) >= 0
    ensures var m := Step(t, s, tok); m.outcome.Continue? ==> 0 <= Slack(p, m.stack) < Slack(p, s)
  {
    hide Grounded, StackOk, Valid, Reduce, CanReduce, Work;
    ValidShaped(t, g, n);
    StepKeeps(t, g, n, s, tok);
    SlackPositive(t, g, n, p, s);
    var m := Step(t, s, tok);
    if m.outcome.Continue? {
      SlackPositive(t, g, n, p, m.stack);
      ReduceWorks(t, s, FindShift(t, Top(s), tok.major).action - YY_MIN_REDUCE);
    }
  }

  lemma ValidShaped(t: Tables, g: Grammar, n: Annotation)
    requires Valid(t, g, n)
    ensures Shaped(t)
  {
  }

  // ----- The loop

  /** Everything the loop relies on. */
  ghost predicate Ready(t: Tables, g: Grammar, n: Annotation, p: Potential, s: Stack) {
    Valid(t, g, n) && Grounded(g, p) && StackOk(t, g, n, s)
  }

  /** sqlite3Parser: passes until the token is consumed or the parse is over. */
  ghost function Parse(t: Tables, g: Grammar, n: Annotation, p: Potential, s: Stack, tok: Token): (m: Move)
    requires Ready(t, g, n, p, s) && tok.major < YYNTOKEN
    ensures Ready(t, g, n, p, m.stack)
    ensures match m.outcome
            case Continue => false
            case Consumed => Shifted(m.stack) == Shifted(s) + [tok]
            case Accepted(x) => |m.stack| == 1 && Derives(t, g, x, g.start) && Yield(x) == Shifted(s)
            case Rejected => Shifted(m.stack) == Shifted(s)
            case Overflowed => |m.stack| == 1
    decreases Slack(p, s)
  {
    hide Grounded, StackOk, Valid, Step, Slack, Derives;
    StepKeeps(t, g, n, s, tok);
    StepUses(t, g, n, p, s, tok);
    var m := Step(t, s, tok);
    if m.outcome.Continue? then Parse(t, g, n, p, m.stack, tok) else m
  }

  /** The loop, one pass at a time. */
  lemma ParseStep(t: Tables, g: Grammar, n: Annotation, p: Potential, s: Stack, tok: Token)
    requires Ready(t, g, n, p, s) && tok.major < YYNTOKEN
    ensures CanStep(t, s, tok) && Ready(t, g, n, p, Step(t, s, tok).stack)
    ensures Parse(t, g, n, p, s, tok)
            == if Step(t, s, tok).outcome.Continue? then Parse(t, g, n, p, Step(t, s, tok).stack, tok)
               else Step(t, s, tok)
  {
    hide Grounded, StackOk, Slack, Derives, Step;
    StepKeeps(t, g, n, s, tok);
  }

  /** Tokens fed one after the other, as long as they are consumed. */
  ghost function Run(t: Tables, g: Grammar, n: Annotation, p: Potential, s: Stack, toks: seq<Token>): (m: Move)
    requires Ready(t, g, n, p, s) && forall i :: 0 <= i < |toks| ==> toks[i].major < YYNTOKEN
    ensures Ready(t, g, n, p, m.stack)
    decreases |toks|
  {
    hide Ready;
    if |toks| == 0 then Move(s, Consumed)
    else
      var m := Parse(t, g, n, p, s, toks[0]);
      if m.outcome.Consumed? then Run(t, g, n, p, m.stack, toks[1..]) else m
  }

  const INITIAL: seq<Entry> := [Entry(0, 0, Leaf(0, 0))]

  // ----- Acceptance at the end of input

  /** A pending reduction to the start symbol. */
  predicate StartRule(t: Tables, g: Grammar, c: nat) {
    Pending(c) && c - YY_MIN_REDUCE < |t.ruleLhs| && t.ruleLhs[c - YY_MIN_REDUCE] == g.start
  }

  /** The start symbol is reduced to only in sight of token 0, the end of input. */
  ghost predicate EndOnly(t: Tables, g: Grammar)
    requires Shaped(t)
  {
    && (forall s, tok :: 0 <= s <= YY_MAX_SHIFT && 0 <= tok < YYNTOKEN ==> EndOnlyAt(t, g, s, tok))
    && (forall s, x :: 0 <= s && 0 <= x && ReduceHits(t, s, x) ==> !StartRule(t, g, FindReduce(t, s, x)))
  }

  predicate EndOnlyAt(t: Tables, g: Grammar, s: nat, tok: nat)
    requires Shaped(t) && tok < YYNTOKEN
  {
    var act := FindShift(t, s, tok).action;
    && (tok > 0 ==> !StartRule(t, g, act))
    && (act <= YY_MAX_SHIFTREDUCE ==> !StartRule(t, g, ShiftCode(act)))
  }

  /** No reduction to the start symbol is pending, and acceptance only on top and in sight of token 0. */
  ghost predicate Calm(t: Tables, g: Grammar, s: Stack, tok: Token) {
    && (forall k :: 0 <= k < |s| ==> !StartRule(t, g, s[k].stateno))
    && (forall k :: 0 <= k < |s| - 1 ==> s[k].stateno != YY_ACCEPT_ACTION)
    && (Top(s) == YY_ACCEPT_ACTION ==> tok.major == 0)
  }

  lemma StepCalm(t: Tables, g: Grammar, n: Annotation, s: Stack, tok: Token)
    requires Valid(t, g, n) && StackOk(t, g, n, s) && tok.major < YYNTOKEN && EndOnly(t, g) && Calm(t, g, s, tok)
    ensures CanStep(t, s, tok)
    ensures var m := Step(t, s, tok);
            match m.outcome
            case Continue => Calm(t, g, m.stack, tok)
            case Consumed => forall next :: Calm(t, g, m.stack, next)
            case Accepted(_) => tok.major == 0
            case Rejected => true
            case Overflowed => true
  {
    hide ReduceOk, Edge, Derives, Reduce, Shift, CanReduce, StackOk, ReduceHits, Shifted;
    StepKeeps(t, g, n, s, tok);
    Known(t, g, n, s, |s| - 1, 0);
    var act := FindShift(t, Top(s), tok.major).action;
    if Top(s) <= YY_MAX_SHIFT {
      assert EndOnlyAt(t, g, Top(s), tok.major);
      assert ActionOk(t, g, n, Top(s), tok.major);
    }
    if act <= YY_MAX_SHIFTREDUCE {
      ShiftCalm(t, g, s, act, tok);
    } else if act >= YY_MIN_REDUCE {
      ReduceOutcome(t, s, act - YY_MIN_REDUCE);
      if Step(t, s, tok).outcome.Continue? { ReduceCalm(t, g, n, s, tok, act - YY_MIN_REDUCE); }
    }
  }

  lemma ShiftCalm(t: Tables, g: Grammar, s: Stack, act: nat, tok: Token)
    requires Calm(t, g, s, tok) && Top(s) != YY_ACCEPT_ACTION
    requires act <= YY_MAX_SHIFT || YY_MIN_SHIFTREDUCE <= act <= YY_MAX_SHIFTREDUCE
    requires !StartRule(t, g, ShiftCode(act))
    ensures var m := Shift(s, act, tok);
            if m.outcome.Consumed? then forall next :: Calm(t, g, m.stack, next) else m.outcome.Overflowed?
  {
    hide StartRule;
    var m := Shift(s, act, tok);
    if m.outcome.Consumed? {
      assert m.stack[..|s|] == s;
      forall next ensures Calm(t, g, m.stack, next) {
      }
    }
  }

  /** A reduction that goes on leaves acceptance on top only when it was one to the start symbol. */
  lemma ReduceCalm(t: Tables, g: Grammar, n: Annotation, s: Stack, tok: Token, r: nat)
    requires Shaped(t) && EndOnly(t, g) && Calm(t, g, s, tok) && CanReduce(t, s, r) && Reduce(t, s, r).outcome.Continue?
    requires Top(s) != YY_ACCEPT_ACTION && StackOk(t, g, n, Reduce(t, s, r).stack)
    requires t.ruleLhs[r] == g.start ==> tok.major == 0
    ensures Calm(t, g, Reduce(t, s, r).stack, tok)
  {
    hide Edge, Derives, ReduceHits, EndOnlyAt;
    var k := -t.ruleNRhs[r];
    var rest, m := s[..|s| - k], Reduce(t, s, r).stack;
    var top := |m| - 1;
    assert m[..top] == rest;
    assert !StartRule(t, g, FindReduce(t, Top(rest), t.ruleLhs[r]));
    assert EntryOk(t, g, n, m, top) && m[top].major == t.ruleLhs[r];
  }

  lemma {:induction false} ParseCalm(t: Tables, g: Grammar, n: Annotation, p: Potential, s: Stack, tok: Token)
    requires Ready(t, g, n, p, s) && tok.major < YYNTOKEN && Shaped(t) && EndOnly(t, g) && Calm(t, g, s, tok)
    ensures var m := Parse(t, g, n, p, s, tok);
            && (m.outcome.Accepted? ==> tok.major == 0)
            && (m.outcome.Consumed? ==> forall next :: Calm(t, g, m.stack, next))
    decreases Slack(p, s)
  {
    hide Grounded, StackOk, Valid, Step, Slack, Derives, Calm, EndOnly;
    StepKeeps(t, g, n, s, tok);
    StepUses(t, g, n, p, s, tok);
    StepCalm(t, g, n, s, tok);
    var m := Step(t, s, tok);
    if m.outcome.Continue? { ParseCalm(t, g, n, p, m.stack, tok); }
  }

  /** What acceptance of a run means. */
  ghost predicate Sound(t: Tables, g: Grammar, before: seq<Token>, toks: seq<Token>, x: Tree, k: nat)
    requires Shaped(t)
  {
    && k < |toks| && Derives(t, g, x, g.start) && Yield(x) == before + toks[..k]
    && (EndOnly(t, g) ==> toks[k].major == 0)
  }

  lemma {:induction false} RunSound(t: Tables, g: Grammar, n: Annotation, p: Potential, s: Stack, toks: seq<Token>)
    requires Ready(t, g, n, p, s) && forall i :: 0 <= i < |toks| ==> toks[i].major < YYNTOKEN
    requires Shaped(t) && (EndOnly(t, g) ==> forall tok :: Calm(t, g, s, tok))
    ensures var m := Run(t, g, n, p, s, toks);
            m.outcome.Accepted? ==> exists k :: Sound(t, g, Shifted(s), toks, m.outcome.tree, k)
    decreases |toks|
  {
    hide Ready, Derives, Calm, EndOnly, Parse, Shifted;
    if |toks| > 0 {
      var m := Parse(t, g, n, p, s, toks[0]);
      if EndOnly(t, g) {
        assert Calm(t, g, s, toks[0]);
        ParseCalm(t, g, n, p, s, toks[0]);
      }
      if m.outcome.Consumed? {
        RunSound(t, g, n, p, m.stack, toks[1..]);
        var r := Run(t, g, n, p, m.stack, toks[1..]);
        if r.outcome.Accepted? {
          var k: nat :| Sound(t, g, Shifted(m.stack), toks[1..], r.outcome.tree, k);
          assert k < |toks[1..]|;
          assert toks[..k + 1] == [toks[0]] + toks[1..][..k];
          var next := k + 1;
          assert Sound(t, g, Shifted(s), toks, r.outcome.tree, next);
        }
      } else if m.outcome.Accepted? {
        assert toks[..0] == [];
        assert Sound(t, g, Shifted(s), toks, m.outcome.tree, 0);
      }
    }
  }

  /** LR soundness: an accepted input has a parse tree for the start symbol over exactly the tokens
      before the one in sight, and that one is the end of input. */
  lemma {:induction false} AcceptedInputDerives(t: Tables, g: Grammar, n: Annotation, p: Potential, toks: seq<Token>)
    requires Valid(t, g, n) && Grounded(g, p) && forall i :: 0 <= i < |toks| ==> toks[i].major < YYNTOKEN
    ensures Ready(t, g, n, p, INITIAL)
    ensures var m := Run(t, g, n, p, INITIAL, toks);
            m.outcome.Accepted? ==>
              exists k :: && 0 <= k < |toks| && Derives(t, g, m.outcome.tree, g.start)
                          && Yield(m.outcome.tree) == toks[..k]
                          && (EndOnly(t, g) ==> toks[k].major == 0)
  {
    hide Run, Derives, EndOnly, Grounded;
    InitOk(t, g, n);
    RunSound(t, g, n, p, INITIAL, toks);
    var m := Run(t, g, n, p, INITIAL, toks);
    if m.outcome.Accepted? {
      var k: nat :| Sound(t, g, Shifted(INITIAL), toks, m.outcome.tree, k);
      assert Shifted(INITIAL) + toks[..k] == toks[..k];
    }
  }
}
