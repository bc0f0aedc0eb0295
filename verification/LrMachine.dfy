/** The push-down machine of parse.c on stacks as values, and a condition on its tables, checkable one
    table entry at a time, under which every run builds parse trees of the grammar. */
module LrMachine {
  import opened LrTables

  /** yyStackEntry; the semantic value is the tree built so far. */
  datatype Entry = Entry(stateno: nat, major: nat, minor: Tree)

  type Stack = s: seq<Entry> | |s| > 0 witness [Entry(0, 0, Leaf(0, 0))]

  function Top(s: Stack): nat { s[|s| - 1].stateno }

  function Minors(s: seq<Entry>): (r: seq<Tree>)
    ensures |r| == |s|
  {
    seq(|s|, i requires 0 <= i < |s| => s[i].minor)
  }

  /** The tokens shifted so far. */
  function Shifted(s: Stack): seq<Token> { YieldAll(Minors(s[1..])) }

  // ----- The condition on the tables

  /** For a stack with a given state or pending reduction on top: the symbols that can be i entries
      below, and what can be i + 1 entries below in place of that. */
  datatype Annotation = Annotation(syms: seq<seq<set<nat>>>, below: seq<seq<set<nat>>>)

  /** What the stateno of an entry can be: a state, a pending reduction, or acceptance. */
  predicate IsCode(c: nat) {
    c <= YY_MAX_SHIFT || c == YY_ACCEPT_ACTION || YY_MIN_REDUCE <= c <= YY_MAX_REDUCE
  }

  predicate Pending(c: nat) { YY_MIN_REDUCE <= c <= YY_MAX_REDUCE }

  /** What is known of the stack below `before` covers what is claimed below `after`. */
  ghost predicate Covers(before: seq<set<nat>>, first: nat, after: seq<set<nat>>) {
    forall i :: 0 <= i < |after| ==> CoversAt(before, first, after, i)
  }

  ghost predicate CoversAt(before: seq<set<nat>>, first: nat, after: seq<set<nat>>, i: nat)
    requires i < |after|
  {
    if i == 0 then first in after[0] else i - 1 < |before| && before[i - 1] <= after[i]
  }

  /** A rule that a reduction can be pending for: there is something to replace, and it is not elided. */
  predicate Applies(g: Grammar, r: nat)
    requires r < |g.rhs|
  {
    |g.rhs[r]| > 0 && r !in g.elided
  }

  /** Entry c1 may be pushed for symbol x on top of c0. */
  ghost predicate Edge(g: Grammar, n: Annotation, c0: nat, x: nat, c1: nat) {
    && IsCode(c0) && IsCode(c1) && c1 != 0 && |n.syms| == |n.below| == YY_MAX_REDUCE + 1
    && (Pending(c1) ==> c1 - YY_MIN_REDUCE < |g.rhs| && Applies(g, c1 - YY_MIN_REDUCE))
    && Covers(n.syms[c0], x, n.syms[c1])
    && Covers(n.below[c0], c0, n.below[c1])
  }

  /** After a reduction to the left-hand side of r on top of c, the lookup hits and the result may be
      pushed. Acceptance comes from the bottom and the start symbol only. */
  ghost predicate GotoOk(t: Tables, g: Grammar, n: Annotation, c: nat, r: nat)
    requires r < |g.lhs|
  {
    && ReduceHits(t, c, g.lhs[r])
    && var act := FindReduce(t, c, g.lhs[r]);
       && Edge(g, n, c, g.lhs[r], act)
       && (act == YY_ACCEPT_ACTION ==> c == 0 && g.lhs[r] == g.start)
  }

  /** With c on top, the right-hand side of r, which is not elided, is on top. */
  ghost predicate ReduceOk(t: Tables, g: Grammar, n: Annotation, c: nat, r: nat) {
    && r < |g.rhs| && r < |g.lhs| && r !in g.elided && IsCode(c) && |n.syms| == |n.below| == YY_MAX_REDUCE + 1
    && var k := |g.rhs[r]|;
       && k <= |n.syms[c]| && (forall i :: 0 <= i < k ==> AllStandIn(g, n.syms[c][i], g.rhs[r][k - 1 - i]))
       && if k == 0 then GotoOk(t, g, n, c, r)
          else k <= |n.below[c]| && forall s :: s in n.below[c][k - 1] ==> GotoOk(t, g, n, s, r)
  }

  ghost predicate AllStandIn(g: Grammar, zs: set<nat>, symbols: set<nat>) {
    forall z :: z in zs ==> StandsIn(g, z, symbols)
  }

  /** The stateno that yy_shift stores: a shift-reduce becomes a pending reduction. */
  function ShiftCode(action: nat): (c: nat) {
    if action > YY_MAX_SHIFT then action + (YY_MIN_REDUCE - YY_MIN_SHIFTREDUCE) else action
  }

  ghost predicate ActionOk(t: Tables, g: Grammar, n: Annotation, s: nat, tok: nat)
    requires Shaped(t) && tok < YYNTOKEN
  {
    var l := FindShift(t, s, tok);
    if l.action <= YY_MAX_SHIFT || YY_MIN_SHIFTREDUCE <= l.action <= YY_MAX_SHIFTREDUCE then
      l.symbol < YYNTOKEN && Edge(g, n, s, l.symbol, ShiftCode(l.action))
    else if YY_MIN_REDUCE <= l.action then l.action <= YY_MAX_REDUCE && ReduceOk(t, g, n, s, l.action - YY_MIN_REDUCE)
    else l.action == YY_ERROR_ACTION
  }

  /** Local validity: every table entry respects the annotation. */
  ghost predicate Valid(t: Tables, g: Grammar, n: Annotation) {
    && Shaped(t) && Matches(t, g) && |n.syms| == |n.below| == YY_MAX_REDUCE + 1
    && n.syms[0] == [] && n.below[0] == []
    && (forall s, tok :: 0 <= s <= YY_MAX_SHIFT && 0 <= tok < YYNTOKEN ==> ActionOk(t, g, n, s, tok))
    && (forall r :: 0 <= r < YYNRULE && Applies(g, r) ==> PendingOk(t, g, n, r))
  }

  ghost predicate PendingOk(t: Tables, g: Grammar, n: Annotation, r: nat) {
    ReduceOk(t, g, n, YY_MIN_REDUCE + r, r)
  }

  // ----- One step

  datatype Outcome = Continue | Consumed | Accepted(tree: Tree) | Rejected | Overflowed

  datatype Move = Move(stack: Stack, outcome: Outcome)

  /** yyStackOverflow leaves the bottom entry. */
  function Bottom(s: Stack): Stack { s[..1] }

  /** yy_shift */
  function Shift(s: Stack, action: nat, tok: Token): Move {
    if |s| >= YYSTACKDEPTH then Move(Bottom(s), Overflowed)
    else Move(s + [Entry(ShiftCode(action), tok.major, Leaf(tok.major, tok.value))], Consumed)
  }

  /** What yy_reduce needs: the right-hand side is on the stack and the lookup below it hits. */
  predicate CanReduce(t: Tables, s: Stack, r: nat)
  {
    && r < |t.ruleLhs| && r < |t.ruleNRhs| && 0 <= -t.ruleNRhs[r] < |s|
    && ((t.ruleNRhs[r] == 0 && |s| >= YYSTACKDEPTH)
        || ReduceHits(t, s[|s| - 1 + t.ruleNRhs[r]].stateno, t.ruleLhs[r]))
  }

  /** yy_reduce */
  function Reduce(t: Tables, s: Stack, r: nat): Move
    requires CanReduce(t, s, r)
  {
    var k := -t.ruleNRhs[r];
    if k == 0 && |s| >= YYSTACKDEPTH then Move(Bottom(s), Overflowed)
    else
      var rest := s[..|s| - k];
      var act := FindReduce(t, Top(rest), t.ruleLhs[r]);
      Move(rest + [Entry(act, t.ruleLhs[r], Node(r, Minors(s[|s| - k..])))], Continue)
  }

  /** One pass of the loop of sqlite3Parser needs this much. */
  predicate CanStep(t: Tables, s: Stack, tok: Token) {
    && Shaped(t) && tok.major < YYNTOKEN
    && var act := FindShift(t, Top(s), tok.major).action;
       && (act >= YY_MIN_REDUCE ==> CanReduce(t, s, act - YY_MIN_REDUCE))
       && (act == YY_ACCEPT_ACTION ==> |s| == 2)
  }

  /** One pass of the loop of sqlite3Parser. */
  function Step(t: Tables, s: Stack, tok: Token): Move
    requires CanStep(t, s, tok)
  {
    var act := FindShift(t, Top(s), tok.major).action;
    if act >= YY_MIN_REDUCE then Reduce(t, s, act - YY_MIN_REDUCE)
    else if act <= YY_MAX_SHIFTREDUCE then Shift(s, act, tok)
    else if act == YY_ACCEPT_ACTION then Move(s[..1], Accepted(s[1].minor))
    else Move(s, Rejected)
  }

  // ----- The invariant

  /** The symbol an entry stands for: its nonterminal, or the terminal its token was found under. */
  function SymbolAt(t: Tables, s: Stack, k: nat): nat
    requires Shaped(t) && 0 < k < |s|
  {
    if s[k].major >= YYNTOKEN then s[k].major else FindShift(t, s[k - 1].stateno, s[k].major).symbol
  }

  ghost predicate EntryOk(t: Tables, g: Grammar, n: Annotation, s: Stack, k: nat)
    requires Shaped(t) && 0 < k < |s|
  {
    && Edge(g, n, s[k - 1].stateno, SymbolAt(t, s, k), s[k].stateno)
    && Derives(t, g, s[k].minor, SymbolAt(t, s, k))
    && (s[k].stateno == YY_ACCEPT_ACTION ==> k == 1 && SymbolAt(t, s, k) == g.start)
  }

  /** Every entry is a parse tree for a symbol that may stand on the one below it. */
  ghost predicate StackOk(t: Tables, g: Grammar, n: Annotation, s: Stack)
    requires Shaped(t)
  {
    && |s| <= YYSTACKDEPTH && s[0].stateno == 0
    && forall k :: 0 < k < |s| ==> EntryOk(t, g, n, s, k)
  }

  /** What the annotation claims of a stack is true of it. */
  lemma {:induction false} Known(t: Tables, g: Grammar, n: Annotation, s: Stack, k: nat, i: nat)
    requires Valid(t, g, n) && StackOk(t, g, n, s) && k < |s|
    ensures IsCode(s[k].stateno)
    ensures i < |n.syms[s[k].stateno]| ==> i < k && SymbolAt(t, s, k - i) in n.syms[s[k].stateno][i]
    ensures i < |n.below[s[k].stateno]| ==> i < k && s[k - 1 - i].stateno in n.below[s[k].stateno][i]
  {
    if k > 0 {
      assert EntryOk(t, g, n, s, k);
      var c0, c1 := s[k - 1].stateno, s[k].stateno;
      if i < |n.syms[c1]| { assert CoversAt(n.syms[c0], SymbolAt(t, s, k), n.syms[c1], i); }
      if i < |n.below[c1]| { assert CoversAt(n.below[c0], c0, n.below[c1], i); }
      if i > 0 {
        Known(t, g, n, s, k - 1, i - 1);
        assert k - 1 - (i - 1) == k - i;
      }
    }
  }

  lemma InitOk(t: Tables, g: Grammar, n: Annotation)
    requires Valid(t, g, n)
    ensures StackOk(t, g, n, [Entry(0, 0, Leaf(0, 0))]) && Shifted([Entry(0, 0, Leaf(0, 0))]) == []
  {
  }

  /** An entry added to a good stack. */
  lemma Extended(t: Tables, g: Grammar, n: Annotation, s: Stack, e: Entry, x: nat)
    requires Shaped(t) && StackOk(t, g, n, s) && |s| < YYSTACKDEPTH
    requires x == if e.major >= YYNTOKEN then e.major else FindShift(t, Top(s), e.major).symbol
    requires Edge(g, n, Top(s), x, e.stateno) && Derives(t, g, e.minor, x)
    requires e.stateno == YY_ACCEPT_ACTION ==> |s| == 1 && x == g.start
    ensures StackOk(t, g, n, s + [e]) && Shifted(s + [e]) == Shifted(s) + Yield(e.minor)
  {
    hide Edge, Derives;
    var s' := s + [e];
    forall k | 0 < k < |s'| ensures EntryOk(t, g, n, s', k) {
      if k < |s| { assert EntryOk(t, g, n, s, k); }
    }
    assert Minors(s'[1..]) == Minors(s[1..]) + [e.minor];
    YieldConcat(Minors(s[1..]), [e.minor]);
    assert YieldAll([e.minor]) == Yield(e.minor) by { assert [e.minor][..0] == []; }
  }

  lemma PrefixOk(t: Tables, g: Grammar, n: Annotation, s: Stack, m: nat)
    requires Shaped(t) && StackOk(t, g, n, s) && 0 < m <= |s|
    ensures StackOk(t, g, n, s[..m]) && Shifted(s) == Shifted(s[..m]) + YieldAll(Minors(s[m..]))
  {
    hide Edge, Derives;
    forall k | 0 < k < m ensures EntryOk(t, g, n, s[..m], k) {
      assert EntryOk(t, g, n, s, k);
    }
    assert Minors(s[1..]) == Minors(s[..m][1..]) + Minors(s[m..]);
    YieldConcat(Minors(s[..m][1..]), Minors(s[m..]));
  }

  lemma ShiftOk(t: Tables, g: Grammar, n: Annotation, s: Stack, tok: Token)
    requires Valid(t, g, n) && StackOk(t, g, n, s) && tok.major < YYNTOKEN
    requires Top(s) <= YY_MAX_SHIFT && FindShift(t, Top(s), tok.major).action <= YY_MAX_SHIFTREDUCE
    ensures var m := Shift(s, FindShift(t, Top(s), tok.major).action, tok);
            && StackOk(t, g, n, m.stack)
            && (m.outcome.Consumed? ==> Shifted(m.stack) == Shifted(s) + [tok])
  {
    var l := FindShift(t, Top(s), tok.major);
    assert ActionOk(t, g, n, Top(s), tok.major);
    FoundStandsFor(t, Top(s), tok.major);
    if |s| < YYSTACKDEPTH {
      Extended(t, g, n, s, Entry(ShiftCode(l.action), tok.major, Leaf(tok.major, tok.value)), l.symbol);
    } else {
      PrefixOk(t, g, n, s, 1);
    }
  }

  /** The right-hand side is on the stack, and the lookup of the left-hand side cannot fail. */
  lemma ReduceReady(t: Tables, g: Grammar, n: Annotation, s: Stack, r: nat)
    requires Valid(t, g, n) && StackOk(t, g, n, s) && ReduceOk(t, g, n, Top(s), r)
    ensures CanReduce(t, s, r)
    ensures Shaped(t) && t.ruleNRhs[r] == -|g.rhs[r]| && t.ruleLhs[r] == g.lhs[r] && |g.rhs[r]| < |s|
    ensures var k := |g.rhs[r]|; GotoOk(t, g, n, s[|s| - 1 - k].stateno, r)
    ensures var k := |g.rhs[r]|;
            forall i :: 0 <= i < k ==> StandsIn(g, SymbolAt(t, s, |s| - k + i), g.rhs[r][i])
  {
    hide StackOk, StandsIn, Edge, SymbolAt;
    var k, top := |g.rhs[r]|, |s| - 1;
    assert t.ruleNRhs[r] == -k;
    if k > 0 {
      Known(t, g, n, s, top, k - 1);
      forall i | 0 <= i < k ensures StandsIn(g, SymbolAt(t, s, |s| - k + i), g.rhs[r][i]) {
        Known(t, g, n, s, top, k - 1 - i);
        assert AllStandIn(g, n.syms[Top(s)][k - 1 - i], g.rhs[r][i]);
      }
    }
    assert GotoOk(t, g, n, s[|s| - 1 - k].stateno, r);
    assert |s| - 1 + t.ruleNRhs[r] == |s| - 1 - k && t.ruleLhs[r] == g.lhs[r];
  }

  lemma ReduceKeeps(t: Tables, g: Grammar, n: Annotation, s: Stack, r: nat)
    requires Valid(t, g, n) && StackOk(t, g, n, s) && ReduceOk(t, g, n, Top(s), r)
    ensures CanReduce(t, s, r)
    ensures var m := Reduce(t, s, r);
            && StackOk(t, g, n, m.stack)
            && (m.outcome.Continue? ==> Shifted(m.stack) == Shifted(s))
  {
    ReduceReady(t, g, n, s, r);
    hide Valid, ReduceOk, StackOk, Edge, Derives, SymbolAt, StandsIn, Shifted;
    var k := |g.rhs[r]|;
    if k == 0 && |s| >= YYSTACKDEPTH {
      PrefixOk(t, g, n, s, 1);
    } else {
      var rest, children := s[..|s| - k], Minors(s[|s| - k..]);
      PrefixOk(t, g, n, s, |s| - k);
      NodeDerives(t, g, n, s, r);
      var e := Entry(FindReduce(t, Top(rest), g.lhs[r]), g.lhs[r], Node(r, children));
      AcceptAtBottom(t, g, n, rest, r);
      Extended(t, g, n, rest, e, g.lhs[r]);
    }
  }

  lemma NodeDerives(t: Tables, g: Grammar, n: Annotation, s: Stack, r: nat)
    requires Shaped(t) && StackOk(t, g, n, s) && r < |g.rhs| && r < |g.lhs| && |g.rhs[r]| < |s|
    requires var k := |g.rhs[r]|;
             forall i :: 0 <= i < k ==> StandsIn(g, SymbolAt(t, s, |s| - k + i), g.rhs[r][i])
    ensures Derives(t, g, Node(r, Minors(s[|s| - |g.rhs[r]|..])), g.lhs[r])
  {
    var k := |g.rhs[r]|;
    var children := Minors(s[|s| - k..]);
    forall i | 0 <= i < k ensures DerivesOneOf(t, g, children[i], g.rhs[r][i]) {
      var j := |s| - k + i;
      assert EntryOk(t, g, n, s, j);
      assert children[i] == s[j].minor;
    }
  }

  /** State 0 is only at the bottom. */
  lemma AcceptAtBottom(t: Tables, g: Grammar, n: Annotation, s: Stack, r: nat)
    requires Shaped(t) && StackOk(t, g, n, s) && r < |g.lhs| && GotoOk(t, g, n, Top(s), r)
    ensures FindReduce(t, Top(s), g.lhs[r]) == YY_ACCEPT_ACTION ==> |s| == 1 && g.lhs[r] == g.start
  {
    if |s| > 1 { assert EntryOk(t, g, n, s, |s| - 1); }
  }
}
