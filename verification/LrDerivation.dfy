/** What a parse tree of LrTables says about the grammar alone: the start symbol rewrites, rule by rule,
    elided rules included, to the tokens read as themselves, their fallbacks or the wildcard. */
module LrDerivation {
  import opened LrTables
  import opened LrMachine
  import opened LrRuns

  /** Rule r applied to the symbol at k. */
  ghost predicate RewritesAt(g: Grammar, u: seq<nat>, w: seq<nat>, k: nat, r: nat, xs: seq<nat>) {
    && k < |u| && r < |g.lhs| && r < |g.rhs| && g.lhs[r] == u[k] && |xs| == |g.rhs[r]|
    && (forall i :: 0 <= i < |xs| ==> xs[i] in g.rhs[r][i])
    && w == u[..k] + xs + u[k + 1..]
  }

  ghost predicate Rewrites(g: Grammar, u: seq<nat>, w: seq<nat>) {
    exists k, r, xs :: RewritesAt(g, u, w, k, r, xs)
  }

  /** Sentential forms, each one rewriting of the one before. */
  ghost predicate Derivation(g: Grammar, forms: seq<seq<nat>>, u: seq<nat>, w: seq<nat>) {
    && |forms| > 0 && forms[0] == u && forms[|forms| - 1] == w
    && forall i :: 0 < i < |forms| ==> Rewrites(g, forms[i - 1], forms[i])
  }

  /** In the grammar, u derives w. */
  ghost predicate DerivesForm(g: Grammar, u: seq<nat>, w: seq<nat>) {
    exists forms :: Derivation(g, forms, u, w)
  }

  lemma None(g: Grammar, u: seq<nat>)
    ensures DerivesForm(g, u, u)
  {
    assert Derivation(g, [u], u, u);
  }

  lemma One(g: Grammar, u: seq<nat>, w: seq<nat>, k: nat, r: nat, xs: seq<nat>)
    requires RewritesAt(g, u, w, k, r, xs)
    ensures DerivesForm(g, u, w)
  {
    assert Rewrites(g, u, w);
    assert Derivation(g, [u, w], u, w);
  }

  lemma Then(g: Grammar, u: seq<nat>, v: seq<nat>, w: seq<nat>)
    requires DerivesForm(g, u, v) && DerivesForm(g, v, w)
    ensures DerivesForm(g, u, w)
  {
    var a :| Derivation(g, a, u, v);
    var b :| Derivation(g, b, v, w);
    var c := a + b[1..];
    forall i | 0 < i < |c| ensures Rewrites(g, c[i - 1], c[i]) {
      if i < |a| {
        assert Rewrites(g, a[i - 1], a[i]);
      } else {
        var j := i - |a| + 1;
        assert Rewrites(g, b[j - 1], b[j]);
        assert c[i] == b[j] && c[i - 1] == b[j - 1];
      }
    }
    assert Derivation(g, c, u, w);
  }

  lemma RewritesWithin(g: Grammar, u: seq<nat>, w: seq<nat>, left: seq<nat>, right: seq<nat>)
    requires Rewrites(g, u, w)
    ensures Rewrites(g, left + u + right, left + w + right)
  {
    var k: nat, r: nat, xs: seq<nat> :| RewritesAt(g, u, w, k, r, xs);
    var u', w' := left + u + right, left + w + right;
    var next := |left| + k;
    assert u'[..next] == left + u[..k] && u'[next + 1..] == u[k + 1..] + right;
    assert w' == u'[..next] + xs + u'[next + 1..];
    assert RewritesAt(g, u', w', next, r, xs);
  }

  /** A derivation between other symbols. */
  lemma Within(g: Grammar, u: seq<nat>, w: seq<nat>, left: seq<nat>, right: seq<nat>)
    requires DerivesForm(g, u, w)
    ensures DerivesForm(g, left + u + right, left + w + right)
  {
    var a :| Derivation(g, a, u, w);
    var c := seq(|a|, i requires 0 <= i < |a| => left + a[i] + right);
    forall i | 0 < i < |c| ensures Rewrites(g, c[i - 1], c[i]) {
      RewritesWithin(g, a[i - 1], a[i], left, right);
    }
    assert Derivation(g, c, left + u + right, left + w + right);
  }

  lemma {:induction false} RenamesDerives(g: Grammar, y: nat, path: seq<nat>, z: nat)
    requires LrTables.Renames(g, y, path, z)
    ensures DerivesForm(g, [y], [z])
    decreases |path|
  {
    if |path| == 0 {
      None(g, [y]);
    } else {
      var r := path[0];
      var c :| c in g.rhs[r][0] && LrTables.Renames(g, c, path[1..], z);
      assert RewritesAt(g, [y], [c], 0, r, [c]);
      One(g, [y], [c], 0, r, [c]);
      RenamesDerives(g, c, path[1..], z);
      Then(g, [y], [c], [z]);
    }
  }

  /** The terminals v are a reading of the tokens. */
  ghost predicate Reads(t: Tables, v: seq<nat>, toks: seq<Token>) {
    |v| == |toks| && forall i :: 0 <= i < |v| ==> v[i] < YYNTOKEN && StandsFor(t, toks[i].major, v[i])
  }

  lemma {:induction false} TreeDerives(t: Tables, g: Grammar, x: Tree, symbol: nat) returns (v: seq<nat>)
    requires Derives(t, g, x, symbol)
    ensures DerivesForm(g, [symbol], v) && Reads(t, v, Yield(x))
    decreases x, 1, 0
  {
    match x
    case Leaf(_, _) =>
      v := [symbol];
      None(g, v);
    case Node(r, children) =>
      assert symbol == g.lhs[r];
      var ys;
      ys, v := ChildrenDerive(t, g, x, |children|);
      assert children[..|children|] == children;
      assert RewritesAt(g, [symbol], ys, 0, r, ys);
      One(g, [symbol], ys, 0, r, ys);
      Then(g, [symbol], ys, v);
  }

  /** The first m symbols of the right-hand side derive a reading of the first m children. */
  lemma {:induction false} ChildrenDerive(t: Tables, g: Grammar, x: Tree, m: nat) returns (ys: seq<nat>, v: seq<nat>)
    requires x.Node? && x.rule < |g.lhs| && Derives(t, g, x, g.lhs[x.rule]) && m <= |x.children|
    ensures |ys| == m && forall i :: 0 <= i < m ==> ys[i] in g.rhs[x.rule][i]
    ensures DerivesForm(g, ys, v) && Reads(t, v, YieldAll(x.children[..m]))
    decreases x, 0, m + 1
  {
    NodeShape(t, g, x);
    hide DerivesForm, Derives, Reads;
    if m == 0 {
      ys, v := [], [];
      None(g, []);
      ReadsNone(t);
      assert x.children[..0] == [];
    } else {
      var ys', v' := ChildrenDerive(t, g, x, m - 1);
      var y, w := ChildDerives(t, g, x, m - 1);
      ys, v := ys' + [y], v' + w;
      Append(g, ys', v', y, w);
      ReadsConcat(t, v', YieldAll(x.children[..m - 1]), w, Yield(x.children[m - 1]));
      assert x.children[..m][..m - 1] == x.children[..m - 1];
    }
  }

  lemma NodeShape(t: Tables, g: Grammar, x: Tree)
    requires x.Node? && x.rule < |g.lhs| && Derives(t, g, x, g.lhs[x.rule])
    ensures x.rule < |g.rhs| && |g.rhs[x.rule]| == |x.children|
  {
  }

  lemma Append(g: Grammar, ys: seq<nat>, v: seq<nat>, y: nat, w: seq<nat>)
    requires DerivesForm(g, ys, v) && DerivesForm(g, [y], w)
    ensures DerivesForm(g, ys + [y], v + w)
  {
    hide DerivesForm;
    Within(g, ys, v, [], [y]);
    Within(g, [y], w, v, []);
    assert [] + ys + [y] == ys + [y] && [] + v + [y] == v + [y];
    assert v + [y] + [] == v + [y] && v + w + [] == v + w;
    Then(g, ys + [y], v + [y], v + w);
  }

  lemma ReadsNone(t: Tables)
    ensures Reads(t, [], YieldAll([]))
  {
  }

  lemma ReadsConcat(t: Tables, v: seq<nat>, a: seq<Token>, w: seq<nat>, b: seq<Token>)
    requires Reads(t, v, a) && Reads(t, w, b)
    ensures Reads(t, v + w, a + b)
  {
  }

  lemma {:induction false} ChildDerives(t: Tables, g: Grammar, x: Tree, i: nat) returns (y: nat, v: seq<nat>)
    requires x.Node? && x.rule < |g.lhs| && Derives(t, g, x, g.lhs[x.rule]) && i < |x.children|
    ensures y in g.rhs[x.rule][i] && DerivesForm(g, [y], v) && Reads(t, v, Yield(x.children[i]))
    decreases x, 0, 0
  {
    var child := x.children[i];
    assert DerivesOneOf(t, g, child, g.rhs[x.rule][i]);
    var z :| StandsIn(g, z, g.rhs[x.rule][i]) && Derives(t, g, child, z);
    var path: seq<nat>;
    y, path :| y in g.rhs[x.rule][i] && LrTables.Renames(g, y, path, z);
    RenamesDerives(g, y, path, z);
    v := TreeDerives(t, g, child, z);
    Then(g, [y], [z], v);
  }

  /** LR soundness: when a run accepts, the start symbol derives a reading of the tokens before the one
      in sight, which is the end of the input. */
  lemma {:induction false} AcceptedInputIsInLanguage(t: Tables, g: Grammar, n: Annotation, p: Potential,
                                                    toks: seq<Token>)
    requires Valid(t, g, n) && Grounded(g, p) && forall i :: 0 <= i < |toks| ==> toks[i].major < YYNTOKEN
    ensures Ready(t, g, n, p, INITIAL)
    ensures Run(t, g, n, p, INITIAL, toks).outcome.Accepted? ==>
              exists k, v :: && 0 <= k < |toks| && DerivesForm(g, [g.start], v) && Reads(t, v, toks[..k])
                             && (EndOnly(t, g) ==> toks[k].major == 0)
  {
    hide Run, Derives, EndOnly, Grounded, DerivesForm, Reads;
    AcceptedInputDerives(t, g, n, p, toks);
    var m := Run(t, g, n, p, INITIAL, toks);
    if m.outcome.Accepted? {
      var v := TreeDerives(t, g, m.outcome.tree, g.start);
    }
  }
}
