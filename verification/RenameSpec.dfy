/** What an ALTER TABLE RENAME makes of an SQL text: every token of a list replaced by the new name at
    once, read from left to right. The list says nothing about the order. */
module RenameSpec {

  /** A RenameToken: the parse tree element it became (0 for none), its offset and its length. */
  datatype RenameToken = RenameToken(p: nat, z: nat, n: nat)

  /** sqlite3IsIdChar in ASCII builds. */
  predicate IsIdChar(c: char) {
    || 'a' <= c <= 'z' || 'A' <= c <= 'Z' || '0' <= c <= '9' || c == '_' || c == '$' || c as int >= 0x80
  }

  /** The printf conversion %w: double quotes are doubled. */
  function Doubled(s: string): (r: string)
    ensures |r| >= |s|
  {
    if s == "" then "" else (if s[0] == '"' then "\"\"" else [s[0]]) + Doubled(s[1..])
  }

  function Quoted(s: string): (r: string)
    ensures |r| >= |s| + 2
  {
    "\"" + Doubled(s) + "\""
  }

  /** The tokens lie in the text, are not empty and do not overlap, in whatever order they are listed. */
  ghost predicate Disjoint(toks: seq<RenameToken>, size: nat) {
    && (forall i :: 0 <= i < |toks| ==> toks[i].n > 0 && toks[i].z + toks[i].n <= size)
    && (forall i, j :: 0 <= i < |toks| && 0 <= j < |toks| && i != j ==> Apart(toks[i], toks[j]))
  }

  predicate Apart(a: RenameToken, b: RenameToken) {
    a.z + a.n <= b.z || b.z + b.n <= a.z
  }

  /** The replacement: quoted when that was asked for or the token did not start like an identifier. */
  function Replacement(zSql: string, zNew: string, bQuote: bool, tok: RenameToken): (r: string)
    requires tok.z < |zSql|
    ensures |r| <= |Quoted(zNew)|
  {
    if bQuote || !IsIdChar(zSql[tok.z]) then Quoted(zNew) else zNew
  }

  /** The bare new name is put in if and only if no quotes were asked for and the token starts like an
      identifier; otherwise a longer one in double quotes is. */
  lemma ReplacementExactly(zSql: string, zNew: string, bQuote: bool, tok: RenameToken)
    requires tok.z < |zSql|
    ensures var s := Replacement(zSql, zNew, bQuote, tok);
            && (s == zNew <==> !bQuote && IsIdChar(zSql[tok.z]))
            && (s != zNew ==> |s| >= |zNew| + 2 && s[0] == '"' && s[|s| - 1] == '"')
  {
    assert |Quoted(zNew)| > |zNew|;
  }

  ghost predicate StartsAt(toks: seq<RenameToken>, k: nat) {
    exists i :: 0 <= i < |toks| && toks[i].z == k
  }

  ghost function TokenAt(toks: seq<RenameToken>, k: nat): (tok: RenameToken)
    requires StartsAt(toks, k)
    ensures tok in toks && tok.z == k
  {
    var i :| 0 <= i < |toks| && toks[i].z == k;
    toks[i]
  }

  /** The text from position k on with every token replaced. */
  ghost function Substitute(zSql: string, zNew: string, bQuote: bool, toks: seq<RenameToken>, k: nat): string
    requires Disjoint(toks, |zSql|)
    decreases |zSql| - k
  {
    if k >= |zSql| then ""
    else if StartsAt(toks, k) then
      var tok := TokenAt(toks, k);
      Replacement(zSql, zNew, bQuote, tok) + Substitute(zSql, zNew, bQuote, toks, k + tok.n)
    else [zSql[k]] + Substitute(zSql, zNew, bQuote, toks, k + 1)
  }

  /** Only one token starts at a place. */
  lemma TokenAtIs(toks: seq<RenameToken>, size: nat, i: nat)
    requires Disjoint(toks, size) && i < |toks|
    ensures StartsAt(toks, toks[i].z) && TokenAt(toks, toks[i].z) == toks[i]
  {
    var k := toks[i].z;
    var j :| 0 <= j < |toks| && toks[j] == TokenAt(toks, k);
    assert i != j ==> Apart(toks[i], toks[j]);
  }

  lemma SameStarts(a: seq<RenameToken>, b: seq<RenameToken>, k: nat)
    requires StartsAt(a, k) && forall x :: x in a ==> x in b
    ensures StartsAt(b, k)
  {
    assert TokenAt(a, k) in b;
  }

  /** The order of the list does not matter. */
  lemma {:induction false} OrderIrrelevant(zSql: string, zNew: string, bQuote: bool,
                                           a: seq<RenameToken>, b: seq<RenameToken>, k: nat)
    requires Disjoint(a, |zSql|) && Disjoint(b, |zSql|) && forall x :: x in a <==> x in b
    ensures Substitute(zSql, zNew, bQuote, a, k) == Substitute(zSql, zNew, bQuote, b, k)
    decreases |zSql| - k
  {
    hide Substitute, Disjoint, StartsAt, Replacement;
    if k < |zSql| {
      SubstituteStep(zSql, zNew, bQuote, a, k);
      SubstituteStep(zSql, zNew, bQuote, b, k);
      if StartsAt(a, k) {
        SameToken(a, b, |zSql|, k);
        OrderIrrelevant(zSql, zNew, bQuote, a, b, k + TokenAt(a, k).n);
      } else {
        if StartsAt(b, k) { SameStarts(b, a, k); }
        OrderIrrelevant(zSql, zNew, bQuote, a, b, k + 1);
      }
    } else {
      SubstituteEnd(zSql, zNew, bQuote, a, k);
      SubstituteEnd(zSql, zNew, bQuote, b, k);
    }
  }

  lemma SameToken(a: seq<RenameToken>, b: seq<RenameToken>, size: nat, k: nat)
    requires Disjoint(a, size) && Disjoint(b, size) && StartsAt(a, k) && forall x :: x in a ==> x in b
    ensures StartsAt(b, k) && TokenAt(b, k) == TokenAt(a, k) && TokenAt(a, k).n > 0
  {
    assert TokenAt(a, k) in b;
    var j :| 0 <= j < |b| && b[j] == TokenAt(a, k);
    TokenAtIs(b, size, j);
  }

  lemma SubstituteStep(zSql: string, zNew: string, bQuote: bool, toks: seq<RenameToken>, k: nat)
    requires Disjoint(toks, |zSql|) && k < |zSql|
    ensures Substitute(zSql, zNew, bQuote, toks, k)
            == if StartsAt(toks, k)
               then Replacement(zSql, zNew, bQuote, TokenAt(toks, k))
                    + Substitute(zSql, zNew, bQuote, toks, k + TokenAt(toks, k).n)
               else [zSql[k]] + Substitute(zSql, zNew, bQuote, toks, k + 1)
  {
  }

  lemma Regroup(x: string, y: string, z: string)
    ensures x + y + z == x + (y + z)
  {
  }

  /** Text without tokens is copied. */
  lemma {:induction false} Copied(zSql: string, zNew: string, bQuote: bool, toks: seq<RenameToken>, k: nat, m: nat)
    requires Disjoint(toks, |zSql|) && k <= m <= |zSql|
    requires forall j :: k <= j < m ==> !StartsAt(toks, j)
    ensures Substitute(zSql, zNew, bQuote, toks, k) == zSql[k..m] + Substitute(zSql, zNew, bQuote, toks, m)
    decreases m - k
  {
    hide Substitute, Disjoint, StartsAt;
    var tail := Substitute(zSql, zNew, bQuote, toks, m);
    if k < m {
      SubstituteStep(zSql, zNew, bQuote, toks, k);
      Copied(zSql, zNew, bQuote, toks, k + 1, m);
      Regroup([zSql[k]], zSql[k + 1..m], tail);
      assert zSql[k..m] == [zSql[k]] + zSql[k + 1..m];
    } else {
      assert zSql[k..m] + tail == tail;
    }
  }

  // ----- C strings

  /** The text of a buffer: up to its first NUL. */
  function CText(z: string): string {
    if z == "" || z[0] == '\0' then "" else [z[0]] + CText(z[1..])
  }

  lemma {:induction false} CTextIs(z: string, n: nat)
    requires n < |z| && z[n] == '\0' && '\0' !in z[..n]
    ensures CText(z) == z[..n]
  {
    if n > 0 {
      assert z[0] in z[..n] && z[1..][..n - 1] == z[..n][1..];
      CTextIs(z[1..], n - 1);
    }
  }

  lemma {:induction false} DoubledText(s: string)
    requires '\0' !in s
    ensures '\0' !in Doubled(s)
  {
    if s != "" { DoubledText(s[1..]); }
  }

  lemma ReplacementText(zSql: string, zNew: string, bQuote: bool, tok: RenameToken)
    requires tok.z < |zSql| && '\0' !in zNew
    ensures '\0' !in Replacement(zSql, zNew, bQuote, tok)
  {
    DoubledText(zNew);
  }

  lemma {:induction false} SubstituteText(zSql: string, zNew: string, bQuote: bool, toks: seq<RenameToken>, k: nat)
    requires Disjoint(toks, |zSql|) && '\0' !in zSql && '\0' !in zNew
    ensures '\0' !in Substitute(zSql, zNew, bQuote, toks, k)
    decreases |zSql| - k
  {
    hide Disjoint, Substitute, Replacement, StartsAt;
    if k < |zSql| {
      SubstituteStep(zSql, zNew, bQuote, toks, k);
      if StartsAt(toks, k) {
        TokenAtIn(toks, |zSql|, k);
        ReplacementText(zSql, zNew, bQuote, TokenAt(toks, k));
        SubstituteText(zSql, zNew, bQuote, toks, k + TokenAt(toks, k).n);
      } else {
        SubstituteText(zSql, zNew, bQuote, toks, k + 1);
      }
    } else {
      SubstituteEnd(zSql, zNew, bQuote, toks, k);
    }
  }

  lemma SubstituteEnd(zSql: string, zNew: string, bQuote: bool, toks: seq<RenameToken>, k: nat)
    requires Disjoint(toks, |zSql|) && k >= |zSql|
    ensures Substitute(zSql, zNew, bQuote, toks, k) == ""
  {
  }

  lemma TokenAtIn(toks: seq<RenameToken>, size: nat, k: nat)
    requires Disjoint(toks, size) && StartsAt(toks, k)
    ensures TokenAt(toks, k).n > 0 && k < size
  {
  }

  // ----- The order in which tokens are taken

  /** One call of renameColumnTokenNext: a right-most token leaves the list. */
  ghost predicate TakenAt(list: seq<RenameToken>, at: nat, tok: RenameToken, rest: seq<RenameToken>) {
    && at < |list| && tok == list[at] && rest == list[..at] + list[at + 1..]
    && forall i :: 0 <= i < |list| ==> list[i].z <= tok.z
  }

  /** Calls until the list is empty return the tokens in this order. */
  ghost predicate Drained(list: seq<RenameToken>, order: seq<RenameToken>)
    decreases |order|
  {
    if order == [] then list == []
    else exists at, rest :: TakenAt(list, at, order[0], rest) && Drained(rest, order[1..])
  }

  predicate Falling(order: seq<RenameToken>) {
    forall i, j :: 0 <= i < j < |order| ==> order[i].z > order[j].z
  }

  predicate InTextOrder(order: seq<RenameToken>) {
    forall i, j :: 0 <= i < j < |order| ==> order[i].z < order[j].z
  }

  lemma TakenRest(list: seq<RenameToken>, at: nat, tok: RenameToken, rest: seq<RenameToken>, size: nat)
    requires Disjoint(list, size) && TakenAt(list, at, tok, rest)
    ensures Disjoint(rest, size) && |rest| == |list| - 1 && multiset(list) == multiset{tok} + multiset(rest)
    ensures forall x :: x in multiset(rest) ==> x.z < tok.z
  {
    assert list == list[..at] + [list[at]] + list[at + 1..];
    DisjointRest(list, at, size);
    forall i | 0 <= i < |rest| ensures rest[i].z < tok.z {
      assert rest[i] == list[if i < at then i else i + 1];
      assert Apart(list[at], list[if i < at then i else i + 1]);
    }
  }

  lemma FallingCons(order: seq<RenameToken>, rest: seq<RenameToken>)
    requires order != [] && Falling(order[1..]) && multiset(order[1..]) == multiset(rest)
    requires forall x :: x in multiset(rest) ==> x.z < order[0].z
    ensures Falling(order) && multiset(order) == multiset{order[0]} + multiset(rest)
  {
    forall i | 0 < i < |order| ensures order[i].z < order[0].z {
      assert order[1..][i - 1] in multiset(order[1..]);
    }
    forall i, j | 0 <= i < j < |order| ensures order[i].z > order[j].z {
      assert i > 0 ==> order[1..][i - 1].z > order[1..][j - 1].z;
    }
    assert order == [order[0]] + order[1..];
  }

  lemma FirstTaken(list: seq<RenameToken>, order: seq<RenameToken>) returns (at: nat, rest: seq<RenameToken>)
    requires order != [] && Drained(list, order)
    ensures TakenAt(list, at, order[0], rest) && Drained(rest, order[1..])
  {
    at, rest :| TakenAt(list, at, order[0], rest) && Drained(rest, order[1..]);
  }

  /** Repeated calls return every token once, from the right-most to the left-most one. */
  lemma {:induction false} DrainedFalling(list: seq<RenameToken>, order: seq<RenameToken>, size: nat)
    requires Disjoint(list, size) && Drained(list, order)
    ensures multiset(order) == multiset(list) && |order| == |list| && Falling(order)
    decreases |order|
  {
    if order != [] {
      hide Disjoint, TakenAt, Drained, Falling;
      var at, rest := FirstTaken(list, order);
      TakenRest(list, at, order[0], rest, size);
      DrainedFalling(rest, order[1..], size);
      FallingCons(order, rest);
    }
  }

  lemma DisjointRest(list: seq<RenameToken>, at: nat, size: nat)
    requires Disjoint(list, size) && at < |list|
    ensures Disjoint(list[..at] + list[at + 1..], size)
  {
    var rest := list[..at] + list[at + 1..];
    assert forall i :: 0 <= i < |rest| ==> rest[i] == list[if i < at then i else i + 1];
  }

  /** That is the order of the text exactly when there is at most one token. */
  lemma {:induction false} TextOrderExactly(list: seq<RenameToken>, order: seq<RenameToken>, size: nat)
    requires Disjoint(list, size) && Drained(list, order)
    ensures InTextOrder(order) <==> |list| <= 1
  {
    DrainedFalling(list, order, size);
    if |list| > 1 { assert order[0].z > order[1].z; }
  }

  /** Two tokens, listed in text order, come out the other way round. */
  lemma TwoTokens(order: seq<RenameToken>)
    requires Drained([RenameToken(1, 0, 1), RenameToken(2, 2, 1)], order)
    ensures order == [RenameToken(2, 2, 1), RenameToken(1, 0, 1)]
  {
    var a, b := RenameToken(1, 0, 1), RenameToken(2, 2, 1);
    DrainedFalling([a, b], order, 3);
    assert order[0] in multiset(order) && order[1] in multiset(order);
    assert order[0] in [a, b] && order[1] in [a, b];
  }

  // ----- Where every character goes

  /** How much longer the text gets by the tokens that start in [a, b). */
  ghost function Growth(zSql: string, zNew: string, bQuote: bool, toks: seq<RenameToken>, a: nat, b: nat): int
    requires Disjoint(toks, |zSql|)
    decreases b - a
  {
    if a >= b then 0
    else (if StartsAt(toks, a) then |Replacement(zSql, zNew, bQuote, TokenAt(toks, a))| - TokenAt(toks, a).n else 0)
         + Growth(zSql, zNew, bQuote, toks, a + 1, b)
  }

  lemma GrowthStep(zSql: string, zNew: string, bQuote: bool, toks: seq<RenameToken>, a: nat, b: nat)
    requires Disjoint(toks, |zSql|) && a < b
    ensures Growth(zSql, zNew, bQuote, toks, a, b) == Growth(zSql, zNew, bQuote, toks, a + 1, b)
            + if StartsAt(toks, a) then |Replacement(zSql, zNew, bQuote, TokenAt(toks, a))| - TokenAt(toks, a).n else 0
  {
  }

  lemma GrowthEnd(zSql: string, zNew: string, bQuote: bool, toks: seq<RenameToken>, a: nat, b: nat)
    requires Disjoint(toks, |zSql|) && a >= b
    ensures Growth(zSql, zNew, bQuote, toks, a, b) == 0
  {
  }

  /** No token covers position k without starting there. */
  ghost predicate Boundary(toks: seq<RenameToken>, k: nat) {
    forall i :: 0 <= i < |toks| ==> k <= toks[i].z || toks[i].z + toks[i].n <= k
  }

  lemma {:induction false} NoGrowth(zSql: string, zNew: string, bQuote: bool, toks: seq<RenameToken>,
                                    a: nat, m: nat, b: nat)
    requires Disjoint(toks, |zSql|) && a <= m && forall j :: a <= j < m ==> !StartsAt(toks, j)
    ensures m <= b ==> Growth(zSql, zNew, bQuote, toks, a, b) == Growth(zSql, zNew, bQuote, toks, m, b)
    decreases m - a
  {
    if a < m <= b { NoGrowth(zSql, zNew, bQuote, toks, a + 1, m, b); }
  }

  lemma InsideToken(toks: seq<RenameToken>, size: nat, i: nat)
    requires Disjoint(toks, size) && i < |toks|
    ensures forall j :: toks[i].z < j < toks[i].z + toks[i].n ==> !StartsAt(toks, j)
    ensures Boundary(toks, toks[i].z) && Boundary(toks, toks[i].z + toks[i].n) && toks[i].n > 0
  {
    forall k | 0 <= k < |toks| ensures k == i || Apart(toks[i], toks[k]) {
    }
  }

  /** Position k of the text goes to k plus the growth before it: a character outside all tokens is
      unchanged there, and a token's replacement starts there. */
  lemma {:induction false} Placed(zSql: string, zNew: string, bQuote: bool, toks: seq<RenameToken>, a: nat, k: nat)
    requires Disjoint(toks, |zSql|) && a <= k < |zSql| && Boundary(toks, a) && Boundary(toks, k)
    ensures var s := Substitute(zSql, zNew, bQuote, toks, a);
            var place := k - a + Growth(zSql, zNew, bQuote, toks, a, k);
            && 0 <= place <= |s|
            && s[place..] == Substitute(zSql, zNew, bQuote, toks, k)
    decreases k - a
  {
    hide Replacement, Disjoint, Apart, Substitute, Growth;
    if a < k {
      SubstituteStep(zSql, zNew, bQuote, toks, a);
      GrowthStep(zSql, zNew, bQuote, toks, a, k);
      if StartsAt(toks, a) {
        var tok := TokenAt(toks, a);
        var i :| 0 <= i < |toks| && toks[i] == tok;
        InsideToken(toks, |zSql|, i);
        assert k <= toks[i].z || toks[i].z + toks[i].n <= k;
        NoGrowth(zSql, zNew, bQuote, toks, a + 1, a + tok.n, k);
        Placed(zSql, zNew, bQuote, toks, a + tok.n, k);
        DropFront(Replacement(zSql, zNew, bQuote, tok), Substitute(zSql, zNew, bQuote, toks, a + tok.n),
                  k - a - tok.n + Growth(zSql, zNew, bQuote, toks, a + tok.n, k));
      } else {
        NextBoundary(toks, a);
        Placed(zSql, zNew, bQuote, toks, a + 1, k);
        DropFront([zSql[a]], Substitute(zSql, zNew, bQuote, toks, a + 1),
                  k - a - 1 + Growth(zSql, zNew, bQuote, toks, a + 1, k));
      }
    } else {
      GrowthEnd(zSql, zNew, bQuote, toks, a, k);
    }
  }

  lemma NextBoundary(toks: seq<RenameToken>, a: nat)
    requires Boundary(toks, a) && !StartsAt(toks, a)
    ensures Boundary(toks, a + 1)
  {
    forall i | 0 <= i < |toks| ensures a + 1 <= toks[i].z || toks[i].z + toks[i].n <= a + 1 {
      assert toks[i].z != a;
    }
  }

  lemma DropFront(x: string, y: string, p: int)
    requires 0 <= p <= |y|
    ensures (x + y)[|x| + p..] == y[p..]
  {
  }

  /** Simultaneous substitution, character by character. */
  lemma PlacedAt(zSql: string, zNew: string, bQuote: bool, toks: seq<RenameToken>, k: nat)
    requires Disjoint(toks, |zSql|) && k < |zSql| && Boundary(toks, k)
    ensures var s := Substitute(zSql, zNew, bQuote, toks, 0);
            var place := k + Growth(zSql, zNew, bQuote, toks, 0, k);
            && 0 <= place <= |s|
            && if StartsAt(toks, k) then Replacement(zSql, zNew, bQuote, TokenAt(toks, k)) <= s[place..]
               else [zSql[k]] <= s[place..]
  {
    Placed(zSql, zNew, bQuote, toks, 0, k);
  }

  /** %w can be undone: the quoted name read back, two double quotes for one. */
  function Undoubled(s: string): string {
    if |s| < 2 then s
    else if s[0] == '"' && s[1] == '"' then ['"'] + Undoubled(s[2..])
    else [s[0]] + Undoubled(s[1..])
  }

  /** The quoted name starts and ends with a quote, and what is between them stands for the name. */
  lemma QuotedShape(s: string)
    ensures var q := Quoted(s);
            |q| >= 2 && q[0] == '"' && q[|q| - 1] == '"' && Undoubled(q[1..|q| - 1]) == s
  {
    QuotedName(s);
    assert Quoted(s)[1..|Quoted(s)| - 1] == Doubled(s);
  }

  lemma {:induction false} QuotedName(s: string)
    ensures Undoubled(Doubled(s)) == s
  {
    if s != "" {
      var rest := Doubled(s[1..]);
      QuotedName(s[1..]);
      if s[0] == '"' {
        assert Doubled(s)[2..] == rest;
      } else {
        assert Doubled(s)[1..] == rest;
        if |Doubled(s)| == 1 { assert rest == ""; }
      }
    }
  }
}
