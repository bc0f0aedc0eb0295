/** The token lists of alter.c and the editor that replaces their tokens in place, from the right-most
    to the left-most one, in a buffer whose size was computed beforehand. */
module Rename {
  import opened Arith
  import opened RenameSpec

  /** RenameCtx: the tokens collected for one edit. */
  class RenameCtx {
    var pList: seq<RenameToken>
    var nList: nat

    constructor ()
      ensures pList == [] && nList == 0
    {
      pList, nList := [], 0;
    }

    /** renameColumnTokenNext: the right-most token, which comes first whatever the order of the list. */
    method RenameColumnTokenNext() returns (best: RenameToken, ghost at: nat)
      requires pList != []
      modifies this`pList
      ensures at < |old(pList)| && best == old(pList)[at]
      ensures pList == old(pList)[..at] + old(pList)[at + 1..]
      ensures forall i :: 0 <= i < |old(pList)| ==> old(pList)[i].z <= best.z
    {
      best := pList[0];
      ghost var b := 0;
      var i := 1;
      while i < |pList|
        invariant 1 <= i <= |pList| && b < i && best == pList[b]
        invariant forall j :: 0 <= j < i ==> pList[j].z <= best.z
      {
        if pList[i].z > best.z {
          best := pList[i];
          b := i;
        }
        i := i + 1;
      }
      var pp := 0;
      while pList[pp] != best
        invariant 0 <= pp <= b
        decreases b - pp
      {
        pp := pp + 1;
      }
      at := pp;
      pList := pList[..pp] + pList[pp + 1..];
    }

    /** renameColumnTokenNext until the list is empty. */
    method TakeAll() returns (order: seq<RenameToken>)
      modifies this`pList
      ensures pList == [] && Drained(old(pList), order)
      decreases |pList|
    {
      if pList == [] { return []; }
      ghost var list := pList;
      var best, at := RenameColumnTokenNext();
      ghost var rest := pList;
      var others := TakeAll();
      order := [best] + others;
      assert order[1..] == others && order[0] == best;
      assert TakenAt(list, at, order[0], rest) && Drained(rest, order[1..]);
    }
  }

  // ----- The list of the parser: which token each parse tree element came from

  datatype Found = Missing | Token(z: nat, n: nat)

  /** The token that element q came from. */
  function Lookup(list: seq<RenameToken>, q: nat): Found {
    if list == [] then Missing
    else if list[0].p == q then Token(list[0].z, list[0].n)
    else Lookup(list[1..], q)
  }

  /** No element is listed twice; element 0 stands for none. */
  ghost predicate Distinct(list: seq<RenameToken>) {
    forall i, j :: 0 <= i < j < |list| && list[i].p != 0 ==> list[i].p != list[j].p
  }

  /** sqlite3RenameTokenRemap on the list. */
  function Remapped(list: seq<RenameToken>, to: nat, from: nat): (r: seq<RenameToken>)
    ensures |r| == |list|
  {
    if list == [] then []
    else if list[0].p == from then [list[0].(p := to)] + list[1..]
    else [list[0]] + Remapped(list[1..], to, from)
  }

  /** renameTokenFind: where the element is listed, the length of the list when it is not. */
  function Position(list: seq<RenameToken>, q: nat): (i: nat)
    ensures i <= |list| && (i < |list| ==> list[i].p == q)
    ensures forall j :: 0 <= j < i ==> list[j].p != q
  {
    if list == [] || list[0].p == q then 0 else 1 + Position(list[1..], q)
  }

  lemma {:induction false} LookupAt(list: seq<RenameToken>, q: nat)
    ensures var i := Position(list, q);
            Lookup(list, q) == if i < |list| then Token(list[i].z, list[i].n) else Missing
  {
    if list != [] && list[0].p != q { LookupAt(list[1..], q); }
  }

  /** After a remap the new element has the token of the old one, and all others have theirs. */
  lemma {:induction false} RemapLookup(list: seq<RenameToken>, to: nat, from: nat, q: nat)
    requires Distinct(list) && from != 0 && q != 0 && to != from
    requires to != 0 ==> Lookup(list, to) == Missing
    ensures Lookup(Remapped(list, to, from), q)
            == if q == from then Missing
               else if q == to && Lookup(list, from) != Missing then Lookup(list, from)
               else Lookup(list, q)
  {
    if list != [] {
      var rest := list[1..];
      assert Distinct(rest);
      if list[0].p == from {
        NotAgain(list);
      } else {
        RemapLookup(rest, to, from, q);
      }
    }
  }

  lemma NotAgain(list: seq<RenameToken>)
    requires Distinct(list) && list != [] && list[0].p != 0
    ensures Lookup(list[1..], list[0].p) == Missing
  {
    var rest := list[1..];
    LookupAt(rest, list[0].p);
    forall i | 0 <= i < |rest| ensures rest[i].p != list[0].p {
      assert rest[i] == list[i + 1];
    }
  }

  /** Every operation keeps the elements distinct. */
  lemma {:induction false} RemapDistinct(list: seq<RenameToken>, to: nat, from: nat)
    requires Distinct(list) && (to != 0 ==> Lookup(list, to) == Missing)
    ensures Distinct(Remapped(list, to, from))
  {
    var k, r := Position(list, from), Remapped(list, to, from);
    RemappedAt(list, to, from);
    if to != 0 { LookupAt(list, to); }
  }

  lemma {:induction false} RemappedAt(list: seq<RenameToken>, to: nat, from: nat)
    ensures var k := Position(list, from);
            Remapped(list, to, from) == if k < |list| then list[k := list[k].(p := to)] else list
  {
    if list != [] && list[0].p != from { RemappedAt(list[1..], to, from); }
  }

  lemma Moved(from: seq<RenameToken>, to: seq<RenameToken>, i: nat)
    requires i < |from|
    ensures multiset(from[..i] + from[i + 1..]) + multiset([from[i]] + to) == multiset(from) + multiset(to)
  {
    assert from == from[..i] + [from[i]] + from[i + 1..];
  }

  /** Parse.pRename */
  class RenameList {
    var pRename: seq<RenameToken>

    constructor ()
      ensures pRename == []
    {
      pRename := [];
    }

    /** sqlite3RenameTokenMap */
    method TokenMap(ptr: nat, z: nat, n: nat)
      modifies this
      ensures pRename == [RenameToken(ptr, z, n)] + old(pRename)
      ensures Lookup(pRename, ptr) == Token(z, n)
      ensures forall q :: q != ptr ==> Lookup(pRename, q) == Lookup(old(pRename), q)
      ensures Distinct(old(pRename)) && (ptr == 0 || Lookup(old(pRename), ptr) == Missing) ==> Distinct(pRename)
    {
      LookupAt(pRename, ptr);
      ghost var was := pRename;
      pRename := [RenameToken(ptr, z, n)] + pRename;
      assert pRename[1..] == was;
    }

    /** sqlite3RenameTokenRemap */
    method TokenRemap(to: nat, from: nat)
      modifies this
      ensures pRename == Remapped(old(pRename), to, from)
    {
      RemappedAt(pRename, to, from);
      var i := 0;
      while i < |pRename|
        invariant 0 <= i <= Position(pRename, from) && pRename == old(pRename)
      {
        if pRename[i].p == from {
          pRename := pRename[i := pRename[i].(p := to)];
          return;
        }
        i := i + 1;
      }
    }

    /** renameTokenFind: the token of an element moves to the front of the context's list. */
    method TokenFind(pCtx: RenameCtx, ptr: nat)
      requires ptr != 0
      modifies this, pCtx
      ensures var k := Position(old(pRename), ptr);
              if k < |old(pRename)| then
                && pRename == old(pRename)[..k] + old(pRename)[k + 1..]
                && pCtx.pList == [old(pRename)[k]] + old(pCtx.pList) && pCtx.nList == old(pCtx.nList) + 1
              else pRename == old(pRename) && pCtx.pList == old(pCtx.pList) && pCtx.nList == old(pCtx.nList)
      ensures multiset(pRename) + multiset(pCtx.pList) == multiset(old(pRename)) + multiset(old(pCtx.pList))
      ensures old(pCtx.nList) == |old(pCtx.pList)| ==> pCtx.nList == |pCtx.pList|
    {
      var i := 0;
      while i < |pRename|
        invariant 0 <= i <= Position(pRename, ptr)
        invariant pRename == old(pRename) && pCtx.pList == old(pCtx.pList) && pCtx.nList == old(pCtx.nList)
      {
        if pRename[i].p == ptr {
          Moved(pRename, pCtx.pList, i);
          pCtx.pList := [pRename[i]] + pCtx.pList;
          pCtx.nList := pCtx.nList + 1;
          pRename := pRename[..i] + pRename[i + 1..];
          return;
        }
        i := i + 1;
      }
    }
  }

  /** The text from position k on is in its final form, and no remaining token reaches beyond it. */
  ghost predicate DoneFrom(zSql: string, zNew: string, bQuote: bool, toks: seq<RenameToken>,
                           left: seq<RenameToken>, out: string, k: nat)
    requires Disjoint(toks, |zSql|)
  {
    && k <= |zSql| && out == zSql[..k] + Substitute(zSql, zNew, bQuote, toks, k)
    && (forall i :: 0 <= i < |left| ==> left[i] in toks && left[i].z + left[i].n <= k)
    && (forall i :: 0 <= i < |toks| ==> toks[i] in left || toks[i].z >= k)
  }

  /** One replacement in the text. */
  function Spliced(out: string, tok: RenameToken, s: string): string
    requires tok.z + tok.n <= |out|
  {
    out[..tok.z] + s + out[tok.z + tok.n..]
  }

  /** Replacing the right-most remaining token moves the finished part down to it. */
  lemma SpliceDone(zSql: string, zNew: string, bQuote: bool, toks: seq<RenameToken>,
                   left: seq<RenameToken>, out: string, k: nat, at: nat)
    requires Disjoint(toks, |zSql|) && Disjoint(left, |zSql|) && DoneFrom(zSql, zNew, bQuote, toks, left, out, k)
    requires at < |left| && forall i :: 0 <= i < |left| ==> left[i].z <= left[at].z
    ensures var tok := left[at];
            && tok.z + tok.n <= |out|
            && DoneFrom(zSql, zNew, bQuote, toks, left[..at] + left[at + 1..],
                        Spliced(out, tok, Replacement(zSql, zNew, bQuote, tok)), tok.z)
  {
    LeftBehind(left, |zSql|, at);
    TextDone(zSql, zNew, bQuote, toks, left, out, k, at);
    hide Disjoint, Substitute, Apart;
    var tok, rest := left[at], left[..at] + left[at + 1..];
    forall j | 0 <= j < |toks| ensures toks[j] in rest || toks[j].z >= tok.z {
      if toks[j] in left {
        var l :| 0 <= l < |left| && left[l] == toks[j];
        if l != at { assert left[l] == rest[if l < at then l else l - 1]; }
      }
    }
    forall i | 0 <= i < |rest| ensures rest[i] in toks {
      assert rest[i] in left;
      var l :| 0 <= l < |left| && left[l] == rest[i];
    }
  }

  lemma TextDone(zSql: string, zNew: string, bQuote: bool, toks: seq<RenameToken>,
                 left: seq<RenameToken>, out: string, k: nat, at: nat)
    requires Disjoint(toks, |zSql|) && Disjoint(left, |zSql|) && DoneFrom(zSql, zNew, bQuote, toks, left, out, k)
    requires at < |left| && forall i :: 0 <= i < |left| ==> left[i].z <= left[at].z
    ensures var tok := left[at];
            && tok.z + tok.n <= k <= |out|
            && Spliced(out, tok, Replacement(zSql, zNew, bQuote, tok))
               == zSql[..tok.z] + Substitute(zSql, zNew, bQuote, toks, tok.z)
  {
    hide Disjoint, Substitute, Replacement, StartsAt, Spliced, DoneFrom;
    var tok := left[at];
    var next := tok.z + tok.n;
    NextIs(zSql, zNew, bQuote, toks, left, out, k, at);
    Copied(zSql, zNew, bQuote, toks, next, k);
    SplicedIs(zSql, out, k, Substitute(zSql, zNew, bQuote, toks, k), tok, Replacement(zSql, zNew, bQuote, tok));
    SubstituteStep(zSql, zNew, bQuote, toks, tok.z);
    Regroup(zSql[..tok.z], Replacement(zSql, zNew, bQuote, tok), Substitute(zSql, zNew, bQuote, toks, next));
  }

  /** The token is the one that starts there, and none starts between it and the finished part. */
  lemma NextIs(zSql: string, zNew: string, bQuote: bool, toks: seq<RenameToken>,
               left: seq<RenameToken>, out: string, k: nat, at: nat)
    requires Disjoint(toks, |zSql|) && Disjoint(left, |zSql|) && DoneFrom(zSql, zNew, bQuote, toks, left, out, k)
    requires at < |left| && forall i :: 0 <= i < |left| ==> left[i].z <= left[at].z
    ensures k <= |zSql| && out == zSql[..k] + Substitute(zSql, zNew, bQuote, toks, k)
    ensures left[at].n > 0 && left[at].z + left[at].n <= k
    ensures StartsAt(toks, left[at].z) && TokenAt(toks, left[at].z) == left[at]
    ensures forall j :: left[at].z + left[at].n <= j < k ==> !StartsAt(toks, j)
  {
    hide Substitute, StartsAt;
    assert left[at] in toks;
    var i :| 0 <= i < |toks| && toks[i] == left[at];
    TokenAtIs(toks, |zSql|, i);
    forall j | left[at].z + left[at].n <= j < k ensures !StartsAt(toks, j) {
      NoneBetween(zSql, toks, left, at, k, j);
    }
  }

  lemma SplicedIs(zSql: string, out: string, k: nat, tail: string, tok: RenameToken, s: string)
    requires tok.z + tok.n <= k <= |zSql| && out == zSql[..k] + tail
    ensures Spliced(out, tok, s) == zSql[..tok.z] + s + (zSql[tok.z + tok.n..k] + tail)
  {
    assert out[..tok.z] == zSql[..tok.z];
    assert out[tok.z + tok.n..] == zSql[tok.z + tok.n..k] + tail;
  }

  lemma NoneBetween(zSql: string, toks: seq<RenameToken>, left: seq<RenameToken>, at: nat, k: nat, j: nat)
    requires at < |left| && left[at].z + left[at].n <= j < k && left[at].n > 0
    requires forall i :: 0 <= i < |left| ==> left[i].z <= left[at].z
    requires forall i :: 0 <= i < |toks| ==> toks[i] in left || toks[i].z >= k
    ensures !StartsAt(toks, j)
  {
    forall i | 0 <= i < |toks| ensures toks[i].z != j {
      if toks[i] in left {
        var l :| 0 <= l < |left| && left[l] == toks[i];
      }
    }
  }

  lemma LeftBehind(left: seq<RenameToken>, size: nat, at: nat)
    requires Disjoint(left, size) && at < |left| && forall i :: 0 <= i < |left| ==> left[i].z <= left[at].z
    ensures var rest := left[..at] + left[at + 1..];
            && Disjoint(rest, size)
            && forall i :: 0 <= i < |rest| ==> rest[i] in left && rest[i].z + rest[i].n <= left[at].z
  {
    var rest := left[..at] + left[at + 1..];
    assert forall i :: 0 <= i < |rest| ==> rest[i] == left[if i < at then i else i + 1];
    forall i | 0 <= i < |rest| ensures rest[i] in left && rest[i].z + rest[i].n <= left[at].z {
      assert Apart(left[if i < at then i else i + 1], left[at]);
    }
    DisjointRest(left, at, size);
  }

  /** renameEditSql: the buffer of nSql + nList * nQuot + 1 bytes always suffices, and the result is the
      simultaneous substitution. */
  method RenameEditSql(pRename: RenameCtx, zSql: string, zNew0: string, bQuote: bool) returns (result: string)
    requires Disjoint(pRename.pList, |zSql|) && pRename.nList == |pRename.pList|
    requires '\0' !in zSql && '\0' !in zNew0
    modifies pRename`pList
    ensures pRename.pList == []
    ensures result == Substitute(zSql, zNew0, bQuote, old(pRename.pList), 0)
  {
    hide Substitute, Disjoint, Replacement, DoneFrom, Quoted, Room;
    var zNew := zNew0;
    var nSql := |zSql|;
    var zQuot := Quoted(zNew0);
    var nQuot := |zQuot|;
    if bQuote { zNew := zQuot; }
    assert nQuot >= |zNew|;
    var size := nSql + Room(pRename.nList, nQuot) + 1;
    var zOut := new char[size](_ => '\0');
    MemCopy(zOut, 0, zSql);
    var nOut: nat := nSql;
    ghost var toks: seq<RenameToken> := pRename.pList;
    ghost var k: nat := nSql;
    assert zOut[..nOut] == zSql;
    Started(zSql, zNew0, bQuote, toks);
    while pRename.pList != []
      invariant nOut + Room(|pRename.pList|, nQuot) < zOut.Length && zOut[nOut] == '\0'
      invariant Disjoint(toks, |zSql|) && Disjoint(pRename.pList, |zSql|)
      invariant DoneFrom(zSql, zNew0, bQuote, toks, pRename.pList, zOut[..nOut], k)
      decreases |pRename.pList|
    {
      nOut, k := ReplaceNext(pRename, zSql, zNew0, bQuote, zNew, zQuot, zOut, nOut, toks, k);
    }
    Finished(zSql, zNew0, bQuote, toks, zOut[..nOut], k);
    SubstituteText(zSql, zNew0, bQuote, toks, 0);
    assert zOut[..][..nOut] == zOut[..nOut];
    CTextIs(zOut[..], nOut);
    result := TextOf(zOut);
  }

  /** sqlite3_result_text with length -1: the buffer up to its first NUL. */
  method TextOf(zOut: array<char>) returns (s: string)
    ensures s == CText(zOut[..])
  {
    s := "";
    var i := 0;
    while i < zOut.Length && zOut[i] != '\0'
      invariant 0 <= i <= zOut.Length
      invariant CText(zOut[..]) == s + CText(zOut[i..])
    {
      assert zOut[i..][1..] == zOut[i + 1..];
      s := s + [zOut[i]];
      i := i + 1;
    }
  }

  /** The body of the loop of renameEditSql. */
  method ReplaceNext(pRename: RenameCtx, zSql: string, zNew0: string, bQuote: bool, zNew: string, zQuot: string,
                     zOut: array<char>, nOut: nat, ghost toks: seq<RenameToken>, ghost k: nat)
    returns (nOut': nat, ghost k': nat)
    requires Disjoint(toks, |zSql|) && Disjoint(pRename.pList, |zSql|) && pRename.pList != []
    requires zQuot == Quoted(zNew0) && zNew == if bQuote then zQuot else zNew0
    requires nOut + Room(|pRename.pList|, |zQuot|) < zOut.Length && zOut[nOut] == '\0'
    requires DoneFrom(zSql, zNew0, bQuote, toks, pRename.pList, zOut[..nOut], k)
    modifies pRename`pList, zOut
    ensures |pRename.pList| == |old(pRename.pList)| - 1 && Disjoint(pRename.pList, |zSql|)
    ensures nOut' + Room(|pRename.pList|, |zQuot|) < zOut.Length && zOut[nOut'] == '\0'
    ensures DoneFrom(zSql, zNew0, bQuote, toks, pRename.pList, zOut[..nOut'], k')
  {
    hide Substitute, Disjoint, Replacement, DoneFrom, Quoted, Room;
    ghost var left, out := pRename.pList, zOut[..nOut];
    var best, at := pRename.RenameColumnTokenNext();
    SpliceDone(zSql, zNew0, bQuote, toks, left, out, k, at);
    LeftBehind(left, |zSql|, at);
    InText(left, |zSql|, at);
    RoomForOne(|left|, |zQuot|);
    var zReplace := zNew;
    if !IsIdChar(zSql[best.z]) { zReplace := zQuot; }
    assert zReplace == Replacement(zSql, zNew0, bQuote, best) by { ReplacementIs(zSql, zNew0, bQuote, best); }
    nOut' := Splice(zOut, nOut, best, zReplace);
    k' := best.z;
  }

  /** At first everything is still to be done. */
  lemma Started(zSql: string, zNew: string, bQuote: bool, toks: seq<RenameToken>)
    requires Disjoint(toks, |zSql|)
    ensures DoneFrom(zSql, zNew, bQuote, toks, toks, zSql, |zSql|)
  {
    assert zSql[..|zSql|] + "" == zSql;
  }

  lemma InText(left: seq<RenameToken>, size: nat, at: nat)
    requires Disjoint(left, size) && at < |left|
    ensures left[at].z < size && left[at].n > 0
  {
  }

  lemma ReplacementIs(zSql: string, zNew: string, bQuote: bool, tok: RenameToken)
    requires tok.z < |zSql|
    ensures Replacement(zSql, zNew, bQuote, tok)
            == if IsIdChar(zSql[tok.z]) then (if bQuote then Quoted(zNew) else zNew) else Quoted(zNew)
  {
  }

  /** The bytes set aside for the growth of k tokens. */
  function Room(k: nat, nQuot: nat): nat {
    k * nQuot
  }

  lemma RoomForOne(k: nat, nQuot: nat)
    requires k > 0
    ensures Room(k, nQuot) == Room(k - 1, nQuot) + nQuot
  {
    Distribute(nQuot, k - 1, 1);
  }

  /** With no token left, everything is in its final form. */
  lemma Finished(zSql: string, zNew: string, bQuote: bool, toks: seq<RenameToken>, out: string, k: nat)
    requires Disjoint(toks, |zSql|) && DoneFrom(zSql, zNew, bQuote, toks, [], out, k)
    ensures out == Substitute(zSql, zNew, bQuote, toks, 0)
  {
    forall j | 0 <= j < k ensures !StartsAt(toks, j) {
      forall i | 0 <= i < |toks| ensures toks[i].z != j {
      }
    }
    Copied(zSql, zNew, bQuote, toks, 0, k);
    assert zSql[0..k] == zSql[..k];
  }

  /** The body of the loop of renameEditSql: memmove of what follows the token, when the length changes,
      then memcpy of the replacement. */
  method Splice(zOut: array<char>, nOut: nat, tok: RenameToken, zReplace: string) returns (nOut': nat)
    requires tok.z + tok.n <= nOut < zOut.Length && nOut + |zReplace| < zOut.Length && zOut[nOut] == '\0'
    modifies zOut
    ensures nOut' == nOut + |zReplace| - tok.n
    ensures nOut' < zOut.Length && zOut[nOut'] == '\0'
    ensures zOut[..nOut'] == Spliced(old(zOut[..nOut]), tok, zReplace)
  {
    ghost var z0 := zOut[..];
    nOut' := MoveTail(zOut, nOut, tok, |zReplace|);
    ghost var z2 := zOut[..];
    assert z2[tok.z + |zReplace|..nOut'] == zOut[tok.z + |zReplace|..nOut'] && z2[..tok.z] == zOut[..tok.z];
    MemCopy(zOut, tok.z, zReplace);
    CopiedOver(z0, z2, zOut[..], nOut, nOut', tok, zReplace);
    assert zOut[..][..nOut'] == zOut[..nOut'] && z0[..nOut] == old(zOut[..nOut]);
  }

  /** What follows the token is moved to where it belongs when the length changes. */
  method MoveTail(zOut: array<char>, nOut: nat, tok: RenameToken, nReplace: nat) returns (nOut': nat)
    requires tok.z + tok.n <= nOut < zOut.Length && nOut + nReplace < zOut.Length && zOut[nOut] == '\0'
    modifies zOut
    ensures nOut' == nOut + nReplace - tok.n && nOut' < zOut.Length && zOut[nOut'] == '\0'
    ensures zOut[..tok.z] == old(zOut[..tok.z])
    ensures zOut[tok.z + nReplace..nOut'] == old(zOut[tok.z + tok.n..nOut])
  {
    nOut' := nOut;
    if tok.n != nReplace {
      ghost var z0 := zOut[..];
      MemMove(zOut, tok.z + nReplace, tok.z + tok.n, nOut - (tok.z + tok.n));
      nOut' := nOut + nReplace - tok.n;
      ghost var z1 := zOut[..];
      zOut[nOut'] := '\0';
      MovedOver(z0, z1, zOut[..], nOut, nOut', tok.z + nReplace, tok.z + tok.n);
      assert zOut[..][..tok.z] == zOut[..tok.z] && z0[..tok.z] == old(zOut[..tok.z]);
      assert zOut[..][tok.z + nReplace..nOut'] == zOut[tok.z + nReplace..nOut'];
    }
  }

  lemma MovedOver(z0: string, z1: string, z2: string, nOut: nat, nOut': nat, to: nat, from: nat)
    requires from <= nOut <= |z0| == |z1| && nOut' == to + (nOut - from) < |z1|
    requires z1 == z0[..to] + z0[from..nOut] + z0[nOut'..] && z2 == z1[nOut' := '\0']
    ensures z2[to..nOut'] == z0[from..nOut] && forall k :: 0 <= k <= to && k <= nOut' ==> z2[..k] == z0[..k]
  {
    assert z1[to..nOut'] == z0[from..nOut];
    assert z2[..nOut'] == z1[..nOut'];
  }

  lemma CopiedOver(z0: string, z2: string, z3: string, nOut: nat, nOut': nat, tok: RenameToken, s: string)
    requires tok.z + tok.n <= nOut <= |z0| && nOut' == nOut + |s| - tok.n <= |z2|
    requires z2[tok.z + |s|..nOut'] == z0[tok.z + tok.n..nOut] && z2[..tok.z] == z0[..tok.z]
    requires z3 == z2[..tok.z] + s + z2[tok.z + |s|..]
    ensures z3[..nOut'] == Spliced(z0[..nOut], tok, s)
  {
    assert z3[..nOut'] == z2[..tok.z] + s + z2[tok.z + |s|..nOut'];
    assert z0[..nOut][..tok.z] == z0[..tok.z] && z0[..nOut][tok.z + tok.n..] == z0[tok.z + tok.n..nOut];
  }

  method MemCopy(zOut: array<char>, at: nat, s: string)
    requires at + |s| <= zOut.Length
    modifies zOut
    ensures zOut[..] == old(zOut[..at]) + s + old(zOut[at + |s|..])
  {
    forall i | 0 <= i < |s| { zOut[at + i] := s[i]; }
  }

  /** memmove: the areas may overlap. */
  method MemMove(zOut: array<char>, to: nat, from: nat, n: nat)
    requires to + n <= zOut.Length && from + n <= zOut.Length
    modifies zOut
    ensures zOut[..] == old(zOut[..to]) + old(zOut[from..from + n]) + old(zOut[to + n..])
  {
    forall i | 0 <= i < n { zOut[to + i] := zOut[from + i]; }
  }
}
