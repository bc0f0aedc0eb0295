/** Submessages that arrive in pieces: a field whose records are spread over the input ends up as the
    decoding of their payloads put together, from the value it had before the first of them. */
module PbMerge {
  import opened PbWire
  import opened PbCommon
  import opened PbFormat
  import opened PbEvolution
  import opened PbStream

  /** Field k as its records come in: what it started from, and their payloads put together; clean when
      no zero tag ended one of them. */
  datatype Merge = Merge(k: nat, base: Msg, body: Bytes, clean: bool)

  predicate Submessage(f: Field) { f.ltype.LSubmessage? && !f.htype.Repeated? }

  /** A record of submessage k, with s behind its tag. A union that held another arm starts afresh. */
  function Grown(fields: seq<Field>, k: nat, s: Bytes, m: Msg, before: Option<Merge>): Merge
    requires k < |fields| && Submessage(fields[k]) && ReadString(s).Ok?
  {
    var base, bytes := SlotsOf(Prior(fields, k, m)), ReadString(s).value;
    var clean := Clean(fields[k].ltype.fields, bytes, base);
    if before.Some? && before.value.k == k then
      Merge(k, before.value.base, before.value.body + bytes, before.value.clean && clean)
    else Merge(k, base, bytes, clean)
  }

  /** The same for a record of any field k of the message; only those stored where field i lives count. */
  function AfterRecord(fields: seq<Field>, i: nat, k: nat, s: Bytes, m: Msg, before: Option<Merge>): Option<Merge>
    requires i < |fields|
  {
    if k >= |fields| || DataPos(fields, k) != DataPos(fields, i) then before
    else if Submessage(fields[k]) && ReadString(s).Ok? then Some(Grown(fields, k, s, m, before))
    else None
  }

  /** The submessage where field i lives, after all of the input. */
  function Merged(fields: seq<Field>, i: nat, s: Bytes, st: State, before: Option<Merge>): Option<Merge>
    requires i < |fields|
    decreases |s|
  {
    if s == [] then before
    else
      match ReadTag(s)
      case TagFail => before
      case TagEnd(_) => before
      case TagOk(tag, wireType, rest) =>
        match DecodeRecord(fields, tag, wireType, rest, st)
        case Fail => before
        case Ok(st', rest') =>
          Merged(fields, i, rest', st', AfterRecord(fields, i, Find(fields, tag), rest, st.m, before))
  }

  /** The message holds, in field g.k, the decoding of the payloads put together. */
  ghost predicate Shows(fields: seq<Field>, m: Msg, g: Merge) {
    && g.k < |fields| && Submessage(fields[g.k])
    && var f, slot := fields[g.k], Look(fields, g.k, m);
       && (f.htype.Oneof? ==> slot.Union? && slot.which == f.tag)
       && (g.clean && NoFixedCount(f.ltype.fields) ==> Decodes(f.ltype.fields, g.body, g.base, ValueOf(slot)))
  }

  ghost predicate Decodes(sub: seq<Field>, body: Bytes, base: Msg, v: Value) {
    Clean(sub, body, base) && Decode(sub, body, base).Ok? && v == Message(Decode(sub, body, base).value)
  }

  /** Two clean pieces make a clean whole. */
  lemma DecodesBoth(sub: seq<Field>, x: Bytes, y: Bytes, base: Msg, v: Value, v': Value)
    requires NoFixedCount(sub) && Decodes(sub, x, base, v) && Decodes(sub, y, SlotsOf(v), v')
    ensures Decodes(sub, x + y, base, v')
  {
    hide DecodeLoop;
    var st := DecodeLoop(sub, x, Start(base)).value;
    ConcatenationIsMerge(sub, x, y, base);
    LoopConcat(sub, x, y, Start(base));
    LoopNoFixed(sub, x, Start(base));
    assert Start(st.m).(seen := {} + st.seen) == st;
    LoopSeen(sub, y, Start(st.m), st.seen);
  }

  lemma ValueMerges(f: Field, s: Bytes, prior: Value)
    requires Submessage(f) && DecodeValue(f, s, prior).Ok?
    ensures ReadString(s).Ok?
    ensures var r := Decode(f.ltype.fields, ReadString(s).value, SlotsOf(prior));
            r.Ok? && DecodeValue(f, s, prior).value == Message(r.value)
  {
    hide ReadString;
  }

  lemma FieldMerges(fields: seq<Field>, k: nat, wireType: nat, s: Bytes, st: State)
    requires k < |fields| && Submessage(fields[k]) && DecodeField(fields, k, wireType, s, st).Ok?
    ensures var f, slot := fields[k], Look(fields, k, DecodeField(fields, k, wireType, s, st).value.m);
            var v := DecodeValue(f, s, Prior(fields, k, st.m));
            v.Ok? && ValueOf(slot) == v.value && (f.htype.Oneof? ==> slot.Union? && slot.which == f.tag)
  {
    hide DecodeValue, DataPos, Init, InitSlot, ReadString, ZeroValue;
  }

  /** A record of a submessage leaves the decoding of its payload from the value before. */
  lemma RecordMerges(fields: seq<Field>, tag: nat, wireType: nat, s: Bytes, st: State)
    requires ValidSchema(fields) && DecodeRecord(fields, tag, wireType, s, st).Ok?
    requires Find(fields, tag) < |fields| && Submessage(fields[Find(fields, tag)])
    ensures ReadString(s).Ok?
    ensures var k := Find(fields, tag);
            var f, slot := fields[k], Look(fields, k, DecodeRecord(fields, tag, wireType, s, st).value.m);
            var r := Decode(f.ltype.fields, ReadString(s).value, SlotsOf(Prior(fields, k, st.m)));
            && (f.htype.Oneof? ==> slot.Union? && slot.which == f.tag)
            && r.Ok? && ValueOf(slot) == Message(r.value)
  {
    hide ValidSchema, DecodeField, DecodeValue, Decode, Look, Find, RequiredBefore, FixedFull, ReadString, Prior;
    var k := Find(fields, tag);
    var st1 := Arrive(fields, k, st).value;
    FieldMerges(fields, k, wireType, s, st1);
    ValueMerges(fields[k], s, Prior(fields, k, st1.m));
  }

  lemma AfterRecordShows(fields: seq<Field>, i: nat, tag: nat, wireType: nat, s: Bytes, st: State,
                         before: Option<Merge>)
    requires ValidSchema(fields) && i < |fields| && !fields[i].htype.Repeated?
    requires DecodeRecord(fields, tag, wireType, s, st).Ok?
    requires before.Some? ==> Shows(fields, st.m, before.value) && DataPos(fields, before.value.k) == DataPos(fields, i)
    ensures var g, k := AfterRecord(fields, i, Find(fields, tag), s, st.m, before), Find(fields, tag);
            k < |fields| && DataPos(fields, k) == DataPos(fields, i) ==> (g.Some? <==> fields[k].ltype.LSubmessage?)
    ensures var g := AfterRecord(fields, i, Find(fields, tag), s, st.m, before);
            g.Some? ==> && Shows(fields, DecodeRecord(fields, tag, wireType, s, st).value.m, g.value)
                        && DataPos(fields, g.value.k) == DataPos(fields, i)
  {
    hide ValidSchema, DecodeRecord, DataPos, Find, Look, Decodes, Clean, NoFixedCount, Prior, ReadString;
    var k := Find(fields, tag);
    if k < |fields| && DataPos(fields, k) == DataPos(fields, i) {
      if k != i { SharedSlot(fields, k, i); }
      if Submessage(fields[k]) {
        RecordMerges(fields, tag, wireType, s, st);
        GrownShows(fields, k, s, st.m, DecodeRecord(fields, tag, wireType, s, st).value.m, before);
      }
    } else if before.Some? {
      RecordStores(fields, before.value.k, tag, wireType, s, st);
    }
  }

  lemma GrownShows(fields: seq<Field>, k: nat, s: Bytes, m: Msg, m': Msg, before: Option<Merge>)
    requires k < |fields| && Submessage(fields[k]) && ReadString(s).Ok?
    requires before.Some? ==> Shows(fields, m, before.value)
    requires var f, slot := fields[k], Look(fields, k, m');
             var r := Decode(f.ltype.fields, ReadString(s).value, SlotsOf(Prior(fields, k, m)));
             && (f.htype.Oneof? ==> slot.Union? && slot.which == f.tag)
             && r.Ok? && ValueOf(slot) == Message(r.value)
    ensures Shows(fields, m', Grown(fields, k, s, m, before))
  {
    hide Look, Clean, NoFixedCount, ReadString, Decode;
    var g, sub, v := Grown(fields, k, s, m, before), fields[k].ltype.fields, ValueOf(Look(fields, k, m'));
    if g.clean && NoFixedCount(sub) && before.Some? && before.value.k == k {
      DecodesBoth(sub, before.value.body, ReadString(s).value, before.value.base, ValueOf(Look(fields, k, m)), v);
    }
  }

  /** Submessages are merged, for whole inputs: when the last record stored where field i lives is one of
      a submessage, that field holds the decoding of the payloads of its records put together, in a union
      those since another arm was received. */
  lemma {:induction false} SubmessagesMerge(fields: seq<Field>, i: nat, s: Bytes, st: State, before: Option<Merge>)
    requires ValidSchema(fields) && i < |fields| && !fields[i].htype.Repeated? && DecodeLoop(fields, s, st).Ok?
    requires before.Some? ==> Shows(fields, st.m, before.value) && DataPos(fields, before.value.k) == DataPos(fields, i)
    ensures var last, g := LastRecord(fields, i, s, st), Merged(fields, i, s, st, before);
            && (last.None? ==> g == before)
            && (last.Some? ==> (g.Some? <==> fields[last.value.0].ltype.LSubmessage?))
            && (last.Some? && g.Some? ==> g.value.k == last.value.0)
            && (g.Some? ==> Shows(fields, DecodeLoop(fields, s, st).value.m, g.value))
    decreases |s|
  {
    hide DecodeRecord, ReadTag, ValidSchema, Look, DataPos, Find, Shows, Prior, ReadString, Clean;
    if s != [] {
      match ReadTag(s)
      case TagEnd(_) =>
      case TagOk(tag, wireType, rest) =>
        var r := DecodeRecord(fields, tag, wireType, rest, st);
        AfterRecordShows(fields, i, tag, wireType, rest, st, before);
        SubmessagesMerge(fields, i, r.rest, r.value, AfterRecord(fields, i, Find(fields, tag), rest, st.m, before));
    }
  }

  /** Outside a union the pieces start from the value the field had before the input. */
  lemma {:induction false} MergedBase(fields: seq<Field>, i: nat, s: Bytes, st: State, before: Option<Merge>)
    requires ValidSchema(fields) && i < |fields| && Submessage(fields[i]) && !fields[i].htype.Oneof?
    requires DecodeLoop(fields, s, st).Ok? && (before.Some? ==> before.value.k == i)
    ensures var g := Merged(fields, i, s, st, before);
            g.Some? ==> && g.value.k == i
                        && g.value.base == if before.Some? then before.value.base
                                           else SlotsOf(ValueOf(Look(fields, i, st.m)))
    decreases |s|
  {
    hide DecodeRecord, ReadTag, ValidSchema, Look, DataPos, Find, Prior, ReadString, Clean;
    if s != [] {
      match ReadTag(s)
      case TagEnd(_) =>
      case TagOk(tag, wireType, rest) =>
        var r := DecodeRecord(fields, tag, wireType, rest, st);
        BaseStays(fields, i, tag, wireType, rest, st, before);
        MergedBase(fields, i, r.rest, r.value, AfterRecord(fields, i, Find(fields, tag), rest, st.m, before));
    }
  }

  lemma BaseStays(fields: seq<Field>, i: nat, tag: nat, wireType: nat, s: Bytes, st: State, before: Option<Merge>)
    requires ValidSchema(fields) && i < |fields| && Submessage(fields[i]) && !fields[i].htype.Oneof?
    requires DecodeRecord(fields, tag, wireType, s, st).Ok? && (before.Some? ==> before.value.k == i)
    ensures var slot := Look(fields, i, st.m);
            match AfterRecord(fields, i, Find(fields, tag), s, st.m, before)
            case Some(g) => && g.k == i
                            && g.base == if before.Some? then before.value.base else SlotsOf(ValueOf(slot))
            case None =>
              before.None? && Look(fields, i, DecodeRecord(fields, tag, wireType, s, st).value.m) == slot
  {
    hide ValidSchema, DecodeRecord, DataPos, Find, Look, Clean, ReadString;
    var k := Find(fields, tag);
    RecordStores(fields, i, tag, wireType, s, st);
    if k < |fields| && DataPos(fields, k) == DataPos(fields, i) {
      if k != i { SharedSlot(fields, k, i); }
      if Submessage(fields[k]) { RecordMerges(fields, tag, wireType, s, st); }
    }
  }

  /** A submessage outside a union: sent in any number of pieces, none of which a zero tag ends, it is what
      decoding all of them at once from its former value gives. */
  lemma PiecesAreOne(fields: seq<Field>, i: nat, s: Bytes, st: State)
    requires ValidSchema(fields) && i < |fields| && Submessage(fields[i]) && !fields[i].htype.Oneof?
    requires NoFixedCount(fields[i].ltype.fields) && DecodeLoop(fields, s, st).Ok?
    ensures var g := Merged(fields, i, s, st, None);
            var former, now := Look(fields, i, st.m), Look(fields, i, DecodeLoop(fields, s, st).value.m);
            && (LastRecord(fields, i, s, st).Some? <==> g.Some?)
            && (g.None? ==> now == former)
            && (g.Some? && g.value.clean ==>
                  Decodes(fields[i].ltype.fields, g.value.body, SlotsOf(ValueOf(former)), ValueOf(now)))
  {
    hide ValidSchema, DecodeLoop, Look, Merged, LastRecord, DataPos, Clean, NoFixedCount, Decodes, Holds;
    SubmessagesMerge(fields, i, s, st, None);
    MergedBase(fields, i, s, st, None);
    LastRecordWins(fields, i, s, st);
    var last := LastRecord(fields, i, s, st);
    if last.Some? && last.value.0 != i { SharedSlot(fields, last.value.0, i); }
  }

  /** Nothing behind a zero tag is read: a piece with one would cut off all that follow. */
  lemma ZeroTagCuts(sub: seq<Field>, y: Bytes, m: Msg)
    ensures DecodeLoop(sub, [0] + y, Start(m)) == Ok(Start(m).(ended := true), y)
  {
    Varint32RoundTrip(0, y);
    assert Varint(0) == [0];
  }
}
