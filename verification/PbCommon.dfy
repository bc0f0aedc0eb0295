/** Field descriptors, message values and the circular field iterator of pb.h and pb_common.c,
    for statically allocated fields. */
module PbCommon {
  import opened PbWire

  const PB_SIZE_MAX: nat := 0xFF
  const PB_MAX_REQUIRED_FIELDS: nat := 64
  const PB_WT_VARINT: nat := 0
  const PB_WT_64BIT: nat := 1
  const PB_WT_STRING: nat := 2
  const PB_WT_32BIT: nat := 5
  /** The offset of the byte array inside pb_bytes_array_t. */
  const BYTES_OFFSET: nat := 1

  datatype LType =
    | LBool | LVarint | LUVarint | LSVarint | LFixed32 | LFixed64
    | LBytes | LString | LSubmessage(fields: seq<Field>) | LFixedLengthBytes
  {
    /** PB_LTYPE(type) <= PB_LTYPE_LAST_PACKABLE */
    predicate Packable() {
      LBool? || LVarint? || LUVarint? || LSVarint? || LFixed32? || LFixed64?
    }
  }

  datatype HType = Required | Optional | Repeated | Oneof

  /** One pb_field_t. `sizeOffset == 0` marks proto3 singular fields among the optional ones and
      fixed-count arrays among the repeated ones. */
  datatype Field = Field(tag: nat, ltype: LType, htype: HType, dataOffset: nat, sizeOffset: int,
                         dataSize: nat, arraySize: nat, init: Option<Value>)
  {
    predicate Singular() { htype.Optional? && sizeOffset == 0 }
    predicate FixedCount() { htype.Repeated? && sizeOffset == 0 }
  }

  /** The C struct of a message, as a record of slots keyed by the offset of their data. The arms of
      a union share one offset and so one slot. */
  type Msg = map<nat, Slot>

  /** Array items are the entries received so far; a union holds the active arm only. */
  datatype Slot =
    | Single(has: bool, value: Value)
    | Array(items: seq<Value>)
    | Union(which: nat, arm: Value)

  datatype Value = Int(i: int) | Blob(bytes: Bytes) | Message(slots: map<nat, Slot>)

  function IntOf(v: Value): int { if v.Int? then v.i else 0 }
  function BlobOf(v: Value): Bytes { if v.Blob? then v.bytes else [] }
  function SlotsOf(v: Value): Msg { if v.Message? then v.slots else map[] }

  // ----- Where a field lives

  /** A later arm of the union its predecessor belongs to. */
  predicate SameUnion(prev: Field, f: Field) {
    prev.htype.Oneof? && f.htype.Oneof? && f.dataOffset == PB_SIZE_MAX
  }

  function Extent(f: Field): nat {
    if f.htype.Repeated? then f.dataSize * f.arraySize else f.dataSize
  }

  /** The offset of field i's data: a prefix sum over the descriptors. */
  function DataPos(fields: seq<Field>, i: nat): nat
    requires i < |fields|
  {
    if i == 0 then fields[0].dataOffset
    else if SameUnion(fields[i - 1], fields[i]) then DataPos(fields, i - 1)
    else DataPos(fields, i - 1) + Extent(fields[i - 1]) + fields[i].dataOffset
  }

  /** The offset of the has, count or which member; union arms keep that of the first arm. */
  function SizePos(fields: seq<Field>, i: nat): int
    requires i < |fields|
  {
    if i > 0 && SameUnion(fields[i - 1], fields[i]) then SizePos(fields, i - 1)
    else DataPos(fields, i) + fields[i].sizeOffset
  }

  /** The number of required fields before position i. */
  function RequiredBefore(fields: seq<Field>, i: nat): (n: nat)
    requires i <= |fields|
    ensures n <= i
  {
    if i == 0 then 0
    else RequiredBefore(fields, i - 1) + if fields[i - 1].htype.Required? then 1 else 0
  }

  lemma {:induction false} RequiredDistinct(fields: seq<Field>, i: nat, j: nat)
    requires i < j <= |fields| && fields[i].htype.Required?
    ensures RequiredBefore(fields, i) < RequiredBefore(fields, j)
  {
    if i < j - 1 { RequiredDistinct(fields, i, j - 1); }
  }

  /** The position of the field with this tag, or |fields|. */
  function Find(fields: seq<Field>, tag: nat): (i: nat)
    ensures i <= |fields|
    ensures i < |fields| ==> fields[i].tag == tag
    ensures forall k :: 0 <= k < i ==> fields[k].tag != tag
  {
    if fields == [] then 0
    else if fields[0].tag == tag then 0
    else 1 + Find(fields[1..], tag)
  }

  // ----- Well-formed schemas

  predicate ValidType(f: Field) {
    && f.dataSize > 0
    && (f.ltype in {LVarint, LUVarint, LSVarint} ==> f.dataSize in {1, 2, 4, 8})
    && (f.ltype.LFixedLengthBytes? || f.ltype.LBytes? ==> f.dataSize <= PB_SIZE_MAX)
    && (f.htype.Repeated? ==> 0 < f.arraySize <= PB_SIZE_MAX)
    && (f.Singular() ==> f.init.None?)
  }

  /** What protoc and the C compiler establish for a static message type: distinct positive tags,
      supported sizes, and the same for every message type inside. */
  ghost predicate ValidSchema(fields: seq<Field>) {
    && DistinctTags(fields)
    && (forall i :: 0 <= i < |fields| ==> 1 <= fields[i].tag < 0x2000_0000)
    && (forall i :: 0 <= i < |fields| ==> ValidType(fields[i]))
    && (forall i :: 0 <= i < |fields| ==> ValidSub(fields[i]))
  }

  ghost predicate ValidSub(f: Field) {
    f.ltype.LSubmessage? ==> ValidSchema(f.ltype.fields)
  }

  ghost predicate DistinctTags(fields: seq<Field>) {
    forall i, j :: 0 <= i < j < |fields| ==> fields[i].tag != fields[j].tag
  }

  lemma FindAt(fields: seq<Field>, i: nat)
    requires ValidSchema(fields) && i < |fields|
    ensures Find(fields, fields[i].tag) == i
  {
    var k := Find(fields, fields[i].tag);
    if k < i { assert false; }
  }

  /** Offsets never decrease, and two fields start at the same place exactly when they are arms of
      one union. */
  lemma {:induction false} Layout(fields: seq<Field>, i: nat, j: nat)
    requires i < j < |fields|
    requires forall k :: 0 <= k < |fields| ==> ValidType(fields[k])
    ensures DataPos(fields, i) <= DataPos(fields, j)
    ensures DataPos(fields, i) == DataPos(fields, j) <==> forall k :: i < k <= j ==> SameUnion(fields[k - 1], fields[k])
  {
    assert Extent(fields[j - 1]) > 0;
    if i < j - 1 {
      Layout(fields, i, j - 1);
    }
  }

  // ----- Default values

  /** All bytes of the field's storage zero. */
  function ZeroValue(f: Field): Value {
    if f.ltype.LBytes? || f.ltype.LString? then Blob([])
    else if f.ltype.LFixedLengthBytes? then Blob(seq(f.dataSize, _ => 0))
    else if f.ltype.LSubmessage? then Message(map[])
    else Int(0)
  }

  function InitValue(f: Field): Value
    decreases f, 0
  {
    if f.ltype.LSubmessage? then Message(Init(f.ltype.fields))
    else if f.init.Some? then f.init.value
    else ZeroValue(f)
  }

  function InitSlot(f: Field): Slot
    decreases f, 1
  {
    match f.htype
    case Repeated => Array([])
    case Oneof => Union(0, Int(0))
    case _ => Single(false, InitValue(f))
  }

  /** pb_message_set_to_defaults. */
  function Init(fields: seq<Field>): Msg
    decreases fields, 2
  {
    InitFrom(fields, 0)
  }

  function InitFrom(fields: seq<Field>, i: nat): Msg
    requires i <= |fields|
    decreases fields, 1, |fields| - i
  {
    if i == |fields| then map[]
    else InitFrom(fields, i + 1)[DataPos(fields, i) := InitSlot(fields[i])]
  }

  predicate SlotFits(f: Field, slot: Slot) {
    match f.htype
    case Repeated => slot.Array?
    case Oneof => slot.Union?
    case _ => slot.Single?
  }

  /** The slot at an offset of the struct; a struct always has one of the right kind. */
  function SlotAt(m: Msg, pData: nat, f: Field): (slot: Slot)
    ensures SlotFits(f, slot)
  {
    if pData in m && SlotFits(f, m[pData]) then m[pData] else InitSlot(f)
  }

  /** The slot of field i. */
  function Look(fields: seq<Field>, i: nat, m: Msg): (slot: Slot)
    requires i < |fields|
    ensures SlotFits(fields[i], slot)
  {
    SlotAt(m, DataPos(fields, i), fields[i])
  }

  lemma SharedSlot(fields: seq<Field>, i: nat, j: nat)
    requires ValidSchema(fields) && i < |fields| && j < |fields| && i != j
    requires DataPos(fields, i) == DataPos(fields, j)
    ensures fields[i].htype.Oneof? && fields[j].htype.Oneof?
  {
    var lo, hi := if i < j then i else j, if i < j then j else i;
    Layout(fields, lo, hi);
    assert SameUnion(fields[hi - 1], fields[hi]);
    assert SameUnion(fields[lo], fields[lo + 1]);
  }

  lemma {:induction false} LookInitFrom(fields: seq<Field>, i: nat, j: nat)
    requires ValidSchema(fields) && i <= j < |fields|
    ensures DataPos(fields, j) in InitFrom(fields, i)
    ensures InitFrom(fields, i)[DataPos(fields, j)] == InitSlot(fields[j])
    decreases j - i
  {
    if i < j {
      LookInitFrom(fields, i + 1, j);
      if DataPos(fields, i) == DataPos(fields, j) { SharedSlot(fields, i, j); }
    }
  }

  lemma LookInit(fields: seq<Field>, j: nat)
    requires ValidSchema(fields) && j < |fields|
    ensures Look(fields, j, Init(fields)) == InitSlot(fields[j])
  {
    LookInitFrom(fields, 0, j);
  }

  // ----- The iterator

  /** What pSize points to: a member of the struct, or the counter that pb_decode_noinit keeps for
      fixed-count fields. */
  datatype SizeRef = Member(offset: int) | Counter

  /** pb_field_iter_t. The sequence stands for the descriptor array without its terminator, which the
      iterator meets only when the message type is empty. */
  class FieldIter {
    const fields: seq<Field>
    var pos: nat
    var requiredFieldIndex: nat
    var pData: nat
    var pSize: SizeRef

    /** Everything but the position is a function of the position; the decoder redirects pSize at a
        fixed-count field until the iterator moves. */
    ghost predicate Valid()
      reads this
    {
      if fields == [] then pos == 0 && requiredFieldIndex == 0 && pData == 0 && pSize == Member(0)
      else
        && pos < |fields|
        && requiredFieldIndex == RequiredBefore(fields, pos)
        && pData == DataPos(fields, pos)
        && (pSize == Member(SizePos(fields, pos)) || (pSize.Counter? && fields[pos].FixedCount()))
    }

    /** pb_field_iter_begin; the terminator of an empty type has zero offsets. */
    constructor (fields: seq<Field>)
      ensures this.fields == fields && Valid() && pos == 0 && pSize.Member?
    {
      this.fields := fields;
      pos := 0;
      requiredFieldIndex := 0;
      pData := if fields == [] then 0 else fields[0].dataOffset;
      pSize := Member(if fields == [] then 0 else fields[0].dataOffset + fields[0].sizeOffset);
    }

    method Begin() returns (nonEmpty: bool)
      modifies this
      ensures Valid() && pos == 0 && pSize.Member?
      ensures nonEmpty <==> fields != []
    {
      pos := 0;
      requiredFieldIndex := 0;
      pData := if fields == [] then 0 else fields[0].dataOffset;
      pSize := Member(if fields == [] then 0 else fields[0].dataOffset + fields[0].sizeOffset);
      nonEmpty := fields != [];
    }

    /** pb_field_iter_next: wraps around to the first field and says so. */
    method Next() returns (more: bool)
      requires Valid()
      modifies this
      ensures Valid() && pSize.Member?
      ensures more <==> old(pos) + 1 < |fields|
      ensures pos == if more then old(pos) + 1 else 0
    {
      if fields == [] { return false; }
      var prev := fields[pos];
      pos := pos + 1;
      if pos == |fields| {
        var _ := Begin();
        return false;
      }
      if SameUnion(prev, fields[pos]) { return true; }
      var prevSize := prev.dataSize;
      if prev.htype.Repeated? { prevSize := prevSize * prev.arraySize; }
      if prev.htype.Required? { requiredFieldIndex := requiredFieldIndex + 1; }
      pData := pData + prevSize + fields[pos].dataOffset;
      pSize := Member(pData + fields[pos].sizeOffset);
      return true;
    }

    /** pb_field_iter_find: at most one lap, starting at the current field. The terminator of an
        empty type matches tag 0. */
    method Find(tag: nat) returns (found: bool)
      requires Valid()
      modifies this
      ensures Valid()
      ensures fields != [] ==> (found <==> exists k :: 0 <= k < |fields| && fields[k].tag == tag)
      ensures fields == [] ==> (found <==> tag == 0)
      ensures found && fields != [] ==> fields[pos].tag == tag
      ensures found && old(pos) <= pos ==> forall k :: old(pos) <= k < pos ==> fields[k].tag != tag
      ensures found && pos < old(pos) ==>
                forall k :: 0 <= k < pos || old(pos) <= k < |fields| ==> fields[k].tag != tag
      ensures !found ==> pos == old(pos)
      ensures pSize.Counter? ==> old(pSize.Counter?) && pos == old(pos)
    {
      if fields == [] { return tag == 0; }
      var start := pos;
      ghost var steps := 0;
      while true
        invariant Valid() && steps < |fields| && (if steps == 0 then pSize == old(pSize) else pSize.Member?)
        invariant pos == if start + steps < |fields| then start + steps else start + steps - |fields|
        invariant start + steps < |fields| ==> forall k :: start <= k < pos ==> fields[k].tag != tag
        invariant start + steps >= |fields| ==>
                    forall k :: 0 <= k < pos || start <= k < |fields| ==> fields[k].tag != tag
        decreases |fields| - steps
      {
        if fields[pos].tag == tag { return true; }
        var _ := Next();
        steps := steps + 1;
        if pos == start { return false; }
      }
    }
  }
}
