/** What the data field of a log record holds: values, rows and one payload per operation. */
module Payloads {
  import opened Keys
  import opened Binary
  import opened Wrappers
  import opened Formats
  import opened OrderedMaps

  /** A column's value as it is stored: doubles are bit patterns, strings are bytes. */
  datatype Value = Null | Int64(n: Signed) | Float64(bits: Pattern64) | Bool(b: bool) | String(s: Bytes)

  type Row = Dict<Value>

  datatype Column = Column(name: Bytes, typeId: Byte, nullable: bool, primaryKey: bool)

  datatype Insert = Insert(rowid: Signed, row: Row)

  datatype Update = Update(rowid: Signed, updates: Row, newRow: Row)

  datatype Delete = Delete(rowid: Signed, hasXmax: bool, xmax: nat)

  // ---------- values ----------

  function TagOf(v: Value): Byte {
    match v
    case Null => 0
    case Int64(_) => 1
    case Float64(_) => 2
    case Bool(_) => 3
    case String(_) => 4
  }

  function ToInt64(n: Signed): Option<Value> { Some(Int64(n)) }
  function OfInt64(v: Value): Signed { if v.Int64? then v.n else 0 }
  predicate IsInt64(v: Value) { v.Int64? }

  function ToFloat64(bits: Pattern64): Option<Value> { Some(Float64(bits)) }
  function OfFloat64(v: Value): Pattern64 { if v.Float64? then v.bits else 0 }
  predicate IsFloat64(v: Value) { v.Float64? }

  function ToBool(b: bool): Option<Value> { Some(Bool(b)) }
  function OfBool(v: Value): bool { v.Bool? && v.b }
  predicate IsBool(v: Value) { v.Bool? }

  function ToString(s: Bytes): Option<Value> { Some(String(s)) }
  function OfString(v: Value): Bytes { if v.String? then v.s else [] }
  predicate IsString(v: Value) { v.String? }

  /** How a value with the given tag is written after it. */
  function ValueArm(tag: Byte): Option<Format<Value>> {
    if tag == 0 then Some(Nothing(Null))
    else if tag == 1 then Some(Via(Signed64(), ToInt64, OfInt64, IsInt64))
    else if tag == 2 then Some(Via(Word64(), ToFloat64, OfFloat64, IsFloat64))
    else if tag == 3 then Some(Via(Flag(), ToBool, OfBool, IsBool))
    else if tag == 4 then Some(Via(Text32(), ToString, OfString, IsString))
    else None
  }

  function ValueFormat(): Format<Value> { Tagged(TagOf, ValueArm) }

  lemma ValueSound()
    ensures Sound(ValueFormat())
  {
    forall tag: Byte ensures ArmSound(ValueArm, tag) {
      if tag == 0 { NothingSound(Null); }
      if tag == 1 {
        Signed64Sound();
        assert forall v: Value :: IsInt64(v) ==> BackAndForth(ToInt64, OfInt64, v);
        ViaSound(Signed64(), ToInt64, OfInt64, IsInt64);
      }
      if tag == 2 {
        Word64Sound();
        assert forall v: Value :: IsFloat64(v) ==> BackAndForth(ToFloat64, OfFloat64, v);
        ViaSound(Word64(), ToFloat64, OfFloat64, IsFloat64);
      }
      if tag == 3 {
        FlagSound();
        assert forall v: Value :: IsBool(v) ==> BackAndForth(ToBool, OfBool, v);
        ViaSound(Flag(), ToBool, OfBool, IsBool);
      }
      if tag == 4 {
        Text32Sound();
        assert forall v: Value :: IsString(v) ==> BackAndForth(ToString, OfString, v);
        ViaSound(Text32(), ToString, OfString, IsString);
      }
    }
    TaggedSound(TagOf, ValueArm);
  }

  // ---------- rows ----------

  /** emplace keeps the first value read for a name. */
  function RowFormat(): Format<Row> { DictFormat(ValueFormat(), Older) }

  function Entry(): Format<(Bytes, Value)> { Keyed(ValueFormat()) }

  lemma RowSound()
    ensures Sound(RowFormat())
  {
    ValueSound();
    DictSound(ValueFormat(), Older);
  }

  // ---------- the payloads ----------

  function ToInsert(p: (Signed, Row)): Option<Insert> { Some(Insert(p.0, p.1)) }
  function OfInsert(p: Insert): (Signed, Row) { (p.rowid, p.row) }
  predicate IsInsert(p: Insert) { true }

  function InsertFormat(): Format<Insert> { Via(Pair(Signed64(), RowFormat()), ToInsert, OfInsert, IsInsert) }

  function ToUpdate(p: ((Signed, Row), Row)): Option<Update> { Some(Update(p.0.0, p.0.1, p.1)) }
  function OfUpdate(p: Update): ((Signed, Row), Row) { ((p.rowid, p.updates), p.newRow) }
  predicate IsUpdate(p: Update) { true }

  function UpdateFormat(): Format<Update> {
    Via(Pair(Pair(Signed64(), RowFormat()), RowFormat()), ToUpdate, OfUpdate, IsUpdate)
  }

  /** The mark a delete leaves; xmax is written only when there is one. */
  function ToXmax(x: nat): Option<(bool, nat)> { Some((true, x)) }
  function OfXmax(p: (bool, nat)): nat { p.1 }
  predicate IsXmax(p: (bool, nat)) { p.0 }
  function MarkTag(p: (bool, nat)): Byte { FlagByte(p.0) }

  function MarkArm(tag: Byte): Option<Format<(bool, nat)>> {
    if tag != 0 then Some(Via(Word32(), ToXmax, OfXmax, IsXmax)) else Some(Nothing((false, 0)))
  }

  function ToDelete(p: (Signed, (bool, nat))): Option<Delete> { Some(Delete(p.0, p.1.0, p.1.1)) }
  function OfDelete(p: Delete): (Signed, (bool, nat)) { (p.rowid, (p.hasXmax, p.xmax)) }
  predicate IsDelete(p: Delete) { true }

  function DeleteFormat(): Format<Delete> {
    Via(Pair(Signed64(), Tagged(MarkTag, MarkArm)), ToDelete, OfDelete, IsDelete)
  }

  function ToColumn(p: (Bytes, (Byte, (bool, bool)))): Option<Column> { Some(Column(p.0, p.1.0, p.1.1.0, p.1.1.1)) }
  function OfColumn(c: Column): (Bytes, (Byte, (bool, bool))) { (c.name, (c.typeId, (c.nullable, c.primaryKey))) }
  predicate IsColumn(c: Column) { true }

  function ColumnFormat(): Format<Column> {
    Via(Pair(Text16(), Pair(Word8(), Pair(Flag(), Flag()))), ToColumn, OfColumn, IsColumn)
  }

  function CreateTableFormat(): Format<seq<Column>> { Counted(ColumnFormat()) }

  function CreateSchemaFormat(): Format<Bytes> { Text16() }

  lemma InsertSound()
    ensures Sound(InsertFormat())
  {
    Signed64Sound();
    RowSound();
    PairSound(Signed64(), RowFormat());
    assert forall p: Insert :: BackAndForth(ToInsert, OfInsert, p);
    ViaSound(Pair(Signed64(), RowFormat()), ToInsert, OfInsert, IsInsert);
  }

  lemma UpdateSound()
    ensures Sound(UpdateFormat())
  {
    Signed64Sound();
    RowSound();
    PairSound(Signed64(), RowFormat());
    PairSound(Pair(Signed64(), RowFormat()), RowFormat());
    assert forall p: Update :: BackAndForth(ToUpdate, OfUpdate, p);
    ViaSound(Pair(Pair(Signed64(), RowFormat()), RowFormat()), ToUpdate, OfUpdate, IsUpdate);
  }

  lemma MarkSound()
    ensures Sound(Tagged(MarkTag, MarkArm))
  {
    Word32Sound();
    NothingSound<(bool, nat)>((false, 0));
    assert forall p: (bool, nat) :: IsXmax(p) ==> BackAndForth(ToXmax, OfXmax, p);
    ViaSound(Word32(), ToXmax, OfXmax, IsXmax);
    forall tag: Byte ensures ArmSound(MarkArm, tag) {
      if tag == 0 { assert MarkArm(tag) == Some(Nothing<(bool, nat)>((false, 0))); }
      else { assert MarkArm(tag) == Some(Via(Word32(), ToXmax, OfXmax, IsXmax)); }
    }
    TaggedSound(MarkTag, MarkArm);
  }

  lemma DeleteSound()
    ensures Sound(DeleteFormat())
  {
    Signed64Sound();
    MarkSound();
    PairSound(Signed64(), Tagged(MarkTag, MarkArm));
    assert forall p: Delete :: BackAndForth(ToDelete, OfDelete, p);
    ViaSound(Pair(Signed64(), Tagged(MarkTag, MarkArm)), ToDelete, OfDelete, IsDelete);
  }

  lemma ColumnSound()
    ensures Sound(ColumnFormat())
  {
    Text16Sound();
    Word8Sound();
    FlagSound();
    PairSound(Flag(), Flag());
    PairSound(Word8(), Pair(Flag(), Flag()));
    PairSound(Text16(), Pair(Word8(), Pair(Flag(), Flag())));
    assert forall c: Column :: BackAndForth(ToColumn, OfColumn, c);
    ViaSound(Pair(Text16(), Pair(Word8(), Pair(Flag(), Flag()))), ToColumn, OfColumn, IsColumn);
  }

  lemma PayloadsReadBack()
    ensures ReadsBack(RowFormat()) && ReadsBack(InsertFormat()) && ReadsBack(UpdateFormat()) && ReadsBack(DeleteFormat())
    ensures ReadsBack(CreateTableFormat()) && ReadsBack(CreateSchemaFormat())
  {
    RowSound();
    SoundReadsBack(RowFormat());
    InsertSound();
    SoundReadsBack(InsertFormat());
    UpdateSound();
    SoundReadsBack(UpdateFormat());
    DeleteSound();
    SoundReadsBack(DeleteFormat());
    ColumnSound();
    CountedSound(ColumnFormat());
    SoundReadsBack(CreateTableFormat());
    Text16Sound();
    SoundReadsBack(CreateSchemaFormat());
  }

  /** Which rows fit: names below 64 KiB, fewer than 2^32 columns, strings below 4 GiB. */
  lemma RowFits(row: Row)
    ensures RowFormat().fits(row) <==>
            && Ascending(row) && |row| < 0x1_0000_0000
            && forall i | 0 <= i < |row| :: |row[i].0| < 0x1_0000 && (row[i].1.String? ==> |row[i].1.s| < 0x1_0000_0000)
  {
    DictFits(ValueFormat(), Older, row);
    forall i | 0 <= i < |row| ensures ValueFormat().fits(row[i].1) <==> (row[i].1.String? ==> |row[i].1.s| < 0x1_0000_0000) {
      ValueFits(row[i].1);
    }
  }

  lemma ValueFits(v: Value)
    ensures ValueFormat().fits(v) <==> (v.String? ==> |v.s| < 0x1_0000_0000)
  {
    TaggedFits(TagOf, ValueArm, v);
    match v
    case Null => assert ValueArm(0) == Some(Nothing(Null)) && Nothing(Null).fits(v);
    case Int64(_) =>
      ViaFits(Signed64(), ToInt64, OfInt64, IsInt64, v);
      ViaFits(Word64(), FromPattern, ToPattern, AnySigned, v.n);
    case Float64(_) => ViaFits(Word64(), ToFloat64, OfFloat64, IsFloat64, v);
    case Bool(_) =>
      ViaFits(Flag(), ToBool, OfBool, IsBool, v);
      ViaFits(Word8(), IsSet, FlagByte, AnyFlag, v.b);
    case String(_) => ViaFits(Text32(), ToString, OfString, IsString, v);
  }

  // ---------- reading, with a position that moves ----------

  class PayloadReader {
    const data: Bytes
    var pos: nat

    constructor (bytes: Bytes)
      ensures Valid() && data == bytes && Left() == bytes
    {
      data, pos := bytes, 0;
    }

    predicate Valid()
      reads this
    {
      pos <= |data|
    }

    function Left(): Bytes
      reads this
      requires Valid()
    {
      data[pos..]
    }

    method AtEnd() returns (e: bool)
      requires Valid()
      ensures e <==> Left() == []
    {
      e := pos >= |data|;
    }

    method ReadU8() returns (ok: bool, v: Byte)
      requires Valid()
      modifies this`pos
      ensures Valid() && Took(Word8(), old(Left()), ok, v, Left())
    {
      if |data| - pos < 1 { return false, 0; }
      ok, v := true, data[pos];
      pos := pos + 1;
    }

    method ReadU16() returns (ok: bool, v: nat)
      requires Valid()
      modifies this`pos
      ensures Valid() && Took(Word16(), old(Left()), ok, v, Left())
    {
      if |data| - pos < 2 { return false, 0; }
      ok, v := true, At16(data, pos);
      pos := pos + 2;
    }

    method ReadU32() returns (ok: bool, v: nat)
      requires Valid()
      modifies this`pos
      ensures Valid() && Took(Word32(), old(Left()), ok, v, Left())
    {
      if |data| - pos < 4 { return false, 0; }
      ok, v := true, At32(data, pos);
      pos := pos + 4;
    }

    method ReadU64() returns (ok: bool, v: Pattern64)
      requires Valid()
      modifies this`pos
      ensures Valid() && Took(Word64(), old(Left()), ok, v, Left())
    {
      if |data| - pos < 8 { return false, 0; }
      ok, v := true, At64(data, pos);
      pos := pos + 8;
    }

    method ReadI64() returns (ok: bool, v: Signed)
      requires Valid()
      modifies this`pos
      ensures Valid() && Took(Signed64(), old(Left()), ok, v, Left())
    {
      var u;
      ok, u := ReadU64();
      v := ToI64(u);
    }

    method ReadFlag() returns (ok: bool, v: bool)
      requires Valid()
      modifies this`pos
      ensures Valid() && Took(Flag(), old(Left()), ok, v, Left())
    {
      var b;
      ok, b := ReadU8();
      v := b != 0;
    }

    method ReadString16() returns (ok: bool, s: Bytes)
      requires Valid()
      modifies this`pos
      ensures Valid() && Took(Text16(), old(Left()), ok, s, Left())
    {
      var len;
      ok, len := ReadU16();
      if !ok || |data| - pos < len {
        TookTextNot(Word16(), old(Left()), ok, len, Left(), [], Left());
        return false, [];
      }
      TookText(Word16(), old(Left()), len, Left());
      Ahead(data, pos, len);
      s := data[pos..pos + len];
      pos := pos + len;
    }

    method ReadString32() returns (ok: bool, s: Bytes)
      requires Valid()
      modifies this`pos
      ensures Valid() && Took(Text32(), old(Left()), ok, s, Left())
    {
      var len;
      ok, len := ReadU32();
      if !ok || |data| - pos < len {
        TookTextNot(Word32(), old(Left()), ok, len, Left(), [], Left());
        return false, [];
      }
      TookText(Word32(), old(Left()), len, Left());
      Ahead(data, pos, len);
      s := data[pos..pos + len];
      pos := pos + len;
    }
  }

  /** What stands after a value's tag. */
  method DecodeArm(r: PayloadReader, tag: Byte) returns (ok: bool, v: Value)
    requires r.Valid()
    modifies r`pos
    ensures r.Valid()
    ensures if ValueArm(tag).None? then !ok else Took(ValueArm(tag).value, old(r.Left()), ok, v, r.Left())
  {
    ghost var was := r.Left();
    v, ok := Null, tag == 0;
    if tag == 1 {
      var n;
      ok, n := r.ReadI64();
      v := Int64(n);
      TookVia(Signed64(), ToInt64, OfInt64, IsInt64, was, ok, n, v, r.Left());
    } else if tag == 2 {
      var bits;
      ok, bits := r.ReadU64();
      v := Float64(bits);
      TookVia(Word64(), ToFloat64, OfFloat64, IsFloat64, was, ok, bits, v, r.Left());
    } else if tag == 3 {
      var b;
      ok, b := r.ReadFlag();
      v := Bool(b);
      TookVia(Flag(), ToBool, OfBool, IsBool, was, ok, b, v, r.Left());
    } else if tag == 4 {
      var s;
      ok, s := r.ReadString32();
      v := String(s);
      TookVia(Text32(), ToString, OfString, IsString, was, ok, s, v, r.Left());
    }
  }

  method DecodeValue(r: PayloadReader) returns (ok: bool, v: Value)
    requires r.Valid()
    modifies r`pos
    ensures r.Valid() && Took(ValueFormat(), old(r.Left()), ok, v, r.Left())
  {
    v := Null;
    var tag;
    ok, tag := r.ReadU8();
    if !ok { return; }
    ghost var mid := r.Left();
    ok, v := DecodeArm(r, tag);
    TookArm(TagOf, ValueArm, old(r.Left()), tag, mid, ok, v, r.Left());
  }

  method DecodeEntry(r: PayloadReader, ghost f: Format<(Bytes, Value)>) returns (ok: bool, entry: (Bytes, Value))
    requires r.Valid() && ReadsAs(f, Entry())
    modifies r`pos
    ensures r.Valid() && Took(f, old(r.Left()), ok, entry, r.Left())
  {
    ghost var was := r.Left();
    var key, v := [], Null;
    ok, key := r.ReadString16();
    ghost var mid, first := r.Left(), ok;
    if ok { ok, v := DecodeValue(r); }
    entry := (key, v);
    TookPair(Text16(), ValueFormat(), was, first, key, mid, ok, v, r.Left());
    TookAlike(f, Entry(), was, ok, entry, r.Left());
  }

  method DecodeEntries(r: PayloadReader, count: nat, ghost f: Format<(Bytes, Value)>)
    returns (ok: bool, row: Row, ghost seen: seq<(Bytes, Value)>)
    requires r.Valid() && ReadsAs(f, Entry())
    modifies r`pos
    ensures r.Valid() && row == Gather(seen, Older)
    ensures Many(f, count, old(r.Left())) == if ok then Some((seen, r.Left())) else None
  {
    ok, row, seen := true, [], [];
    ghost var start := r.Left();
    for i := 0 to count
      invariant r.Valid() && ok && Through(f, start, seen, r.Left()) && |seen| == i
      invariant row == Gather(seen, Older)
    {
      ghost var was := r.Left();
      var entry;
      ok, entry := DecodeEntry(r, f);
      ThroughTook(f, count, start, seen, was, ok, entry, r.Left());
      if !ok { return; }
      row := Enter(row, entry.0, entry.1, Older);
      seen := seen + [entry];
    }
    ThroughAll(f, start, seen, r.Left());
  }

  method DecodeRowFrom(r: PayloadReader) returns (ok: bool, row: Row)
    requires r.Valid()
    modifies r`pos
    ensures r.Valid() && Took(RowFormat(), old(r.Left()), ok, row, r.Left())
  {
    ghost var was, seen := r.Left(), [];
    row := [];
    var count;
    ok, count := r.ReadU32();
    ghost var start, first := r.Left(), ok;
    if ok { ok, row, seen := DecodeEntries(r, count, Entry()); }
    TookDict(ValueFormat(), Older, was, first, count, start, ok, seen, row, r.Left());
  }

  method EncodeArm(buf: Bytes, v: Value) returns (b: Bytes)
    ensures b == buf + ValueArm(TagOf(v)).value.enc(v)
  {
    b := buf;
    match v {
      case Null =>
      case Int64(n) => b := b + Put64(ToU64(n));
      case Float64(bits) => b := b + Put64(bits);
      case Bool(t) => b := b + [if t then 1 else 0];
      case String(s) =>
        b := b + Put32(|s|);
        b := b + s;
        Regroup(buf, Put32(|s|), s);
    }
    ArmBytes(v);
  }

  lemma ArmBytes(v: Value)
    ensures ValueArm(TagOf(v)).value.enc(v) ==
            match v
            case Null => []
            case Int64(n) => Put64(ToU64(n))
            case Float64(bits) => Put64(bits)
            case Bool(t) => [if t then 1 else 0]
            case String(s) => Put32(|s|) + s
  {
    match v
    case Null => assert ValueArm(0) == Some(Nothing(Null));
    case Int64(_) =>
      ViaBytes(Signed64(), ToInt64, OfInt64, IsInt64, v);
      ViaBytes(Word64(), FromPattern, ToPattern, AnySigned, v.n);
    case Float64(_) => ViaBytes(Word64(), ToFloat64, OfFloat64, IsFloat64, v);
    case Bool(_) =>
      ViaBytes(Flag(), ToBool, OfBool, IsBool, v);
      ViaBytes(Word8(), IsSet, FlagByte, AnyFlag, v.b);
    case String(_) => ViaBytes(Text32(), ToString, OfString, IsString, v);
  }

  /** A tag byte, then the value. */
  lemma ValueBytes(v: Value)
    ensures ValueFormat().enc(v) ==
            match v
            case Null => [0]
            case Int64(n) => [1] + Put64(ToU64(n))
            case Float64(bits) => [2] + Put64(bits)
            case Bool(t) => [3] + [if t then 1 else 0]
            case String(s) => [4] + (Put32(|s|) + s)
  {
    ArmBytes(v);
    TaggedBytes(TagOf, ValueArm, v);
  }

  method EncodeValue(buf: Bytes, v: Value) returns (b: Bytes)
    ensures b == buf + ValueFormat().enc(v)
  {
    b := EncodeArm(buf + [TagOf(v)], v);
    Regroup(buf, [TagOf(v)], ValueArm(TagOf(v)).value.enc(v));
  }

  method EncodeEntry(buf: Bytes, entry: (Bytes, Value), ghost f: Format<(Bytes, Value)>) returns (b: Bytes)
    requires WritesAs(f, Entry())
    ensures b == buf + f.enc(entry)
  {
    var (name, v) := entry;
    b := PutString16(buf, name);
    b := EncodeValue(b, v);
    Regroup(buf, Text16().enc(name), ValueFormat().enc(v));
    PairBytes(Text16(), ValueFormat(), name, v);
    assert EncAlike(f, Entry(), entry) && entry == (name, v);
  }

  method PutString16(buf: Bytes, s: Bytes) returns (b: Bytes)
    ensures b == buf + Text16().enc(s)
  {
    b := buf + Put16(|s|);
    b := b + s;
    Regroup(buf, Put16(|s|), s);
  }

  method EncodeRowInto(buf: Bytes, row: Row) returns (b: Bytes)
    ensures b == buf + RowFormat().enc(row)
  {
    ghost var f := Entry();
    b := EncodeEntries(buf + Put32(|row|), row, f);
    Regroup(buf, Put32(|row|), Written(f, row));
    DictBytes(ValueFormat(), Older, row);
  }

  method EncodeEntries(buf: Bytes, row: Row, ghost f: Format<(Bytes, Value)>) returns (b: Bytes)
    requires WritesAs(f, Entry())
    ensures b == buf + Written(f, row)
  {
    b := buf;
    for i := 0 to |row|
      invariant b == buf + Written(f, row[..i])
    {
      WrittenLast(f, row[..i], row[i]);
      assert row[..i] + [row[i]] == row[..i + 1];
      Regroup(buf, Written(f, row[..i]), f.enc(row[i]));
      b := EncodeEntry(b, row[i], f);
    }
    assert row[..|row|] == row;
  }

  // ---------- one payload per operation ----------

  method PutI64(buf: Bytes, v: Signed) returns (b: Bytes)
    ensures b == buf + Signed64().enc(v)
  {
    b := buf + Put64(ToU64(v));
    ViaBytes(Word64(), FromPattern, ToPattern, AnySigned, v);
  }

  method PutFlag(buf: Bytes, v: bool) returns (b: Bytes)
    ensures b == buf + Flag().enc(v)
  {
    b := buf + [if v then 1 else 0];
    ViaBytes(Word8(), IsSet, FlagByte, AnyFlag, v);
  }

  method EncodeInsert(p: Insert) returns (b: Bytes)
    ensures b == InsertFormat().enc(p)
  {
    b := PutI64([], p.rowid);
    b := EncodeRowInto(b, p.row);
    InsertBytes(p);
  }

  lemma InsertBytes(p: Insert)
    ensures InsertFormat().enc(p) == [] + Signed64().enc(p.rowid) + RowFormat().enc(p.row)
  {
    ViaBytes(Pair(Signed64(), RowFormat()), ToInsert, OfInsert, IsInsert, p);
    PairBytes(Signed64(), RowFormat(), p.rowid, p.row);
    assert [] + Signed64().enc(p.rowid) == Signed64().enc(p.rowid);
  }

  method DecodeInsert(bytes: Bytes) returns (out: Option<Insert>)
    ensures out == DecodeAll(InsertFormat(), bytes)
  {
    var r := new PayloadReader(bytes);
    var ok, rowid, row := DecodeRowIdAndRow(r);
    out := if ok && r.pos >= |bytes| then Some(Insert(rowid, row)) else None;
    TookVia(Pair(Signed64(), RowFormat()), ToInsert, OfInsert, IsInsert, bytes, ok, (rowid, row), Insert(rowid, row), r.Left());
    TookAll(InsertFormat(), bytes, ok, Insert(rowid, row), r.Left());
  }

  method DecodeRowIdAndRow(r: PayloadReader) returns (ok: bool, rowid: Signed, row: Row)
    requires r.Valid()
    modifies r`pos
    ensures r.Valid() && Took(Pair(Signed64(), RowFormat()), old(r.Left()), ok, (rowid, row), r.Left())
  {
    ghost var was := r.Left();
    row := [];
    ok, rowid := r.ReadI64();
    ghost var mid, first := r.Left(), ok;
    if ok { ok, row := DecodeRowFrom(r); }
    TookPair(Signed64(), RowFormat(), was, first, rowid, mid, ok, row, r.Left());
  }

  method EncodeUpdate(p: Update) returns (b: Bytes)
    ensures b == UpdateFormat().enc(p)
  {
    b := EncodeInsert(Insert(p.rowid, p.updates));
    b := EncodeRowInto(b, p.newRow);
    UpdateBytes(p);
  }

  lemma UpdateBytes(p: Update)
    ensures UpdateFormat().enc(p) == InsertFormat().enc(Insert(p.rowid, p.updates)) + RowFormat().enc(p.newRow)
  {
    var f := Pair(Signed64(), RowFormat());
    ViaBytes(Pair(f, RowFormat()), ToUpdate, OfUpdate, IsUpdate, p);
    PairBytes(f, RowFormat(), (p.rowid, p.updates), p.newRow);
    ViaBytes(f, ToInsert, OfInsert, IsInsert, Insert(p.rowid, p.updates));
  }

  method DecodeUpdate(bytes: Bytes) returns (out: Option<Update>)
    ensures out == DecodeAll(UpdateFormat(), bytes)
  {
    var r := new PayloadReader(bytes);
    var ok, rowid, updates := DecodeRowIdAndRow(r);
    ghost var mid, first := r.Left(), ok;
    var newRow := [];
    if ok { ok, newRow := DecodeRowFrom(r); }
    var p := Update(rowid, updates, newRow);
    out := if ok && r.pos >= |bytes| then Some(p) else None;
    ghost var f := Pair(Signed64(), RowFormat());
    TookPair(f, RowFormat(), bytes, first, (rowid, updates), mid, ok, newRow, r.Left());
    TookVia(Pair(f, RowFormat()), ToUpdate, OfUpdate, IsUpdate, bytes, ok, ((rowid, updates), newRow), p, r.Left());
    TookAll(UpdateFormat(), bytes, ok, p, r.Left());
  }

  method EncodeDelete(p: Delete) returns (b: Bytes)
    ensures b == DeleteFormat().enc(p)
  {
    b := PutI64([], p.rowid);
    b := b + [if p.hasXmax then 1 else 0];
    if p.hasXmax { b := b + Put32(p.xmax); }
    DeleteBytes(p);
    if !p.hasXmax { assert b + [] == b; }
  }

  lemma DeleteBytes(p: Delete)
    ensures DeleteFormat().enc(p) ==
            [] + Signed64().enc(p.rowid) + [if p.hasXmax then 1 else 0] + if p.hasXmax then Put32(p.xmax) else []
  {
    var mark := Tagged(MarkTag, MarkArm);
    var m := (p.hasXmax, p.xmax);
    ViaBytes(Pair(Signed64(), mark), ToDelete, OfDelete, IsDelete, p);
    PairBytes(Signed64(), mark, p.rowid, m);
    MarkBytes(m);
    var rest: Bytes := if p.hasXmax then Put32(p.xmax) else [];
    Regroup(Signed64().enc(p.rowid), [FlagByte(p.hasXmax)], rest);
    assert [] + Signed64().enc(p.rowid) == Signed64().enc(p.rowid);
  }

  lemma MarkBytes(m: (bool, nat))
    ensures Tagged(MarkTag, MarkArm).enc(m) == [FlagByte(m.0)] + if m.0 then Put32(m.1) else []
  {
    TaggedBytes(MarkTag, MarkArm, m);
    if m.0 {
      ViaBytes(Word32(), ToXmax, OfXmax, IsXmax, m);
    } else {
      assert MarkArm(0) == Some(Nothing<(bool, nat)>((false, 0))) && Nothing<(bool, nat)>((false, 0)).enc(m) == [];
    }
  }

  /** Which delete payloads fit: one without xmax carries none. */
  lemma DeleteFits(p: Delete)
    ensures DeleteFormat().fits(p) <==> if p.hasXmax then p.xmax < 0x1_0000_0000 else p.xmax == 0
  {
    var m := (p.hasXmax, p.xmax);
    ViaFits(Pair(Signed64(), Tagged(MarkTag, MarkArm)), ToDelete, OfDelete, IsDelete, p);
    ViaFits(Word64(), FromPattern, ToPattern, AnySigned, p.rowid);
    TaggedFits(MarkTag, MarkArm, m);
    if p.hasXmax {
      ViaFits(Word32(), ToXmax, OfXmax, IsXmax, m);
    } else {
      assert MarkArm(0) == Some(Nothing<(bool, nat)>((false, 0))) && (Nothing<(bool, nat)>((false, 0)).fits(m) <==> p.xmax == 0);
    }
  }

  method DecodeMark(r: PayloadReader) returns (ok: bool, m: (bool, nat))
    requires r.Valid()
    modifies r`pos
    ensures r.Valid() && Took(Tagged(MarkTag, MarkArm), old(r.Left()), ok, m, r.Left())
  {
    ghost var was := r.Left();
    m := (false, 0);
    var flag;
    ok, flag := r.ReadU8();
    if !ok { return; }
    ghost var mid := r.Left();
    if flag != 0 {
      var xmax;
      ok, xmax := r.ReadU32();
      m := (true, xmax);
      TookVia(Word32(), ToXmax, OfXmax, IsXmax, mid, ok, xmax, m, r.Left());
    } else {
      assert MarkArm(0) == Some(Nothing<(bool, nat)>((false, 0)));
    }
    TookArm(MarkTag, MarkArm, was, flag, mid, ok, m, r.Left());
  }

  method DecodeDelete(bytes: Bytes) returns (out: Option<Delete>)
    ensures out == DecodeAll(DeleteFormat(), bytes)
  {
    var r := new PayloadReader(bytes);
    var ok, rowid := r.ReadI64();
    ghost var mid, first := r.Left(), ok;
    var m := (false, 0);
    if ok { ok, m := DecodeMark(r); }
    var p := Delete(rowid, m.0, m.1);
    out := if ok && r.pos >= |bytes| then Some(p) else None;
    ghost var mark := Tagged(MarkTag, MarkArm);
    TookPair(Signed64(), mark, bytes, first, rowid, mid, ok, m, r.Left());
    TookVia(Pair(Signed64(), mark), ToDelete, OfDelete, IsDelete, bytes, ok, (rowid, m), p, r.Left());
    TookAll(DeleteFormat(), bytes, ok, p, r.Left());
  }

  method EncodeColumn(buf: Bytes, c: Column, ghost f: Format<Column>) returns (b: Bytes)
    requires WritesAs(f, ColumnFormat())
    ensures b == buf + f.enc(c)
  {
    b := PutString16(buf, c.name);
    b := b + [c.typeId];
    b := PutFlag(b, c.nullable);
    b := PutFlag(b, c.primaryKey);
    ColumnBytes(buf, c);
    assert EncAlike(f, ColumnFormat(), c);
  }

  lemma ColumnBytes(buf: Bytes, c: Column)
    ensures buf + ColumnFormat().enc(c) ==
            buf + Text16().enc(c.name) + [c.typeId] + Flag().enc(c.nullable) + Flag().enc(c.primaryKey)
  {
    var n, t, x, y := Text16().enc(c.name), [c.typeId], Flag().enc(c.nullable), Flag().enc(c.primaryKey);
    ViaBytes(Pair(Text16(), Pair(Word8(), Pair(Flag(), Flag()))), ToColumn, OfColumn, IsColumn, c);
    PairBytes(Text16(), Pair(Word8(), Pair(Flag(), Flag())), c.name, (c.typeId, (c.nullable, c.primaryKey)));
    PairBytes(Word8(), Pair(Flag(), Flag()), c.typeId, (c.nullable, c.primaryKey));
    PairBytes(Flag(), Flag(), c.nullable, c.primaryKey);
    assert ColumnFormat().enc(c) == n + (t + (x + y));
    FourParts(buf, n, t, x, y);
  }

  lemma FourParts(buf: Bytes, n: Bytes, t: Bytes, x: Bytes, y: Bytes)
    ensures buf + (n + (t + (x + y))) == buf + n + t + x + y
  {
  }

  method DecodeColumn(r: PayloadReader, ghost f: Format<Column>) returns (ok: bool, c: Column)
    requires r.Valid() && ReadsAs(f, ColumnFormat())
    modifies r`pos
    ensures r.Valid() && Took(f, old(r.Left()), ok, c, r.Left())
  {
    ghost var was := r.Left();
    var name;
    ok, name := r.ReadString16();
    ghost var mid, first := r.Left(), ok;
    var typeId, nullable, pk := 0, false, false;
    if ok { ok, typeId, nullable, pk := DecodeColumnKind(r); }
    c := Column(name, typeId, nullable, pk);
    ghost var kind := Pair(Word8(), Pair(Flag(), Flag()));
    TookPair(Text16(), kind, was, first, name, mid, ok, (typeId, (nullable, pk)), r.Left());
    TookVia(Pair(Text16(), kind), ToColumn, OfColumn, IsColumn, was, ok, (name, (typeId, (nullable, pk))), c, r.Left());
    TookAlike(f, ColumnFormat(), was, ok, c, r.Left());
  }

  method DecodeColumnKind(r: PayloadReader) returns (ok: bool, typeId: Byte, nullable: bool, pk: bool)
    requires r.Valid()
    modifies r`pos
    ensures r.Valid() && Took(Pair(Word8(), Pair(Flag(), Flag())), old(r.Left()), ok, (typeId, (nullable, pk)), r.Left())
  {
    ghost var was := r.Left();
    nullable, pk := false, false;
    ok, typeId := r.ReadU8();
    ghost var mid, first := r.Left(), ok;
    if ok { ok, nullable := r.ReadFlag(); }
    ghost var last, second := r.Left(), ok;
    if ok { ok, pk := r.ReadFlag(); }
    if first { TookPair(Flag(), Flag(), mid, second, nullable, last, ok, pk, r.Left()); }
    TookPair(Word8(), Pair(Flag(), Flag()), was, first, typeId, mid, ok, (nullable, pk), r.Left());
  }

  method DecodeColumns(r: PayloadReader, ghost f: Format<Column>) returns (ok: bool, columns: seq<Column>)
    requires r.Valid() && ReadsAs(f, ColumnFormat())
    modifies r`pos
    ensures r.Valid() && Took(Counted(f), old(r.Left()), ok, columns, r.Left())
  {
    columns := [];
    ghost var was := r.Left();
    var count;
    ok, count := r.ReadU32();
    ghost var start, first := r.Left(), ok;
    if ok { ok, columns := DecodeColumnList(r, count, f); }
    TookList(Word32(), f, was, first, count, start, ok, columns, r.Left());
  }

  method DecodeColumnList(r: PayloadReader, count: nat, ghost f: Format<Column>) returns (ok: bool, columns: seq<Column>)
    requires r.Valid() && ReadsAs(f, ColumnFormat())
    modifies r`pos
    ensures r.Valid() && Many(f, count, old(r.Left())) == if ok then Some((columns, r.Left())) else None
  {
    ok, columns := true, [];
    ghost var start := r.Left();
    for i := 0 to count
      invariant r.Valid() && ok && Through(f, start, columns, r.Left()) && |columns| == i
    {
      ghost var was := r.Left();
      var c;
      ok, c := DecodeColumn(r, f);
      ThroughTook(f, count, start, columns, was, ok, c, r.Left());
      if !ok { return; }
      columns := columns + [c];
    }
    ThroughAll(f, start, columns, r.Left());
  }

  method EncodeColumns(buf: Bytes, columns: seq<Column>, ghost f: Format<Column>) returns (b: Bytes)
    requires WritesAs(f, ColumnFormat())
    ensures b == buf + Counted(f).enc(columns)
  {
    b := buf + Put32(|columns|);
    ghost var head := b;
    for i := 0 to |columns|
      invariant b == head + Written(f, columns[..i])
    {
      WrittenLast(f, columns[..i], columns[i]);
      assert columns[..i] + [columns[i]] == columns[..i + 1];
      Regroup(head, Written(f, columns[..i]), f.enc(columns[i]));
      b := EncodeColumn(b, columns[i], f);
    }
    assert columns[..|columns|] == columns;
    Regroup(buf, Put32(|columns|), Written(f, columns));
    ListBytes(Word32(), f, columns);
  }

  method EncodeCreateTable(columns: seq<Column>) returns (b: Bytes)
    ensures b == CreateTableFormat().enc(columns)
  {
    b := EncodeColumns([], columns, ColumnFormat());
  }

  method DecodeCreateTable(bytes: Bytes) returns (out: Option<seq<Column>>)
    ensures out == DecodeAll(CreateTableFormat(), bytes)
  {
    var r := new PayloadReader(bytes);
    var ok, columns := DecodeColumns(r, ColumnFormat());
    out := if ok && r.pos >= |bytes| then Some(columns) else None;
    TookAll(CreateTableFormat(), bytes, ok, columns, r.Left());
  }

  method EncodeCreateSchema(schema: Bytes) returns (b: Bytes)
    ensures b == CreateSchemaFormat().enc(schema)
  {
    b := PutString16([], schema);
  }

  method DecodeCreateSchema(bytes: Bytes) returns (out: Option<Bytes>)
    ensures out == DecodeAll(CreateSchemaFormat(), bytes)
  {
    var r := new PayloadReader(bytes);
    var ok, schema := r.ReadString16();
    out := if ok && r.pos >= |bytes| then Some(schema) else None;
    TookAll(CreateSchemaFormat(), bytes, ok, schema, r.Left());
  }
}
